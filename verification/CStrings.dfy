/** The string.h routines that the regular-expression code relies on. */
module CStrings {
  import opened RegexSyntax
  import opened RegexSemantics

  /** index: the first position at or after i that holds c, or -1. */
  method StrChr(s: Text, i: nat, c: Ch) returns (k: int)
    requires i <= |s|
    ensures k == -1 ==> c !in s[i..]
    ensures k != -1 ==> i <= k < |s| && s[k] == c && c !in s[i..k]
  {
    k := i;
    while At(s, k) != 0 && At(s, k) != c
      invariant i <= k <= |s| && c !in s[i..k]
      decreases |s| - k
    {
      assert s[i..k + 1] == s[i..k] + [s[k]];
      k := k + 1;
    }
    if At(s, k) == 0 {
      k := -1;
    }
  }

  /** compare: text t stands in s at i. */
  method Compare(s: Text, i: nat, t: Text) returns (same: bool)
    requires i <= |s|
    ensures same == StandsAt(t, s, i)
  {
    var k := 0;
    while At(s, i + k) != 0 && At(t, k) != 0
      invariant k <= |t| && i + k <= |s| && s[i..i + k] == t[..k]
      decreases |t| - k
    {
      if s[i + k] != t[k] {
        assert i + |t| <= |s| ==> s[i..i + |t|][k] != t[k];
        return false;
      }
      assert s[i..i + k + 1] == s[i..i + k] + [s[i + k]];
      k := k + 1;
    }
    same := At(t, k) == 0;
    assert same ==> t[..k] == t;
  }

  lemma {:induction false} StandsFromStep(t: Text, s: Text, i: nat)
    requires i < |s|
    ensures StandsFrom(t, s, i) <==> StandsAt(t, s, i) || StandsFrom(t, s, i + 1)
  {
    if StandsFrom(t, s, i + 1) {
      StandsFromLength(t, s, i + 1);
    }
  }

  lemma {:induction false} StandsFirst(t: Text, s: Text, k: nat)
    ensures StandsAt(t, s, k) && t != [] ==> At(s, k) == At(t, 0)
  {
    if StandsAt(t, s, k) && t != [] {
      assert s[k..k + |t|][0] == t[0];
    }
  }

  /** strstr: whether t stands in s at i or later.  An empty text is never found. */
  method StrStr(s: Text, i: nat, t: Text) returns (found: bool)
    requires i <= |s|
    ensures found == (t != [] && StandsFrom(t, s, i))
  {
    var k := i;
    while At(s, k) != 0
      invariant i <= k <= |s| && (t != [] ==> StandsFrom(t, s, i) == StandsFrom(t, s, k))
      decreases |s| - k
    {
      StandsFromStep(t, s, k);
      if At(s, k) == At(t, 0) {
        found := Compare(s, k, t);
        if found {
          return;
        }
      } else {
        StandsFirst(t, s, k);
      }
      k := k + 1;
    }
    found := false;
  }

  /** strcspn: the length of the longest stretch from i on that avoids the characters of t. */
  method StrCSpn(s: Text, i: nat, t: Text) returns (n: nat)
    requires i <= |s|
    ensures i + n <= |s| && (forall k :: i <= k < i + n ==> s[k] !in t)
    ensures i + n == |s| || s[i + n] in t
  {
    n := 0;
    while At(s, i + n) != 0
      invariant i + n <= |s| && forall k :: i <= k < i + n ==> s[k] !in t
      decreases |s| - i - n
    {
      var k := StrChr(t, 0, s[i + n]);
      if k != -1 {
        return;
      }
      assert t[0..] == t;
      n := n + 1;
    }
  }

  /** strspn: the length of the longest stretch from i on made of characters of t. */
  method StrSpn(s: Text, i: nat, t: Text) returns (n: nat)
    requires i <= |s|
    ensures i + n <= |s| && (forall k :: i <= k < i + n ==> s[k] in t)
    ensures i + n == |s| || s[i + n] !in t
  {
    n := 0;
    while At(s, i + n) != 0
      invariant i + n <= |s| && forall k :: i <= k < i + n ==> s[k] in t
      decreases |s| - i - n
    {
      var k := StrChr(t, 0, s[i + n]);
      if k == -1 {
        assert t[0..] == t;
        return;
      }
      n := n + 1;
    }
  }

  /** memcpy, within one array. */
  method MemCpy(a: array<int>, dst: nat, src: nat, n: nat)
    requires dst + n <= a.Length && src + n <= a.Length && (dst + n <= src || src + n <= dst || src == dst)
    modifies a
    ensures a[..] == old(a[..dst]) + old(a[src..src + n]) + old(a[dst + n..])
  {
    var k := 0;
    while k < n
      invariant k <= n
      invariant forall x :: 0 <= x < a.Length ==> a[x] == old(if dst <= x < dst + k then a[x - dst + src] else a[x])
    {
      a[dst + k] := a[src + k];
      k := k + 1;
    }
  }

  /** memmove: the destination ends up with what the source held, even if they overlap. */
  method MemMove(a: array<int>, dst: nat, src: nat, n: nat)
    requires dst + n <= a.Length && src + n <= a.Length
    modifies a
    ensures a[..] == old(a[..dst]) + old(a[src..src + n]) + old(a[dst + n..])
  {
    if src == dst || n == 0 {
      assert a[..] == a[..dst] + a[dst..dst + n] + a[dst + n..];
      return;
    }
    if dst > src && dst - src < n {
      MoveDown(a, dst, src, n);
      return;
    }
    if src > dst && src - dst < n {
      MoveUp(a, dst, src, n);
      return;
    }
    MemCpy(a, dst, src, n);
  }

  lemma {:induction false} MovedShape(was: seq<int>, now: seq<int>, dst: nat, src: nat, n: nat)
    requires |now| == |was| && dst + n <= |was| && src + n <= |was|
    requires forall x :: 0 <= x < |was| ==> now[x] == MovedAt(was, dst, src, n, x)
    ensures now == was[..dst] + was[src..src + n] + was[dst + n..]
  {
    var r := was[..dst] + was[src..src + n] + was[dst + n..];
    forall x | 0 <= x < |was|
      ensures now[x] == r[x]
    {
      assert now[x] == MovedAt(was, dst, src, n, x);
    }
  }

  ghost function MovedAt(was: seq<int>, dst: nat, src: nat, n: nat, x: nat): int
    requires dst + n <= |was| && src + n <= |was| && x < |was|
  {
    if dst <= x < dst + n then was[x - dst + src] else was[x]
  }

  /** memmove's loop from the last cell to the first, for a destination above the source. */
  method MoveDown(a: array<int>, dst: nat, src: nat, n: nat)
    requires dst + n <= a.Length && src < dst
    modifies a
    ensures a[..] == old(a[..])[..dst] + old(a[..])[src..src + n] + old(a[..])[dst + n..]
  {
    ghost var was := a[..];
    var i := n - 1;
    while i >= 0
      invariant -1 <= i < n
      invariant forall x :: 0 <= x < a.Length ==> a[x] == old(if dst + i < x < dst + n then a[x - dst + src] else a[x])
      decreases i
    {
      a[dst + i] := a[src + i];
      i := i - 1;
    }
    MovedShape(was, a[..], dst, src, n);
  }

  /** memmove's loop from the first cell to the last, for a destination below the source. */
  method MoveUp(a: array<int>, dst: nat, src: nat, n: nat)
    requires src + n <= a.Length && dst < src
    modifies a
    ensures a[..] == old(a[..])[..dst] + old(a[..])[src..src + n] + old(a[..])[dst + n..]
  {
    ghost var was := a[..];
    var i := 0;
    while i < n
      invariant 0 <= i <= n
      invariant forall x :: 0 <= x < a.Length ==> a[x] == old(if dst <= x < dst + i then a[x - dst + src] else a[x])
    {
      a[dst + i] := a[src + i];
      i := i + 1;
    }
    MovedShape(was, a[..], dst, src, n);
  }
}
