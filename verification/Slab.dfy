/** The kernel heap.

    A block is a header of six words followed by its data.  `hdr` maps the address of each
    header to its fields; addresses are positive and 0 is NULL.  The ghost field `blocks` lists
    the blocks from the first one to `base`, and `home` maps every word of every page the heap
    has obtained to the block it lies in: that both directions agree is what it means for
    the blocks to tile the pages.
 */
module Slab {
  import P = Pages

  const NULL: int := 0
  const PAGE_LEN: nat := 1024
  /** The header, without the one data word that the structure declares. */
  const HEADER: nat := 6

  datatype Header = Header(size: nat, next: int, prev: int, free: bool, ptr: int)

  type Heap = map<int, Header>

  function Align4(x: nat): (r: nat)
    ensures r % 4 == 0 && x <= r < x + 4
  {
    (x - 1) / 4 * 4 + 4
  }

  function End(h: Heap, b: int): int
    requires b in h
  {
    b + HEADER + h[b].size
  }

  // ---------- The invariant ----------

  ghost predicate Distinct(bs: seq<int>) {
    forall i, j :: 0 <= i < j < |bs| ==> bs[i] != bs[j]
  }

  ghost predicate LinkedAt(h: Heap, bs: seq<int>, i: nat)
    requires i < |bs|
  {
    && bs[i] in h && bs[i] > NULL && h[bs[i]].ptr == bs[i] + HEADER
    && h[bs[i]].next == (if i + 1 < |bs| then bs[i + 1] else NULL)
    && h[bs[i]].prev == (if i > 0 then bs[i - 1] else NULL)
  }

  /** The headers are those of the blocks in bs, linked in that order, with base the last one. */
  ghost predicate Listed(h: Heap, bs: seq<int>, base: int) {
    && Distinct(bs) && (forall b :: b in h <==> b in bs)
    && base == (if bs == [] then NULL else bs[|bs| - 1])
    && forall i :: 0 <= i < |bs| ==> LinkedAt(h, bs, i)
  }

  /** Every word has exactly one block, and every block all its words. */
  ghost predicate Tiled(h: Heap, home: map<int, int>) {
    && (forall a :: a in home ==> home[a] in h && home[a] <= a < End(h, home[a]))
    && forall b, a :: b in h && b <= a < End(h, b) ==> a in home && home[a] == b
  }

  ghost predicate InHeap(h: Heap, bs: seq<int>) {
    forall i :: 0 <= i < |bs| ==> bs[i] in h
  }

  /** The words the blocks take up, headers included. */
  ghost function Total(h: Heap, bs: seq<int>): nat
    requires InHeap(h, bs)
  {
    if bs == [] then 0 else h[bs[0]].size + HEADER + Total(h, bs[1..])
  }

  /** The live allocations: block and size. */
  ghost function Live(h: Heap): map<int, nat> {
    map b | b in h && !h[b].free :: h[b].size
  }

  /** What the tiling means for two blocks. */
  lemma {:induction false} BlocksApart(h: Heap, home: map<int, int>, b: int, c: int)
    requires Tiled(h, home) && b in h && c in h && b != c
    ensures End(h, b) <= c || End(h, c) <= b
  {
    if b < c < End(h, b) {
      assert home[c] == b;
    } else if c < b < End(h, c) {
      assert home[b] == c;
    }
  }

  lemma {:induction false} TotalFrame(h: Heap, k: Heap, bs: seq<int>)
    requires forall i :: 0 <= i < |bs| ==> bs[i] in h && bs[i] in k && h[bs[i]].size == k[bs[i]].size
    ensures Total(h, bs) == Total(k, bs)
    decreases |bs|
  {
    if bs != [] {
      TotalFrame(h, k, bs[1..]);
    }
  }

  // ---------- Splitting ----------

  /** Where split_block puts the new header: the last s words of b are its data. */
  function SplitAt(h: Heap, b: int, s: nat): int
    requires b in h
  {
    End(h, b) - s - HEADER
  }

  function SetPrev(h: Heap, b: int, v: int): Heap
    requires b == NULL || b in h
  {
    if b == NULL then h else h[b := h[b].(prev := v)]
  }

  function SplitHeap(h: Heap, b: int, s: nat): Heap
    requires b in h && h[b].size >= s + HEADER && (h[b].next == NULL || h[b].next in h)
  {
    var n := SplitAt(h, b, s);
    SetPrev(h[n := Header(s, h[b].next, b, true, n + HEADER)][b := h[b].(size := h[b].size - s - HEADER, next := n)], h[b].next, n)
  }

  /** The words from lo to hi move to block b. */
  ghost function Rehome(home: map<int, int>, lo: int, hi: int, b: int): map<int, int> {
    map a | a in home :: if lo <= a < hi then b else home[a]
  }

  function Inserted(bs: seq<int>, i: nat, n: int): (r: seq<int>)
    requires i <= |bs|
    ensures |r| == |bs| + 1 && forall k :: 0 <= k < |r| ==> r[k] == if k < i then bs[k] else if k == i then n else bs[k - 1]
  {
    bs[..i] + [n] + bs[i..]
  }

  lemma {:induction false} InsertedAt(bs: seq<int>, i: nat, n: int, k: nat)
    requires i <= |bs| && k <= |bs|
    ensures |Inserted(bs, i, n)| == |bs| + 1
    ensures Inserted(bs, i, n)[k] == if k < i then bs[k] else if k == i then n else bs[k - 1]
  {
  }

  lemma {:induction false} NextInHeap(h: Heap, bs: seq<int>, base: int, i: nat)
    requires Listed(h, bs, base) && i < |bs|
    ensures bs[i] in h && (h[bs[i]].next == NULL || h[bs[i]].next in h) && (h[bs[i]].prev == NULL || h[bs[i]].prev in h)
    ensures h[bs[i]].next == (if i + 1 < |bs| then bs[i + 1] else NULL) && bs[i] > NULL && h[bs[i]].ptr == bs[i] + HEADER
    ensures h[bs[i]].prev == (if i > 0 then bs[i - 1] else NULL)
  {
    assert LinkedAt(h, bs, i);
  }

  lemma {:induction false} SplitFresh(h: Heap, home: map<int, int>, b: int, s: nat)
    requires Tiled(h, home) && b in h && h[b].size >= s + HEADER
    ensures SplitAt(h, b, s) !in h && b < SplitAt(h, b, s)
  {
    var n := SplitAt(h, b, s);
    assert home[n] == b;
    if n in h {
      BlocksApart(h, home, b, n);
    }
  }

  /** The fields of the header at c after a split. */
  lemma {:induction false} SplitFields(h: Heap, b: int, s: nat, c: int)
    requires b in h && h[b].size >= s + HEADER && (h[b].next == NULL || h[b].next in h) && h[b].next != b
    requires SplitAt(h, b, s) !in h
    ensures var n, k := SplitAt(h, b, s), SplitHeap(h, b, s);
      && (c in k <==> c in h || c == n)
      && (c in k ==>
        k[c] == if c == n then Header(s, h[b].next, b, true, n + HEADER)
                else if c == b then h[b].(size := h[b].size - s - HEADER, next := n)
                else if c == h[b].next && c != NULL then h[c].(prev := n)
                else h[c])
  {
  }

  lemma {:induction false} SplitLinked(h: Heap, bs: seq<int>, base: int, i: nat, s: nat, j: nat)
    requires Listed(h, bs, base) && i < |bs| && bs[i] in h && h[bs[i]].size >= s + HEADER && j <= |bs|
    requires h[bs[i]].next == NULL || h[bs[i]].next in h
    requires SplitAt(h, bs[i], s) !in h && bs[i] < SplitAt(h, bs[i], s)
    ensures LinkedAt(SplitHeap(h, bs[i], s), Inserted(bs, i + 1, SplitAt(h, bs[i], s)), j)
  {
    hide SplitHeap, SplitAt, Inserted;
    var n := SplitAt(h, bs[i], s);
    NextInHeap(h, bs, base, i);
    var j' := if j <= i then j else j - 1;
    InsertedAt(bs, i + 1, n, j);
    if j > 0 {
      InsertedAt(bs, i + 1, n, j - 1);
    }
    if j < |bs| {
      InsertedAt(bs, i + 1, n, j + 1);
    }
    assert LinkedAt(h, bs, j');
    assert j' != i ==> bs[j'] != bs[i];
    assert i + 1 < |bs| && j' != i + 1 ==> bs[j'] != bs[i + 1];
    SplitFields(h, bs[i], s, Inserted(bs, i + 1, n)[j]);
  }

  lemma {:induction false} SplitListed(h: Heap, bs: seq<int>, base: int, i: nat, s: nat)
    requires Listed(h, bs, base) && i < |bs| && bs[i] in h && h[bs[i]].size >= s + HEADER
    requires h[bs[i]].next == NULL || h[bs[i]].next in h
    requires SplitAt(h, bs[i], s) !in h && bs[i] < SplitAt(h, bs[i], s)
    ensures var n := SplitAt(h, bs[i], s);
      Listed(SplitHeap(h, bs[i], s), Inserted(bs, i + 1, n), if bs[i] == base then n else base)
  {
    hide SplitHeap, SplitAt, Inserted, LinkedAt;
    var n := SplitAt(h, bs[i], s);
    var k, cs := SplitHeap(h, bs[i], s), Inserted(bs, i + 1, n);
    forall j | 0 <= j < |cs|
      ensures LinkedAt(k, cs, j)
    {
      SplitLinked(h, bs, base, i, s, j);
    }
    NextInHeap(h, bs, base, i);
    InsertedMembers(bs, i + 1, n);
    forall c
      ensures c in k <==> c in h || c == n
    {
      SplitFields(h, bs[i], s, c);
    }
  }

  lemma {:induction false} InsertedMembers(bs: seq<int>, i: nat, n: int)
    requires i <= |bs| && Distinct(bs) && n !in bs
    ensures forall b :: b in Inserted(bs, i, n) <==> b == n || b in bs
    ensures Distinct(Inserted(bs, i, n))
  {
  }

  lemma {:induction false} SplitTiled(h: Heap, home: map<int, int>, b: int, s: nat)
    requires Tiled(h, home) && b in h && h[b].size >= s + HEADER && (h[b].next == NULL || h[b].next in h)
    requires SplitAt(h, b, s) !in h && b < SplitAt(h, b, s) && h[b].next != b
    ensures Tiled(SplitHeap(h, b, s), Rehome(home, SplitAt(h, b, s), End(h, b), SplitAt(h, b, s)))
  {
    hide SplitHeap;
    var n := SplitAt(h, b, s);
    var k, home' := SplitHeap(h, b, s), Rehome(home, n, End(h, b), n);
    forall c, a | c in k && c <= a < End(k, c)
      ensures a in home' && home'[a] == c
    {
      SplitFields(h, b, s, c);
      assert c != n ==> c <= a < End(h, c);
      assert c == n ==> b <= a < End(h, b);
    }
    forall a | a in home'
      ensures home'[a] in k && home'[a] <= a < End(k, home'[a])
    {
      SplitFields(h, b, s, home'[a]);
      assert home[a] in h && home[a] <= a < End(h, home[a]);
    }
  }

  /** In k, block n follows bs[i] and takes its words, header included, from it. */
  lemma {:induction false} TotalInsert(h: Heap, k: Heap, bs: seq<int>, i: nat, n: int)
    requires i < |bs| && Distinct(bs) && n in k && n !in bs
    requires forall j :: 0 <= j < |bs| ==> bs[j] in h && bs[j] in k && (j != i ==> h[bs[j]].size == k[bs[j]].size)
    requires h[bs[i]].size == k[bs[i]].size + HEADER + k[n].size
    ensures InHeap(k, Inserted(bs, i + 1, n))
    ensures Total(k, Inserted(bs, i + 1, n)) == Total(h, bs)
    decreases i
  {
    var cs := Inserted(bs, i + 1, n);
    if i == 0 {
      assert cs[1..] == [n] + bs[1..] && cs[1..][1..] == bs[1..];
      TotalFrame(h, k, bs[1..]);
    } else {
      assert cs[1..] == Inserted(bs[1..], i, n);
      TotalInsert(h, k, bs[1..], i - 1, n);
    }
  }

  /** A split conserves the words, and the new block is free like the old one. */
  lemma {:induction false} SplitConserves(h: Heap, bs: seq<int>, base: int, i: nat, s: nat)
    requires Listed(h, bs, base) && i < |bs| && bs[i] in h && h[bs[i]].size >= s + HEADER && h[bs[i]].free
    requires h[bs[i]].next == NULL || h[bs[i]].next in h
    requires SplitAt(h, bs[i], s) !in h && bs[i] < SplitAt(h, bs[i], s)
    requires InHeap(h, bs)
    ensures var n, k := SplitAt(h, bs[i], s), SplitHeap(h, bs[i], s);
      InHeap(k, Inserted(bs, i + 1, n)) && Total(k, Inserted(bs, i + 1, n)) == Total(h, bs) && Live(k) == Live(h)
  {
    hide SplitHeap, LinkedAt, SplitAt, Total;
    var b, n, k := bs[i], SplitAt(h, bs[i], s), SplitHeap(h, bs[i], s);
    NextInHeap(h, bs, base, i);
    SplitFields(h, b, s, n);
    forall c
      ensures c in k <==> c in h || c == n
      ensures c in h && c != n ==> c in k && k[c].free == h[c].free && k[c].size == if c == b then h[b].size - s - HEADER else h[c].size
    {
      SplitFields(h, b, s, c);
    }
    TotalInsert(h, k, bs, i, n);
  }

  // ---------- Fusing ----------

  /** Block b swallows the block that follows it. */
  function FuseHeap(h: Heap, b: int): Heap
    requires Fusable(h, b)
  {
    var c := h[b].next;
    SetPrev((h - {c})[b := h[b].(size := h[b].size + HEADER + h[c].size, next := h[c].next)], h[c].next, b)
  }

  lemma {:induction false} FuseFields(h: Heap, b: int, x: int)
    requires Fusable(h, b)
    ensures var c, k := h[b].next, FuseHeap(h, b);
      && (x in k <==> x in h && x != c)
      && (x in k ==>
        k[x] == if x == b then h[b].(size := h[b].size + HEADER + h[c].size, next := h[c].next)
                else if x == h[c].next && x != NULL then h[x].(prev := b)
                else h[x])
  {
  }

  /** Fusing undoes splitting. */
  lemma {:induction false} FuseUndoesSplit(h: Heap, b: int, s: nat)
    requires b in h && h[b].size >= s + HEADER && (h[b].next == NULL || (h[b].next in h && h[h[b].next].prev == b)) && h[b].next != b
    requires SplitAt(h, b, s) !in h && SplitAt(h, b, s) != NULL
    ensures var k := SplitHeap(h, b, s); Fusable(k, b) && FuseHeap(k, b) == h
  {
  }

  function Removed(bs: seq<int>, i: nat): (r: seq<int>)
    requires i < |bs|
    ensures |r| == |bs| - 1 && forall k :: 0 <= k < |r| ==> r[k] == if k < i then bs[k] else bs[k + 1]
  {
    bs[..i] + bs[i + 1..]
  }

  lemma {:induction false} RemovedMembers(bs: seq<int>, i: nat)
    requires i < |bs| && Distinct(bs)
    ensures forall b :: b in Removed(bs, i) <==> b in bs && b != bs[i]
    ensures Distinct(Removed(bs, i))
  {
    forall b | b in bs && b != bs[i]
      ensures b in Removed(bs, i)
    {
      var j :| 0 <= j < |bs| && bs[j] == b;
      assert Removed(bs, i)[if j < i then j else j - 1] == b;
    }
  }

  /** Two blocks that follow each other in the list, and the one after them. */
  lemma {:induction false} TwoInList(h: Heap, bs: seq<int>, base: int, i: nat)
    requires Listed(h, bs, base) && i + 1 < |bs|
    ensures bs[i] in h && bs[i + 1] in h && h[bs[i]].next == bs[i + 1] && bs[i] != bs[i + 1]
    ensures var d := h[bs[i + 1]].next;
      (d == NULL && i + 2 == |bs|) || (i + 2 < |bs| && d == bs[i + 2] && d in h && d != bs[i] && d != bs[i + 1])
  {
    NextInHeap(h, bs, base, i);
    NextInHeap(h, bs, base, i + 1);
  }

  ghost predicate Fusable(h: Heap, b: int) {
    && b in h && h[b].next in h && h[b].next != b
    && var d := h[h[b].next].next; d == NULL || (d in h && d != b && d != h[b].next)
  }

  lemma {:induction false} FuseLinked(h: Heap, bs: seq<int>, base: int, i: nat, j: nat)
    requires Listed(h, bs, base) && i + 1 < |bs| && j + 1 < |bs| && Fusable(h, bs[i])
    ensures LinkedAt(FuseHeap(h, bs[i]), Removed(bs, i + 1), j)
  {
    TwoInList(h, bs, base, i);
    var j' := if j <= i then j else j + 1;
    hide FuseHeap;
    assert LinkedAt(h, bs, j') && LinkedAt(h, bs, i + 1);
    assert j' != i ==> bs[j'] != bs[i];
    assert bs[j'] != bs[i + 1];
    assert i + 2 < |bs| && j' != i + 2 ==> bs[j'] != bs[i + 2];
    FuseFields(h, bs[i], bs[j']);
  }

  lemma {:induction false} FuseListed(h: Heap, bs: seq<int>, base: int, i: nat)
    requires Listed(h, bs, base) && i + 1 < |bs|
    ensures Fusable(h, bs[i]) && Listed(FuseHeap(h, bs[i]), Removed(bs, i + 1), if bs[i + 1] == base then bs[i] else base)
  {
    hide LinkedAt, FuseHeap;
    TwoInList(h, bs, base, i);
    var k, cs := FuseHeap(h, bs[i]), Removed(bs, i + 1);
    forall j | 0 <= j < |cs|
      ensures LinkedAt(k, cs, j)
    {
      FuseLinked(h, bs, base, i, j);
    }
    RemovedMembers(bs, i + 1);
    FuseKeys(h, bs[i]);
  }

  lemma {:induction false} FuseKeys(h: Heap, b: int)
    requires Fusable(h, b)
    ensures forall c :: c in FuseHeap(h, b) <==> c in h && c != h[b].next
  {
  }

  lemma {:induction false} FuseTiled(h: Heap, home: map<int, int>, b: int)
    requires Tiled(h, home) && Fusable(h, b) && End(h, b) == h[b].next
    ensures Tiled(FuseHeap(h, b), Rehome(home, h[b].next, End(h, h[b].next), b))
  {
    hide FuseHeap;
    var c := h[b].next;
    var k, home' := FuseHeap(h, b), Rehome(home, c, End(h, c), b);
    FuseFields(h, b, b);
    forall x, a | x in k && x <= a < End(k, x)
      ensures a in home' && home'[a] == x
    {
      FuseFields(h, b, x);
      assert x != b ==> x <= a < End(h, x);
      assert x == b ==> b <= a < End(h, b) || c <= a < End(h, c);
    }
    forall a | a in home'
      ensures home'[a] in k && home'[a] <= a < End(k, home'[a])
    {
      FuseFields(h, b, home'[a]);
      assert home[a] in h && home[a] <= a < End(h, home[a]);
    }
  }

  lemma {:induction false} FuseLive(h: Heap, b: int)
    requires Fusable(h, b) && h[b].free && h[h[b].next].free
    ensures Live(FuseHeap(h, b)) == Live(h)
  {
    hide FuseHeap;
    var k := FuseHeap(h, b);
    forall x
      ensures x in Live(k) <==> x in Live(h)
      ensures x in Live(k) ==> Live(k)[x] == Live(h)[x]
    {
      FuseFields(h, b, x);
    }
  }

  lemma {:induction false} FuseSize(h: Heap, b: int, x: int)
    requires Fusable(h, b)
    ensures var k := FuseHeap(h, b);
      && (x in k <==> x in h && x != h[b].next)
      && (x in k ==> k[x].size == if x == b then h[b].size + HEADER + h[h[b].next].size else h[x].size)
  {
    hide FuseHeap;
    FuseFields(h, b, x);
  }

  lemma {:induction false} RemovedThenInserted(bs: seq<int>, i: nat)
    requires i < |bs|
    ensures Inserted(Removed(bs, i), i, bs[i]) == bs
  {
  }

  lemma {:induction false} FuseTotal(h: Heap, bs: seq<int>, i: nat)
    requires Distinct(bs) && i + 1 < |bs| && InHeap(h, bs) && Fusable(h, bs[i]) && h[bs[i]].next == bs[i + 1]
    ensures var k, cs := FuseHeap(h, bs[i]), Removed(bs, i + 1); InHeap(k, cs) && Total(k, cs) == Total(h, bs)
  {
    hide FuseHeap, Total, Fusable, Distinct;
    var b, c, k, cs := bs[i], bs[i + 1], FuseHeap(h, bs[i]), Removed(bs, i + 1);
    RemovedMembers(bs, i + 1);
    RemovedThenInserted(bs, i + 1);
    forall j | 0 <= j < |cs|
      ensures cs[j] in h && cs[j] in k && k[cs[j]].size == if cs[j] == b then h[b].size + HEADER + h[c].size else h[cs[j]].size
    {
      assert cs[j] in cs;
      FuseSize(h, b, cs[j]);
    }
    assert cs[i] == b;
    OnlyOnce(cs, i);
    TotalInsert(k, h, cs, i, c);
  }

  lemma {:induction false} OnlyOnce(bs: seq<int>, i: nat)
    requires Distinct(bs) && i < |bs|
    ensures forall j :: 0 <= j < |bs| && j != i ==> bs[j] != bs[i]
  {
  }

  // ---------- Extending ----------

  /** ALIGN1K_HB. */
  function RoundUp(s: int): int {
    (s - 1) / PAGE_LEN * PAGE_LEN + PAGE_LEN
  }

  /** The size for which extend_heap makes a block. */
  function Padded(s: nat): nat {
    if s < HEADER then HEADER + 1 else s
  }

  /** extend_heap asks for as many words as it needs pages: the pages it gets. */
  function PagesGot(s: nat): (n: nat)
    ensures n >= 1 && (Padded(s) <= PAGE_LEN ==> n == 1)
  {
    var round := RoundUp(Padded(s));
    assert round / PAGE_LEN >= 1;
    P.NumPages(round / PAGE_LEN)
  }

  /** Beyond one page it gets less than the block it then describes. */
  lemma {:induction false} GotLess(s: nat)
    requires s > PAGE_LEN
    ensures PAGE_LEN * PagesGot(s) < RoundUp(s)
  {
    var k := (s - 1) / PAGE_LEN;
    assert RoundUp(s) == (k + 1) * PAGE_LEN && RoundUp(s) / PAGE_LEN == k + 1 && k >= 1;
    assert P.AlignPage(k + 1) < k + 1 + PAGE_LEN;
  }

  /** A new page becomes one free block at the front of the list. */
  function PushHeap(h: Heap, first: int, page: int): Heap
    requires first == NULL || first in h
  {
    PushSized(h, first, page, PAGE_LEN - HEADER)
  }

  /** What extend_heap stores, for a block of any size. */
  function PushSized(h: Heap, first: int, page: int, size: nat): Heap
    requires first == NULL || first in h
  {
    SetPrev(h[page := Header(size, first, NULL, true, page + HEADER)], first, page)
  }

  /** The words of len words at page belong to the heap, and to the block there. */
  ghost function PushHome(home: map<int, int>, page: int, len: nat): map<int, int> {
    home + (map a | page <= a < page + len && InPage(page, len, a) :: page)
  }

  ghost predicate InPage(page: int, len: nat, a: int) {
    page <= a < page + len
  }

  ghost predicate FreshPage(home: map<int, int>, page: int, len: nat) {
    page > NULL && forall a :: page <= a < page + len ==> a !in home
  }

  function Head(bs: seq<int>): int {
    if bs == [] then NULL else bs[0]
  }

  lemma {:induction false} PushListed(h: Heap, bs: seq<int>, base: int, page: int)
    requires Listed(h, bs, base) && page !in h && page > NULL
    ensures (Head(bs) == NULL || Head(bs) in h)
    ensures Listed(PushHeap(h, Head(bs), page), [page] + bs, if bs == [] then page else base)
  {
    if bs != [] {
      NextInHeap(h, bs, base, 0);
    }
    var k, cs := PushHeap(h, Head(bs), page), [page] + bs;
    assert forall b :: b in cs <==> b == page || b in bs;
    forall j | 0 <= j < |cs|
      ensures LinkedAt(k, cs, j)
    {
      if j > 0 {
        assert LinkedAt(h, bs, j - 1);
      }
    }
  }

  lemma {:induction false} PushFields(h: Heap, first: int, page: int, c: int)
    requires (first == NULL || first in h) && page !in h
    ensures var k := PushHeap(h, first, page);
      && (c in k <==> c == page || c in h)
      && (c in k ==> k[c].size == (if c == page then PAGE_LEN - HEADER else h[c].size))
  {
  }

  lemma {:induction false} PushHomeAt(home: map<int, int>, page: int, len: nat, a: int)
    ensures a in PushHome(home, page, len) <==> a in home || page <= a < page + len
    ensures a in PushHome(home, page, len) ==> PushHome(home, page, len)[a] == if page <= a < page + len then page else home[a]
  {
    assert InPage(page, len, a) <==> page <= a < page + len;
  }

  lemma {:induction false} PushTiled(h: Heap, home: map<int, int>, first: int, page: int)
    requires Tiled(h, home) && FreshPage(home, page, PAGE_LEN) && (first == NULL || first in h)
    ensures page !in h && Tiled(PushHeap(h, first, page), PushHome(home, page, PAGE_LEN))
  {
    hide PushHeap, PushHome;
    assert page !in h by {
      assert page in h ==> page < End(h, page) && page in home;
      assert page !in home;
    }
    var k, home' := PushHeap(h, first, page), PushHome(home, page, PAGE_LEN);
    PushFields(h, first, page, page);
    forall c, a | c in k && c <= a < End(k, c)
      ensures a in home' && home'[a] == c
    {
      PushFields(h, first, page, c);
      PushHomeAt(home, page, PAGE_LEN, a);
      assert c != page ==> c <= a < End(h, c) && a in home && home[a] == c && !InPage(page, PAGE_LEN, a);
    }
    forall a | a in home'
      ensures home'[a] in k && home'[a] <= a < End(k, home'[a])
    {
      PushHomeAt(home, page, PAGE_LEN, a);
      PushFields(h, first, page, home'[a]);
    }
  }

  lemma {:induction false} PushConserves(h: Heap, bs: seq<int>, first: int, page: int)
    requires InHeap(h, bs) && (first == NULL || first in h) && page !in h
    ensures var k := PushHeap(h, first, page);
      InHeap(k, [page] + bs) && Total(k, [page] + bs) == Total(h, bs) + PAGE_LEN && Live(k) == Live(h)
  {
    var k := PushHeap(h, first, page);
    assert ([page] + bs)[1..] == bs;
    TotalFrame(h, k, bs);
  }

  // ---------- Together ----------

  ghost predicate Good(h: Heap, bs: seq<int>, base: int, home: map<int, int>, pages: nat) {
    Listed(h, bs, base) && Tiled(h, home) && InHeap(h, bs) && Total(h, bs) == PAGE_LEN * pages
  }

  lemma {:induction false} SplitGood(h: Heap, bs: seq<int>, base: int, home: map<int, int>, pages: nat, i: nat, s: nat)
    requires Good(h, bs, base, home, pages) && i < |bs| && h[bs[i]].size >= s + HEADER && h[bs[i]].free
    ensures var b, n := bs[i], SplitAt(h, bs[i], s);
      && n !in h && NULL < b < n && (h[b].next == NULL || h[b].next in h) && h[b].next != b
      && Good(SplitHeap(h, b, s), Inserted(bs, i + 1, n), if b == base then n else base, Rehome(home, n, End(h, b), n), pages)
      && Live(SplitHeap(h, b, s)) == Live(h)
  {
    hide LinkedAt, SplitHeap, SplitAt, Tiled, Total, Live, Rehome;
    NextInHeap(h, bs, base, i);
    SplitFresh(h, home, bs[i], s);
    SplitListed(h, bs, base, i, s);
    SplitTiled(h, home, bs[i], s);
    SplitConserves(h, bs, base, i, s);
  }

  lemma {:induction false} FuseGood(h: Heap, bs: seq<int>, base: int, home: map<int, int>, pages: nat, i: nat)
    requires Good(h, bs, base, home, pages) && i + 1 < |bs| && h[bs[i]].free && h[bs[i + 1]].free && End(h, bs[i]) == bs[i + 1]
    ensures var b, c := bs[i], bs[i + 1];
      && Fusable(h, b) && h[b].next == c
      && Good(FuseHeap(h, b), Removed(bs, i + 1), if c == base then b else base, Rehome(home, c, End(h, c), b), pages)
      && Live(FuseHeap(h, b)) == Live(h)
  {
    hide LinkedAt, FuseHeap, Tiled, Total, Live, Rehome;
    TwoInList(h, bs, base, i);
    FuseListed(h, bs, base, i);
    FuseTiled(h, home, bs[i]);
    FuseLive(h, bs[i]);
    FuseTotal(h, bs, i);
  }

  lemma {:induction false} PushGood(h: Heap, bs: seq<int>, base: int, home: map<int, int>, pages: nat, page: int)
    requires Good(h, bs, base, home, pages) && FreshPage(home, page, PAGE_LEN)
    ensures var first := Head(bs);
      && (first == NULL || first in h) && page !in h
      && Good(PushHeap(h, first, page), [page] + bs, if bs == [] then page else base, PushHome(home, page, PAGE_LEN), pages + 1)
      && Live(PushHeap(h, first, page)) == Live(h)
  {
    hide PushHeap, Tiled, Total, Live, PushHome;
    if bs != [] {
      NextInHeap(h, bs, base, 0);
    }
    hide LinkedAt;
    PushTiled(h, home, Head(bs), page);
    PushListed(h, bs, base, page);
    PushConserves(h, bs, Head(bs), page);
  }

  /** Only the free flag of one block changes. */
  lemma {:induction false} MarkListed(h: Heap, bs: seq<int>, base: int, b: int, free: bool)
    requires Listed(h, bs, base) && b in h
    ensures Listed(h[b := h[b].(free := free)], bs, base)
  {
    var k := h[b := h[b].(free := free)];
    forall i | 0 <= i < |bs|
      ensures LinkedAt(k, bs, i)
    {
      assert LinkedAt(h, bs, i);
    }
  }

  lemma {:induction false} MarkGood(h: Heap, bs: seq<int>, base: int, home: map<int, int>, pages: nat, b: int, free: bool)
    requires Good(h, bs, base, home, pages) && b in h
    ensures Good(h[b := h[b].(free := free)], bs, base, home, pages)
  {
    hide Total;
    var k := h[b := h[b].(free := free)];
    MarkListed(h, bs, base, b, free);
    TotalFrame(h, k, bs);
    hide Listed;
    forall c, a | c in k && c <= a < End(k, c)
      ensures a in home && home[a] == c
    {
      assert c <= a < End(h, c);
    }
  }

  lemma {:induction false} SplitNew(h: Heap, b: int, s: nat)
    requires b in h && h[b].size >= s + HEADER && (h[b].next == NULL || h[b].next in h) && h[b].next != b
    requires SplitAt(h, b, s) !in h
    ensures var n, k := SplitAt(h, b, s), SplitHeap(h, b, s); n in k && k[n].size == s && k[n].free
  {
    SplitFields(h, b, s, SplitAt(h, b, s));
  }

  lemma {:induction false} PushNew(h: Heap, first: int, page: int)
    requires (first == NULL || first in h) && page !in h
    ensures var k := PushHeap(h, first, page); page in k && k[page].free && k[page].size == PAGE_LEN - HEADER
  {
  }

  lemma {:induction false} GoodDistinct(h: Heap, bs: seq<int>, base: int, home: map<int, int>, pages: nat)
    requires Good(h, bs, base, home, pages)
    ensures Distinct(bs)
  {
  }

  lemma {:induction false} RehomeKeys(home: map<int, int>, lo: int, hi: int, b: int)
    ensures Rehome(home, lo, hi, b).Keys == home.Keys
  {
  }

  lemma {:induction false} PtrOk(h: Heap, bs: seq<int>, base: int, b: int) returns (i: int)
    requires Listed(h, bs, base) && b in h
    ensures 0 <= i < |bs| && bs[i] == b && h[b].ptr == b + HEADER
  {
    i :| 0 <= i < |bs| && bs[i] == b;
    NextInHeap(h, bs, base, i);
  }

  lemma {:induction false} BaseInHeap(h: Heap, bs: seq<int>, base: int)
    requires Listed(h, bs, base)
    ensures base == NULL <==> bs == []
    ensures base != NULL ==> base in h
  {
    if bs != [] {
      NextInHeap(h, bs, base, |bs| - 1);
    }
  }

  // ---------- Free neighbours ----------

  /** If the blocks i and i + 1 of the list touch, one of them is in use. */
  ghost predicate PairOk(h: Heap, bs: seq<int>, i: nat)
    requires InHeap(h, bs) && i + 1 < |bs|
  {
    End(h, bs[i]) == bs[i + 1] ==> !h[bs[i]].free || !h[bs[i + 1]].free
  }

  /** This holds everywhere but perhaps at e and f. */
  ghost predicate PairsOkBut(h: Heap, bs: seq<int>, e: int, f: int) {
    InHeap(h, bs) && forall i :: 0 <= i < |bs| - 1 && i != e && i != f ==> PairOk(h, bs, i)
  }

  /** No two blocks that touch are both free. */
  ghost predicate Coalesced(h: Heap, bs: seq<int>) {
    PairsOkBut(h, bs, -1, -1)
  }

  lemma {:induction false} CoalescedBut(h: Heap, bs: seq<int>)
    requires Coalesced(h, bs)
    ensures forall e, f :: PairsOkBut(h, bs, e, f)
  {
  }

  /** One exception less, if the pair at f is in order, or there is none. */
  lemma {:induction false} LastPair(h: Heap, bs: seq<int>, e: int, f: int)
    requires PairsOkBut(h, bs, e, f)
    ensures !(0 <= f < |bs| - 1) || PairOk(h, bs, f) ==> PairsOkBut(h, bs, e, e)
    ensures e == f && (!(0 <= e < |bs| - 1) || PairOk(h, bs, e)) ==> Coalesced(h, bs)
    ensures e == f && 0 <= e < |bs| - 1 && !PairOk(h, bs, e) ==> !Coalesced(h, bs)
  {
  }

  lemma {:induction false} SwapBut(h: Heap, bs: seq<int>, e: int, f: int)
    requires PairsOkBut(h, bs, e, f)
    ensures PairsOkBut(h, bs, f, e)
  {
  }

  lemma {:induction false} MoreBut(h: Heap, bs: seq<int>, e: int)
    requires PairsOkBut(h, bs, e, -1)
    ensures PairsOkBut(h, bs, e, e)
  {
  }

  lemma {:induction false} MarkPairs(h: Heap, bs: seq<int>, i: nat)
    requires i < |bs| && Distinct(bs) && InHeap(h, bs)
    ensures PairsOkBut(h, bs, i, i - 1) ==> Coalesced(h[bs[i] := h[bs[i]].(free := false)], bs)
    ensures Coalesced(h, bs) ==> PairsOkBut(h[bs[i] := h[bs[i]].(free := true)], bs, i, i - 1)
  {
    var u, f := h[bs[i] := h[bs[i]].(free := false)], h[bs[i] := h[bs[i]].(free := true)];
    OnlyOnce(bs, i);
    forall j | 0 <= j < |bs| - 1
      ensures PairsOkBut(h, bs, i, i - 1) ==> PairOk(u, bs, j)
      ensures Coalesced(h, bs) && j != i && j != i - 1 ==> PairOk(f, bs, j)
    {
      if PairsOkBut(h, bs, i, i - 1) && j != i && j != i - 1 {
        assert PairOk(h, bs, j);
      }
      if Coalesced(h, bs) {
        assert PairOk(h, bs, j);
      }
    }
  }

  lemma {:induction false} SplitPairs(h: Heap, bs: seq<int>, base: int, i: nat, s: nat)
    requires Listed(h, bs, base) && i < |bs| && InHeap(h, bs) && h[bs[i]].size >= s + HEADER
    requires h[bs[i]].next == NULL || h[bs[i]].next in h
    requires SplitAt(h, bs[i], s) !in h && bs[i] < SplitAt(h, bs[i], s) && PairsOkBut(h, bs, i, i)
    ensures var n, k := SplitAt(h, bs[i], s), SplitHeap(h, bs[i], s);
      InHeap(k, Inserted(bs, i + 1, n)) ==> PairsOkBut(k, Inserted(bs, i + 1, n), i + 1, i)
  {
    hide LinkedAt, SplitHeap, SplitAt, Inserted;
    var n, k := SplitAt(h, bs[i], s), SplitHeap(h, bs[i], s);
    var cs := Inserted(bs, i + 1, n);
    NextInHeap(h, bs, base, i);
    OnlyOnce(bs, i);
    InsertedAt(bs, i + 1, n, 0);
    if InHeap(k, cs) {
      forall j | 0 <= j < |cs| - 1 && j != i && j != i + 1
        ensures PairOk(k, cs, j)
      {
        var k := if j < i then j else j - 1;
        InsertedAt(bs, i + 1, n, j);
        InsertedAt(bs, i + 1, n, j + 1);
        assert cs[j] == bs[k] && cs[j + 1] == bs[k + 1] && k != i;
        assert PairOk(h, bs, k);
        SplitFields(h, bs[i], s, bs[k]);
        SplitFields(h, bs[i], s, bs[k + 1]);
      }
    }
  }

  lemma {:induction false} FusePairs(h: Heap, bs: seq<int>, i: nat, e: int)
    requires Distinct(bs) && i + 1 < |bs| && InHeap(h, bs) && Fusable(h, bs[i]) && h[bs[i]].next == bs[i + 1]
    requires h[bs[i]].free && h[bs[i + 1]].free && End(h, bs[i]) == bs[i + 1]
    requires PairsOkBut(h, bs, i, e) && (e == i || e == i + 1) && InHeap(FuseHeap(h, bs[i]), Removed(bs, i + 1))
    ensures PairsOkBut(FuseHeap(h, bs[i]), Removed(bs, i + 1), if e == i then -1 else i, -1)
  {
    hide FuseHeap;
    var k, cs := FuseHeap(h, bs[i]), Removed(bs, i + 1);
    OnlyOnce(bs, i);
    OnlyOnce(bs, i + 1);
    forall j | 0 <= j < |cs| - 1 && (j != i || e == i)
      ensures PairOk(k, cs, j)
    {
      assert PairOk(h, bs, if j < i then j else j + 1);
      FuseFields(h, bs[i], cs[j]);
      FuseFields(h, bs[i], cs[j + 1]);
    }
  }

  lemma {:induction false} PushPairs(h: Heap, bs: seq<int>, first: int, page: int)
    requires Coalesced(h, bs) && (first == NULL || first in h) && page !in h
    ensures PairsOkBut(PushHeap(h, first, page), [page] + bs, 0, -1)
  {
    var k, cs := PushHeap(h, first, page), [page] + bs;
    forall j | 0 < j < |cs| - 1
      ensures PairOk(k, cs, j)
    {
      assert PairOk(h, bs, j - 1);
    }
  }

  // ---------- Contiguity ----------

  ghost predicate Joins(h: Heap, bs: seq<int>, i: nat)
    requires InHeap(h, bs) && i + 1 < |bs|
  {
    End(h, bs[i]) == bs[i + 1]
  }

  /** Every block touches the next one in the list. */
  ghost predicate Contiguous(h: Heap, bs: seq<int>) {
    InHeap(h, bs) && forall i :: 0 <= i < |bs| - 1 ==> Joins(h, bs, i)
  }

  lemma {:induction false} SplitContiguous(h: Heap, bs: seq<int>, base: int, i: nat, s: nat)
    requires Listed(h, bs, base) && i < |bs| && h[bs[i]].size >= s + HEADER && Contiguous(h, bs)
    requires h[bs[i]].next == NULL || h[bs[i]].next in h
    requires SplitAt(h, bs[i], s) !in h && bs[i] < SplitAt(h, bs[i], s)
    ensures var n, k := SplitAt(h, bs[i], s), SplitHeap(h, bs[i], s);
      InHeap(k, Inserted(bs, i + 1, n)) ==> Contiguous(k, Inserted(bs, i + 1, n))
  {
    hide LinkedAt, SplitHeap;
    var n, k := SplitAt(h, bs[i], s), SplitHeap(h, bs[i], s);
    var cs := Inserted(bs, i + 1, n);
    NextInHeap(h, bs, base, i);
    OnlyOnce(bs, i);
    if InHeap(k, cs) {
      forall j | 0 <= j < |cs| - 1
        ensures Joins(k, cs, j)
      {
        SplitFields(h, bs[i], s, cs[j]);
        if j != i {
          var j' := if j < i then j else j - 1;
          assert Joins(h, bs, j');
        }
      }
    }
  }

  lemma {:induction false} FuseContiguous(h: Heap, bs: seq<int>, i: nat)
    requires Distinct(bs) && i + 1 < |bs| && Contiguous(h, bs) && Fusable(h, bs[i]) && h[bs[i]].next == bs[i + 1]
    requires InHeap(FuseHeap(h, bs[i]), Removed(bs, i + 1))
    ensures Contiguous(FuseHeap(h, bs[i]), Removed(bs, i + 1))
  {
    hide FuseHeap;
    var k, cs := FuseHeap(h, bs[i]), Removed(bs, i + 1);
    OnlyOnce(bs, i);
    OnlyOnce(bs, i + 1);
    forall j | 0 <= j < |cs| - 1
      ensures Joins(k, cs, j)
    {
      FuseSize(h, bs[i], cs[j]);
      assert Joins(h, bs, i);
      assert Joins(h, bs, if j < i then j else j + 1);
    }
  }

  lemma {:induction false} PushContiguous(h: Heap, bs: seq<int>, first: int, page: int)
    requires Contiguous(h, bs) && (first == NULL || first in h) && page !in h && (bs == [] || page + PAGE_LEN == Head(bs))
    ensures Contiguous(PushHeap(h, first, page), [page] + bs)
  {
    hide PushHeap;
    var k, cs := PushHeap(h, first, page), [page] + bs;
    forall j | 0 <= j < |cs|
      ensures cs[j] in k && k[cs[j]].size == if j == 0 then PAGE_LEN - HEADER else h[bs[j - 1]].size
    {
      PushFields(h, first, page, cs[j]);
    }
    forall j | 0 <= j < |cs| - 1
      ensures Joins(k, cs, j)
    {
      if j > 0 {
        assert Joins(h, bs, j - 1);
      }
    }
  }

  lemma {:induction false} MarkContiguous(h: Heap, bs: seq<int>, b: int, free: bool)
    requires Contiguous(h, bs) && b in h
    ensures Contiguous(h[b := h[b].(free := free)], bs)
  {
    var k := h[b := h[b].(free := free)];
    forall j | 0 <= j < |bs| - 1
      ensures Joins(k, bs, j)
    {
      assert Joins(h, bs, j);
    }
  }

  /** In contiguous memory with all neighbours merged, no two neighbouring blocks are both free. */
  lemma {:induction false} NoFreeNeighbours(h: Heap, bs: seq<int>, i: nat)
    requires Contiguous(h, bs) && Coalesced(h, bs) && i + 1 < |bs|
    ensures !(h[bs[i]].free && h[bs[i + 1]].free)
  {
    assert Joins(h, bs, i) && PairOk(h, bs, i);
  }

  // ---------- Pages of the heap ----------

  /** Every word of the heap lies in a page that the kernel was given. */
  ghost predicate HomeOwned(home: map<int, int>, owner: seq<int>, bss: int) {
    forall a :: a in home ==> bss <= a / PAGE_LEN < P.PAGES - 1 && 0 <= a / PAGE_LEN < |owner| && owner[a / PAGE_LEN] == P.KERNEL
  }

  lemma {:induction false} HomeKeys(home: map<int, int>, home': map<int, int>, owner: seq<int>, bss: int)
    requires HomeOwned(home, owner, bss) && home.Keys == home'.Keys
    ensures HomeOwned(home', owner, bss)
  {
    forall a | a in home'
      ensures a in home
    {
      assert a in home'.Keys;
    }
  }

  /** Pages change hands from nobody to the kernel only. */
  ghost predicate OnlyGranted(owner: seq<int>, owner': seq<int>) {
    |owner| == |owner'| && forall k :: 0 <= k < |owner| ==> owner'[k] == owner[k] || (owner[k] == P.FREE && owner'[k] == P.KERNEL)
  }

  /** Pages that were free are fresh. */
  lemma {:induction false} GrantedIsFresh(home: map<int, int>, owner: seq<int>, owner': seq<int>, bss: int, page: int, num: nat)
    requires HomeOwned(home, owner, bss) && P.Granted(owner, owner', page, num, P.KERNEL)
    requires forall k :: 0 <= k < bss && k < |owner| ==> owner[k] == P.KERNEL
    ensures FreshPage(home, page, PAGE_LEN * num) && OnlyGranted(owner, owner')
    ensures HomeOwned(PushHome(home, page, PAGE_LEN * num), owner', bss)
  {
    var r := page / PAGE_LEN;
    assert page == r * PAGE_LEN;
    forall a | page <= a < page + PAGE_LEN * num
      ensures r <= a / PAGE_LEN < r + num && a !in home && a / PAGE_LEN >= bss
    {
      assert owner[a / PAGE_LEN] == P.FREE;
    }
  }

  /** The page that get_free_pages takes next, the highest free one, lies just below the heap. */
  ghost predicate NextBelow(m: seq<bv32>, bs: seq<int>) {
    bs == [] || exists r: nat :: P.ExtremeRun(m, r, 1, true) && P.FreeAt(m, r) && (r + 1) * PAGE_LEN == Head(bs)
  }

  class KernelHeap {
    var hdr: Heap
    var base: int
    ghost var blocks: seq<int>
    ghost var home: map<int, int>
    /** How many pages the heap has obtained. */
    ghost var pages: nat
    const mem: P.Memory

    ghost predicate Valid()
      reads this
    {
      Good(hdr, blocks, base, home, pages)
    }

    /** The words of the heap are in pages that the page allocator gave to the kernel. */
    ghost predicate Backed()
      reads this, mem, mem.memMap, mem.ptables
    {
      mem.Valid() && HomeOwned(home, mem.owner, mem.bssPageEnd)
    }

    /** No two neighbouring blocks are both free, because all memory is contiguous and all free neighbours are merged. */
    ghost predicate Neat()
      reads this
    {
      Contiguous(hdr, blocks) && Coalesced(hdr, blocks)
    }

    constructor (mem: P.Memory)
      requires mem.Valid()
      ensures Valid() && Backed() && Neat() && this.mem == mem && hdr == map[] && home == map[] && pages == 0
    {
      this.mem := mem;
      hdr, base, blocks, home, pages := map[], NULL, [], map[], 0;
    }

    /** find_block: the last block in the list that is free and large enough; first is the last one
        looked at before. */
    method FindBlock(s: nat) returns (b: int, first: int, ghost i: int)
      requires Valid() && base != NULL
      ensures b == NULL ==> first == Head(blocks) && forall c :: c in hdr ==> !(hdr[c].free && hdr[c].size >= s)
      ensures b != NULL ==> 0 <= i < |blocks| && blocks[i] == b > NULL && b in hdr && hdr[b].free && hdr[b].size >= s
      // No block after it does.
      ensures b != NULL ==> forall j :: i < j < |blocks| ==> blocks[j] in hdr && !(hdr[blocks[j]].free && hdr[blocks[j]].size >= s)
    {
      hide Tiled, LinkedAt, Total;
      b, first, i := base, base, |blocks| - 1;
      while b != NULL && !(hdr[b].free && hdr[b].size >= s)
        invariant -1 <= i < |blocks| && b == (if i >= 0 then blocks[i] else NULL)
        invariant first == if i + 1 < |blocks| then blocks[i + 1] else base
        invariant forall j :: i < j < |blocks| ==> !(hdr[blocks[j]].free && hdr[blocks[j]].size >= s)
        decreases i
      {
        NextInHeap(hdr, blocks, base, i);
        first, b, i := b, hdr[b].prev, i - 1;
        if i >= 0 {
          NextInHeap(hdr, blocks, base, i);
        }
      }
      if i >= 0 {
        NextInHeap(hdr, blocks, base, i);
      }
    }

    /** split_block: the last s words of block b become a block of their own. */
    method SplitBlock(b: int, s: nat) returns (n: int)
      requires b in hdr && hdr[b].size >= s + HEADER && (hdr[b].next == NULL || (hdr[b].next in hdr && hdr[b].next != b))
      modifies `hdr, `base
      ensures n == SplitAt(old(hdr), b, s) && hdr == SplitHeap(old(hdr), b, s) && n in hdr && hdr[n].size == s
      ensures n + HEADER + s == End(old(hdr), b) && b in hdr && hdr[b].size == old(hdr)[b].size - s - HEADER
      ensures base == if b == old(base) then n else old(base)
    {
      n := b + HEADER + hdr[b].size - s - HEADER;
      hdr := hdr[n := Header(s, hdr[b].next, b, true, n + HEADER)];
      hdr := hdr[b := hdr[b].(size := hdr[b].size - s - HEADER)];
      hdr := hdr[b := hdr[b].(next := n)];
      if b == base {
        base := n;
      }
      if hdr[n].next != NULL {
        hdr := hdr[hdr[n].next := hdr[hdr[n].next].(prev := n)];
      }
    }

    /** Block i of the list is free, has s words, and is the only one that may touch a free one. */
    ghost predicate Ready(b: int, i: int, s: nat, vbase: int, coalesced: bool, contiguous: bool)
      reads this
    {
      && Good(hdr, blocks, vbase, home, pages) && 0 <= i < |blocks| && blocks[i] == b
      && hdr[b].free && hdr[b].size >= s
      && (coalesced ==> PairsOkBut(hdr, blocks, i, i - 1)) && (contiguous ==> Contiguous(hdr, blocks))
    }

    /** split_block of block b.  If all is well, it is block i of the list, whose base is or will be vbase. */
    method Carve(b: int, s: nat, ghost well: bool, ghost i: nat, ghost vbase: int, ghost coalesced: bool, ghost contiguous: bool) returns (n: int)
      requires b in hdr && hdr[b].size >= s + HEADER && (hdr[b].next == NULL || (hdr[b].next in hdr && hdr[b].next != b))
      requires well ==> Ready(b, i, s, vbase, false, contiguous)
      requires well && coalesced ==> PairsOkBut(hdr, blocks, i, i)
      modifies this
      ensures n == SplitAt(old(hdr), b, s) && hdr == SplitHeap(old(hdr), b, s) && base == (if b == old(base) then n else old(base))
      ensures n in hdr && hdr[n].size == s
      ensures well ==> n > b > NULL && Ready(n, i + 1, s, if b == vbase then n else vbase, coalesced, contiguous)
      ensures well ==> Live(hdr) == Live(old(hdr)) && |blocks| == |old(blocks)| + 1
      ensures home.Keys == old(home.Keys) && pages == old(pages) && (!well ==> home == old(home))
    {
      hide Listed, Tiled, Total, Live, SplitHeap, Contiguous;
      ghost var h, bs := hdr, blocks;
      n := SplitBlock(b, s);
      if well {
        SplitGood(h, bs, vbase, home, pages, i, s);
        SplitNew(h, b, s);
        RehomeKeys(home, n, End(h, b), n);
        blocks, home := Inserted(blocks, i + 1, n), Rehome(home, n, End(h, b), n);
        if coalesced {
          SplitPairs(h, bs, vbase, i, s);
        }
        if contiguous {
          SplitContiguous(h, bs, vbase, i, s);
        }
      }
    }

    /** extend_heap; the list's base is set by the caller when there was none. */
    method ExtendHeap(first: int, s0: nat, ghost coalesced: bool, ghost contiguous: bool) returns (b: int, ghost i: int)
      requires Valid() && Backed() && first == Head(blocks)
      requires coalesced ==> Coalesced(hdr, blocks)
      requires contiguous ==> Contiguous(hdr, blocks) && NextBelow(mem.memMap[..], blocks)
      modifies this, mem.memMap, mem`owner
      ensures Backed() && base == old(base) && b >= NULL && OnlyGranted(old(mem.owner), mem.owner)
      ensures b == NULL <==> P.NoRoomFor(old(mem.memMap[..]), PagesGot(s0))
      ensures b == NULL ==> hdr == old(hdr) && blocks == old(blocks) && home == old(home) && pages == old(pages)
      ensures b != NULL ==> pages == old(pages) + PagesGot(s0) && b in hdr && hdr[b].size < Padded(s0) + 2 * HEADER
      ensures b != NULL && s0 <= PAGE_LEN ==>
        && Ready(b, i, if s0 <= PAGE_LEN - HEADER then s0 else PAGE_LEN - HEADER, if base == NULL then b else base, coalesced, contiguous)
        && Live(hdr) == Live(old(hdr)) && (s0 > PAGE_LEN - HEADER ==> hdr[b].size == PAGE_LEN - HEADER)
      ensures b != NULL && s0 > PAGE_LEN ==> Spills(old(hdr), old(home), hdr, home, b, s0)
    {
      hide Listed, Tiled, Total, Live, PushHome, PushSized, SplitHeap, Contiguous, NextBelow, PairsOkBut, Coalesced, P.NoRoomFor,
           HomeOwned, P.Memory.Valid;
      var s := s0;
      if s < HEADER {
        s := HEADER + 1;
      }
      var round := RoundUp(s);
      RoundBounds(s0);
      var page := TakePage(first, s0, round, coalesced, contiguous);
      b, i := page, 0;
      if b == NULL {
        return;
      }
      ghost var well := s0 <= PAGE_LEN;
      ghost var vbase := if base == NULL then b else base;
      PushedHead(old(hdr), first, b, round - HEADER);
      if round - s > HEADER * 2 {
        b := Carve(b, s, well, 0, vbase, coalesced, contiguous);
        i := 1;
      }
      HomeKeys(PushHome(old(home), page, PAGE_LEN * PagesGot(s0)), home, mem.owner, mem.bssPageEnd);
      if !well {
        SpillsOver(old(hdr), old(home), first, page, s, PAGE_LEN * PagesGot(s0));
      }
    }

    /** get_free_pages, and the page becomes a block of round words, header included. */
    method TakePage(first: int, ghost s0: nat, round: nat, ghost coalesced: bool, ghost contiguous: bool) returns (page: int)
      requires Valid() && Backed() && first == Head(blocks) && round == RoundUp(Padded(s0)) && round >= PAGE_LEN
      requires coalesced ==> Coalesced(hdr, blocks)
      requires contiguous ==> Contiguous(hdr, blocks) && NextBelow(mem.memMap[..], blocks)
      modifies this, mem.memMap, mem`owner
      ensures Backed() && base == old(base) && page >= NULL && OnlyGranted(old(mem.owner), mem.owner)
      ensures page == NULL <==> P.NoRoomFor(old(mem.memMap[..]), PagesGot(s0))
      ensures page == NULL ==> hdr == old(hdr) && blocks == old(blocks) && home == old(home) && pages == old(pages)
      ensures page != NULL ==> page !in old(hdr) && (first == NULL || first in old(hdr)) && hdr == PushSized(old(hdr), first, page, round - HEADER)
      ensures page != NULL ==> page != base && pages == old(pages) + PagesGot(s0) && home == PushHome(old(home), page, PAGE_LEN * PagesGot(s0))
      ensures page != NULL && s0 <= PAGE_LEN ==>
        && Ready(page, 0, PAGE_LEN - HEADER, if base == NULL then page else base, false, contiguous)
        && Live(hdr) == Live(old(hdr)) && (coalesced ==> PairsOkBut(hdr, blocks, 0, 0) && PairsOkBut(hdr, blocks, 0, -1))
    {
      hide Listed, Tiled, Total, Live, PushHome, PushSized, Contiguous, HomeOwned, P.Memory.Valid, P.NoRoomFor, P.Granted,
           P.ExtremeRun, P.FreeAt, NextBelow, PairsOkBut;
      RoundBounds(s0);
      ghost var h, bs, was, m, got := hdr, blocks, home, mem.memMap[..], PagesGot(s0);
      MemFenced();
      page := mem.KernelGetPages(round / PAGE_LEN);
      if page == NULL {
        return;
      }
      GrantedIsFresh(home, old(mem.owner), mem.owner, mem.bssPageEnd, page, got);
      BaseInHeap(hdr, blocks, base);
      FirstFresh(hdr, blocks, base, home, page, got);
      PushBlock(first, page, round - HEADER);
      blocks, home, pages := [page] + blocks, PushHome(home, page, PAGE_LEN * got), pages + got;
      if s0 <= PAGE_LEN {
        PushGood(h, bs, base, was, old(pages), page);
        PushNew(h, first, page);
        if coalesced {
          PushPairs(h, bs, first, page);
          MoreBut(hdr, blocks, 0);
        }
        if contiguous {
          TakesNext(m, bs, page);
          PushContiguous(h, bs, first, page);
        }
      }
    }

    /** The stores with which extend_heap makes the page a block. */
    method PushBlock(first: int, page: int, size: nat)
      requires (first == NULL || first in hdr) && page !in hdr
      modifies `hdr
      ensures hdr == PushSized(old(hdr), first, page, size)
    {
      hdr := hdr[page := Header(size, first, NULL, true, page + HEADER)];
      if first != NULL {
        hdr := hdr[first := hdr[first].(prev := page)];
      }
    }

    lemma MemFenced()
      requires mem.Valid()
      ensures forall k :: 0 <= k < mem.bssPageEnd && k < |mem.owner| ==> mem.owner[k] == P.KERNEL
    {
    }

    lemma ValidBase()
      requires Valid()
      ensures base == NULL <==> blocks == []
      ensures base == NULL ==> forall b :: b !in hdr
    {
      BaseInHeap(hdr, blocks, base);
    }

    /** _kmalloc.  The request is met exactly if a free block holds it or it is for no more than 1018 words; otherwise what is
        returned is too small, or reaches into memory that is not the heap's or is another block's. */
    method Kmalloc(size: nat) returns (p: int)
      requires Valid() && Backed()
      modifies this, mem.memMap, mem`owner
      ensures Backed()
      ensures p == NULL <==> NoFit(old(hdr), Align4(size)) && P.NoRoomFor(old(mem.memMap[..]), PagesGot(Align4(size)))
      ensures p == NULL ==> hdr == old(hdr) && home == old(home) && blocks == old(blocks) && Valid()
      ensures p != NULL ==> p - HEADER in hdr && hdr[p - HEADER].size < Padded(Align4(size)) + 2 * HEADER
      ensures p != NULL ==> (Valid() && Allocated(Live(old(hdr)), Live(hdr), p - HEADER, size) <==> Serves(old(hdr), size))
      ensures Serves(old(hdr), size) && Coalesced(old(hdr), old(blocks)) ==> Coalesced(hdr, blocks)
      ensures Serves(old(hdr), size) && old(Neat()) && NextBelow(old(mem.memMap[..]), old(blocks)) ==> Neat()
      ensures !NoFit(old(hdr), Align4(size)) ==> home.Keys == old(home.Keys) && pages == old(pages)
      ensures p != NULL && NoFit(old(hdr), Align4(size)) ==> pages == old(pages) + PagesGot(Align4(size))
      ensures OnlyGranted(old(mem.owner), mem.owner)
      ensures !NoFit(old(hdr), Align4(size)) && old(Neat()) ==> Neat()
    {
      hide Good, Live, PairsOkBut, Align4, NoFit, P.NoRoomFor, NextBelow, Contiguous, HomeOwned, P.Memory.Valid, Spills,
           PagesGot, Tiled, Allocated;
      ghost var coalesced, contiguous := Coalesced(hdr, blocks), Contiguous(hdr, blocks);
      ghost var next := contiguous && NextBelow(mem.memMap[..], blocks);
      var s := Align4(size);
      AlignSizes(size);
      GoodTiled(hdr, blocks, base, home, pages);
      var b;
      ghost var i;
      b, i := Reserve(s, coalesced, contiguous, next);
      if b == NULL {
        return NULL;
      }
      ghost var h := hdr;
      hdr := hdr[b := hdr[b].(free := false)];
      if !NoFit(old(hdr), s) || s <= PAGE_LEN {
        UsedOk(h, blocks, base, home, pages, b, i, Live(old(hdr)), coalesced, if NoFit(old(hdr), s) then next else contiguous);
        SizeDecides(Live(old(hdr)), Live(hdr), b, h[b].size, size);
      } else {
        SpillFails(old(hdr), old(home), h, hdr, home, b, s, blocks, base, pages, size);
      }
      p := b + HEADER;
    }

    /** The part of _kmalloc that comes up with a free block. */
    method Reserve(s: nat, ghost coalesced: bool, ghost contiguous: bool, ghost next: bool) returns (b: int, ghost i: int)
      requires Valid() && Backed() && (coalesced ==> Coalesced(hdr, blocks)) && (contiguous ==> Contiguous(hdr, blocks))
      requires next ==> contiguous && NextBelow(mem.memMap[..], blocks)
      modifies this, mem.memMap, mem`owner
      ensures Backed() && b >= NULL
      ensures b == NULL <==> NoFit(old(hdr), s) && P.NoRoomFor(old(mem.memMap[..]), PagesGot(s))
      ensures b == NULL ==> hdr == old(hdr) && home == old(home) && blocks == old(blocks) && pages == old(pages) && base == old(base)
      ensures b != NULL ==> b in hdr && hdr[b].size < Padded(s) + 2 * HEADER && (NoFit(old(hdr), s) ==> pages == old(pages) + PagesGot(s))
      ensures OnlyGranted(old(mem.owner), mem.owner)
      ensures !NoFit(old(hdr), s) ==>
        Ready(b, i, s, base, coalesced, contiguous) && Live(hdr) == Live(old(hdr)) && home.Keys == old(home.Keys) && pages == old(pages)
      ensures NoFit(old(hdr), s) && b != NULL && s <= PAGE_LEN ==>
        && Ready(b, i, if s <= PAGE_LEN - HEADER then s else PAGE_LEN - HEADER, base, coalesced, next)
        && Live(hdr) == Live(old(hdr)) && (s > PAGE_LEN - HEADER ==> hdr[b].size == PAGE_LEN - HEADER)
      ensures NoFit(old(hdr), s) && b != NULL && s > PAGE_LEN ==> Spills(old(hdr), old(home), hdr, home, b, s)
    {
      hide Good, Live, PairsOkBut, NoFit, P.NoRoomFor, NextBelow, Contiguous, HomeOwned, P.Memory.Valid, Spills, PagesGot;
      if coalesced {
        CoalescedBut(hdr, blocks);
      }
      var first;
      ValidBase();
      GoodTiled(hdr, blocks, base, home, pages);
      if base != NULL {
        b, first, i := FindBlock(s);
        FoundIff(hdr, b, s);
        if b != NULL {
          if hdr[b].size - s >= HEADER * 2 {
            GoodNext(hdr, blocks, base, home, pages, i);
            b := Carve(b, s, true, i, base, coalesced, contiguous);
            i := i + 1;
          }
          HomeKeys(old(home), home, mem.owner, mem.bssPageEnd);
        } else {
          b, i := ExtendHeap(first, s, coalesced, next);
        }
      } else {
        FoundIff(hdr, NULL, s);
        b, i := ExtendHeap(NULL, s, coalesced, next);
        if b != NULL {
          base := b;
        }
      }
    }

    /** fusion: block b swallows the next one if that is free and touches it. */
    method Fusion(b: int, ghost i: nat, ghost e: int, ghost coalesced: bool)
      requires Valid() && i < |blocks| && blocks[i] == b && hdr[b].free
      requires coalesced ==> PairsOkBut(hdr, blocks, i, e) && (e == i || e == i + 1)
      modifies this
      ensures Valid() && Live(hdr) == Live(old(hdr)) && home.Keys == old(home.Keys) && pages == old(pages)
      ensures Touches(old(hdr), b) ==> i + 1 < |old(blocks)| && blocks == Removed(old(blocks), i + 1) && b in hdr && hdr[b].free
      ensures !Touches(old(hdr), b) ==> hdr == old(hdr) && blocks == old(blocks)
      ensures Touches(old(hdr), b) && coalesced ==> PairsOkBut(hdr, blocks, if e == i then -1 else i, -1)
      ensures Contiguous(old(hdr), old(blocks)) ==> Contiguous(hdr, blocks)
    {
      hide Contiguous, Tiled, Total, Live, PairsOkBut, LinkedAt, FuseHeap, Rehome;
      NextInHeap(hdr, blocks, base, i);
      var next := hdr[b].next;
      if next != NULL && hdr[next].free && hdr[b].ptr + hdr[b].size == next {
        ghost var h, bs := hdr, blocks;
        FuseGood(hdr, blocks, base, home, pages, i);
        RehomeKeys(home, next, End(hdr, next), b);
        if coalesced {
          FusePairs(hdr, blocks, i, e);
        }
        if Contiguous(hdr, blocks) {
          FuseContiguous(hdr, blocks, i);
        }
        FuseFields(hdr, b, b);
        FuseStores(b);
        if next == base {
          base := b;
        }
        blocks, home := Removed(blocks, i + 1), Rehome(home, next, End(h, next), b);
      }
    }

    /** The stores of fusion. */
    method FuseStores(b: int)
      requires Fusable(hdr, b)
      modifies `hdr
      ensures hdr == FuseHeap(old(hdr), b)
    {
      var next := hdr[b].next;
      var n := hdr[next];
      hdr := hdr[b := hdr[b].(size := hdr[b].size + HEADER + n.size)];
      hdr := hdr[b := hdr[b].(next := n.next)];
      if hdr[b].next != NULL {
        hdr := hdr[hdr[b].next := hdr[hdr[b].next].(prev := b)];
      }
      // The swallowed header is plain data from here on.
      hdr := hdr - {next};
    }

    method MarkFree(b: int, ghost i: nat)
      requires Valid() && i < |blocks| && blocks[i] == b && b in hdr
      modifies `hdr
      ensures Valid() && Live(hdr) == Live(old(hdr)) - {b} && hdr == old(hdr)[b := old(hdr)[b].(free := true)]
      ensures Coalesced(old(hdr), blocks) ==> PairsOkBut(hdr, blocks, i, i - 1)
      ensures Contiguous(old(hdr), blocks) ==> Contiguous(hdr, blocks)
    {
      hide Listed, Tiled, Total, PairsOkBut, Coalesced, Contiguous;
      if Contiguous(hdr, blocks) {
        MarkContiguous(hdr, blocks, b, true);
      }
      GoodDistinct(hdr, blocks, base, home, pages);
      MarkGood(hdr, blocks, base, home, pages, b, true);
      MarkPairs(hdr, blocks, i);
      hdr := hdr[b := hdr[b].(free := true)];
    }

    /** The second half of _kfree: fusion with the next block. */
    method FuseNext(b: int, ghost i: nat, ghost coalesced: bool)
      requires Valid() && i < |blocks| && blocks[i] == b && b in hdr && hdr[b].free
      requires coalesced ==> PairsOkBut(hdr, blocks, i, i)
      modifies this
      ensures Valid() && Live(hdr) == Live(old(hdr)) && home.Keys == old(home.Keys) && pages == old(pages)
      ensures coalesced ==> Coalesced(hdr, blocks)
      ensures !Touches(old(hdr), b) ==> hdr == old(hdr) && blocks == old(blocks)
      ensures Contiguous(old(hdr), old(blocks)) ==> Contiguous(hdr, blocks)
    {
      hide Listed, Tiled, Total, Live, PairsOkBut, Contiguous;
      NextInHeap(hdr, blocks, base, i);
      if coalesced && !Touches(hdr, b) {
        LastPair(hdr, blocks, i, i);
      }
      if hdr[b].next != NULL && hdr[hdr[b].next].free {
        Fusion(b, i, i, coalesced);
      }
    }

    /** _kfree of a block, whether in use or free already, or of NULL. */
    method Kfree(p: int)
      requires Valid() && (p == NULL || p - HEADER in hdr)
      modifies this
      ensures Valid() && home.Keys == old(home.Keys) && pages == old(pages)
      ensures if p == NULL then hdr == old(hdr) else Live(hdr) == Live(old(hdr)) - {p - HEADER}
      ensures p == NULL ==> blocks == old(blocks)
      ensures p != NULL && Coalesced(old(hdr), old(blocks)) ==> (Coalesced(hdr, blocks) <==> !Stuck(old(hdr), p - HEADER))
      ensures Contiguous(old(hdr), old(blocks)) ==> Contiguous(hdr, blocks)
      ensures (old(Neat()) ==> Neat()) && (old(Backed()) ==> Backed())
    {
      hide Listed, Tiled, Total, Live, PairsOkBut, Contiguous, Stuck, P.Memory.Valid, HomeOwned;
      if p != NULL {
        ghost var j := PtrOk(hdr, blocks, base, p - HEADER);
        if Contiguous(hdr, blocks) {
          ContiguousNeverStuck(hdr, blocks, base, j);
        }
      }
      if p != NULL && hdr[p - HEADER].ptr == p {
        var b := p - HEADER;
        ghost var coalesced := Coalesced(hdr, blocks);
        ghost var i := PtrOk(hdr, blocks, base, b);
        FreeOutcome(hdr, blocks, base, i);
        MarkFree(b, i);
        ghost var h := hdr;
        NextInHeap(hdr, blocks, base, i);
        if hdr[b].prev != NULL && hdr[hdr[b].prev].free {
          var q := hdr[b].prev;
          NextInHeap(hdr, blocks, base, i - 1);
          if coalesced {
            SwapBut(hdr, blocks, i, i - 1);
          }
          Fusion(q, i - 1, i, coalesced);
          if coalesced && Touches(h, q) {
            MoreBut(hdr, blocks, i - 1);
          }
          FuseNext(q, i - 1, coalesced && Touches(h, q));
        } else {
          FuseNext(b, i, coalesced);
        }
      }
      if old(Backed()) {
        HomeKeys(old(home), home, mem.owner, mem.bssPageEnd);
      }
    }
  }

  /** When every block touches the next one in the list, _kfree never gives up. */
  lemma {:induction false} ContiguousNeverStuck(h: Heap, bs: seq<int>, base: int, i: nat)
    requires Listed(h, bs, base) && i < |bs| && Contiguous(h, bs)
    ensures !Stuck(h, bs[i])
  {
    NextInHeap(h, bs, base, i);
    assert i > 0 ==> Joins(h, bs, i - 1);
  }

  /** A page with a free block, and elsewhere a page whose first block is in use and whose second one is free. */
  function TwoPages(): Heap {
    map[1024 := Header(1018, 4096, NULL, true, 1030), 4096 := Header(100, 4202, 1024, false, 4102),
        4202 := Header(912, NULL, 4096, true, 4208)]
  }

  ghost predicate InTwoPages(a: int) {
    1024 <= a < 2048 || 4096 <= a < 5120
  }

  ghost function TwoPagesHome(): map<int, int> {
    map a | 1024 <= a < 5120 && InTwoPages(a) :: if a < 2048 then 1024 else if a < 4202 then 4096 else 4202
  }

  lemma {:induction false} TwoPagesTiled()
    ensures Tiled(TwoPages(), TwoPagesHome())
  {
    hide TwoPages, TwoPagesHome;
    var h, home := TwoPages(), TwoPagesHome();
    forall a | a in home
      ensures home[a] in h && home[a] <= a < End(h, home[a])
    {
      TwoPagesAt(a);
      TwoPagesEnd(home[a]);
    }
    forall b, a | b in h && b <= a < End(h, b)
      ensures a in home && home[a] == b
    {
      TwoPagesEnd(b);
      TwoPagesAt(a);
    }
  }

  lemma {:induction false} TwoPagesEnd(b: int)
    ensures b in TwoPages() <==> b == 1024 || b == 4096 || b == 4202
    ensures b in TwoPages() ==> End(TwoPages(), b) == if b == 1024 then 2048 else if b == 4096 then 4202 else 5120
  {
  }

  lemma {:induction false} TwoPagesAt(a: int)
    ensures a in TwoPagesHome() <==> InTwoPages(a)
    ensures InTwoPages(a) ==> TwoPagesHome()[a] == if a < 2048 then 1024 else if a < 4202 then 4096 else 4202
  {
  }

  lemma {:induction false} TwoPagesTotal(bs: seq<int>)
    requires bs == [1024, 4096, 4202]
    ensures InHeap(TwoPages(), bs) && Total(TwoPages(), bs) == 2 * PAGE_LEN
  {
    assert [4202][1..] == [] && bs[1..][1..] == [4202];
    assert Total(TwoPages(), [4202]) == 918;
    assert Total(TwoPages(), bs[1..]) == 1024;
  }

  lemma {:induction false} TwoPagesGood(bs: seq<int>)
    requires bs == [1024, 4096, 4202]
    ensures Good(TwoPages(), bs, 4202, TwoPagesHome(), 2) && Coalesced(TwoPages(), bs) && Stuck(TwoPages(), 4096)
  {
    hide Tiled, Total, TwoPagesHome;
    TwoPagesTiled();
    TwoPagesTotal(bs);
    var h := TwoPages();
    forall i | 0 <= i < 3
      ensures LinkedAt(h, bs, i)
    {
    }
    assert PairOk(h, bs, 0) && PairOk(h, bs, 1);
  }

  /** On this heap _kfree gives up: afterwards two free blocks touch. */
  method StuckHeap(mem: P.Memory) returns (heap: KernelHeap)
    requires mem.Valid()
    ensures heap.Valid() && !Coalesced(heap.hdr, heap.blocks)
  {
    hide Good, Coalesced, Stuck, TwoPages, TwoPagesHome;
    heap := new KernelHeap(mem);
    heap.hdr, heap.blocks, heap.base, heap.home, heap.pages := TwoPages(), [1024, 4096, 4202], 4202, TwoPagesHome(), 2;
    TwoPagesGood(heap.blocks);
    TwoPagesEnd(4096);
    heap.Kfree(4096 + HEADER);
  }

  /** What is left to do once block i is marked free. */
  lemma {:induction false} FreeOutcome(h0: Heap, bs: seq<int>, base: int, i: int)
    requires Listed(h0, bs, base) && 0 <= i < |bs| && InHeap(h0, bs)
    ensures var b := bs[i]; var h := h0[b := h0[b].(free := true)]; var q := h0[b].prev;
      PairsOkBut(h, bs, i, i - 1) ==>
        if q == NULL || (q in h && !h[q].free) then PairsOkBut(h, bs, i, i) && !Stuck(h0, b)
        else q in h && if Touches(h, q) then !Stuck(h0, b) else PairsOkBut(h, bs, i, i) && (Coalesced(h, bs) <==> !Stuck(h0, b))
  {
    hide PairsOkBut, Coalesced, LinkedAt;
    var b := bs[i];
    var h := h0[b := h0[b].(free := true)];
    if PairsOkBut(h, bs, i, i - 1) {
      NextInHeap(h0, bs, base, i);
      OnlyOnce(bs, i);
      LastPair(h, bs, i, i - 1);
      if i > 0 {
        NextInHeap(h0, bs, base, i - 1);
      }
      if PairsOkBut(h, bs, i, i) {
        LastPair(h, bs, i, i);
      }
    }
  }

  /** Block b and the one after it could be one free block. */
  ghost predicate Touches(h: Heap, b: int) {
    b in h && h[b].next in h && h[h[b].next].free && End(h, b) == h[b].next
  }

  /** The case in which _kfree gives up: the previous block is free but elsewhere, and the next one is
      free and touches. */
  ghost predicate Stuck(h: Heap, b: int) {
    && b in h && h[b].prev != NULL && h[b].prev in h && h[h[b].prev].free && End(h, h[b].prev) != b && Touches(h, b)
  }


  lemma {:induction false} RoundBounds(s0: nat)
    ensures var s := Padded(s0); s <= RoundUp(s) && RoundUp(s) >= PAGE_LEN && RoundUp(s) / PAGE_LEN >= 1
    ensures PagesGot(s0) == P.NumPages(RoundUp(Padded(s0)) / PAGE_LEN)
    ensures s0 <= PAGE_LEN ==> RoundUp(Padded(s0)) == PAGE_LEN && PagesGot(s0) == 1
    ensures s0 > PAGE_LEN ==> PAGE_LEN * PagesGot(s0) < RoundUp(s0) && Padded(s0) == s0
  {
    if s0 > PAGE_LEN {
      GotLess(s0);
    }
  }

  lemma {:induction false} FirstFresh(h: Heap, bs: seq<int>, base: int, home: map<int, int>, page: int, got: nat)
    requires Listed(h, bs, base) && Tiled(h, home) && FreshPage(home, page, PAGE_LEN * got) && got >= 1
    ensures page !in h && (Head(bs) == NULL || Head(bs) in h)
  {
    if bs != [] {
      NextInHeap(h, bs, base, 0);
    }
    assert page !in home;
    assert page in h ==> page < End(h, page);
  }

  lemma {:induction false} TakesNext(m: seq<bv32>, bs: seq<int>, page: int)
    requires NextBelow(m, bs) && page % PAGE_LEN == 0 && page >= 0
    requires P.ExtremeRun(m, page / PAGE_LEN, 1, true) && P.FreeAt(m, page / PAGE_LEN)
    ensures bs == [] || page + PAGE_LEN == Head(bs)
  {
    hide P.ExtremeRun, P.FreeAt;
    if bs != [] {
      var r: nat :| P.ExtremeRun(m, r, 1, true) && P.FreeAt(m, r) && (r + 1) * PAGE_LEN == Head(bs);
      P.HighestIsOne(m, r, page / PAGE_LEN);
    }
  }

  lemma {:induction false} PushedHead(h: Heap, first: int, page: int, size: nat)
    requires (first == NULL || first in h) && page !in h
    ensures var k := PushSized(h, first, page, size);
      page in k && k[page].size == size && k[page].free && k[page].next == first && (first == NULL || (first in k && first != page))
  {
  }

  /** The block that extend_heap returns for more than a page. */
  lemma {:induction false} SpillsOver(h: Heap, home: map<int, int>, first: int, page: int, s: nat, len: nat)
    requires (first == NULL || first in h) && page !in h && len < RoundUp(s) && HEADER <= s <= RoundUp(s)
    ensures var round := RoundUp(s); var k := PushSized(h, first, page, round - HEADER); var home' := PushHome(home, page, len);
      && page in k && (k[page].next == NULL || k[page].next in k) && k[page].next == first && k[page].size == round - HEADER
      && Spills(h, home, k, home', page, s)
      && (round - s > HEADER * 2 ==> Spills(h, home, SplitHeap(k, page, s), home', SplitAt(k, page, s), s))
  {
    var round := RoundUp(s);
    var k := PushSized(h, first, page, round - HEADER);
    if round - s > HEADER * 2 {
      var k2, n := SplitHeap(k, page, s), SplitAt(k, page, s);
      assert n in k2 && k2[n].size == s;
    }
  }

  /** No free block holds s words. */
  ghost predicate NoFit(h: Heap, s: nat) {
    forall b :: b in h ==> !(h[b].free && h[b].size >= s)
  }

  /** A free block holds the request, or one page does. */
  ghost predicate Serves(h: Heap, size: nat) {
    size <= PAGE_LEN - HEADER || !NoFit(h, Align4(size))
  }

  lemma {:induction false} AlignSizes(size: nat)
    ensures size <= Align4(size) && (Align4(size) <= PAGE_LEN - HEADER ==> size <= PAGE_LEN - HEADER)
    ensures size <= PAGE_LEN - HEADER ==> Align4(size) <= PAGE_LEN
  {
  }

  lemma {:induction false} FoundIff(h: Heap, b: int, s: nat)
    requires b == NULL ==> forall c :: c in h ==> !(h[c].free && h[c].size >= s)
    requires b != NULL ==> b in h && h[b].free && h[b].size >= s
    ensures b == NULL <==> NoFit(h, s)
  {
  }

  lemma {:induction false} GoodTiled(h: Heap, bs: seq<int>, base: int, home: map<int, int>, pages: nat)
    requires Good(h, bs, base, home, pages)
    ensures Tiled(h, home) && InHeap(h, bs)
  {
  }

  lemma {:induction false} GoodNext(h: Heap, bs: seq<int>, base: int, home: map<int, int>, pages: nat, i: nat)
    requires Good(h, bs, base, home, pages) && i < |bs|
    ensures bs[i] in h && (h[bs[i]].next == NULL || (h[bs[i]].next in h && h[bs[i]].next != bs[i]))
  {
    NextInHeap(h, bs, base, i);
  }

  /** The last store of _kmalloc, on a block that is ready. */
  lemma {:induction false} UsedOk(h: Heap, bs: seq<int>, base: int, home: map<int, int>, pages: nat, b: int, i: int,
                                  live: map<int, nat>, coalesced: bool, contiguous: bool)
    requires Good(h, bs, base, home, pages) && 0 <= i < |bs| && bs[i] == b && b in h && h[b].free && live == Live(h)
    requires (coalesced ==> PairsOkBut(h, bs, i, i - 1)) && (contiguous ==> Contiguous(h, bs))
    ensures var k := h[b := h[b].(free := false)];
      && Good(k, bs, base, home, pages) && Allocated(live, Live(k), b, h[b].size) && Live(k)[b] == h[b].size
      && (coalesced ==> Coalesced(k, bs)) && (contiguous ==> Contiguous(k, bs))
  {
    hide Good, PairsOkBut, Contiguous, Coalesced;
    GoodDistinct(h, bs, base, home, pages);
    GoodTiled(h, bs, base, home, pages);
    MarkGood(h, bs, base, home, pages, b, false);
    MarkPairs(h, bs, i);
    if contiguous {
      MarkContiguous(h, bs, b, false);
    }
  }

  lemma {:induction false} SizeDecides(old_: map<int, nat>, new_: map<int, nat>, b: int, got: nat, size: nat)
    requires Allocated(old_, new_, b, got) && new_[b] == got
    ensures Allocated(old_, new_, b, size) <==> size <= got
  {
  }

  /** Block b was not live and now is, with at least the size asked for; nothing else changed. */
  ghost predicate Allocated(old_: map<int, nat>, new_: map<int, nat>, b: int, size: nat) {
    b !in old_ && b in new_ && new_ == old_[b := new_[b]] && new_[b] >= size
  }

  /** The last word of block b is not the heap's, or another block's: so b does not fit, unless it is one that was live before. */
  ghost predicate Spills(oh: Heap, ohome: map<int, int>, h: Heap, home: map<int, int>, b: int, s: nat) {
    && b in h && (h[b].size >= s || b !in oh)
    && var a := End(h, b) - 1; a in home ==> a in ohome && home[a] == ohome[a]
  }

  lemma {:induction false} SpillFails(oh: Heap, ohome: map<int, int>, h: Heap, k: Heap, home: map<int, int>, b: int, s: nat,
                                      bs: seq<int>, base: int, pages: nat, size: nat)
    requires Tiled(oh, ohome) && NoFit(oh, s) && Spills(oh, ohome, h, home, b, s) && k == h[b := h[b].(free := false)]
    ensures !(Good(k, bs, base, home, pages) && Allocated(Live(oh), Live(k), b, size))
  {
    var a := End(h, b) - 1;
    if Tiled(k, home) {
      assert b <= a < End(k, b);
      assert a in home && home[a] == b;
      assert ohome[a] in oh && a < End(oh, ohome[a]);
    }
  }

  /** A request that is not met: 1020 words from an empty heap. */
  method TooSmall(mem: P.Memory) returns (heap: KernelHeap, p: int)
    requires mem.Valid() && !P.NoRoomFor(mem.memMap[..], 1)
    modifies mem.memMap, mem`owner
    ensures p != NULL && !(heap.Valid() && Allocated(map[], Live(heap.hdr), p - HEADER, 1020))
  {
    heap := new KernelHeap(mem);
    p := heap.Kmalloc(1020);
    assert Live(map[]) == map[];
  }
}
