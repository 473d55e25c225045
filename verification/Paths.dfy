/** Path names: their components, resolving them, and finding the path of the working directory. */
module Paths {
  const NAME_MAX: nat := 32
  const PATH_MAX: nat := 128
  const ROOT: nat := 1
  const OK: int := 0
  const ERR: int := -1
  const ENOENT: int := -2
  const EFAULT: int := -14
  const ENOTDIR: int := -20
  const ERANGE: int := -34
  const NULL: int := -1

  type Name = seq<char>

  // ---------- Components ----------

  /** The pieces between slashes, empty ones included. */
  function Fields(s: seq<char>): (r: seq<Name>)
    ensures r != []
    decreases |s|
  {
    if s == [] then [[]]
    else
      var rest := Fields(s[1..]);
      if s[0] == '/' then [[]] + rest else [[s[0]] + rest[0]] + rest[1..]
  }

  /** The pieces with a slash between each two. */
  function Slashed(ns: seq<Name>): seq<char>
    requires ns != []
  {
    if |ns| == 1 then ns[0] else ns[0] + ['/'] + Slashed(ns[1..])
  }

  /** The pieces are those of the only way to take the text apart at all its slashes. */
  lemma {:induction false} FieldsIff(s: seq<char>, ns: seq<Name>)
    ensures ns == Fields(s) <==> ns != [] && Slashed(ns) == s && forall k :: 0 <= k < |ns| ==> '/' !in ns[k]
  {
    FieldsSlashed(s);
    if ns != [] && Slashed(ns) == s && forall k :: 0 <= k < |ns| ==> '/' !in ns[k] {
      SlashedFields(ns);
    }
  }

  lemma {:induction false} FieldsSlashed(s: seq<char>)
    ensures Slashed(Fields(s)) == s && forall k :: 0 <= k < |Fields(s)| ==> '/' !in Fields(s)[k]
    decreases |s|
  {
    if s != [] {
      var rest := Fields(s[1..]);
      FieldsSlashed(s[1..]);
      if s[0] == '/' {
        assert ([[]] + rest)[1..] == rest;
      } else {
        var first := [s[0]] + rest[0];
        assert ([first] + rest[1..])[1..] == rest[1..];
        assert '/' !in rest[0];
      }
    }
  }

  lemma {:induction false} SlashedFields(ns: seq<Name>)
    requires ns != [] && forall k :: 0 <= k < |ns| ==> '/' !in ns[k]
    ensures Fields(Slashed(ns)) == ns
    decreases |ns|, |ns[0]|
  {
    var s := Slashed(ns);
    if ns[0] == [] {
      if |ns| > 1 {
        SlashedFields(ns[1..]);
        assert s == ['/'] + Slashed(ns[1..]);
      }
    } else {
      var ms := [ns[0][1..]] + ns[1..];
      assert forall k :: 0 <= k < |ms| ==> '/' !in ms[k];
      assert ms[1..] == ns[1..];
      SlashedFields(ms);
      assert s[1..] == Slashed(ms) && s[0] == ns[0][0] && s[0] in ns[0];
      assert [s[0]] + ms[0] == ns[0] && [ns[0]] + ms[1..] == ns;
    }
  }

  function NonEmpty(ns: seq<Name>): seq<Name>
    decreases |ns|
  {
    if ns == [] then [] else (if ns[0] == [] then [] else [ns[0]]) + NonEmpty(ns[1..])
  }

  /** What a path name means: the names between slashes, however many slashes there are. */
  function Components(s: seq<char>): seq<Name> {
    NonEmpty(Fields(s))
  }

  /** The first place from i on that is not a slash. */
  function Skip(s: seq<char>, i: nat): (r: nat)
    requires i <= |s|
    ensures i <= r <= |s| && (r < |s| ==> s[r] != '/') && forall k :: i <= k < r ==> s[k] == '/'
    decreases |s| - i
  {
    if i < |s| && s[i] == '/' then Skip(s, i + 1) else i
  }

  /** The first place from i on that is a slash, or the end. */
  function WordEnd(s: seq<char>, i: nat): (r: nat)
    requires i <= |s|
    ensures i <= r <= |s| && (r < |s| ==> s[r] == '/') && forall k :: i <= k < r ==> s[k] != '/'
    ensures i < |s| && s[i] != '/' ==> r > i
    decreases |s| - i
  {
    if i < |s| && s[i] != '/' then WordEnd(s, i + 1) else i
  }

  /** The names that get_name delivers one after the other from place i on. */
  function Names(s: seq<char>, i: nat): seq<Name>
    requires i <= |s|
    decreases |s| - i
  {
    var a := Skip(s, i);
    if a == |s| then [] else [s[a..WordEnd(s, a)]] + Names(s, WordEnd(s, a))
  }

  lemma {:induction false} ComponentsSlash(s: seq<char>)
    requires s != [] && s[0] == '/'
    ensures Components(s) == Components(s[1..])
  {
    assert Fields(s)[1..] == Fields(s[1..]);
  }

  lemma {:induction false} FieldsWord(s: seq<char>, n: nat)
    requires n <= |s| && (forall k :: 0 <= k < n ==> s[k] != '/') && (n < |s| ==> s[n] == '/')
    ensures Fields(s) == [s[..n]] + Fields(s[n..])[1..]
    decreases n
  {
    if n == 0 {
      assert s[..0] == [] && s[0..] == s;
      if s != [] {
        assert Fields(s)[0] == [];
      }
    } else {
      FieldsWord(s[1..], n - 1);
      assert s[1..][n - 1..] == s[n..] && [s[0]] + s[1..][..n - 1] == s[..n];
    }
  }

  lemma {:induction false} ComponentsWord(s: seq<char>, n: nat)
    requires 0 < n <= |s| && (forall k :: 0 <= k < n ==> s[k] != '/') && (n < |s| ==> s[n] == '/')
    ensures Components(s) == [s[..n]] + Components(s[n..])
  {
    FieldsWord(s, n);
    FieldsWord(s[n..], 0);
    var f, g := Fields(s), Fields(s[n..]);
    assert f[0] == s[..n] && f[1..] == g[1..];
    assert g[0] == s[n..][..0] == [];
  }

  lemma {:induction false} SkipComponents(s: seq<char>, i: nat)
    requires i <= |s|
    ensures Components(s[i..]) == Components(s[Skip(s, i)..])
    decreases |s| - i
  {
    if i < |s| && s[i] == '/' {
      ComponentsSlash(s[i..]);
      assert s[i..][1..] == s[i + 1..];
      SkipComponents(s, i + 1);
    }
  }

  lemma {:induction false} NoComponents()
    ensures Components([]) == []
  {
    assert Fields([]) == [[]];
  }

  /** Whatever the repeated or trailing slashes, get_name goes through the components. */
  lemma {:induction false} NamesAreComponents(s: seq<char>, i: nat)
    requires i <= |s|
    ensures Names(s, i) == Components(s[i..])
    decreases |s| - i
  {
    hide Components;
    var a := Skip(s, i);
    SkipComponents(s, i);
    if a == |s| {
      assert s[a..] == [];
      NoComponents();
    } else {
      var b := WordEnd(s, a);
      ComponentsWord(s[a..], b - a);
      assert s[a..][..b - a] == s[a..b] && s[a..][b - a..] == s[b..];
      NamesAreComponents(s, b);
    }
  }

  /** Where get_name stops. */
  function Rest(s: seq<char>, i: nat): (r: nat)
    requires i <= |s|
    ensures i <= r <= |s|
  {
    Skip(s, WordEnd(s, Skip(s, i)))
  }

  /** The component get_name copies, if it fits. */
  function NextName(s: seq<char>, i: nat): Name
    requires i <= |s|
  {
    s[Skip(s, i)..WordEnd(s, Skip(s, i))]
  }

  /** The character at place i of a string that ends where s does. */
  function CharAt(s: seq<char>, i: nat): char {
    if i < |s| then s[i] else '\0'
  }

  predicate IsString(s: seq<char>) {
    forall k :: 0 <= k < |s| ==> s[k] != '\0'
  }

  /** get_name, from place at of the path s. */
  method GetName(s: seq<char>, at: nat) returns (name: Name, rest: int)
    requires at <= |s| && IsString(s)
    ensures rest == if Rest(s, at) - at >= PATH_MAX then NULL else Rest(s, at)
    ensures rest != NULL ==> name == Cut(NextName(s, at))
  {
    hide IsString, Cut, Skip, WordEnd;
    var rnp := SkipAll(s, at);
    ghost var a := rnp;
    name, rnp := CopyName(s, at, rnp);
    ghost var b := rnp;
    SkipWord(s, at, a, b);
    var c := CharAt(s, rnp);
    while c == '/' && rnp < at + PATH_MAX
      invariant b <= rnp <= |s| && c == CharAt(s, rnp) && Skip(s, b) == Skip(s, rnp)
      decreases |s| - rnp
    {
      SkipOne(s, rnp);
      rnp := rnp + 1;
      c := CharAt(s, rnp);
    }
    SkipOne(s, rnp);
    SkipBounds(s, rnp);
    if rnp >= at + PATH_MAX {
      return name, NULL;
    }
    return name, rnp;
  }

  lemma {:induction false} SkipOne(s: seq<char>, i: nat)
    requires i <= |s|
    ensures if CharAt(s, i) == '/' then i < |s| && Skip(s, i) == Skip(s, i + 1) else Skip(s, i) == i
  {
  }

  lemma {:induction false} SkipBounds(s: seq<char>, i: nat)
    requires i <= |s|
    ensures i <= Skip(s, i) <= |s|
  {
  }

  /** If the copy stopped early, so does everything else: the name was too long. */
  lemma {:induction false} SkipWord(s: seq<char>, at: nat, a: nat, b: nat)
    requires at <= a <= b <= |s| && a == Skip(s, at) && (b == WordEnd(s, a) || (at + PATH_MAX <= b <= WordEnd(s, a)))
    ensures b == WordEnd(s, a) ==> Rest(s, at) == Skip(s, b) && NextName(s, at) == s[a..b]
    ensures b != WordEnd(s, a) ==> Rest(s, at) - at >= PATH_MAX && Skip(s, b) - at >= PATH_MAX
  {
  }

  /** The first loop of get_name, over leading slashes. */
  method SkipAll(s: seq<char>, at: nat) returns (rnp: nat)
    requires at <= |s|
    ensures rnp == Skip(s, at)
  {
    rnp := at;
    while CharAt(s, rnp) == '/'
      invariant at <= rnp <= |s| && Skip(s, at) == Skip(s, rnp)
      decreases |s| - rnp
    {
      rnp := rnp + 1;
    }
  }

  /** The second loop of get_name, which copies as much of the component as the buffer holds. */
  method CopyName(s: seq<char>, at: nat, a: nat) returns (name: Name, rnp: nat)
    requires at <= a <= |s| && IsString(s)
    ensures a <= rnp <= |s| && name == Cut(s[a..rnp]) && (rnp == WordEnd(s, a) || (at + PATH_MAX <= rnp <= WordEnd(s, a)))
  {
    name, rnp := [], a;
    var c := CharAt(s, rnp);
    while rnp < at + PATH_MAX && c != '/' && c != '\0'
      invariant a <= rnp <= |s| && c == CharAt(s, rnp) && WordEnd(s, a) == WordEnd(s, rnp)
      invariant name == Cut(s[a..rnp])
      decreases |s| - rnp
    {
      assert s[a..rnp + 1] == s[a..rnp] + [c];
      if |name| < NAME_MAX {
        name := name + [c];
      }
      rnp := rnp + 1;
      c := CharAt(s, rnp);
    }
  }

  function Cut(n: Name): Name {
    if |n| <= NAME_MAX then n else n[..NAME_MAX]
  }

  lemma {:induction false} NamesStep(s: seq<char>, i: nat)
    requires i <= |s|
    ensures NextName(s, i) == [] <==> Names(s, i) == []
    ensures Names(s, i) == (if NextName(s, i) == [] then [] else [NextName(s, i)] + Names(s, Rest(s, i)))
    ensures Rest(s, i) == |s| <==> |Names(s, i)| <= 1
    ensures Rest(s, i) < |s| ==> i < Rest(s, i)
  {
    var a := Skip(s, i);
    var b := WordEnd(s, a);
    SkipTwice(s, b);
    assert Names(s, b) == Names(s, Skip(s, b));
    assert Names(s, b) == [] <==> Skip(s, b) == |s|;
  }

  lemma {:induction false} SkipTwice(s: seq<char>, i: nat)
    requires i <= |s|
    ensures Skip(s, Skip(s, i)) == Skip(s, i)
  {
  }

  // ---------- Directories ----------

  datatype Entry = Entry(name: Name, ino: nat)

  /** An inode; the entries of a directory are those of all its zones, in order. */
  datatype Node = Node(isDir: bool, links: nat, entries: seq<Entry>)

  /** The inode number of the first entry called name, or ERR. */
  function Lookup(es: seq<Entry>, name: Name): int
    decreases |es|
  {
    if es == [] then ERR else if es[0].name == name then es[0].ino else Lookup(es[1..], name)
  }

  /** Entry k is the first one called name. */
  ghost predicate FirstCalled(es: seq<Entry>, name: Name, k: nat) {
    k < |es| && es[k].name == name && forall j :: 0 <= j < k ==> es[j].name != name
  }

  lemma {:induction false} LookupMeaning(es: seq<Entry>, name: Name)
    ensures Lookup(es, name) == ERR <==> forall j :: 0 <= j < |es| ==> es[j].name != name
    ensures forall k: nat :: FirstCalled(es, name, k) ==> Lookup(es, name) == es[k].ino
    ensures Lookup(es, name) != ERR ==> exists k: nat :: FirstCalled(es, name, k) && es[k].ino == Lookup(es, name)
    decreases |es|
  {
    if es != [] {
      var rest := es[1..];
      LookupMeaning(rest, name);
      if es[0].name == name {
        assert FirstCalled(es, name, 0);
      } else {
        forall j | 0 <= j < |es| && es[j].name == name
          ensures Lookup(es, name) != ERR
        {
          assert rest[j - 1].name == name;
        }
        forall k: nat | FirstCalled(es, name, k)
          ensures Lookup(es, name) == es[k].ino
        {
          assert FirstCalled(rest, name, k - 1);
        }
        if Lookup(es, name) != ERR {
          var k: nat :| FirstCalled(rest, name, k) && rest[k].ino == Lookup(es, name);
          assert FirstCalled(es, name, k + 1);
        }
      }
    }
  }

  /** The index of the first entry for inode c, or ERR. */
  function EntryOf(es: seq<Entry>, c: nat): (r: int)
    ensures r == ERR || (0 <= r < |es| && es[r].ino == c)
    ensures forall k :: 0 <= k < |es| && (r == ERR || k < r) ==> es[k].ino != c
    decreases |es|
  {
    if es == [] then ERR
    else if es[0].ino == c then 0
    else
      var r := EntryOf(es[1..], c);
      if r == ERR then ERR else r + 1
  }

  /** What advance finds: nothing for an empty name. */
  function Step(n: Node, name: Name): int {
    if name == [] then ERR else Lookup(n.entries, name)
  }

  /** advance. */
  method Advance(n: Node, name: Name) returns (inum: int)
    ensures inum == Step(n, name)
    ensures inum == ERR <==> name == [] || forall j :: 0 <= j < |n.entries| ==> n.entries[j].name != name
    ensures inum != ERR ==> exists k: nat :: FirstCalled(n.entries, name, k) && n.entries[k].ino == inum
  {
    if name == [] {
      return ERR;
    }
    LookupMeaning(n.entries, name);
    assert n.entries[0..] == n.entries;
    for i := 0 to |n.entries|
      invariant Lookup(n.entries, name) == Lookup(n.entries[i..], name)
    {
      assert n.entries[i..][1..] == n.entries[i + 1..];
      if n.entries[i].name == name {
        return n.entries[i].ino;
      }
    }
    return ERR;
  }

  /** get_child_inode_name; len is ERR if there is no entry for the child. */
  method GetChildInodeName(n: Node, child: nat) returns (name: Name, len: int)
    ensures var k := EntryOf(n.entries, child);
      if k == ERR then len == ERR else name == n.entries[k].name && len == |name|
  {
    for i := 0 to |n.entries|
      invariant forall k :: 0 <= k < i ==> n.entries[k].ino != child
    {
      if n.entries[i].ino == child {
        return n.entries[i].name, |n.entries[i].name|;
      }
    }
    return [], ERR;
  }

  // ---------- Resolving ----------

  /** The result of a path walk: a code, the last directory, and the inode found; NULL for none. */
  datatype Outcome = Outcome(code: int, lastDir: int, ino: int)

  /** Every entry names an inode that exists. */
  predicate Sane(fs: seq<Node>) {
    forall d :: 0 <= d < |fs| ==> forall k :: 0 <= k < |fs[d].entries| ==> fs[d].entries[k].ino < |fs|
  }

  lemma {:induction false} StepSane(fs: seq<Node>, d: nat, name: Name)
    requires Sane(fs) && d < |fs|
    ensures ERR <= Step(fs[d], name) < |fs|
  {
    LookupSane(fs[d].entries, name, |fs|);
  }

  lemma {:induction false} LookupSane(es: seq<Entry>, name: Name, n: nat)
    requires forall k :: 0 <= k < |es| ==> es[k].ino < n
    ensures ERR <= Lookup(es, name) < n
    decreases |es|
  {
    if es != [] {
      LookupSane(es[1..], name, n);
    }
  }

  /** Resolving the names from inode rip on: the last one may be missing, the others must be directories that exist. */
  function Walk(fs: seq<Node>, rip: nat, names: seq<Name>): Outcome
    requires Sane(fs) && rip < |fs|
    decreases |names|
  {
    if !fs[rip].isDir then Outcome(ENOTDIR, NULL, NULL)
    else
      var name := if names == [] then [] else names[0];
      var inum := Step(fs[rip], name);
      if |names| <= 1 then Outcome(OK, rip, if inum == ERR then NULL else inum)
      else if inum == ERR then Outcome(OK, NULL, NULL)
      else
        StepSane(fs, rip, name);
        Walk(fs, inum, names[1..])
  }

  /** Inode e has the first entry called name of inode d. */
  ghost predicate Leads(fs: seq<Node>, d: nat, name: Name, e: nat) {
    d < |fs| && e < |fs| && name != [] && exists k: nat :: FirstCalled(fs[d].entries, name, k) && fs[d].entries[k].ino == e
  }

  /** No entry of d is called name. */
  ghost predicate DeadEnd(fs: seq<Node>, d: nat, name: Name) {
    d < |fs| && (name == [] || forall j :: 0 <= j < |fs[d].entries| ==> fs[d].entries[j].name != name)
  }

  /** The inodes ds are those that the names lead to, one after the other, and all but the last are directories. */
  ghost predicate Route(fs: seq<Node>, names: seq<Name>, ds: seq<nat>) {
    && 0 < |ds| && (|ds| == 1 || |ds| <= |names|) && ds[|ds| - 1] < |fs|
    && forall k :: 0 <= k < |ds| - 1 ==> ds[k] < |fs| && fs[ds[k]].isDir && Leads(fs, ds[k], names[k], ds[k + 1])
  }

  /** What resolving names comes to, with the route ds on which it got as far as it could: to something that is no directory; to
      the directory of the last name, and there to what has that name, or to nothing; or to a name in the middle that is not there. */
  ghost predicate Resolves(fs: seq<Node>, start: nat, names: seq<Name>, ds: seq<nat>, o: Outcome) {
    && Route(fs, names, ds) && ds[0] == start
    && var l := |ds| - 1; var d := ds[l]; var name := if l < |names| then names[l] else [];
      if !fs[d].isDir then o == Outcome(ENOTDIR, NULL, NULL)
      else if |names| <= l + 1 then
        o.code == OK && o.lastDir == d && if DeadEnd(fs, d, name) then o.ino == NULL else 0 <= o.ino && Leads(fs, d, name, o.ino)
      else o == Outcome(OK, NULL, NULL) && DeadEnd(fs, d, name)
  }

  lemma {:induction false} StepLeads(fs: seq<Node>, d: nat, name: Name)
    requires Sane(fs) && d < |fs|
    ensures ERR <= Step(fs[d], name) < |fs| && (Step(fs[d], name) == ERR <==> DeadEnd(fs, d, name))
    ensures Step(fs[d], name) != ERR ==> Leads(fs, d, name, Step(fs[d], name))
    ensures forall e: nat :: Leads(fs, d, name, e) ==> Step(fs[d], name) == e
  {
    StepSane(fs, d, name);
    LookupMeaning(fs[d].entries, name);
  }

  /** The walk resolves the names. */
  lemma {:induction false} WalkResolves(fs: seq<Node>, start: nat, names: seq<Name>) returns (ds: seq<nat>)
    requires Sane(fs) && start < |fs|
    ensures Resolves(fs, start, names, ds, Walk(fs, start, names))
    decreases |names|
  {
    hide Leads, DeadEnd, Step;
    ds := [start];
    var name := if names == [] then [] else names[0];
    StepLeads(fs, start, name);
    if fs[start].isDir && |names| > 1 && Step(fs[start], name) != ERR {
      var es := WalkResolves(fs, Step(fs[start], name), names[1..]);
      ds := [start] + es;
      RouteOn(fs, names, start, es);
    }
  }

  lemma {:induction false} RouteOn(fs: seq<Node>, names: seq<Name>, start: nat, es: seq<nat>)
    requires start < |fs| && fs[start].isDir && |names| > 1 && Route(fs, names[1..], es) && Leads(fs, start, names[0], es[0])
    ensures Route(fs, names, [start] + es)
  {
    hide Leads;
    var ds := [start] + es;
    forall k | 0 <= k < |ds| - 1
      ensures ds[k] < |fs| && fs[ds[k]].isDir && Leads(fs, ds[k], names[k], ds[k + 1])
    {
      if k > 0 {
        assert ds[k] == es[k - 1] && names[k] == names[1..][k - 1];
      }
    }
  }

  /** There is nothing else that they come to. */
  lemma {:induction false} ResolvesIsWalk(fs: seq<Node>, start: nat, names: seq<Name>, ds: seq<nat>, o: Outcome)
    requires Sane(fs) && start < |fs| && Resolves(fs, start, names, ds, o)
    ensures o == Walk(fs, start, names)
    decreases |names|
  {
    hide Leads, DeadEnd, Step;
    var name := if names == [] then [] else names[0];
    StepLeads(fs, start, name);
    if |ds| > 1 {
      var es := ds[1..];
      assert Leads(fs, ds[0], names[0], ds[1]);
      assert Route(fs, names[1..], es) by {
        forall k | 0 <= k < |es| - 1
          ensures es[k] < |fs| && fs[es[k]].isDir && Leads(fs, es[k], names[1..][k], es[k + 1])
        {
          assert Leads(fs, ds[k + 1], names[k + 1], ds[k + 2]);
        }
      }
      ResolvesIsWalk(fs, ds[1], names[1..], es, o);
    }
  }

  predicate Short(ns: seq<Name>) {
    forall k :: 0 <= k < |ns| ==> |ns[k]| < NAME_MAX
  }

  /** __eath_path from inode start on. */
  method EatPath(fs: seq<Node>, start: nat, path: seq<char>) returns (o: Outcome)
    requires Sane(fs) && start < |fs| && IsString(path)
    ensures fs[start].links == 0 || path == [] ==> o == Outcome(ENOENT, NULL, NULL)
    ensures fs[start].links > 0 && path != [] && |path| < PATH_MAX && Short(Components(path)) ==>
      o == Walk(fs, start, Components(path)) && exists ds :: Resolves(fs, start, Components(path), ds, o)
  {
    hide Skip, WordEnd, Names, NextName, Rest, Components;
    var rip, at := start, 0;
    if fs[rip].links == 0 || path == [] {
      return Outcome(ENOENT, NULL, NULL);
    }
    ghost var fine := |path| < PATH_MAX && Short(Components(path));
    ghost var _ := WalkResolves(fs, start, Components(path));
    NamesAreComponents(path, 0);
    assert path[0..] == path;
    while true
      invariant 0 <= at <= |path| && 0 <= rip < |fs|
      invariant fine ==> Short(Names(path, at)) && Walk(fs, rip, Names(path, at)) == Walk(fs, start, Components(path))
      decreases |path| - at
    {
      var name, rest := GetName(path, at);
      RestBounds(path, at);
      if rest == NULL {
        return Outcome(ENOENT, NULL, NULL);
      }
      NamesStep(path, at);
      StepSane(fs, rip, name);
      if rest == |path| {
        if fs[rip].isDir {
          var inum := Advance(fs[rip], name);
          return Outcome(OK, rip, if inum == ERR then NULL else inum);
        } else {
          return Outcome(ENOTDIR, NULL, NULL);
        }
      }
      if !fs[rip].isDir {
        return Outcome(ENOTDIR, NULL, NULL);
      }
      var inum := Advance(fs[rip], name);
      if inum == ERR {
        return Outcome(OK, NULL, NULL);
      }
      assert fine ==> Names(path, at)[1..] == Names(path, rest);
      rip, at := inum, rest;
    }
  }

  lemma {:induction false} RestBounds(s: seq<char>, i: nat)
    requires i <= |s|
    ensures i <= Rest(s, i) <= |s| && (|NextName(s, i)| <= NAME_MAX ==> Cut(NextName(s, i)) == NextName(s, i))
  {
  }

  // ---------- The tree ----------

  const DOTDOT: Name := ['.', '.']

  /** A name that can stand between slashes. */
  predicate GoodName(n: Name) {
    n != [] && |n| < NAME_MAX && forall k :: 0 <= k < |n| ==> n[k] != '/' && n[k] != '\0'
  }

  /** An entry is unused, or has a good name that no other entry has. */
  ghost predicate EntryOk(es: seq<Entry>, k: nat)
    requires k < |es|
  {
    && (if es[k].name == [] then es[k].ino == 0 else GoodName(es[k].name))
    && forall j :: 0 <= j < |es| && j != k && es[j].name == es[k].name ==> es[k].name == []
  }

  /** The directory that ".." in d leads to. */
  function Parent(fs: seq<Node>, d: nat): int
    requires d < |fs|
  {
    Step(fs[d], DOTDOT)
  }

  /** Directory d hangs from a directory one step closer to the root, which has an entry for it. */
  ghost predicate Hangs(fs: seq<Node>, depth: seq<nat>, d: nat)
    requires d < |fs| && |depth| == |fs|
  {
    && 0 < Parent(fs, d) < |fs| && fs[Parent(fs, d)].isDir && depth[d] == depth[Parent(fs, d)] + 1
    && EntryOf(fs[Parent(fs, d)].entries, d) != ERR
  }

  ghost predicate DirOk(fs: seq<Node>, depth: seq<nat>, d: nat)
    requires d < |fs| && |depth| == |fs|
  {
    && (forall k :: 0 <= k < |fs[d].entries| ==> EntryOk(fs[d].entries, k))
    && (d != ROOT ==> Hangs(fs, depth, d))
  }

  /** A tree of directories with unique names; depth is the distance from the root. */
  ghost predicate Tree(fs: seq<Node>, depth: seq<nat>) {
    && |fs| == |depth| && ROOT < |fs| && Sane(fs) && fs[ROOT].isDir && depth[ROOT] == 0
    && forall d :: 0 < d < |fs| && fs[d].isDir ==> DirOk(fs, depth, d)
  }

  /** The name of directory d in its parent. */
  ghost function NameOf(fs: seq<Node>, depth: seq<nat>, d: nat): Name
    requires d < |fs| && |depth| == |fs| && Hangs(fs, depth, d)
  {
    var es := fs[Parent(fs, d)].entries;
    es[EntryOf(es, d)].name
  }

  /** The names on the way from the root to d. */
  ghost function PathTo(fs: seq<Node>, depth: seq<nat>, d: nat): seq<Name>
    requires Tree(fs, depth) && 0 < d < |fs| && fs[d].isDir
    decreases depth[d]
  {
    if d == ROOT then [] else
      assert DirOk(fs, depth, d);
      PathTo(fs, depth, Parent(fs, d)) + [NameOf(fs, depth, d)]
  }

  lemma {:induction false} LookupUnique(es: seq<Entry>, k: nat)
    requires k < |es| && forall j :: 0 <= j < k ==> es[j].name != es[k].name
    ensures Lookup(es, es[k].name) == es[k].ino
    decreases k
  {
    if k > 0 {
      LookupUnique(es[1..], k - 1);
    }
  }

  /** Looking the name up leads back to the directory. */
  lemma {:induction false} NameLeadsBack(fs: seq<Node>, depth: seq<nat>, d: nat)
    requires Tree(fs, depth) && 0 < d < |fs| && fs[d].isDir && d != ROOT
    ensures Hangs(fs, depth, d) && GoodName(NameOf(fs, depth, d))
    ensures Step(fs[Parent(fs, d)], NameOf(fs, depth, d)) == d
  {
    assert DirOk(fs, depth, d);
    var p := Parent(fs, d);
    assert DirOk(fs, depth, p);
    var es := fs[p].entries;
    var k := EntryOf(es, d);
    assert EntryOk(es, k);
    LookupUnique(es, k);
  }

  lemma {:induction false} PathToGood(fs: seq<Node>, depth: seq<nat>, d: nat)
    requires Tree(fs, depth) && 0 < d < |fs| && fs[d].isDir
    ensures forall k :: 0 <= k < |PathTo(fs, depth, d)| ==> GoodName(PathTo(fs, depth, d)[k])
    decreases depth[d]
  {
    if d != ROOT {
      NameLeadsBack(fs, depth, d);
      PathToGood(fs, depth, Parent(fs, d));
    }
  }

  /** Walking down to d, and on. */
  lemma {:induction false} WalkDown(fs: seq<Node>, depth: seq<nat>, d: nat, rest: seq<Name>)
    requires Tree(fs, depth) && 0 < d < |fs| && fs[d].isDir && rest != []
    ensures Walk(fs, ROOT, PathTo(fs, depth, d) + rest) == Walk(fs, d, rest)
    decreases depth[d]
  {
    if d == ROOT {
      assert [] + rest == rest;
    } else {
      NameLeadsBack(fs, depth, d);
      var p, n := Parent(fs, d), NameOf(fs, depth, d);
      assert PathTo(fs, depth, d) + rest == PathTo(fs, depth, p) + ([n] + rest);
      assert ([n] + rest)[1..] == rest;
      WalkDown(fs, depth, p, [n] + rest);
    }
  }

  /** The names, each followed by a slash. */
  function Cat(ns: seq<Name>): seq<char>
    decreases |ns|
  {
    if ns == [] then [] else ns[0] + ['/'] + Cat(ns[1..])
  }

  lemma {:induction false} CatComponents(ns: seq<Name>)
    requires forall k :: 0 <= k < |ns| ==> GoodName(ns[k])
    ensures Components(Cat(ns)) == ns
    decreases |ns|
  {
    var s := Cat(ns);
    if ns == [] {
      assert Fields([]) == [[]];
    } else {
      var n := |ns[0]|;
      ComponentsWord(s, n);
      assert s[..n] == ns[0] && s[n..][1..] == Cat(ns[1..]);
      ComponentsSlash(s[n..]);
      CatComponents(ns[1..]);
    }
  }

  /** The string that sys_getcwd builds for d. */
  ghost function CwdOf(fs: seq<Node>, depth: seq<nat>, d: nat): seq<char>
    requires Tree(fs, depth) && 0 < d < |fs| && fs[d].isDir
  {
    ['/'] + Cat(PathTo(fs, depth, d))
  }

  /** It has one slash at the beginning, one at the end, and one between each two names. */
  lemma {:induction false} CwdFields(fs: seq<Node>, depth: seq<nat>, d: nat)
    requires Tree(fs, depth) && 0 < d < |fs| && fs[d].isDir
    ensures Fields(CwdOf(fs, depth, d)) == [[]] + PathTo(fs, depth, d) + [[]]
  {
    hide Tree, PathTo;
    PathToGood(fs, depth, d);
    var ns := PathTo(fs, depth, d);
    CatSlashed(ns);
    assert ([[]] + (ns + [[]]))[1..] == ns + [[]];
    assert [[]] + ns + [[]] == [[]] + (ns + [[]]);
    FieldsIff(CwdOf(fs, depth, d), [[]] + ns + [[]]);
  }

  lemma {:induction false} CatSlashed(ns: seq<Name>)
    ensures Slashed(ns + [[]]) == Cat(ns)
    decreases |ns|
  {
    if ns != [] {
      CatSlashed(ns[1..]);
      assert (ns + [[]])[1..] == ns[1..] + [[]];
    }
  }

  lemma {:induction false} CwdComponents(fs: seq<Node>, depth: seq<nat>, d: nat)
    requires Tree(fs, depth) && 0 < d < |fs| && fs[d].isDir
    ensures Components(CwdOf(fs, depth, d)) == PathTo(fs, depth, d) && Short(PathTo(fs, depth, d))
  {
    PathToGood(fs, depth, d);
    var s := CwdOf(fs, depth, d);
    ComponentsSlash(s);
    assert s[1..] == Cat(PathTo(fs, depth, d));
    CatComponents(PathTo(fs, depth, d));
  }

  /** Resolving the path of directory d from the root finds d, except for the root itself, which is found as the last
      directory only. */
  lemma {:induction false} CwdLeadsBack(fs: seq<Node>, depth: seq<nat>, d: nat)
    requires Tree(fs, depth) && 0 < d < |fs| && fs[d].isDir
    ensures var o := Walk(fs, ROOT, Components(CwdOf(fs, depth, d)));
      && o.code == OK && o.lastDir == (if d == ROOT then ROOT else Parent(fs, d))
      && (o.ino == d <==> d != ROOT) && (d == ROOT ==> o.ino == NULL)
  {
    hide Components;
    CwdComponents(fs, depth, d);
    if d != ROOT {
      NameLeadsBack(fs, depth, d);
      WalkDown(fs, depth, Parent(fs, d), [NameOf(fs, depth, d)]);
    }
  }

  lemma {:induction false} CatAppend(xs: seq<Name>, ys: seq<Name>)
    ensures Cat(xs + ys) == Cat(xs) + Cat(ys)
    decreases |xs|
  {
    if xs == [] {
      assert xs + ys == ys;
    } else {
      assert (xs + ys)[1..] == xs[1..] + ys;
      CatAppend(xs[1..], ys);
    }
  }

  /** memcpy of a name into the buffer. */
  method Put(buf: array<char>, p: nat, name: Name)
    requires p + |name| <= buf.Length
    modifies buf
    ensures buf[..] == old(buf[..p]) + name + old(buf[p + |name|..])
  {
    for i := 0 to |name|
      invariant buf[..p] == old(buf[..p]) && buf[p..p + i] == name[..i] && buf[p + i..] == old(buf[p + i..])
    {
      buf[p + i] := name[i];
    }
  }

  /** One turn of sys_getcwd's loop: a name and a slash go in front. */
  method Prepend(buf: array<char>, p0: nat, size: nat, name: Name) returns (p: nat)
    requires buf.Length == size + 1 && |name| + 1 <= p0 <= size
    modifies buf
    ensures p == p0 - 1 - |name| && buf[p..size] == name + ['/'] + old(buf[p0..size]) && buf[size] == old(buf[size])
  {
    ghost var a := buf[..];
    p := p0 - 1;
    buf[p] := '/';
    ghost var b := buf[..];
    assert b == a[p0 - 1 := '/'];
    p := p - |name|;
    Put(buf, p, name);
    PrependShape(a, b, buf[..], p0, size, name);
  }

  lemma {:induction false} PrependShape(a: seq<char>, b: seq<char>, c: seq<char>, p0: nat, size: nat, name: Name)
    requires |a| == size + 1 && |name| + 1 <= p0 <= size && b == a[p0 - 1 := '/']
    requires c == b[..p0 - 1 - |name|] + name + b[p0 - 1..]
    ensures c[p0 - 1 - |name|..size] == name + ['/'] + a[p0..size] && c[size] == a[size]
  {
    var p := p0 - 1 - |name|;
    assert c[p..] == name + b[p0 - 1..];
    assert b[p0 - 1..] == ['/'] + a[p0..];
    assert c[p..size] == (name + (['/'] + a[p0..]))[..size - p];
  }

  /** sys_getcwd, into a buffer of size characters and a terminator; r is where in it the path begins. */
  method SysGetcwd(fs: seq<Node>, ghost depth: seq<nat>, cwd: nat, size: nat, buf: array<char>) returns (r: int)
    requires Tree(fs, depth) && 0 < cwd < |fs| && fs[cwd].isDir && buf.Length == size + 1
    modifies buf
    ensures r == ERANGE <==> size <= 1 || (cwd != ROOT && |CwdOf(fs, depth, cwd)| >= size)
    ensures r != ERANGE ==> 0 <= r < size && buf[r..size] == CwdOf(fs, depth, cwd) && buf[size] == '\0'
  {
    hide Tree, PathTo, Step, EntryOf;
    if size <= 1 {
      return ERANGE;
    }
    RootPath(fs, depth);
    var p, len, inode := size, 1, cwd;
    buf[p] := '\0';
    ghost var tail: seq<Name> := [];
    assert buf[p..size] == Cat(tail);
    assert PathTo(fs, depth, cwd) == PathTo(fs, depth, inode) + tail;
    while inode != ROOT
      invariant 0 < inode < |fs| && fs[inode].isDir && |depth| == |fs|
      invariant PathTo(fs, depth, cwd) == PathTo(fs, depth, inode) + tail
      invariant 0 < p <= size && buf[p..size] == Cat(tail) && buf[size] == '\0' && p == size - |Cat(tail)|
      invariant len == 1 + |Cat(tail)| && (tail != [] ==> len < size) && (inode != cwd ==> tail != [])
      decreases depth[inode]
    {
      OneUp(fs, depth, inode);
      var inum := Advance(fs[inode], DOTDOT);
      var name, ret := GetChildInodeName(fs[inum], inode);
      if ret == ERR {
        return EFAULT;
      }
      ghost var more := [name] + tail;
      assert more[1..] == tail && Cat(more) == name + ['/'] + Cat(tail);
      assert PathTo(fs, depth, cwd) == PathTo(fs, depth, inum) + more;
      CatAppend(PathTo(fs, depth, inum), more);
      inode := inum;
      len := len + ret + 1;
      if len >= size {
        return ERANGE;
      }
      p := Prepend(buf, p, size, name);
      tail := more;
    }
    assert PathTo(fs, depth, cwd) == tail;
    p := p - 1;
    ghost var was := buf[p + 1..size];
    buf[p] := '/';
    assert buf[p..size] == ['/'] + was;
    r := p;
  }

  lemma {:induction false} RootPath(fs: seq<Node>, depth: seq<nat>)
    requires Tree(fs, depth)
    ensures PathTo(fs, depth, ROOT) == [] && |depth| == |fs|
  {
  }

  lemma {:induction false} OneUp(fs: seq<Node>, depth: seq<nat>, d: nat)
    requires Tree(fs, depth) && 0 < d < |fs| && fs[d].isDir && d != ROOT
    ensures |depth| == |fs| && Hangs(fs, depth, d)
    ensures var p := Step(fs[d], DOTDOT);
      && 0 < p < |fs| && fs[p].isDir && depth[p] < depth[d] && EntryOf(fs[p].entries, d) != ERR
      && 0 <= EntryOf(fs[p].entries, d) < |fs[p].entries|
      && PathTo(fs, depth, d) == PathTo(fs, depth, p) + [fs[p].entries[EntryOf(fs[p].entries, d)].name]
  {
    assert DirOk(fs, depth, d);
  }

  lemma {:induction false} CatIsString(ns: seq<Name>)
    requires forall k :: 0 <= k < |ns| ==> GoodName(ns[k])
    ensures IsString(Cat(ns))
    decreases |ns|
  {
    if ns != [] {
      CatIsString(ns[1..]);
    }
  }

  /** getcwd, and then the string it left in the buffer is resolved from the root. */
  method CwdAndBack(fs: seq<Node>, ghost depth: seq<nat>, cwd: nat, size: nat, buf: array<char>) returns (r: int, o: Outcome)
    requires Tree(fs, depth) && 0 < cwd < |fs| && fs[cwd].isDir && buf.Length == size + 1 && fs[ROOT].links > 0
    modifies buf
    ensures r == ERANGE <==> size <= 1 || (cwd != ROOT && |CwdOf(fs, depth, cwd)| >= size)
    ensures r != ERANGE && |CwdOf(fs, depth, cwd)| < PATH_MAX ==>
      && o.code == OK && (if cwd == ROOT then o.lastDir == ROOT && o.ino == NULL else o.ino == cwd)
  {
    hide Tree, Components, PathTo, Walk;
    TreeSane(fs, depth);
    o := Outcome(ENOENT, NULL, NULL);
    r := SysGetcwd(fs, depth, cwd, size, buf);
    if r != ERANGE {
      CwdLeadsBack(fs, depth, cwd);
      CwdComponents(fs, depth, cwd);
      PathToGood(fs, depth, cwd);
      CatIsString(PathTo(fs, depth, cwd));
      o := EatPath(fs, ROOT, buf[r..size]);
    }
  }

  lemma {:induction false} TreeSane(fs: seq<Node>, depth: seq<nat>)
    requires Tree(fs, depth)
    ensures Sane(fs) && ROOT < |fs|
  {
  }
}
