/** Which of the possible matches is reported, and with which submatches.

    A trace is a successful run of a matcher that always guesses right: where it ends, what was chosen whenever
    there was a choice, and the groups passed through, in the order in which they were left.  Of a choice, 0 is what the
    program tries first: the earlier alternative, or one iteration more.  The traces of a pattern are given by
    recursion over it, without backtracking; what is proved is that the program's ordered ways to match are the traces, each
    one once and in the lexicographic order of the choices, and that a way has of every group the last passage.
 */
module RegexTraces {
  import opened RegexSyntax
  import opened RegexSemantics
  import opened RegexMatch

  datatype Passage = Passage(no: nat, start: nat, end: nat)

  datatype Trace = Trace(end: nat, choices: seq<nat>, passages: seq<Passage>)

  /** First t, then u. */
  function Join(t: Trace, u: Trace): Trace {
    Trace(u.end, t.choices + u.choices, t.passages + u.passages)
  }

  function Chose(c: nat, t: Trace): Trace {
    t.(choices := [c] + t.choices)
  }

  /** Group no, entered at i, is left at the end of t. */
  function Closed(t: Trace, no: nat, i: nat): Trace {
    t.(passages := t.passages + [Passage(no, i, t.end)])
  }

  ghost predicate TraceAtom(a: Atom, s: Text, bol: int, i: nat, t: Trace)
    decreases a, 0
  {
    match a
    case Group(no, alts) => exists u :: t == Closed(u, no, i) && TraceAlts(alts, s, bol, i, u)
    case _ => MatchAtom(a, s, bol, false, i, t.end) && t.choices == [] && t.passages == []
  }

  /** One iteration that consumes something, and then zero or more. */
  ghost predicate TracePlus(a: Atom, s: Text, bol: int, i: nat, t: Trace)
    decreases a, 1, if i <= |s| then |s| - i else 0, 0
  {
    exists u, v :: t == Join(u, v) && TraceAtom(a, s, bol, i, u) && i < u.end <= |s| && TraceStar(a, s, bol, u.end, v)
  }

  ghost predicate TraceStar(a: Atom, s: Text, bol: int, i: nat, t: Trace)
    decreases a, 1, if i <= |s| then |s| - i else 0, 1
  {
    t == Trace(i, [1], []) || exists u :: t == Chose(0, u) && TracePlus(a, s, bol, i, u)
  }

  ghost predicate TracePiece(p: Piece, s: Text, bol: int, i: nat, t: Trace)
    decreases p, 0
  {
    match p.rep
    case Once => TraceAtom(p.atom, s, bol, i, t)
    case Star => TraceStar(p.atom, s, bol, i, t)
    case Plus => TracePlus(p.atom, s, bol, i, t)
    case Quest => t == Trace(i, [1], []) || exists u :: t == Chose(0, u) && TraceAtom(p.atom, s, bol, i, u)
  }

  ghost predicate TraceBranch(b: Branch, s: Text, bol: int, i: nat, t: Trace)
    decreases b, 0
  {
    match b
    case Empty => t == Trace(i, [], [])
    case Cons(p, rest) => exists u, v :: t == Join(u, v) && TracePiece(p, s, bol, i, u) && TraceBranch(rest, s, bol, u.end, v)
  }

  ghost predicate TraceAlts(alts: Alts, s: Text, bol: int, i: nat, t: Trace)
    decreases alts, 0
  {
    if alts.Last? then TraceBranch(alts.branch, s, bol, i, t)
    else
      || (exists u :: t == Chose(0, u) && TraceBranch(alts.branch, s, bol, i, u))
      || (exists u :: t == Chose(1, u) && TraceAlts(alts.rest, s, bol, i, u))
  }

  // ---------- The order ----------

  /** Where c and d first differ, c has the smaller choice. */
  ghost predicate Prior(c: seq<nat>, d: seq<nat>) {
    exists k :: 0 <= k < |c| && k < |d| && PriorAt(c, d, k)
  }

  ghost predicate PriorAt(c: seq<nat>, d: seq<nat>, k: nat)
    requires k < |c| && k < |d|
  {
    c[k] < d[k] && c[..k] == d[..k]
  }

  ghost predicate Ordered(ts: seq<Trace>) {
    forall x, y :: 0 <= x < y < |ts| ==> Prior(ts[x].choices, ts[y].choices)
  }

  lemma {:induction false} PriorLonger(c: seq<nat>, d: seq<nat>, e: seq<nat>, f: seq<nat>)
    requires Prior(c, d)
    ensures Prior(c + e, d + f)
  {
    var k :| 0 <= k < |c| && k < |d| && PriorAt(c, d, k);
    assert (c + e)[..k] == c[..k] && (d + f)[..k] == d[..k];
    assert PriorAt(c + e, d + f, k);
  }

  lemma {:induction false} PriorAfter(b: seq<nat>, c: seq<nat>, d: seq<nat>)
    requires Prior(c, d)
    ensures Prior(b + c, b + d)
  {
    var k :| 0 <= k < |c| && k < |d| && PriorAt(c, d, k);
    assert (b + c)[..|b| + k] == b + c[..k] && (b + d)[..|b| + k] == b + d[..k];
    assert PriorAt(b + c, b + d, |b| + k);
  }

  lemma {:induction false} PriorChoice(x: nat, y: nat, c: seq<nat>, d: seq<nat>)
    requires x < y
    ensures Prior([x] + c, [y] + d)
  {
    assert PriorAt([x] + c, [y] + d, 0);
  }

  /** No two traces come before each other. */
  lemma {:induction false} PriorOneWay(c: seq<nat>, d: seq<nat>)
    requires Prior(c, d)
    ensures !Prior(d, c) && c != d
  {
    var k :| 0 <= k < |c| && k < |d| && PriorAt(c, d, k);
    forall l | 0 <= l < |d| && l < |c|
      ensures !PriorAt(d, c, l)
    {
      if l < k {
        assert c[l] == c[..k][l] && d[l] == d[..k][l];
      } else {
        assert k < l ==> c[..l][k] == c[k] && d[..l][k] == d[k];
      }
    }
  }

  lemma {:induction false} OrderedConcat(ts: seq<Trace>, us: seq<Trace>)
    requires Ordered(ts) && Ordered(us)
    requires forall x, y :: 0 <= x < |ts| && 0 <= y < |us| ==> Prior(ts[x].choices, us[y].choices)
    ensures Ordered(ts + us)
  {
    hide Prior;
  }

  // ---------- The submatches ----------

  /** The last passage through group no, or -1. */
  function LastPassage(ps: seq<Passage>, no: nat): (x: int)
    ensures -1 <= x < |ps| && (x >= 0 ==> ps[x].no == no) && forall y :: x < y < |ps| ==> ps[y].no != no
  {
    if ps == [] then -1 else if ps[|ps| - 1].no == no then |ps| - 1 else LastPassage(ps[..|ps| - 1], no)
  }

  /** What w has of group no is the last passage through it, and nothing if there was none. */
  ghost predicate LastNoted(w: Way, ps: seq<Passage>, no: nat) {
    var x := LastPassage(ps, no);
    && (no in w.starts <==> x >= 0) && (no in w.ends <==> x >= 0)
    && (x >= 0 ==> w.starts[no] == ps[x].start && w.ends[no] == ps[x].end)
  }

  ghost predicate Shows(w: Way, t: Trace) {
    w.end == t.end && forall no: nat :: LastNoted(w, t.passages, no)
  }

  ghost predicate AllShown(ws: seq<Way>, ts: seq<Trace>) {
    |ws| == |ts| && forall x :: 0 <= x < |ts| ==> Shows(ws[x], ts[x])
  }

  lemma {:induction false} LastJoin(ps: seq<Passage>, qs: seq<Passage>, no: nat)
    ensures var x, y := LastPassage(ps, no), LastPassage(qs, no);
            LastPassage(ps + qs, no) == if y >= 0 then |ps| + y else x
  {
    var x, y := LastPassage(ps, no), LastPassage(qs, no);
    LastIs(ps + qs, no, if y >= 0 then |ps| + y else x);
  }

  lemma {:induction false} LastIs(ps: seq<Passage>, no: nat, x: int)
    requires -1 <= x < |ps| && (x >= 0 ==> ps[x].no == no) && forall y :: x < y < |ps| ==> ps[y].no != no
    ensures LastPassage(ps, no) == x
  {
  }

  lemma {:induction false} ShowsJoin(w: Way, t: Trace, v: Way, u: Trace)
    requires Shows(w, t) && Shows(v, u)
    ensures Shows(Merge(w, v), Join(t, u))
  {
    hide LastPassage;
    forall no: nat
      ensures LastNoted(Merge(w, v), Join(t, u).passages, no)
    {
      assert LastNoted(w, t.passages, no) && LastNoted(v, u.passages, no);
      LastJoin(t.passages, u.passages, no);
      LastRange(t.passages, no);
      LastRange(u.passages, no);
    }
  }

  lemma {:induction false} LastRange(ps: seq<Passage>, no: nat)
    ensures -1 <= LastPassage(ps, no) < |ps|
  {
  }

  lemma {:induction false} ShowsPlain(j: nat, choices: seq<nat>)
    ensures Shows(Plain(j), Trace(j, choices, []))
  {
  }

  /** The numbers of all groups passed through are from lo up to hi. */
  ghost predicate Numbered(ps: seq<Passage>, lo: nat, hi: nat) {
    forall x :: 0 <= x < |ps| ==> lo <= ps[x].no < hi
  }

  ghost predicate AllNumbered(ts: seq<Trace>, lo: nat, hi: nat) {
    forall x :: 0 <= x < |ts| ==> Numbered(ts[x].passages, lo, hi)
  }

  lemma {:induction false} ShowsClosed(v: Way, t: Trace, no: nat, i: nat, hi: nat)
    requires Shows(v, t) && Numbered(t.passages, no + 1, hi)
    ensures Shows(Merge(Opening(no, i), Merge(v, Closing(no, v.end))), Closed(t, no, i))
  {
    hide LastPassage;
    var w, u := Merge(Opening(no, i), Merge(v, Closing(no, v.end))), Closed(t, no, i);
    LastNone(t.passages, no);
    forall k: nat
      ensures LastNoted(w, u.passages, k)
    {
      assert LastNoted(v, t.passages, k) && LastNoted(v, t.passages, no);
      LastJoin(t.passages, [Passage(no, i, t.end)], k);
      LastOne(Passage(no, i, t.end), k);
      LastRange(t.passages, k);
    }
  }

  lemma {:induction false} LastNone(ps: seq<Passage>, no: nat)
    requires forall x :: 0 <= x < |ps| ==> ps[x].no != no
    ensures LastPassage(ps, no) == -1
  {
  }

  lemma {:induction false} LastOne(p: Passage, no: nat)
    ensures LastPassage([p], no) == if p.no == no then 0 else -1
  {
    LastNone([p][..0], no);
  }

  // ---------- Lists of traces ----------

  function JoinAll(t: Trace, us: seq<Trace>): (r: seq<Trace>)
    ensures |r| == |us| && forall x :: 0 <= x < |r| ==> r[x] == Join(t, us[x])
  {
    seq(|us|, x requires 0 <= x < |us| => Join(t, us[x]))
  }

  function ChoseAll(c: nat, us: seq<Trace>): (r: seq<Trace>)
    ensures |r| == |us| && forall x :: 0 <= x < |r| ==> r[x] == Chose(c, us[x])
  {
    seq(|us|, x requires 0 <= x < |us| => Chose(c, us[x]))
  }

  function ClosedAll(us: seq<Trace>, no: nat, i: nat): (r: seq<Trace>)
    ensures |r| == |us| && forall x :: 0 <= x < |r| ==> r[x] == Closed(us[x], no, i)
  {
    seq(|us|, x requires 0 <= x < |us| => Closed(us[x], no, i))
  }

  /** ts are the traces of the ways ws, in order and with group numbers from lo up to hi. */
  ghost predicate Enumerates(ws: seq<Way>, ts: seq<Trace>, lo: nat, hi: nat) {
    AllShown(ws, ts) && Ordered(ts) && AllNumbered(ts, lo, hi)
  }

  lemma {:induction false} MergeAllAt(w: Way, vs: seq<Way>, x: nat)
    requires x < |vs|
    ensures MergeAll(w, vs)[x] == Merge(w, vs[x])
  {
    if x > 0 {
      MergeAllAt(w, vs[1..], x - 1);
    }
  }

  lemma {:induction false} EncloseAt(no: nat, i: nat, ws: seq<Way>, x: nat)
    requires x < |ws|
    ensures Enclose(no, i, ws)[x] == Merge(Opening(no, i), Merge(ws[x], Closing(no, ws[x].end)))
  {
    if x > 0 {
      EncloseAt(no, i, ws[1..], x - 1);
    }
  }

  lemma {:induction false} JoinAllOk(w: Way, t: Trace, vs: seq<Way>, us: seq<Trace>, lo: nat, hi: nat)
    requires Shows(w, t) && Numbered(t.passages, lo, hi) && Enumerates(vs, us, lo, hi)
    ensures Enumerates(MergeAll(w, vs), JoinAll(t, us), lo, hi)
  {
    hide Shows, Prior, MergeAll;
    var ts := JoinAll(t, us);
    forall x | 0 <= x < |ts|
      ensures Shows(MergeAll(w, vs)[x], ts[x]) && Numbered(ts[x].passages, lo, hi)
    {
      MergeAllAt(w, vs, x);
      ShowsJoin(w, t, vs[x], us[x]);
      assert Numbered(us[x].passages, lo, hi);
    }
    forall x, y | 0 <= x < y < |ts|
      ensures Prior(ts[x].choices, ts[y].choices)
    {
      PriorAfter(t.choices, us[x].choices, us[y].choices);
    }
  }

  lemma {:induction false} ChoseAllOk(c: nat, vs: seq<Way>, us: seq<Trace>, lo: nat, hi: nat)
    requires Enumerates(vs, us, lo, hi)
    ensures Enumerates(vs, ChoseAll(c, us), lo, hi)
  {
    hide Prior, LastNoted;
    var ts := ChoseAll(c, us);
    forall x, y | 0 <= x < y < |ts|
      ensures Prior(ts[x].choices, ts[y].choices)
    {
      PriorAfter([c], us[x].choices, us[y].choices);
    }
    forall x | 0 <= x < |ts|
      ensures Shows(vs[x], ts[x]) && Numbered(ts[x].passages, lo, hi)
    {
      assert Shows(vs[x], us[x]) && Numbered(us[x].passages, lo, hi);
    }
  }

  lemma {:induction false} ClosedAllOk(vs: seq<Way>, us: seq<Trace>, no: nat, i: nat, hi: nat)
    requires Enumerates(vs, us, no + 1, hi) && no < hi
    ensures Enumerates(Enclose(no, i, vs), ClosedAll(us, no, i), no, hi)
  {
    hide Shows, Prior, Enclose;
    var ts := ClosedAll(us, no, i);
    forall x | 0 <= x < |ts|
      ensures Shows(Enclose(no, i, vs)[x], ts[x]) && Numbered(ts[x].passages, no, hi)
    {
      EncloseAt(no, i, vs, x);
      assert Numbered(us[x].passages, no + 1, hi);
      ShowsClosed(vs[x], us[x], no, i, hi);
    }
  }

  lemma {:induction false} ConcatOk(vs: seq<Way>, ts: seq<Trace>, ws: seq<Way>, us: seq<Trace>, lo: nat, hi: nat)
    requires Enumerates(vs, ts, lo, hi) && Enumerates(ws, us, lo, hi)
    requires forall x, y :: 0 <= x < |ts| && 0 <= y < |us| ==> Prior(ts[x].choices, us[y].choices)
    ensures Enumerates(vs + ws, ts + us, lo, hi)
  {
    hide Shows, Prior, Numbered;
    OrderedConcat(ts, us);
  }

  lemma {:induction false} Widen(ws: seq<Way>, ts: seq<Trace>, lo: nat, hi: nat, lo': nat, hi': nat)
    requires Enumerates(ws, ts, lo, hi) && lo' <= lo && hi <= hi'
    ensures Enumerates(ws, ts, lo', hi')
  {
    hide Shows, Prior;
    forall x | 0 <= x < |ts|
      ensures Numbered(ts[x].passages, lo', hi')
    {
      assert Numbered(ts[x].passages, lo, hi);
    }
  }

  // ---------- The ways are the traces ----------

  lemma {:induction false} AtomTraces(a: Atom, n: nat, s: Text, bol: int, i: nat) returns (ts: seq<Trace>)
    requires WfAtom(a, n) && i <= |s|
    ensures Enumerates(WaysAtom(a, s, bol, i), ts, n, NextAtom(a, n))
    ensures forall t :: t in ts <==> TraceAtom(a, s, bol, i, t)
    decreases a, 0
  {
    hide Enumerates, WaysAlts, TraceAlts, MatchAtom;
    if a.Group? {
      var us := AltsTraces(a.alts, n + 1, s, bol, i);
      ts := ClosedAll(us, a.no, i);
      ClosedAllOk(WaysAlts(a.alts, s, bol, i), us, a.no, i, NextAtom(a, n));
      forall t
        ensures t in ts <==> TraceAtom(a, s, bol, i, t)
      {
        ClosedMembers(us, a.no, i, t);
      }
    } else {
      ts := LeafTraces(a, n, s, bol, i);
    }
  }

  lemma {:induction false} ClosedMembers(us: seq<Trace>, no: nat, i: nat, t: Trace)
    ensures t in ClosedAll(us, no, i) <==> exists u :: u in us && t == Closed(u, no, i)
  {
    var ts := ClosedAll(us, no, i);
    if u :| u in us && t == Closed(u, no, i) {
      var x :| 0 <= x < |us| && us[x] == u;
      assert ts[x] == t;
    }
  }

  lemma {:induction false} LeafTraces(a: Atom, n: nat, s: Text, bol: int, i: nat) returns (ts: seq<Trace>)
    requires WfAtom(a, n) && i <= |s| && !a.Group?
    ensures Enumerates(WaysAtom(a, s, bol, i), ts, n, NextAtom(a, n))
    ensures forall t :: t in ts <==> TraceAtom(a, s, bol, i, t)
  {
    var ws := WaysAtom(a, s, bol, i);
    assert ws == [] || ws == [Plain(ws[0].end)];
    ts := if ws == [] then [] else [Trace(ws[0].end, [], [])];
    hide WaysAtom, MatchAtom;
    if ws != [] {
      ShowsPlain(ws[0].end, []);
    }
    forall t
      ensures t in ts <==> TraceAtom(a, s, bol, i, t)
    {
      AtomAgrees(a, n, s, bol, i, t.end);
      assert Reaches(ws, t.end) <==> ws != [] && ws[0].end == t.end;
    }
  }

  lemma {:induction false} StarTraces(a: Atom, n: nat, s: Text, bol: int, i: nat) returns (ts: seq<Trace>, us: seq<Trace>)
    requires WfAtom(a, n) && i <= |s|
    ensures Enumerates(WaysStar(a, s, bol, i), ts, n, NextAtom(a, n)) && Enumerates(WaysPlus(a, s, bol, i), us, n, NextAtom(a, n))
    ensures forall t :: t in ts <==> TraceStar(a, s, bol, i, t)
    ensures forall t :: t in us <==> TracePlus(a, s, bol, i, t)
    decreases a, 1, |s| - i, 1, 0
  {
    hide Enumerates, WaysAtom, TraceAtom;
    var vs := AtomTraces(a, n, s, bol, i);
    us := ThenStarTraces(WaysAtom(a, s, bol, i), vs, a, n, s, bol, i);
    assert forall t :: t in us <==> TracePlus(a, s, bol, i, t);
    ts := OnceMore(WaysPlus(a, s, bol, i), us, i, n, NextAtom(a, n));
  }

  /** One of the traces us, or nothing. */
  lemma {:induction false} OnceMore(ws: seq<Way>, us: seq<Trace>, i: nat, lo: nat, hi: nat) returns (ts: seq<Trace>)
    requires Enumerates(ws, us, lo, hi)
    ensures Enumerates(ws + [Plain(i)], ts, lo, hi)
    ensures forall t :: t in ts <==> t == Trace(i, [1], []) || exists u :: u in us && t == Chose(0, u)
  {
    hide Shows, Prior;
    var stop := Trace(i, [1], []);
    ts := ChoseAll(0, us) + [stop];
    ChoseAllOk(0, ws, us, lo, hi);
    ShowsPlain(i, [1]);
    forall x | 0 <= x < |us|
      ensures Prior(Chose(0, us[x]).choices, stop.choices)
    {
      PriorChoice(0, 1, us[x].choices, []);
      assert [1] + [] == stop.choices;
    }
    ConcatOk(ws, ChoseAll(0, us), [Plain(i)], [stop], lo, hi);
    forall t
      ensures t in ts <==> t == stop || exists u :: u in us && t == Chose(0, u)
    {
      ChoseMembers(0, us, t);
    }
  }

  lemma {:induction false} ChoseMembers(c: nat, us: seq<Trace>, t: Trace)
    ensures t in ChoseAll(c, us) <==> exists u :: u in us && t == Chose(c, u)
  {
    var ts := ChoseAll(c, us);
    if u :| u in us && t == Chose(c, u) {
      var x :| 0 <= x < |us| && us[x] == u;
      assert ts[x] == t;
    }
  }

  lemma {:induction false} JoinMembers(v: Trace, us: seq<Trace>, t: Trace)
    ensures t in JoinAll(v, us) <==> exists u :: u in us && t == Join(v, u)
  {
    var ts := JoinAll(v, us);
    if u :| u in us && t == Join(v, u) {
      var x :| 0 <= x < |us| && us[x] == u;
      assert ts[x] == t;
    }
  }

  /** t begins with one of the traces vs. */
  ghost predicate Begins(vs: seq<Trace>, t: Trace) {
    exists u, v :: t == Join(u, v) && u in vs
  }

  /** Trace t continued by the traces us, and then traces that begin with later ones. */
  lemma {:induction false} Continued(w: Way, t: Trace, ws: seq<Way>, us: seq<Trace>, rs: seq<Way>, rest: seq<Trace>, later: seq<Trace>,
                                     lo: nat, hi: nat)
    requires Shows(w, t) && Numbered(t.passages, lo, hi) && Enumerates(ws, us, lo, hi) && Enumerates(rs, rest, lo, hi)
    requires forall x :: 0 <= x < |later| ==> Prior(t.choices, later[x].choices)
    requires forall r :: r in rest ==> Begins(later, r)
    ensures Enumerates(MergeAll(w, ws) + rs, JoinAll(t, us) + rest, lo, hi)
  {
    hide Shows, Prior, Numbered, Enumerates, MergeAll;
    JoinAllOk(w, t, ws, us, lo, hi);
    var ts := JoinAll(t, us);
    forall x, y | 0 <= x < |ts| && 0 <= y < |rest|
      ensures Prior(ts[x].choices, rest[y].choices)
    {
      assert Begins(later, rest[y]);
      var u, v :| rest[y] == Join(u, v) && u in later;
      PriorLonger(t.choices, u.choices, us[x].choices, v.choices);
    }
    ConcatOk(MergeAll(w, ws), ts, rs, rest, lo, hi);
  }

  lemma {:induction false} FirstOf(ws: seq<Way>, vs: seq<Trace>, lo: nat, hi: nat)
    requires Enumerates(ws, vs, lo, hi) && ws != []
    ensures |vs| == |ws| && Shows(ws[0], vs[0]) && Numbered(vs[0].passages, lo, hi) && Enumerates(ws[1..], vs[1..], lo, hi)
    ensures forall x :: 0 <= x < |vs[1..]| ==> Prior(vs[0].choices, vs[1..][x].choices)
    ensures vs == [vs[0]] + vs[1..]
  {
    hide Shows, Prior, Numbered;
  }

  lemma {:induction false} NothingEnumerated(lo: nat, hi: nat)
    ensures Enumerates([], [], lo, hi)
  {
  }

  /** t begins with one of the traces vs, which consumes something, and goes on with further iterations. */
  ghost predicate Iterates(vs: seq<Trace>, a: Atom, s: Text, bol: int, i: nat, t: Trace) {
    exists u, v :: t == Join(u, v) && u in vs && i < u.end <= |s| && TraceStar(a, s, bol, u.end, v)
  }

  lemma {:induction false} IteratesFirst(first: Trace, later: seq<Trace>, us: seq<Trace>, a: Atom, s: Text, bol: int, i: nat, t: Trace)
    requires i < first.end <= |s| ==> forall v :: v in us <==> TraceStar(a, s, bol, first.end, v)
    ensures Iterates([first] + later, a, s, bol, i, t) <==>
            (i < first.end <= |s| && t in JoinAll(first, us)) || Iterates(later, a, s, bol, i, t)
  {
    hide TraceStar;
    JoinMembers(first, us, t);
    var vs := [first] + later;
    if Iterates(later, a, s, bol, i, t) {
      var u, v :| t == Join(u, v) && u in later && i < u.end <= |s| && TraceStar(a, s, bol, u.end, v);
      assert u in vs;
    }
    if i < first.end <= |s| && t in JoinAll(first, us) {
      var v :| v in us && t == Join(first, v);
      assert first in vs && TraceStar(a, s, bol, first.end, v);
    }
  }

  lemma {:induction false} ThenStarTraces(ws: seq<Way>, vs: seq<Trace>, a: Atom, n: nat, s: Text, bol: int, i: nat) returns (ts: seq<Trace>)
    requires WfAtom(a, n) && i <= |s| && Enumerates(ws, vs, n, NextAtom(a, n))
    ensures Enumerates(ThenStar(ws, a, s, bol, i), ts, n, NextAtom(a, n))
    ensures forall t :: t in ts <==> Iterates(vs, a, s, bol, i, t)
    decreases a, 1, |s| - i, 0, |ws|
  {
    hide Shows, Prior, Numbered, TraceStar, WaysStar, Iterates;
    if ws == [] {
      assert vs == [];
      ts := [];
      NothingEnumerated(n, NextAtom(a, n));
      NoIterates(a, s, bol, i);
    } else {
      FirstOf(ws, vs, n, NextAtom(a, n));
      var first, later := vs[0], vs[1..];
      EndShown(ws[0], first);
      hide Enumerates;
      ts := ThenStarTraces(ws[1..], later, a, n, s, bol, i);
      var us := [];
      if i < first.end <= |s| {
        var plus;
        us, plus := StarTraces(a, n, s, bol, first.end);
        LaterBegin(ts, later, a, s, bol, i);
        Continued(ws[0], first, WaysStar(a, s, bol, first.end), us, ThenStar(ws[1..], a, s, bol, i), ts, later, n, NextAtom(a, n));
      }
      forall t
        ensures Iterates(vs, a, s, bol, i, t) <==> (i < first.end <= |s| && t in JoinAll(first, us)) || t in ts
      {
        IteratesFirst(first, later, us, a, s, bol, i, t);
      }
      if i < first.end <= |s| {
        ts := JoinAll(first, us) + ts;
      }
    }
  }

  lemma {:induction false} NoIterates(a: Atom, s: Text, bol: int, i: nat)
    ensures forall t :: !Iterates([], a, s, bol, i, t)
  {
  }

  lemma {:induction false} LaterBegin(ts: seq<Trace>, later: seq<Trace>, a: Atom, s: Text, bol: int, i: nat)
    requires forall t :: t in ts <==> Iterates(later, a, s, bol, i, t)
    ensures forall t :: t in ts ==> Begins(later, t)
  {
    hide TraceStar;
  }

  lemma {:induction false} PieceTraces(p: Piece, n: nat, s: Text, bol: int, i: nat) returns (ts: seq<Trace>)
    requires WfPiece(p, n) && i <= |s|
    ensures Enumerates(WaysPiece(p, s, bol, i), ts, n, NextAtom(p.atom, n))
    ensures forall t :: t in ts <==> TracePiece(p, s, bol, i, t)
    decreases p, 0
  {
    hide Enumerates, WaysAtom, WaysStar, WaysPlus, TraceAtom, TraceStar, TracePlus;
    var star, plus := StarTraces(p.atom, n, s, bol, i);
    var once := AtomTraces(p.atom, n, s, bol, i);
    var maybe := OnceMore(WaysAtom(p.atom, s, bol, i), once, i, n, NextAtom(p.atom, n));
    match p.rep
    case Once => ts := once;
    case Star => ts := star;
    case Plus => ts := plus;
    case Quest => ts := maybe;
  }

  /** t begins with one of the traces vs and goes on with the rest of a branch. */
  ghost predicate GoesOn(vs: seq<Trace>, rest: Branch, s: Text, bol: int, t: Trace) {
    exists u, v :: t == Join(u, v) && u in vs && TraceBranch(rest, s, bol, u.end, v)
  }

  lemma {:induction false} GoesOnFirst(first: Trace, later: seq<Trace>, us: seq<Trace>, rest: Branch, s: Text, bol: int, t: Trace)
    requires forall v :: v in us <==> TraceBranch(rest, s, bol, first.end, v)
    ensures GoesOn([first] + later, rest, s, bol, t) <==> t in JoinAll(first, us) || GoesOn(later, rest, s, bol, t)
  {
    hide TraceBranch;
    JoinMembers(first, us, t);
    var vs := [first] + later;
    if GoesOn(later, rest, s, bol, t) {
      var u, v :| t == Join(u, v) && u in later && TraceBranch(rest, s, bol, u.end, v);
      assert u in vs;
    }
    if t in JoinAll(first, us) {
      var v :| v in us && t == Join(first, v);
      assert first in vs && TraceBranch(rest, s, bol, first.end, v);
    }
  }

  lemma {:induction false} BranchTraces(b: Branch, n: nat, s: Text, bol: int, i: nat) returns (ts: seq<Trace>)
    requires WfBranch(b, n) && i <= |s|
    ensures Enumerates(WaysBranch(b, s, bol, i), ts, n, NextBranch(b, n))
    ensures forall t :: t in ts <==> TraceBranch(b, s, bol, i, t)
    decreases b, 0
  {
    hide WaysPiece, TracePiece, WfPair, WfPiece, Shows, Prior;
    if b.Empty? {
      ts := [Trace(i, [], [])];
      ShowsPlain(i, []);
    } else {
      hide Enumerates;
      var vs := PieceTraces(b.head, n, s, bol, i);
      var ws := WaysPiece(b.head, s, bol, i);
      PieceInRange(b.head, n, s, bol, i);
      var m := NextAtom(b.head.atom, n);
      Widen(ws, vs, n, m, n, NextBranch(b, n));
      ts := ThenBranchTraces(ws, vs, b.tail, m, n, s, bol);
      forall t
        ensures GoesOn(vs, b.tail, s, bol, t) <==> TraceBranch(b, s, bol, i, t)
      {
        GoesOnIsBranch(b, vs, s, bol, i, t);
      }
    }
  }

  lemma {:induction false} GoesOnIsBranch(b: Branch, vs: seq<Trace>, s: Text, bol: int, i: nat, t: Trace)
    requires b.Cons? && forall u :: u in vs <==> TracePiece(b.head, s, bol, i, u)
    ensures GoesOn(vs, b.tail, s, bol, t) <==> TraceBranch(b, s, bol, i, t)
  {
    hide TracePiece;
  }

  lemma {:induction false} ThenBranchTraces(ws: seq<Way>, vs: seq<Trace>, rest: Branch, n: nat, lo: nat, s: Text, bol: int)
    returns (ts: seq<Trace>)
    requires WfBranch(rest, n) && lo <= n && Enumerates(ws, vs, lo, NextBranch(rest, n)) && InRange(ws, s)
    ensures Enumerates(ThenBranch(ws, rest, s, bol), ts, lo, NextBranch(rest, n))
    ensures forall t :: t in ts <==> GoesOn(vs, rest, s, bol, t)
    decreases rest, 1, |ws|
  {
    hide Shows, Prior, Numbered, TraceBranch, WaysBranch, GoesOn, WfBranch, NextBranch;
    if ws == [] {
      assert vs == [];
      ts := [];
      NothingEnumerated(lo, NextBranch(rest, n));
      NoGoesOn(rest, s, bol);
    } else {
      var hi := NextBranch(rest, n);
      FirstOf(ws, vs, lo, hi);
      var first, later := vs[0], vs[1..];
      EndShown(ws[0], first);
      hide Enumerates;
      var more := ThenBranchTraces(ws[1..], later, rest, n, lo, s, bol);
      var us := BranchTraces(rest, n, s, bol, first.end);
      Widen(WaysBranch(rest, s, bol, first.end), us, n, hi, lo, hi);
      LaterGoOn(more, later, rest, s, bol);
      Continued(ws[0], first, WaysBranch(rest, s, bol, first.end), us, ThenBranch(ws[1..], rest, s, bol), more, later, lo, hi);
      ts := JoinAll(first, us) + more;
      forall t
        ensures GoesOn(vs, rest, s, bol, t) <==> t in ts
      {
        GoesOnFirst(first, later, us, rest, s, bol, t);
      }
    }
  }

  lemma {:induction false} EndShown(w: Way, t: Trace)
    requires Shows(w, t)
    ensures w.end == t.end
  {
  }

  lemma {:induction false} NoGoesOn(rest: Branch, s: Text, bol: int)
    ensures forall t :: !GoesOn([], rest, s, bol, t)
  {
  }

  lemma {:induction false} LaterGoOn(ts: seq<Trace>, later: seq<Trace>, rest: Branch, s: Text, bol: int)
    requires forall t :: t in ts <==> GoesOn(later, rest, s, bol, t)
    ensures forall t :: t in ts ==> Begins(later, t)
  {
    hide TraceBranch;
  }

  /** The ordered ways to match are the traces: all of them, once each, and in the order of preference. */
  lemma {:induction false} AltsTraces(alts: Alts, n: nat, s: Text, bol: int, i: nat) returns (ts: seq<Trace>)
    requires WfAlts(alts, n) && i <= |s|
    ensures Enumerates(WaysAlts(alts, s, bol, i), ts, n, NextAlts(alts, n))
    ensures forall t :: t in ts <==> TraceAlts(alts, s, bol, i, t)
    decreases alts, 0
  {
    hide WaysBranch, TraceBranch, WfBranch, Enumerates;
    var us := BranchTraces(alts.branch, n, s, bol, i);
    var ws := WaysBranch(alts.branch, s, bol, i);
    if alts.Last? {
      ts := us;
      assert ws + [] == ws;
    } else {
      var m, hi := NextBranch(alts.branch, n), NextAlts(alts, n);
      var vs := AltsTraces(alts.rest, m, s, bol, i);
      Widen(ws, us, n, m, n, hi);
      Widen(WaysAlts(alts.rest, s, bol, i), vs, m, hi, n, hi);
      ts := ChoseAll(0, us) + ChoseAll(1, vs);
      FirstOrLater(ws, us, WaysAlts(alts.rest, s, bol, i), vs, n, hi);
      forall t
        ensures t in ts <==> TraceAlts(alts, s, bol, i, t)
      {
        ChoseMembers(0, us, t);
        ChoseMembers(1, vs, t);
      }
    }
  }

  lemma {:induction false} FirstOrLater(ws: seq<Way>, us: seq<Trace>, rs: seq<Way>, vs: seq<Trace>, lo: nat, hi: nat)
    requires Enumerates(ws, us, lo, hi) && Enumerates(rs, vs, lo, hi)
    ensures Enumerates(ws + rs, ChoseAll(0, us) + ChoseAll(1, vs), lo, hi)
  {
    hide Enumerates, Prior;
    ChoseAllOk(0, ws, us, lo, hi);
    ChoseAllOk(1, rs, vs, lo, hi);
    var ts, ts' := ChoseAll(0, us), ChoseAll(1, vs);
    forall x, y | 0 <= x < |ts| && 0 <= y < |ts'|
      ensures Prior(ts[x].choices, ts'[y].choices)
    {
      PriorChoice(0, 1, us[x].choices, vs[y].choices);
    }
    ConcatOk(ws, ts, rs, ts', lo, hi);
  }

  // ---------- What is reported ----------

  /** Of all the traces of alts from i on, t is the one preferred. */
  ghost predicate Preferred(alts: Alts, s: Text, bol: int, i: nat, t: Trace) {
    TraceAlts(alts, s, bol, i, t) && forall u :: TraceAlts(alts, s, bol, i, u) ==> u == t || Prior(t.choices, u.choices)
  }

  /** The first way is that of the preferred trace. */
  lemma {:induction false} FirstIsPreferred(alts: Alts, n: nat, s: Text, bol: int, i: nat) returns (t: Trace)
    requires WfAlts(alts, n) && i <= |s| && WaysAlts(alts, s, bol, i) != []
    ensures Preferred(alts, s, bol, i, t) && Shows(WaysAlts(alts, s, bol, i)[0], t)
  {
    hide WaysAlts, TraceAlts, WfAlts, Shows, Prior, Numbered;
    var ts := AltsTraces(alts, n, s, bol, i);
    t := ts[0];
    forall u | TraceAlts(alts, s, bol, i, u)
      ensures u == t || Prior(t.choices, u.choices)
    {
      var x :| 0 <= x < |ts| && ts[x] == u;
    }
  }

  /** There is only one. */
  lemma {:induction false} PreferredUnique(alts: Alts, s: Text, bol: int, i: nat, t: Trace, u: Trace)
    requires Preferred(alts, s, bol, i, t) && Preferred(alts, s, bol, i, u)
    ensures t == u
  {
    hide TraceAlts, Prior;
    if t != u {
      PriorOneWay(t.choices, u.choices);
    }
  }

  /** Traces end exactly where the pattern matches. */
  lemma {:induction false} TracesReach(alts: Alts, n: nat, s: Text, bol: int, i: nat, j: nat)
    requires WfAlts(alts, n) && i <= |s|
    ensures MatchAlts(alts, s, bol, false, i, j) <==> exists t :: TraceAlts(alts, s, bol, i, t) && t.end == j
  {
    hide WaysAlts, TraceAlts, MatchAlts, WfAlts, Prior, Numbered, LastNoted;
    AltsAgree(alts, n, s, bol, i, j);
    var ts := AltsTraces(alts, n, s, bol, i);
    var ws := WaysAlts(alts, s, bol, i);
    if Reaches(ws, j) {
      var x :| 0 <= x < |ws| && ws[x].end == j;
      assert ts[x] in ts && Shows(ws[x], ts[x]);
    }
    if t :| TraceAlts(alts, s, bol, i, t) && t.end == j {
      var x :| 0 <= x < |ts| && ts[x] == t;
      assert Shows(ws[x], ts[x]);
    }
  }
}
