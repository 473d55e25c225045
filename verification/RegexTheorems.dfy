/** What the pieces of the regular-expression library add up to. */
module RegexTheorems {
  import opened RegexSyntax
  import opened RegexSemantics
  import opened RegexMatch
  import opened RegexHints
  import opened RegexSearch
  import opened RegexCode
  import opened RegexComp
  import opened RegexExec
  import opened RegexTraces

  /** Some stretch of s matches. */
  ghost predicate Occurs(alts: Alts, s: Text, strict: bool) {
    exists i: nat, j: nat :: i <= |s| && MatchAlts(alts, s, 0, strict, i, j)
  }

  lemma {:induction false} HitAfter(alts: Alts, s: Text, i: nat)
    requires WfAlts(alts, 1) && i <= |s|
    ensures match FirstHit(alts, s, 0, i)
            case None => forall x: nat, j: nat :: i <= x <= |s| ==> !MatchAlts(alts, s, 0, false, x, j)
            case Some(Hit(k, w)) =>
              && i <= k <= |s| && MatchAlts(alts, s, 0, false, k, w.end)
              && forall x: nat, j: nat :: i <= x < k ==> !MatchAlts(alts, s, 0, false, x, j)
    decreases |s| - i
  {
    hide WaysAlts, MatchAlts, WfAlts;
    var ws := WaysAlts(alts, s, 0, i);
    forall j: nat ensures Reaches(ws, j) <==> MatchAlts(alts, s, 0, false, i, j) {
      AltsAgree(alts, 1, s, 0, i, j);
    }
    if ws != [] {
      assert Reaches(ws, ws[0].end);
    } else {
      ReachesNothing(ws);
      if i < |s| {
        HitAfter(alts, s, i + 1);
      }
    }
  }

  /** regexec's reference search finds a match exactly when the pattern, literals read loosely,
      matches some stretch; the match found is a match and starts as early as any. */
  lemma {:induction false} SearchMeaning(alts: Alts, s: Text)
    requires WfAlts(alts, 1)
    ensures FirstHit(alts, s, 0, 0).Some? <==> Occurs(alts, s, false)
    ensures FirstHit(alts, s, 0, 0).Some? ==>
              var hit := FirstHit(alts, s, 0, 0).value;
              && hit.start <= |s| && MatchAlts(alts, s, 0, false, hit.start, hit.way.end)
              && forall x: nat, j: nat :: x < hit.start ==> !MatchAlts(alts, s, 0, false, x, j)
  {
    hide FirstHit, MatchAlts, WfAlts;
    HitAfter(alts, s, 0);
  }

  /** Completeness, for every pattern: a subject that really matches is found. */
  lemma {:induction false} SearchComplete(alts: Alts, s: Text)
    requires WfAlts(alts, 1) && Occurs(alts, s, true)
    ensures FirstHit(alts, s, 0, 0).Some?
  {
    hide FirstHit, MatchAlts, WfAlts;
    var i: nat, j: nat :| i <= |s| && MatchAlts(alts, s, 0, true, i, j);
    RereadAlts(alts, 1, s, 0, true, false, i, j);
    SearchMeaning(alts, s);
  }

  /** Soundness, for patterns whose literals are single characters: a match found is real. */
  lemma {:induction false} SearchSound(alts: Alts, s: Text)
    requires WfAlts(alts, 1) && SinglesAlts(alts) && FirstHit(alts, s, 0, 0).Some?
    ensures var hit := FirstHit(alts, s, 0, 0).value; MatchAlts(alts, s, 0, true, hit.start, hit.way.end)
  {
    hide FirstHit, MatchAlts, WfAlts, SinglesAlts;
    SearchMeaning(alts, s);
    var hit := FirstHit(alts, s, 0, 0).value;
    RereadAlts(alts, 1, s, 0, false, true, hit.start, hit.way.end);
  }

  /** The pattern ^t. */
  function Anchored(t: Text): Alts {
    Last(Cons(Piece(Bol, Once), Cons(Piece(Literal(t), Once), Empty)))
  }

  lemma {:induction false} BranchIntro(p: Piece, rest: Branch, s: Text, strict: bool, i: nat, k: nat, j: nat)
    requires MatchPiece(p, s, 0, strict, i, k) && MatchBranch(rest, s, 0, strict, k, j)
    ensures MatchBranch(Cons(p, rest), s, 0, strict, i, j)
  {
  }

  lemma {:induction false} BranchElim(b: Branch, s: Text, strict: bool, i: nat, j: nat) returns (k: nat)
    requires b.Cons? && MatchBranch(b, s, 0, strict, i, j)
    ensures MatchPiece(b.head, s, 0, strict, i, k) && MatchBranch(b.tail, s, 0, strict, k, j)
  {
    k :| MatchPiece(b.head, s, 0, strict, i, k) && MatchBranch(b.tail, s, 0, strict, k, j);
  }

  lemma {:induction false} AnchoredMeaning(t: Text, s: Text, strict: bool)
    ensures Occurs(Anchored(t), s, strict) <==> LiteralAt(t, s, strict, 0)
  {
    hide LiteralAt;
    var lit := Piece(Literal(t), Once);
    var rest := Cons(lit, Empty);
    if LiteralAt(t, s, strict, 0) {
      BranchIntro(lit, Empty, s, strict, 0, |t|, |t|);
      BranchIntro(Piece(Bol, Once), rest, s, strict, 0, 0, |t|);
      assert MatchAlts(Anchored(t), s, 0, strict, 0, |t|);
    }
    if Occurs(Anchored(t), s, strict) {
      var i: nat, j: nat :| i <= |s| && MatchAlts(Anchored(t), s, 0, strict, i, j);
      var k := BranchElim(Anchored(t).branch, s, strict, i, j);
      var l := BranchElim(rest, s, strict, k, j);
      assert MatchAtom(Bol, s, 0, strict, i, k) && MatchAtom(Literal(t), s, 0, strict, k, l);
    }
  }

  lemma {:induction false} AnchoredWf(t: Text)
    requires WfText(t)
    ensures WfAlts(Anchored(t), 1)
  {
    hide WfText;
    var lit := Piece(Literal(t), Once);
    assert WfAtom(Literal(t), 1) && WfPiece(lit, 1) && WfPiece(Piece(Bol, Once), 1);
    assert WfBranch(Empty, 1);
    assert WfBranch(Cons(lit, Empty), 1);
    assert NextAtom(Bol, 1) == 1;
    assert WfBranch(Anchored(t).branch, 1);
  }

  /** For the pattern ^t, what regexec reports is right on every subject if and only if t is a
      single character. */
  lemma {:induction false} AnchoredExactIff(t: Text)
    requires WfText(t)
    ensures (forall s: Text :: FirstHit(Anchored(t), s, 0, 0).Some? <==> Occurs(Anchored(t), s, true)) <==> |t| == 1
  {
    hide FirstHit, Occurs, LooselyAt, StandsAt;
    AnchoredWf(t);
    forall s: Text
      ensures FirstHit(Anchored(t), s, 0, 0).Some? <==> LooselyAt(t, s, 0)
      ensures Occurs(Anchored(t), s, true) <==> StandsAt(t, s, 0)
    {
      SearchMeaning(Anchored(t), s);
      AnchoredMeaning(t, s, false);
      AnchoredMeaning(t, s, true);
    }
    if |t| == 1 {
      forall s: Text ensures LooselyAt(t, s, 0) <==> StandsAt(t, s, 0) {
        LiteralReadings(t, s, 0);
      }
    } else {
      var s := LooseCounterexample(t);
      assert FirstHit(Anchored(t), s, 0, 0).Some? && !Occurs(Anchored(t), s, true);
    }
  }

  /** An empty subject and a known first character: the reference finds nothing, so regexec,
      which goes on searching behind the terminator, agrees with it exactly when nothing is
      found there. */
  lemma {:induction false} EmptySubject(alts: Alts)
    requires StartHint(alts) != 0
    ensures FirstHit(alts, [], 0, 0) == None
  {
    hide WaysAlts, StartHint;
    StartRulesOut(alts, [], 0, 0);
  }

  /** The pattern a, an empty subject, and an a behind its terminator. */
  lemma {:induction false} OverrunCounterexample() returns (alts: Alts, beyond: Text)
    ensures WfAlts(alts, 1) && StartHint(alts) != 0
    ensures FirstHit(alts, [], 0, 0) == None && FirstHit(alts, beyond, -1, 0).Some?
  {
    alts, beyond := Last(Cons(Piece(Quoted(97), Once), Empty)), [97];
    EmptySubject(alts);
    QuotedMeaning(97, beyond, 0);
    assert WaysAtom(Quoted(97), beyond, -1, 0) == [Plain(1)];
    assert WaysBranch(alts.branch, beyond, -1, 0) == [Merge(Plain(1), Plain(1))] by {
      ThenEmpty([Plain(1)], beyond, -1);
      MergePlain(Plain(1), 1);
    }
  }

  // ---------- Group boundaries ----------

  /** The alternatives of each group, by number. */
  function GroupsAtom(a: Atom): map<nat, Alts> {
    if a.Group? then map[a.no := a.alts] + GroupsAlts(a.alts) else map[]
  }

  function GroupsBranch(b: Branch): map<nat, Alts> {
    if b.Cons? then GroupsAtom(b.head.atom) + GroupsBranch(b.tail) else map[]
  }

  function GroupsAlts(alts: Alts): map<nat, Alts> {
    GroupsBranch(alts.branch) + if alts.Or? then GroupsAlts(alts.rest) else map[]
  }

  ghost predicate KeysIn(G: map<nat, Alts>, lo: nat, hi: nat) {
    forall no :: no in G ==> lo <= no < hi
  }

  lemma {:induction false} AtomKeys(a: Atom, n: nat)
    requires WfAtom(a, n)
    ensures KeysIn(GroupsAtom(a), n, NextAtom(a, n))
    decreases a
  {
    if a.Group? {
      AltsKeys(a.alts, n + 1);
    }
  }

  lemma {:induction false} BranchKeys(b: Branch, n: nat)
    requires WfBranch(b, n)
    ensures KeysIn(GroupsBranch(b), n, NextBranch(b, n))
    decreases b
  {
    if b.Cons? {
      AtomKeys(b.head.atom, n);
      BranchKeys(b.tail, NextAtom(b.head.atom, n));
    }
  }

  lemma {:induction false} AltsKeys(alts: Alts, n: nat)
    requires WfAlts(alts, n)
    ensures KeysIn(GroupsAlts(alts), n, NextAlts(alts, n))
    decreases alts
  {
    BranchKeys(alts.branch, n);
    if alts.Or? {
      AltsKeys(alts.rest, NextBranch(alts.branch, n));
    }
  }

  /** The stretch recorded for each group matches that group. */
  ghost predicate Recorded(w: Way, G: map<nat, Alts>, s: Text, bol: int) {
    && w.starts.Keys == w.ends.Keys
    && forall no :: no in w.starts ==> no in G && MatchAlts(G[no], s, bol, false, w.starts[no], w.ends[no])
  }

  ghost predicate AllRecorded(ws: seq<Way>, G: map<nat, Alts>, s: Text, bol: int) {
    forall x :: 0 <= x < |ws| ==> Recorded(ws[x], G, s, bol)
  }

  lemma {:induction false} RecordedMerge(w: Way, v: Way, G: map<nat, Alts>, s: Text, bol: int)
    requires Recorded(w, G, s, bol) && Recorded(v, G, s, bol)
    ensures Recorded(Merge(w, v), G, s, bol)
  {
    hide MatchAlts;
    var m := Merge(w, v);
    assert m.starts.Keys == m.ends.Keys;
    forall no | no in m.starts ensures no in G && MatchAlts(G[no], s, bol, false, m.starts[no], m.ends[no]) {
      assert if no in v.starts then no in v.ends else no in w.starts && no in w.ends;
    }
  }

  lemma {:induction false} RecordedMore(ws: seq<Way>, G: map<nat, Alts>, H: map<nat, Alts>, s: Text, bol: int)
    requires AllRecorded(ws, G, s, bol) && forall no :: no in G ==> no in H && H[no] == G[no]
    ensures AllRecorded(ws, H, s, bol)
  {
    hide MatchAlts;
  }

  lemma {:induction false} RecordedMergeAll(w: Way, vs: seq<Way>, G: map<nat, Alts>, s: Text, bol: int)
    requires Recorded(w, G, s, bol) && AllRecorded(vs, G, s, bol)
    ensures AllRecorded(MergeAll(w, vs), G, s, bol)
  {
    hide Recorded;
    if vs != [] {
      RecordedMerge(w, vs[0], G, s, bol);
      RecordedMergeAll(w, vs[1..], G, s, bol);
    }
  }

  lemma {:induction false} RecordedPlain(j: nat, G: map<nat, Alts>, s: Text, bol: int)
    ensures Recorded(Plain(j), G, s, bol) && AllRecorded([Plain(j)], G, s, bol)
  {
  }

  lemma {:induction false} RecordedWrap(a: Atom, s: Text, bol: int, i: nat, v: Way)
    requires a.Group? && Recorded(v, GroupsAlts(a.alts), s, bol) && a.no !in GroupsAlts(a.alts)
    requires MatchAlts(a.alts, s, bol, false, i, v.end)
    ensures Recorded(Merge(Opening(a.no, i), Merge(v, Closing(a.no, v.end))), GroupsAtom(a), s, bol)
  {
    hide MatchAlts, GroupsAlts;
    var w := Merge(Opening(a.no, i), Merge(v, Closing(a.no, v.end)));
    assert w.starts == map[a.no := i] + v.starts && w.ends == v.ends + map[a.no := v.end];
    assert w.starts.Keys == w.ends.Keys;
  }

  lemma {:induction false} RecordedEnclose(a: Atom, n: nat, s: Text, bol: int, i: nat, ws: seq<Way>)
    requires a.Group? && WfAtom(a, n) && AllRecorded(ws, GroupsAlts(a.alts), s, bol)
    requires forall x :: 0 <= x < |ws| ==> MatchAlts(a.alts, s, bol, false, i, ws[x].end)
    ensures AllRecorded(Enclose(a.no, i, ws), GroupsAtom(a), s, bol)
    decreases |ws|
  {
    hide MatchAlts, Recorded, GroupsAlts, GroupsAtom;
    if ws != [] {
      AltsKeys(a.alts, n + 1);
      RecordedWrap(a, s, bol, i, ws[0]);
      RecordedEnclose(a, n, s, bol, i, ws[1..]);
    }
  }

  lemma {:induction false} AtomRecorded(a: Atom, n: nat, s: Text, bol: int, i: nat)
    requires WfAtom(a, n) && i <= |s|
    ensures AllRecorded(WaysAtom(a, s, bol, i), GroupsAtom(a), s, bol)
    decreases a, 0
  {
    hide MatchAlts, WaysAlts, Recorded, GroupsAlts;
    if a.Group? {
      var ws := WaysAlts(a.alts, s, bol, i);
      AltsRecorded(a.alts, n + 1, s, bol, i);
      forall x | 0 <= x < |ws| ensures MatchAlts(a.alts, s, bol, false, i, ws[x].end) {
        AltsAgree(a.alts, n + 1, s, bol, i, ws[x].end);
      }
      RecordedEnclose(a, n, s, bol, i, ws);
    } else {
      var ws := WaysAtom(a, s, bol, i);
      if ws != [] {
        RecordedPlain(ws[0].end, GroupsAtom(a), s, bol);
      }
    }
  }

  lemma {:induction false} StarRecorded(a: Atom, n: nat, s: Text, bol: int, i: nat)
    requires WfAtom(a, n) && i <= |s|
    ensures AllRecorded(WaysPlus(a, s, bol, i), GroupsAtom(a), s, bol)
    ensures AllRecorded(WaysStar(a, s, bol, i), GroupsAtom(a), s, bol)
    decreases a, 1, |s| - i, |s| + 1
  {
    hide Recorded, WaysAtom;
    AtomRecorded(a, n, s, bol, i);
    ThenStarRecorded(WaysAtom(a, s, bol, i), a, n, s, bol, i);
    RecordedPlain(i, GroupsAtom(a), s, bol);
  }

  lemma {:induction false} ThenStarRecorded(ws: seq<Way>, a: Atom, n: nat, s: Text, bol: int, i: nat)
    requires WfAtom(a, n) && i <= |s| && AllRecorded(ws, GroupsAtom(a), s, bol)
    ensures AllRecorded(ThenStar(ws, a, s, bol, i), GroupsAtom(a), s, bol)
    decreases a, 1, |s| - i, 0, |ws|
  {
    hide Recorded, WaysStar;
    if ws != [] {
      ThenStarRecorded(ws[1..], a, n, s, bol, i);
      if i < ws[0].end <= |s| {
        StarRecorded(a, n, s, bol, ws[0].end);
        RecordedMergeAll(ws[0], WaysStar(a, s, bol, ws[0].end), GroupsAtom(a), s, bol);
      }
    }
  }

  lemma {:induction false} PieceRecorded(p: Piece, n: nat, s: Text, bol: int, i: nat)
    requires WfPiece(p, n) && i <= |s|
    ensures AllRecorded(WaysPiece(p, s, bol, i), GroupsAtom(p.atom), s, bol)
    decreases p, 0
  {
    hide Recorded, WaysAtom, WaysStar, WaysPlus, GroupsAtom;
    AtomRecorded(p.atom, n, s, bol, i);
    StarRecorded(p.atom, n, s, bol, i);
    RecordedPlain(i, GroupsAtom(p.atom), s, bol);
  }

  lemma {:induction false} BranchRecorded(b: Branch, n: nat, s: Text, bol: int, i: nat)
    requires WfBranch(b, n) && i <= |s|
    ensures AllRecorded(WaysBranch(b, s, bol, i), GroupsBranch(b), s, bol)
    decreases b, 0
  {
    hide Recorded, AllRecorded, WaysPiece, GroupsAtom, WfAtom, WfPair;
    if b.Empty? {
      RecordedPlain(i, GroupsBranch(b), s, bol);
    } else {
      var ws := WaysPiece(b.head, s, bol, i);
      var m := NextAtom(b.head.atom, n);
      PieceRecorded(b.head, n, s, bol, i);
      PieceInRange(b.head, n, s, bol, i);
      AtomKeys(b.head.atom, n);
      BranchKeys(b.tail, m);
      RecordedMore(ws, GroupsAtom(b.head.atom), GroupsBranch(b), s, bol);
      ThenBranchRecorded(ws, b.tail, m, s, bol, GroupsBranch(b));
    }
  }

  lemma {:induction false} ThenBranchRecorded(ws: seq<Way>, rest: Branch, n: nat, s: Text, bol: int, G: map<nat, Alts>)
    requires WfBranch(rest, n) && AllRecorded(ws, G, s, bol) && InRange(ws, s)
    requires forall no :: no in GroupsBranch(rest) ==> no in G && G[no] == GroupsBranch(rest)[no]
    ensures AllRecorded(ThenBranch(ws, rest, s, bol), G, s, bol)
    decreases rest, 1, |ws|
  {
    hide Recorded, WaysBranch, GroupsBranch, WfBranch;
    if ws != [] {
      var vs := WaysBranch(rest, s, bol, ws[0].end);
      BranchRecorded(rest, n, s, bol, ws[0].end);
      RecordedMore(vs, GroupsBranch(rest), G, s, bol);
      RecordedMergeAll(ws[0], vs, G, s, bol);
      ThenBranchRecorded(ws[1..], rest, n, s, bol, G);
    }
  }

  lemma {:induction false} AltsRecorded(alts: Alts, n: nat, s: Text, bol: int, i: nat)
    requires WfAlts(alts, n) && i <= |s|
    ensures AllRecorded(WaysAlts(alts, s, bol, i), GroupsAlts(alts), s, bol)
    decreases alts, 0
  {
    hide Recorded, WaysBranch, GroupsBranch, WfBranch;
    BranchRecorded(alts.branch, n, s, bol, i);
    BranchKeys(alts.branch, n);
    if alts.Or? {
      AltsKeys(alts.rest, NextBranch(alts.branch, n));
      AltsRecorded(alts.rest, NextBranch(alts.branch, n), s, bol, i);
      RecordedMore(WaysAlts(alts.rest, s, bol, i), GroupsAlts(alts.rest), GroupsAlts(alts), s, bol);
    }
    RecordedMore(WaysBranch(alts.branch, s, bol, i), GroupsBranch(alts.branch), GroupsAlts(alts), s, bol);
  }

  /** Submatches: whatever group boundaries a search reports delimit a stretch that the group
      itself matches. */
  lemma {:induction false} GroupsAreMatches(alts: Alts, s: Text)
    requires WfAlts(alts, 1) && FirstHit(alts, s, 0, 0).Some?
    ensures Recorded(FirstHit(alts, s, 0, 0).value.way, GroupsAlts(alts), s, 0)
  {
    hide Recorded, WaysAlts, WfAlts;
    GroupsFrom(alts, s, 0);
  }

  lemma {:induction false} GroupsFrom(alts: Alts, s: Text, i: nat)
    requires WfAlts(alts, 1) && i <= |s| && FirstHit(alts, s, 0, i).Some?
    ensures Recorded(FirstHit(alts, s, 0, i).value.way, GroupsAlts(alts), s, 0)
    decreases |s| - i
  {
    hide Recorded, WaysAlts, WfAlts, GroupsAlts;
    if WaysAlts(alts, s, 0, i) != [] {
      AltsRecorded(alts, 1, s, 0, i);
    } else {
      GroupsFrom(alts, s, i + 1);
    }
  }

  // ---------- Which match ----------

  lemma {:induction false} HitIsFirstWay(alts: Alts, s: Text, bol: int, i: nat)
    requires i <= |s| && FirstHit(alts, s, bol, i).Some?
    ensures var hit := FirstHit(alts, s, bol, i).value;
            && hit.start <= |s| && WaysAlts(alts, s, bol, hit.start) != [] && hit.way == WaysAlts(alts, s, bol, hit.start)[0]
    decreases |s| - i
  {
    hide WaysAlts;
    if WaysAlts(alts, s, bol, i) == [] {
      HitIsFirstWay(alts, s, bol, i + 1);
    }
  }

  /** Of all matches that start where the one found does, that of the preferred trace is reported, with the last passage through
      every group. */
  lemma {:induction false} PreferredIsReported(alts: Alts, s: Text, bol: int) returns (t: Trace)
    requires WfAlts(alts, 1) && FirstHit(alts, s, bol, 0).Some?
    ensures var hit := FirstHit(alts, s, bol, 0).value; Preferred(alts, s, bol, hit.start, t) && Shows(hit.way, t)
  {
    hide WaysAlts, FirstHit, WfAlts, Shows, Preferred;
    HitIsFirstWay(alts, s, bol, 0);
    t := FirstIsPreferred(alts, 1, s, bol, FirstHit(alts, s, bol, 0).value.start);
  }

  // ---------- From the text of a pattern to the answer ----------

  /** The arrays hold the bounds of the match t that starts at i, and of the last passage through each group, -1 for none. */
  ghost predicate Reports(i: nat, t: Trace, startp: seq<int>, endp: seq<int>)
    requires |startp| == |endp| == NSUBEXP
  {
    && startp[0] == i && endp[0] == t.end
    && forall no: nat :: 0 < no < NSUBEXP ==>
         var x := LastPassage(t.passages, no);
         if x >= 0 then startp[no] == t.passages[x].start && endp[no] == t.passages[x].end else startp[no] == endp[no] == -1
  }

  /** The answer for a subject: found or not, where, and which of the matches there. */
  ghost predicate Right(alts: Alts, s: Text, found: bool, startp: seq<int>, endp: seq<int>)
    requires |startp| == |endp| == NSUBEXP
  {
    && (found <==> Occurs(alts, s, false)) && (Occurs(alts, s, true) ==> found)
    && (found ==>
          var start, end := startp[0], endp[0];
          && 0 <= start <= |s| && 0 <= end && MatchAlts(alts, s, 0, false, start, end)
          && (forall x: nat, j: nat :: x < start ==> !MatchAlts(alts, s, 0, false, x, j))
          && (SinglesAlts(alts) ==> MatchAlts(alts, s, 0, true, start, end))
          && exists t :: Preferred(alts, s, 0, start, t) && Reports(start, t, startp, endp))
  }

  /** regcomp and then regexec: for every text and every subject that is not empty, or whose pattern has no known first character. */
  method CompileAndSearch(exp: Text, s: Text, beyond: Text) returns (r: Outcome, found: bool, startp: seq<int>, endp: seq<int>)
    ensures |startp| == |endp| == NSUBEXP
    ensures r.Compiled? <==> Parse(exp).Ok? && LenProgram(Parse(exp).val) < 0x7fff
    ensures r.Compiled? && (s != [] || StartHint(Parse(exp).val) == 0) ==> Right(Parse(exp).val, s, found, startp, endp)
    ensures r.Compiled? && s == [] && StartHint(Parse(exp).val) != 0 ==>
      !Occurs(Parse(exp).val, s, false) && (found <==> FirstHit(Parse(exp).val, beyond, -1, 0).Some?)
  {
    hide Parse, LenProgram, StartHint, FirstHit, MatchAlts, Occurs, SinglesAlts, WfAlts, CodeProgram, Right;
    found, startp, endp := false, seq(NSUBEXP, _ => -1), seq(NSUBEXP, _ => -1);
    r := RegComp(exp);
    if r.Compiled? {
      ghost var alts := Parse(exp).val;
      Compiled(r.re, alts);
      found, startp, endp := RegExec(r.re, s, beyond, alts);
      RightAnswer(alts, s, found, startp, endp);
      if StartHint(alts) != 0 && s == [] {
        EmptySubject(alts);
        SearchMeaning(alts, s);
      }
    }
  }

  lemma {:induction false} Compiled(re: Regexp, alts: Alts)
    requires IsRegexp(re, alts)
    ensures WfAlts(alts, 1) && re.regstart == StartHint(alts)
  {
  }

  lemma {:induction false} RightAnswer(alts: Alts, s: Text, found: bool, startp: seq<int>, endp: seq<int>)
    requires WfAlts(alts, 1) && |startp| == |endp| == NSUBEXP
    ensures Answers(FirstHit(alts, s, 0, 0), found, startp, endp) ==> Right(alts, s, found, startp, endp)
  {
    hide FirstHit, MatchAlts, Occurs, SinglesAlts, WfAlts, Preferred, Shows, Reports;
    SearchMeaning(alts, s);
    if Occurs(alts, s, true) {
      SearchComplete(alts, s);
    }
    if FirstHit(alts, s, 0, 0).Some? {
      var hit := FirstHit(alts, s, 0, 0).value;
      WholeBounds(hit.start, hit.way);
      var t := PreferredIsReported(alts, s, 0);
      if Answers(FirstHit(alts, s, 0, 0), found, startp, endp) {
        ShownIsReported(hit.start, hit.way, t, startp, endp);
      }
      if SinglesAlts(alts) {
        SearchSound(alts, s);
      }
    }
  }

  lemma {:induction false} ShownIsReported(i: nat, w: Way, t: Trace, startp: seq<int>, endp: seq<int>)
    requires |startp| == |endp| == NSUBEXP && Answers(Some(Hit(i, w)), true, startp, endp) && Shows(w, t)
    ensures Reports(i, t, startp, endp)
  {
    hide LastPassage;
    WholeBounds(i, w);
    forall no: nat | 0 < no < NSUBEXP
      ensures var x := LastPassage(t.passages, no); x >= 0 ==> startp[no] == t.passages[x].start && endp[no] == t.passages[x].end
      ensures LastPassage(t.passages, no) < 0 ==> startp[no] == endp[no] == -1
    {
      assert LastNoted(w, t.passages, no);
    }
  }

  lemma {:induction false} WholeBounds(start: nat, way: Way)
    ensures var w := Whole(start, way); 0 in w.starts && w.starts[0] == start && 0 in w.ends && w.ends[0] == way.end
  {
  }
}
