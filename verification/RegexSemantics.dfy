/** What a pattern means, twice.

    `MatchAtom` and its friends are the textbook denotation: the pattern matches the subject
    from i to j.  `WaysAtom` and its friends list the ways a pattern can match from i in the
    order in which a backtracking matcher tries them, each with the end it reaches and the
    group boundaries it records.  The theorems say that the two agree, that HASWIDTH is
    sound, and what the substring test that the matcher uses for literals changes.

    `bol` is the position of the beginning of the line, or -1 if it lies elsewhere.
 */
module RegexSemantics {
  import opened RegexSyntax

  // ---------- Literals and sets ----------

  /** Text t stands in s at i. */
  predicate StandsAt(t: Text, s: Text, i: nat) {
    i + |t| <= |s| && s[i..i + |t|] == t
  }

  /** Text t stands in s at i or later. */
  predicate StandsFrom(t: Text, s: Text, i: nat)
    decreases |s| - i
  {
    i + |t| <= |s| && (StandsAt(t, s, i) || StandsFrom(t, s, i + 1))
  }

  /** What the matcher's EXACTLY case tests: the first character here, the whole text here
      or anywhere later. */
  predicate LooselyAt(t: Text, s: Text, i: nat) {
    |t| > 0 && At(s, i) == t[0] && StandsFrom(t, s, i)
  }

  /** A literal under the strict or the loose reading. */
  predicate LiteralAt(t: Text, s: Text, strict: bool, i: nat) {
    if strict then StandsAt(t, s, i) else LooselyAt(t, s, i)
  }

  /** The set lists c, ranges taken with both ends, from position k on. */
  predicate ListsFrom(raw: Text, k: nat, c: Ch)
    decreases |raw| - k
  {
    if k >= |raw| then false
    else if raw[k] == CH_DASH && 0 < k < |raw| - 1 then
      raw[k - 1] <= c <= raw[k + 1] || ListsFrom(raw, k + 2, c)
    else raw[k] == c || ListsFrom(raw, k + 1, c)
  }

  predicate Lists(raw: Text, c: Ch)
    requires |raw| > 0
  {
    var k := SetSkip(raw[0]);
    (k == 1 && c == raw[0]) || ListsFrom(raw, k, c)
  }

  // ---------- The textbook denotation ----------

  ghost predicate MatchAtom(a: Atom, s: Text, bol: int, strict: bool, i: nat, j: nat)
    decreases a, 0
  {
    match a
    case Bol => i == bol && j == i
    case Eol => i == |s| && j == i
    case Any => i < |s| && j == i + 1
    case Set(neg, raw) => i < |s| && j == i + 1 && |raw| > 0 && Lists(raw, s[i]) != neg
    case Quoted(c) => i < |s| && j == i + 1 && s[i] == c
    case Literal(t) => j == i + |t| && LiteralAt(t, s, strict, i)
    case Group(_, alts) => MatchAlts(alts, s, bol, strict, i, j)
  }

  /** Zero or more iterations, each consuming something. */
  ghost predicate MatchStar(a: Atom, s: Text, bol: int, strict: bool, i: nat, j: nat)
    decreases a, 1, j - i
  {
    i == j || exists k: nat :: i < k <= j && MatchAtom(a, s, bol, strict, i, k) && MatchStar(a, s, bol, strict, k, j)
  }

  ghost predicate MatchPiece(p: Piece, s: Text, bol: int, strict: bool, i: nat, j: nat)
    decreases p, 0
  {
    match p.rep
    case Once => MatchAtom(p.atom, s, bol, strict, i, j)
    case Star => MatchStar(p.atom, s, bol, strict, i, j)
    case Plus =>
      exists k: nat :: MatchAtom(p.atom, s, bol, strict, i, k) && MatchStar(p.atom, s, bol, strict, k, j)
    case Quest => i == j || MatchAtom(p.atom, s, bol, strict, i, j)
  }

  ghost predicate MatchBranch(b: Branch, s: Text, bol: int, strict: bool, i: nat, j: nat)
    decreases b, 0
  {
    match b
    case Empty => i == j
    case Cons(p, rest) =>
      exists k: nat :: MatchPiece(p, s, bol, strict, i, k) && MatchBranch(rest, s, bol, strict, k, j)
  }

  ghost predicate MatchAlts(alts: Alts, s: Text, bol: int, strict: bool, i: nat, j: nat)
    decreases alts, 0
  {
    || MatchBranch(alts.branch, s, bol, strict, i, j)
    || (alts.Or? && MatchAlts(alts.rest, s, bol, strict, i, j))
  }

  // ---------- The ordered ways to match ----------

  /** A way to match: where it ends and where the groups it used started and ended. */
  datatype Way = Way(end: nat, starts: map<nat, nat>, ends: map<nat, nat>)

  function Plain(j: nat): Way {
    Way(j, map[], map[])
  }

  /** First w, then v; what v records about a group takes precedence. */
  function Merge(w: Way, v: Way): Way {
    Way(v.end, w.starts + v.starts, w.ends + v.ends)
  }

  function MergeAll(w: Way, vs: seq<Way>): (r: seq<Way>)
    ensures |r| == |vs|
  {
    if vs == [] then [] else [Merge(w, vs[0])] + MergeAll(w, vs[1..])
  }

  function Opening(no: nat, i: nat): Way {
    Way(i, map[no := i], map[])
  }

  function Closing(no: nat, j: nat): Way {
    Way(j, map[], map[no := j])
  }

  /** The ways through a group, from the ways through its alternatives. */
  function Enclose(no: nat, i: nat, ws: seq<Way>): (r: seq<Way>)
    ensures |r| == |ws|
  {
    if ws == [] then []
    else [Merge(Opening(no, i), Merge(ws[0], Closing(no, ws[0].end)))] + Enclose(no, i, ws[1..])
  }

  function OneIf(b: bool, j: nat): seq<Way> {
    if b then [Plain(j)] else []
  }

  function WaysAtom(a: Atom, s: Text, bol: int, i: nat): seq<Way>
    decreases a, 0
  {
    match a
    case Bol => OneIf(i == bol, i)
    case Eol => OneIf(i == |s|, i)
    case Any => OneIf(i < |s|, i + 1)
    case Set(neg, raw) => OneIf(i < |s| && (s[i] in Members(raw)) != neg, i + 1)
    case Quoted(c) => OneIf(LooselyAt([c], s, i), i + 1)
    case Literal(t) => OneIf(LooselyAt(t, s, i), i + |t|)
    case Group(no, alts) => Enclose(no, i, WaysAlts(alts, s, bol, i))
  }

  /** Greedy iteration: once more if possible, else stop here. */
  function WaysStar(a: Atom, s: Text, bol: int, i: nat): seq<Way>
    decreases a, 1, if i <= |s| then |s| - i else 0, 3
  {
    WaysPlus(a, s, bol, i) + [Plain(i)]
  }

  function WaysPlus(a: Atom, s: Text, bol: int, i: nat): seq<Way>
    decreases a, 1, if i <= |s| then |s| - i else 0, 2
  {
    ThenStar(WaysAtom(a, s, bol, i), a, s, bol, i)
  }

  /** Continues each of the ways ws, which started at i, with further iterations. */
  function ThenStar(ws: seq<Way>, a: Atom, s: Text, bol: int, i: nat): seq<Way>
    decreases a, 1, if i <= |s| then |s| - i else 0, 1, |ws|
  {
    if ws == [] then []
    else
      var rest := ThenStar(ws[1..], a, s, bol, i);
      if i < ws[0].end <= |s| then MergeAll(ws[0], WaysStar(a, s, bol, ws[0].end)) + rest else rest
  }

  function WaysPiece(p: Piece, s: Text, bol: int, i: nat): seq<Way>
    decreases p, 0
  {
    match p.rep
    case Once => WaysAtom(p.atom, s, bol, i)
    case Star => WaysStar(p.atom, s, bol, i)
    case Plus => WaysPlus(p.atom, s, bol, i)
    case Quest => WaysAtom(p.atom, s, bol, i) + [Plain(i)]
  }

  function WaysBranch(b: Branch, s: Text, bol: int, i: nat): seq<Way>
    decreases b, 0
  {
    match b
    case Empty => [Plain(i)]
    case Cons(p, rest) => ThenBranch(WaysPiece(p, s, bol, i), rest, s, bol)
  }

  /** Continues each of the ways ws with the rest of a branch. */
  function ThenBranch(ws: seq<Way>, rest: Branch, s: Text, bol: int): seq<Way>
    decreases rest, 1, |ws|
  {
    if ws == [] then []
    else MergeAll(ws[0], WaysBranch(rest, s, bol, ws[0].end)) + ThenBranch(ws[1..], rest, s, bol)
  }

  function WaysAlts(alts: Alts, s: Text, bol: int, i: nat): seq<Way>
    decreases alts, 0
  {
    WaysBranch(alts.branch, s, bol, i) + if alts.Or? then WaysAlts(alts.rest, s, bol, i) else []
  }

  // ---------- HASWIDTH is sound ----------

  lemma {:induction false} AtomWidth(a: Atom, n: nat, s: Text, bol: int, strict: bool, i: nat, j: nat)
    requires WfAtom(a, n) && i <= |s| && MatchAtom(a, s, bol, strict, i, j)
    ensures i <= j <= |s| && (HasWidthAtom(a) ==> i < j)
    decreases a, 0
  {
    hide StandsFrom;
    match a
    case Group(_, alts) => AltsWidth(alts, n + 1, s, bol, strict, i, j);
    case Literal(t) =>
      if !strict {
        StandsFromLength(t, s, i);
      }
    case _ =>
  }

  lemma {:induction false} StandsFromLength(t: Text, s: Text, i: nat)
    requires StandsFrom(t, s, i)
    ensures i + |t| <= |s|
  {
  }

  lemma {:induction false} StarWidth(a: Atom, n: nat, s: Text, bol: int, strict: bool, i: nat, j: nat)
    requires WfAtom(a, n) && i <= |s| && MatchStar(a, s, bol, strict, i, j)
    ensures i <= j <= |s|
    decreases a, 1, j - i
  {
    if i != j {
      var k: nat :| i < k <= j && MatchAtom(a, s, bol, strict, i, k) && MatchStar(a, s, bol, strict, k, j);
      AtomWidth(a, n, s, bol, strict, i, k);
      StarWidth(a, n, s, bol, strict, k, j);
    }
  }

  lemma {:induction false} FirstIteration(p: Piece, s: Text, bol: int, strict: bool, i: nat, j: nat) returns (k: nat)
    requires p.rep == Plus && MatchPiece(p, s, bol, strict, i, j)
    ensures MatchAtom(p.atom, s, bol, strict, i, k) && MatchStar(p.atom, s, bol, strict, k, j)
  {
    k :| MatchAtom(p.atom, s, bol, strict, i, k) && MatchStar(p.atom, s, bol, strict, k, j);
  }

  lemma {:induction false} PieceWidth(p: Piece, n: nat, s: Text, bol: int, strict: bool, i: nat, j: nat)
    requires WfPiece(p, n) && i <= |s| && MatchPiece(p, s, bol, strict, i, j)
    ensures i <= j <= |s| && (HasWidthPiece(p) ==> i < j)
    decreases p, 0
  {
    match p.rep
    case Once => AtomWidth(p.atom, n, s, bol, strict, i, j);
    case Star => StarWidth(p.atom, n, s, bol, strict, i, j);
    case Plus =>
      var k := FirstIteration(p, s, bol, strict, i, j);
      AtomWidth(p.atom, n, s, bol, strict, i, k);
      StarWidth(p.atom, n, s, bol, strict, k, j);
    case Quest =>
      if i != j {
        AtomWidth(p.atom, n, s, bol, strict, i, j);
      }
  }

  lemma {:induction false} BranchWidth(b: Branch, n: nat, s: Text, bol: int, strict: bool, i: nat, j: nat)
    requires WfBranch(b, n) && i <= |s| && MatchBranch(b, s, bol, strict, i, j)
    ensures i <= j <= |s| && (HasWidthBranch(b) ==> i < j)
    decreases b, 0
  {
    hide MatchPiece, HasWidthPiece, WfPiece, WfPair;
    if b.Cons? {
      var k: nat :| MatchPiece(b.head, s, bol, strict, i, k) && MatchBranch(b.tail, s, bol, strict, k, j);
      PieceWidth(b.head, n, s, bol, strict, i, k);
      BranchWidth(b.tail, NextAtom(b.head.atom, n), s, bol, strict, k, j);
    }
  }

  /** Nothing matches backwards or past the end, and what HASWIDTH marks consumes something. */
  lemma {:induction false} AltsWidth(alts: Alts, n: nat, s: Text, bol: int, strict: bool, i: nat, j: nat)
    requires WfAlts(alts, n) && i <= |s| && MatchAlts(alts, s, bol, strict, i, j)
    ensures i <= j <= |s| && (HasWidthAlts(alts) ==> i < j)
    decreases alts, 0
  {
    hide MatchBranch, HasWidthBranch, WfBranch;
    if MatchBranch(alts.branch, s, bol, strict, i, j) {
      BranchWidth(alts.branch, n, s, bol, strict, i, j);
    } else {
      AltsWidth(alts.rest, NextBranch(alts.branch, n), s, bol, strict, i, j);
    }
  }

  // ---------- The ways agree with the denotation ----------

  /** Some way in the list ends at j. */
  ghost predicate Reaches(ws: seq<Way>, j: nat) {
    exists x :: 0 <= x < |ws| && ws[x].end == j
  }

  lemma {:induction false} ReachesConcat(vs: seq<Way>, ws: seq<Way>, j: nat)
    ensures Reaches(vs + ws, j) <==> Reaches(vs, j) || Reaches(ws, j)
  {
    if x :| 0 <= x < |ws| && ws[x].end == j {
      assert (vs + ws)[|vs| + x].end == j;
    }
    if x :| 0 <= x < |vs| && vs[x].end == j {
      assert (vs + ws)[x].end == j;
    }
  }

  lemma {:induction false} ReachesNothing(ws: seq<Way>)
    requires ws == []
    ensures forall j: nat :: !Reaches(ws, j)
  {
  }

  lemma {:induction false} ReachesFirst(ws: seq<Way>, j: nat)
    requires ws != []
    ensures Reaches(ws, j) <==> ws[0].end == j || Reaches(ws[1..], j)
  {
    assert ws == [ws[0]] + ws[1..];
    ReachesConcat([ws[0]], ws[1..], j);
    assert [ws[0]][0].end == ws[0].end;
  }

  lemma {:induction false} ReachesMergeAll(w: Way, vs: seq<Way>, j: nat)
    ensures Reaches(MergeAll(w, vs), j) <==> Reaches(vs, j)
  {
    if vs != [] {
      ReachesMergeAll(w, vs[1..], j);
      ReachesFirst(vs, j);
      ReachesFirst(MergeAll(w, vs), j);
    }
  }

  lemma {:induction false} ReachesEnclose(no: nat, i: nat, ws: seq<Way>, j: nat)
    ensures Reaches(Enclose(no, i, ws), j) <==> Reaches(ws, j)
  {
    if ws != [] {
      ReachesEnclose(no, i, ws[1..], j);
      ReachesFirst(ws, j);
      ReachesFirst(Enclose(no, i, ws), j);
    }
  }

  /** Some way in ws can be continued through the rest of a branch to j. */
  ghost predicate ReachesVia(ws: seq<Way>, rest: Branch, s: Text, bol: int, j: nat) {
    exists k: nat :: Reaches(ws, k) && Reaches(WaysBranch(rest, s, bol, k), j)
  }

  lemma {:induction false} ReachesThenBranch(ws: seq<Way>, rest: Branch, s: Text, bol: int, j: nat)
    ensures Reaches(ThenBranch(ws, rest, s, bol), j) <==> ReachesVia(ws, rest, s, bol, j)
  {
    hide Reaches, WaysBranch;
    if ws == [] {
      ReachesNothing(ws);
    } else {
      var vs := MergeAll(ws[0], WaysBranch(rest, s, bol, ws[0].end));
      ReachesThenBranch(ws[1..], rest, s, bol, j);
      ReachesConcat(vs, ThenBranch(ws[1..], rest, s, bol), j);
      ReachesMergeAll(ws[0], WaysBranch(rest, s, bol, ws[0].end), j);
      forall k: nat ensures Reaches(ws, k) <==> ws[0].end == k || Reaches(ws[1..], k) {
        ReachesFirst(ws, k);
      }
    }
  }

  /** Some way in ws moves past i and can be continued with further iterations to j. */
  ghost predicate ReachesAgain(ws: seq<Way>, a: Atom, s: Text, bol: int, i: nat, j: nat) {
    exists k: nat :: i < k <= |s| && Reaches(ws, k) && Reaches(WaysStar(a, s, bol, k), j)
  }

  lemma {:induction false} ReachesThenStar(ws: seq<Way>, a: Atom, s: Text, bol: int, i: nat, j: nat)
    ensures Reaches(ThenStar(ws, a, s, bol, i), j) <==> ReachesAgain(ws, a, s, bol, i, j)
    decreases |ws|
  {
    hide Reaches, WaysStar;
    if ws == [] {
      ReachesNothing(ws);
    } else {
      var rest := ThenStar(ws[1..], a, s, bol, i);
      ReachesThenStar(ws[1..], a, s, bol, i, j);
      ReachesConcat(MergeAll(ws[0], WaysStar(a, s, bol, ws[0].end)), rest, j);
      ReachesMergeAll(ws[0], WaysStar(a, s, bol, ws[0].end), j);
      forall k: nat ensures Reaches(ws, k) <==> ws[0].end == k || Reaches(ws[1..], k) {
        ReachesFirst(ws, k);
      }
    }
  }

  lemma {:induction false} ReachesOneIf(b: bool, e: nat, j: nat)
    ensures Reaches(OneIf(b, e), j) <==> b && e == j
  {
    if b {
      assert OneIf(b, e)[0].end == e;
    }
  }

  lemma {:induction false} MembersAreListed(raw: Text, k: nat, c: Ch)
    requires RangesOkFrom(raw, k) && (k == 0 ==> At(raw, 0) != CH_DASH)
    ensures c in MembersFrom(raw, k) || (0 < k <= |raw| && c == raw[k - 1])
            <==> ListsFrom(raw, k, c) || (0 < k <= |raw| && c == raw[k - 1])
    decreases |raw| - k
  {
    if k < |raw| {
      if raw[k] == CH_DASH && k + 1 < |raw| {
        MembersAreListed(raw, k + 2, c);
      } else {
        MembersAreListed(raw, k + 1, c);
      }
    }
  }

  /** A compiled set holds exactly the characters that the bracket expression lists. */
  lemma {:induction false} SetMeaning(neg: bool, raw: Text, c: Ch)
    requires WfRaw(neg, raw)
    ensures c in Members(raw) <==> Lists(raw, c)
  {
    MembersAreListed(raw, SetSkip(raw[0]), c);
  }

  lemma {:induction false} QuotedMeaning(c: Ch, s: Text, i: nat)
    ensures LooselyAt([c], s, i) <==> i < |s| && s[i] == c
  {
    if i < |s| && s[i] == c {
      assert s[i..i + 1] == [c];
    }
  }

  lemma {:induction false} AtomAgrees(a: Atom, n: nat, s: Text, bol: int, i: nat, j: nat)
    requires WfAtom(a, n) && i <= |s|
    ensures Reaches(WaysAtom(a, s, bol, i), j) <==> MatchAtom(a, s, bol, false, i, j)
    decreases a, 0
  {
    hide Reaches, Members, Lists, LooselyAt, MatchAlts, WaysAlts;
    match a
    case Bol => ReachesOneIf(i == bol, i, j);
    case Eol => ReachesOneIf(i == |s|, i, j);
    case Any => ReachesOneIf(i < |s|, i + 1, j);
    case Set(neg, raw) =>
      ReachesOneIf(i < |s| && (s[i] in Members(raw)) != neg, i + 1, j);
      if i < |s| {
        SetMeaning(neg, raw, s[i]);
      }
    case Quoted(c) =>
      ReachesOneIf(LooselyAt([c], s, i), i + 1, j);
      QuotedMeaning(c, s, i);
    case Literal(t) =>
      ReachesOneIf(LooselyAt(t, s, i), i + |t|, j);
    case Group(no, alts) =>
      ReachesEnclose(no, i, WaysAlts(alts, s, bol, i), j);
      AltsAgree(alts, n + 1, s, bol, i, j);
  }

  lemma {:induction false} StarAgrees(a: Atom, n: nat, s: Text, bol: int, i: nat, j: nat)
    requires WfAtom(a, n) && i <= |s|
    ensures Reaches(WaysStar(a, s, bol, i), j) <==> MatchStar(a, s, bol, false, i, j)
    decreases a, 1, |s| - i, 1
  {
    hide Reaches, WaysPlus;
    ReachesConcat(WaysPlus(a, s, bol, i), [Plain(i)], j);
    ReachesOneIf(true, i, j);
    PlusAgrees(a, n, s, bol, i, j);
  }

  /** One step of greedy iteration against one step of the denotation. */
  ghost predicate Moves(a: Atom, s: Text, bol: int, strict: bool, i: nat, j: nat) {
    exists k: nat :: i < k <= j && MatchAtom(a, s, bol, strict, i, k) && MatchStar(a, s, bol, strict, k, j)
  }

  lemma {:induction false} PlusAgrees(a: Atom, n: nat, s: Text, bol: int, i: nat, j: nat)
    requires WfAtom(a, n) && i <= |s|
    ensures Reaches(WaysPlus(a, s, bol, i), j) <==> Moves(a, s, bol, false, i, j)
    decreases a, 1, |s| - i, 0
  {
    hide Reaches, WaysAtom, MatchAtom;
    ReachesThenStar(WaysAtom(a, s, bol, i), a, s, bol, i, j);
    forall k: nat | i < k <= |s|
      ensures Reaches(WaysAtom(a, s, bol, i), k) <==> MatchAtom(a, s, bol, false, i, k)
      ensures Reaches(WaysStar(a, s, bol, k), j) <==> MatchStar(a, s, bol, false, k, j)
      ensures MatchStar(a, s, bol, false, k, j) ==> k <= j <= |s|
    {
      AtomAgrees(a, n, s, bol, i, k);
      StarAgrees(a, n, s, bol, k, j);
      if MatchStar(a, s, bol, false, k, j) {
        StarWidth(a, n, s, bol, false, k, j);
      }
    }
    forall k: nat | MatchAtom(a, s, bol, false, i, k)
      ensures k <= |s|
    {
      AtomWidth(a, n, s, bol, false, i, k);
    }
  }

  lemma {:induction false} PieceAgrees(p: Piece, n: nat, s: Text, bol: int, i: nat, j: nat)
    requires WfPiece(p, n) && i <= |s|
    ensures Reaches(WaysPiece(p, s, bol, i), j) <==> MatchPiece(p, s, bol, false, i, j)
    decreases p, 0
  {
    match p.rep
    case Once => AtomAgrees(p.atom, n, s, bol, i, j);
    case Star => StarAgrees(p.atom, n, s, bol, i, j);
    case Plus =>
      PlusAgrees(p.atom, n, s, bol, i, j);
      PlusMoves(p, n, s, bol, i, j);
    case Quest =>
      ReachesConcat(WaysAtom(p.atom, s, bol, i), [Plain(i)], j);
      ReachesOneIf(true, i, j);
      AtomAgrees(p.atom, n, s, bol, i, j);
  }

  /** For an operand with width, one or more iterations are one moving iteration and more. */
  lemma {:induction false} PlusMoves(p: Piece, n: nat, s: Text, bol: int, i: nat, j: nat)
    requires p.rep == Plus && WfPiece(p, n) && i <= |s|
    ensures MatchPiece(p, s, bol, false, i, j) <==> Moves(p.atom, s, bol, false, i, j)
  {
    if MatchPiece(p, s, bol, false, i, j) {
      var k := FirstIteration(p, s, bol, false, i, j);
      AtomWidth(p.atom, n, s, bol, false, i, k);
      StarWidth(p.atom, n, s, bol, false, k, j);
    }
  }

  lemma {:induction false} BranchAgrees(b: Branch, n: nat, s: Text, bol: int, i: nat, j: nat)
    requires WfBranch(b, n) && i <= |s|
    ensures Reaches(WaysBranch(b, s, bol, i), j) <==> MatchBranch(b, s, bol, false, i, j)
    decreases b, 0
  {
    match b
    case Empty => ReachesOneIf(true, i, j);
    case Cons(p, rest) =>
      ReachesThenBranch(WaysPiece(p, s, bol, i), rest, s, bol, j);
      forall k: nat
        ensures Reaches(WaysPiece(p, s, bol, i), k) <==> MatchPiece(p, s, bol, false, i, k)
        ensures MatchPiece(p, s, bol, false, i, k) ==> k <= |s|
      {
        PieceAgrees(p, n, s, bol, i, k);
        if MatchPiece(p, s, bol, false, i, k) {
          PieceWidth(p, n, s, bol, false, i, k);
        }
      }
      forall k: nat | k <= |s|
        ensures Reaches(WaysBranch(rest, s, bol, k), j) <==> MatchBranch(rest, s, bol, false, k, j)
      {
        BranchAgrees(rest, NextAtom(p.atom, n), s, bol, k, j);
      }
  }

  /** The backtracking order reaches exactly the ends that the denotation allows. */
  lemma {:induction false} AltsAgree(alts: Alts, n: nat, s: Text, bol: int, i: nat, j: nat)
    requires WfAlts(alts, n) && i <= |s|
    ensures Reaches(WaysAlts(alts, s, bol, i), j) <==> MatchAlts(alts, s, bol, false, i, j)
    decreases alts, 0
  {
    BranchAgrees(alts.branch, n, s, bol, i, j);
    if alts.Or? {
      ReachesConcat(WaysBranch(alts.branch, s, bol, i), WaysAlts(alts.rest, s, bol, i), j);
      AltsAgree(alts.rest, NextBranch(alts.branch, n), s, bol, i, j);
    } else {
      assert WaysAlts(alts, s, bol, i) == WaysBranch(alts.branch, s, bol, i);
    }
  }

  // ---------- What the substring test for literals changes ----------

  /** Every literal is a single character. */
  predicate SinglesAtom(a: Atom) {
    match a
    case Literal(t) => |t| == 1
    case Group(_, alts) => SinglesAlts(alts)
    case _ => true
  }

  predicate SinglesBranch(b: Branch) {
    b.Cons? ==> SinglesAtom(b.head.atom) && SinglesBranch(b.tail)
  }

  predicate SinglesAlts(alts: Alts) {
    SinglesBranch(alts.branch) && (alts.Or? ==> SinglesAlts(alts.rest))
  }

  /** The loose test accepts wherever the literal stands, and is exact for single characters. */
  lemma {:induction false} LiteralReadings(t: Text, s: Text, i: nat)
    requires |t| > 0
    ensures StandsAt(t, s, i) ==> LooselyAt(t, s, i)
    ensures |t| == 1 && LooselyAt(t, s, i) ==> StandsAt(t, s, i)
  {
    if StandsAt(t, s, i) {
      assert s[i..i + |t|][0] == t[0];
    }
    if |t| == 1 && LooselyAt(t, s, i) {
      assert s[i..i + 1] == [t[0]];
    }
  }

  /** A subject on which the loose test accepts a longer literal that is not there. */
  lemma {:induction false} LooseCounterexample(t: Text) returns (s: Text)
    requires |t| > 1
    ensures LooselyAt(t, s, 0) && !StandsAt(t, s, 0)
  {
    var other: Ch := if t[1] == 1 then 2 else 1;
    s := [t[0], other] + t;
    assert s[2..2 + |t|] == t;
    assert StandsFrom(t, s, 2) && StandsFrom(t, s, 1);
    assert s[0..|t|][1] != t[1];
  }

  /** The matcher's test for a literal is exact on every subject if and only if the literal
      is a single character. */
  lemma {:induction false} LooseTestIsExactIff(t: Text)
    requires |t| > 0
    ensures (forall s: Text, i: nat :: LooselyAt(t, s, i) <==> StandsAt(t, s, i)) <==> |t| == 1
  {
    if |t| == 1 {
      forall s: Text, i: nat ensures LooselyAt(t, s, i) <==> StandsAt(t, s, i) {
        LiteralReadings(t, s, i);
      }
    } else {
      var s := LooseCounterexample(t);
    }
  }

  lemma {:induction false} RereadAtom(a: Atom, n: nat, s: Text, bol: int, from: bool, to: bool, i: nat, j: nat)
    requires WfAtom(a, n) && (from || SinglesAtom(a)) && MatchAtom(a, s, bol, from, i, j)
    ensures MatchAtom(a, s, bol, to, i, j)
    decreases a, 0
  {
    match a
    case Group(_, alts) => RereadAlts(alts, n + 1, s, bol, from, to, i, j);
    case Literal(t) => LiteralReadings(t, s, i);
    case _ =>
  }

  lemma {:induction false} RereadStar(a: Atom, n: nat, s: Text, bol: int, from: bool, to: bool, i: nat, j: nat)
    requires WfAtom(a, n) && (from || SinglesAtom(a)) && MatchStar(a, s, bol, from, i, j)
    ensures MatchStar(a, s, bol, to, i, j)
    decreases a, 1, j - i
  {
    if i != j {
      var k: nat :| i < k <= j && MatchAtom(a, s, bol, from, i, k) && MatchStar(a, s, bol, from, k, j);
      RereadAtom(a, n, s, bol, from, to, i, k);
      RereadStar(a, n, s, bol, from, to, k, j);
    }
  }

  lemma {:induction false} RereadPiece(p: Piece, n: nat, s: Text, bol: int, from: bool, to: bool, i: nat, j: nat)
    requires WfPiece(p, n) && (from || SinglesAtom(p.atom)) && MatchPiece(p, s, bol, from, i, j)
    ensures MatchPiece(p, s, bol, to, i, j)
    decreases p, 0
  {
    match p.rep
    case Once => RereadAtom(p.atom, n, s, bol, from, to, i, j);
    case Star => RereadStar(p.atom, n, s, bol, from, to, i, j);
    case Plus =>
      var k := FirstIteration(p, s, bol, from, i, j);
      RereadAtom(p.atom, n, s, bol, from, to, i, k);
      RereadStar(p.atom, n, s, bol, from, to, k, j);
    case Quest =>
      if i != j {
        RereadAtom(p.atom, n, s, bol, from, to, i, j);
      }
  }

  lemma {:induction false} RereadBranch(b: Branch, n: nat, s: Text, bol: int, from: bool, to: bool, i: nat, j: nat)
    requires WfBranch(b, n) && (from || SinglesBranch(b)) && MatchBranch(b, s, bol, from, i, j)
    ensures MatchBranch(b, s, bol, to, i, j)
    decreases b, 0
  {
    if b.Cons? {
      var k: nat :| MatchPiece(b.head, s, bol, from, i, k) && MatchBranch(b.tail, s, bol, from, k, j);
      RereadPiece(b.head, n, s, bol, from, to, i, k);
      RereadBranch(b.tail, NextAtom(b.head.atom, n), s, bol, from, to, k, j);
    }
  }

  /** Whatever matches strictly matches loosely; the converse holds when every literal is a
      single character. */
  lemma {:induction false} RereadAlts(alts: Alts, n: nat, s: Text, bol: int, from: bool, to: bool, i: nat, j: nat)
    requires WfAlts(alts, n) && (from || SinglesAlts(alts)) && MatchAlts(alts, s, bol, from, i, j)
    ensures MatchAlts(alts, s, bol, to, i, j)
    decreases alts, 0
  {
    if MatchBranch(alts.branch, s, bol, from, i, j) {
      RereadBranch(alts.branch, n, s, bol, from, to, i, j);
    } else {
      RereadAlts(alts.rest, NextBranch(alts.branch, n), s, bol, from, to, i, j);
    }
  }
}
