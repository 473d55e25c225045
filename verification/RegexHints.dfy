/** The hints that regcomp digs out of a finished program for regexec.

    On the syntax tree the hints are easy to say: the character every match starts with,
    whether every match starts at the beginning of the line, and the longest literal every
    match goes through.  This module says so, proves that the walk along the links of the
    program (the for loop at the end of regcomp) finds exactly those, and proves what
    regexec relies on: a pattern has no way to match where a hint rules it out.
 */
module RegexHints {
  import opened Slices
  import opened RegexSyntax
  import opened RegexCode
  import opened RegexSemantics
  import opened RegexRank

  // ---------- The hints, on the tree ----------

  /** A literal that is not repeated. */
  predicate IsPlainText(p: Piece) {
    p.rep == Once && (p.atom.Literal? || p.atom.Quoted?)
  }

  /** regstart; 0 for none. */
  function StartHint(alts: Alts): int {
    if alts.Last? && alts.branch.Cons? && IsPlainText(alts.branch.head) && Operand(alts.branch.head.atom) != []
    then Operand(alts.branch.head.atom)[0]
    else 0
  }

  /** reganch. */
  predicate AnchorHint(alts: Alts) {
    alts.Last? && alts.branch.Cons? && alts.branch.head == Piece(Bol, Once)
  }

  /** The longest unrepeated literal of a branch, the last one among equals; [] for none. */
  function Longest(b: Branch, best: Text): Text {
    match b
    case Empty => best
    case Cons(p, rest) =>
      Longest(rest, if IsPlainText(p) && |Operand(p.atom)| >= |best| then Operand(p.atom) else best)
  }

  function Size(b: Branch): nat {
    if b.Empty? then 0 else 1 + Size(b.tail)
  }

  function Nth(b: Branch, k: nat): Piece
    requires k < Size(b)
  {
    if k == 0 then b.head else Nth(b.tail, k - 1)
  }

  /** Piece k is an unrepeated literal; none is longer, and none after it is as long. */
  ghost predicate LastLongest(b: Branch, k: nat) {
    && k < Size(b) && IsPlainText(Nth(b, k))
    && forall j: nat :: j < Size(b) && IsPlainText(Nth(b, j)) ==>
         var m, n := |Operand(Nth(b, j).atom)|, |Operand(Nth(b, k).atom)|; m <= n && (k < j ==> m < n)
  }

  /** The literal that the fold finds is that of the last longest one, and nothing if there is none. */
  lemma {:induction false} LongestMeaning(b: Branch) returns (k: nat)
    ensures if k < Size(b) then LastLongest(b, k) && Longest(b, []) == Operand(Nth(b, k).atom)
            else Longest(b, []) == [] && forall j: nat :: j < Size(b) ==> !IsPlainText(Nth(b, j))
  {
    k := LongestFrom(b, []);
  }

  lemma {:induction false} LongestFrom(b: Branch, best: Text) returns (k: nat)
    ensures if k < Size(b) then LastLongest(b, k) && Longest(b, best) == Operand(Nth(b, k).atom) && |Longest(b, best)| >= |best|
            else Longest(b, best) == best && forall j: nat :: j < Size(b) && IsPlainText(Nth(b, j)) ==> |Operand(Nth(b, j).atom)| < |best|
    decreases b
  {
    hide IsPlainText, Operand;
    k := 0;
    if b.Cons? {
      var text := Operand(b.head.atom);
      var here := IsPlainText(b.head) && |text| >= |best|;
      var l := LongestFrom(b.tail, if here then text else best);
      k := if l < Size(b.tail) then l + 1 else if here then 0 else Size(b);
      forall j: nat | j < Size(b)
        ensures Nth(b, j) == if j == 0 then b.head else Nth(b.tail, j - 1)
      {
      }
    }
  }

  /** regmust; [] for none. */
  function MustHint(alts: Alts): Text {
    if alts.Last? && SpStartAlts(alts) then Longest(alts.branch, []) else []
  }

  // ---------- The walk along the links ----------

  /** What the walk remembers: where the longest literal so far stands, and its length. */
  datatype Found = Found(at: nat, len: nat)

  function Look(c: Code, n: nat, best: Found): Found
    requires n + 3 <= |c|
  {
    if c[n] == EXACTLY && |CString(c, n + 3)| >= best.len then Found(n + 3, |CString(c, n + 3)|) else best
  }

  /** The for loop of regcomp, from node n on. */
  function Walk(c: Code, n: nat, best: Found): Found
    requires n + 3 <= |c|
    decreases |c| - n
  {
    var off := NextOff(c, n);
    if off == 0 || c[n] == BACK || n + off + 3 > |c| then Look(c, n, best) else Walk(c, n + off, Look(c, n, best))
  }

  lemma {:induction false} WalkNode(c: Code, n: nat, op: int, off: nat, best: Found)
    requires NodeAt(c, n, op, off) && op != BACK && op != EXACTLY && off > 0 && n + off + 3 <= |c|
    ensures Walk(c, n, best) == Walk(c, n + off, best)
  {
  }

  lemma {:induction false} WalkAlts(c: Code, lo: nat, alts: Alts, best: Found)
    requires Here(c, lo, CodeAlts(alts, 0, true)) && Small(c) && lo + LenAlts(alts) + 3 <= |c|
    ensures Walk(c, lo, best) == Walk(c, lo + LenAlts(alts), best)
    decreases alts
  {
    hide CodeAlts, CodeBranch, ExitPast, LenBranch, Walk, Here, NodeAt;
    AltsParts(c, lo, alts, 0, true);
    WalkNode(c, lo, BRANCH, 3 + LenBranch(alts.branch), best);
    if alts.Or? {
      WalkAlts(c, lo + 3 + LenBranch(alts.branch), alts.rest, best);
    }
  }

  /** What passing a piece adds to the walk's memory. */
  function Noted(p: Piece, lo: nat, best: Found): Found {
    if IsPlainText(p) && |Operand(p.atom)| >= best.len then Found(lo + 3, |Operand(p.atom)|) else best
  }

  lemma {:induction false} WalkAtom(c: Code, lo: nat, a: Atom, d: nat, best: Found)
    requires Here(c, lo, CodeAtom(a, d)) && Small(c) && lo + LenAtom(a) + d + 3 <= |c|
    ensures Walk(c, lo, best) == Walk(c, lo + LenAtom(a) + d, Noted(Piece(a, Once), lo, best))
  {
    hide CodeAtom, CodeAlts, LenAlts, OperandCells, Walk, CString, Operand;
    if a.Group? {
      GroupParts(c, lo, a, d);
      WalkNode(c, lo, SUB_OPEN + a.no, 3, best);
      WalkAlts(c, lo + 3, a.alts, best);
      WalkNode(c, lo + 3 + LenAlts(a.alts), SUB_CLOSE + a.no, 3 + d, best);
    } else {
      AtomParts(c, lo, a, d);
      if OpAtom(a) == EXACTLY {
        CStringOperand(c, lo + 3, a);
        WalkText(c, lo, LenAtom(a) + d, best);
      } else {
        WalkNode(c, lo, OpAtom(a), LenAtom(a) + d, best);
      }
    }
  }

  lemma {:induction false} WalkText(c: Code, n: nat, off: nat, best: Found)
    requires NodeAt(c, n, EXACTLY, off) && off > 0 && n + off + 3 <= |c|
    ensures Walk(c, n, best)
            == Walk(c, n + off, if |CString(c, n + 3)| >= best.len then Found(n + 3, |CString(c, n + 3)|) else best)
  {
    hide CString;
  }

  lemma {:induction false} WalkLoop(c: Code, lo: nat, p: Piece, d: nat, best: Found)
    requires IsLoop(p) && Here(c, lo, CodePiece(p, d)) && Small(c) && lo + LenPiece(p) + d + 3 <= |c|
    requires p.rep == Plus ==> p.atom.Group?
    ensures Walk(c, lo, best) == Walk(c, lo + LenPiece(p) + d, best)
  {
    hide CodePiece, CodeAtom, LoopHead, SimpleAtom, LenAtom, Walk;
    var n, hi := LenAtom(p.atom), lo + LenPiece(p);
    LoopParts(c, lo, p, d);
    WalkNode(c, hi - 6, BRANCH, 3, best);
    WalkNode(c, hi - 3, NOTHING, 3 + d, best);
    match p.rep
    case Star =>
      StarParts(c, lo, p);
      WalkNode(c, lo, BRANCH, n + 6, best);
    case Plus =>
      PlusParts(c, lo, p);
      WalkAtom(c, lo, p.atom, 0, best);
      WalkNode(c, lo + n, BRANCH, 6, best);
    case Quest =>
      QuestParts(c, lo, p);
      WalkNode(c, lo, BRANCH, n + 3, best);
  }

  lemma {:induction false} WalkPiece(c: Code, lo: nat, p: Piece, n: nat, d: nat, best: Found)
    requires Here(c, lo, CodePiece(p, d)) && Small(c) && lo + LenPiece(p) + d + 3 <= |c| && WfPiece(p, n)
    ensures Walk(c, lo, best) == Walk(c, lo + LenPiece(p) + d, Noted(p, lo, best))
  {
    hide CodeAtom, LoopHead, Walk, LenAtom, WfAtom;
    if p.rep == Once {
      WalkAtom(c, lo, p.atom, d, best);
    } else if IsSimpleLoop(p) {
      SimpleLoopParts(c, lo, p, d);
      WalkNode(c, lo, if p.rep == Star then STAR else PLUS, LenPiece(p) + d, best);
    } else {
      WalkLoop(c, lo, p, d, best);
    }
  }

  /** The memory of the walk, as text. */
  ghost predicate Remembers(c: Code, best: Found, t: Text) {
    best.len == |t| && (best.at == 0 <==> t == []) && (t != [] ==> CString(c, best.at) == t)
  }

  lemma {:induction false} NotedText(c: Code, lo: nat, p: Piece, n: nat, d: nat, best: Found, t: Text)
    requires Here(c, lo, CodePiece(p, d)) && Small(c) && lo + LenPiece(p) + d + 3 <= |c| && Remembers(c, best, t)
    requires WfPiece(p, n)
    ensures Remembers(c, Noted(p, lo, best), if IsPlainText(p) && |Operand(p.atom)| >= |t| then Operand(p.atom) else t)
  {
    hide CodeAtom, CString, OperandCells;
    if IsPlainText(p) {
      AtomParts(c, lo, p.atom, d);
      CStringOperand(c, lo + 3, p.atom);
    }
  }

  /** The walk along a branch finds its longest unrepeated literal. */
  lemma {:induction false} WalkBranch(c: Code, lo: nat, b: Branch, n: nat, d: nat, best: Found, t: Text) returns (last: Found)
    requires b.Cons? && Here(c, lo, CodeBranch(b, d)) && Small(c) && lo + LenBranch(b) + d + 3 <= |c| && WfBranch(b, n)
    requires Remembers(c, best, t)
    ensures Walk(c, lo, best) == Walk(c, lo + LenBranch(b) + d, last)
    ensures Remembers(c, last, Longest(b, t))
    decreases b
  {
    hide CodePiece, LenPiece, WfPiece, WfPair, Walk, Remembers, Noted, IsPlainText, Operand;
    var t' := if IsPlainText(b.head) && |Operand(b.head.atom)| >= |t| then Operand(b.head.atom) else t;
    if b.tail.Empty? {
      WalkPiece(c, lo, b.head, n, d, best);
      NotedText(c, lo, b.head, n, d, best, t);
      last := Noted(b.head, lo, best);
    } else {
      BranchParts(c, lo, b, d);
      WalkPiece(c, lo, b.head, n, 0, best);
      NotedText(c, lo, b.head, n, 0, best, t);
      last := WalkBranch(c, lo + LenPiece(b.head), b.tail, NextAtom(b.head.atom, n), d, Noted(b.head, lo, best), t');
    }
  }

  /** The walk that regcomp makes over the program of a single choice. */
  lemma {:induction false} WalkProgram(alts: Alts)
    requires WfAlts(alts, 1) && alts.Last? && LenProgram(alts) <= 0x7fff
    ensures var c := CodeProgram(alts);
            && |c| >= 10 && Remembers(c, Walk(c, 4, Found(0, 0)), Longest(alts.branch, []))
  {
    hide CodeAlts, CodeBranch, LenBranch, Node, Walk, Remembers, Longest, NodeAt, RankProgram, CodeProgram, WfBranch, Here, Small;
    var c := CodeProgram(alts);
    EnterProgram(alts);
    AltsParts(c, 1, alts, 0, true);
    var x := 1 + LenAlts(alts);
    if alts.branch.Cons? {
      StartsEmpty(c);
      var last := WalkBranch(c, 4, alts.branch, 1, 0, Found(0, 0), []);
      WalkEnd(c, x, last);
    } else {
      WalkEmpty(c, alts);
    }
  }

  lemma {:induction false} StartsEmpty(c: Code)
    ensures Remembers(c, Found(0, 0), [])
  {
  }

  lemma {:induction false} WalkEnd(c: Code, x: nat, best: Found)
    requires NodeAt(c, x, END, 0)
    ensures Walk(c, x, best) == best
  {
  }

  lemma {:induction false} WalkEmpty(c: Code, alts: Alts)
    requires alts == Last(Empty) && Here(c, 4, CodeBranch(Empty, 0)) && NodeAt(c, 7, END, 0) && Small(c)
    ensures Remembers(c, Walk(c, 4, Found(0, 0)), Longest(alts.branch, []))
  {
    NodeHere(c, 4, NOTHING, 3);
    WalkNode(c, 4, NOTHING, 3, Found(0, 0));
    WalkEnd(c, 7, Found(0, 0));
  }

  // ---------- What the hints rule out ----------

  lemma {:induction false} NoFirstPiece(b: Branch, s: Text, bol: int, i: nat)
    requires b.Cons? && WaysPiece(b.head, s, bol, i) == []
    ensures WaysBranch(b, s, bol, i) == []
  {
  }

  /** Where the start character is not, nothing matches. */
  lemma {:induction false} StartRulesOut(alts: Alts, s: Text, bol: int, i: nat)
    requires StartHint(alts) != 0 && At(s, i) != StartHint(alts)
    ensures WaysAlts(alts, s, bol, i) == []
  {
    NoFirstPiece(alts.branch, s, bol, i);
  }

  /** Away from the beginning of the line, an anchored pattern does not match. */
  lemma {:induction false} AnchorRulesOut(alts: Alts, s: Text, bol: int, i: nat)
    requires AnchorHint(alts) && i != bol
    ensures WaysAlts(alts, s, bol, i) == []
  {
    NoFirstPiece(alts.branch, s, bol, i);
  }

  lemma {:induction false} StandsEarlier(t: Text, s: Text, k: nat)
    requires StandsFrom(t, s, k)
    ensures StandsFrom(t, s, 0)
    decreases k
  {
    if k > 0 {
      StandsFromLength(t, s, k);
      assert StandsFrom(t, s, k - 1);
      StandsEarlier(t, s, k - 1);
    }
  }

  /** A match of a branch goes through each of its unrepeated literals. */
  lemma {:induction false} LongestStands(b: Branch, s: Text, bol: int, i: nat, j: nat, best: Text)
    requires MatchBranch(b, s, bol, false, i, j) && (best != [] ==> StandsFrom(best, s, 0))
    ensures Longest(b, best) != [] ==> StandsFrom(Longest(b, best), s, 0)
    decreases b
  {
    hide StandsFrom, StandsAt;
    if b.Cons? {
      var k: nat :| MatchPiece(b.head, s, bol, false, i, k) && MatchBranch(b.tail, s, bol, false, k, j);
      var t := Operand(b.head.atom);
      if IsPlainText(b.head) {
        TextStands(b.head.atom, s, bol, i, k);
      }
      LongestStands(b.tail, s, bol, k, j, if IsPlainText(b.head) && |t| >= |best| then t else best);
    }
  }

  lemma {:induction false} TextStands(a: Atom, s: Text, bol: int, i: nat, k: nat)
    requires (a.Literal? || a.Quoted?) && MatchAtom(a, s, bol, false, i, k)
    ensures StandsFrom(Operand(a), s, 0)
  {
    if a.Quoted? {
      QuotedMeaning(a.c, s, i);
    }
    StandsEarlier(Operand(a), s, i);
  }

  /** In a subject without the must-appear literal, nothing matches anywhere. */
  lemma {:induction false} MustRulesOut(alts: Alts, s: Text, bol: int, i: nat)
    requires WfAlts(alts, 1) && i <= |s| && MustHint(alts) != [] && !StandsFrom(MustHint(alts), s, 0)
    ensures WaysAlts(alts, s, bol, i) == []
  {
    hide StandsFrom, WaysBranch, MatchBranch, WfBranch, Longest;
    var ws := WaysAlts(alts, s, bol, i);
    if ws != [] {
      assert Reaches(ws, ws[0].end);
      AltsAgree(alts, 1, s, bol, i, ws[0].end);
      LongestStands(alts.branch, s, bol, i, ws[0].end, []);
    }
  }
}
