/** Why the matcher terminates.

    Every node of a compiled program gets a rank such that following a link without
    consuming input lowers the rank.  The loop schemes have a link that goes backwards, so
    the ranks cannot simply follow the addresses: they exist because HASWIDTH, which
    regpiece demands of a repeated operand, keeps the loop body from being crossed without
    consuming something.

    `RankAtom(a, rx)` and its friends lay out the ranks of a region next to its code, cell by
    cell, given the rank rx of its exit; cells that start no node that the matcher can stand
    on carry -1.
 */
module RegexRank {
  import opened Slices
  import opened RegexSyntax
  import opened RegexCode

  type Ranks = seq<int>

  function Max(x: nat, y: nat): nat {
    if x < y then y else x
  }

  function Mark(r: nat): (m: Ranks)
    ensures |m| == 3
  {
    [r as int, -1, -1]
  }

  function Blank(k: nat): (m: Ranks)
    ensures |m| == k
  {
    seq(k, _ => -1)
  }

  // ---------- Ranks of the entry nodes ----------

  function EntryAtom(a: Atom, rx: nat): nat
    decreases a, 0
  {
    match a
    case Bol => rx + 1
    case Eol => rx + 1
    case Group(_, alts) => 1 + EntryAlts(alts, rx + 1)
    case _ => 0
  }

  /** The rank of the BRANCH at the head of a general x* or x?, or in the middle of x+. */
  function LoopRank(p: Piece, rx: nat): nat
    decreases p, 0
  {
    match p.rep
    case Star => 1 + Max(EntryAtom(p.atom, 0), rx + 2)
    case Plus => 1 + Max(EntryAtom(p.atom, 0) + 1, rx + 2)
    case _ => 1 + Max(EntryAtom(p.atom, rx + 1), rx + 2)
  }

  function EntryPiece(p: Piece, rx: nat): nat
    decreases p, 1
  {
    if p.rep == Once then EntryAtom(p.atom, rx)
    else if IsSimpleLoop(p) then if p.rep == Star then rx + 1 else 0
    else if p.rep == Plus then EntryAtom(p.atom, LoopRank(p, rx))
    else LoopRank(p, rx)
  }

  function EntryBranch(b: Branch, rx: nat): nat
    decreases b, 0
  {
    match b
    case Empty => rx + 1
    case Cons(p, rest) => EntryPiece(p, if rest.Empty? then rx else EntryBranch(rest, rx))
  }

  function EntryAlts(alts: Alts, rx: nat): nat
    decreases alts, 0
  {
    1 + Max(EntryBranch(alts.branch, rx), if alts.Or? then EntryAlts(alts.rest, rx) else 0)
  }

  // ---------- Ranks of whole regions ----------

  function RankAtom(a: Atom, rx: nat): (m: Ranks)
    ensures |m| == LenAtom(a)
    decreases a, 0
  {
    if a.Group? then Mark(EntryAtom(a, rx)) + RankAlts(a.alts, rx + 1) + Mark(rx + 1)
    else Mark(EntryAtom(a, rx)) + Blank(|OperandCells(a)|)
  }

  /** Up to the second BRANCH and the NOTHING that all general schemes end with. */
  function RankLoopHead(p: Piece, rx: nat): (m: Ranks)
    requires IsLoop(p)
    ensures |m| == LenPiece(p) - 6
    decreases p, 0
  {
    var r := LoopRank(p, rx);
    match p.rep
    case Star => Mark(r) + RankAtom(p.atom, r + 1) + Mark(r + 1)
    case Plus => RankAtom(p.atom, r) + Mark(r) + Mark(EntryAtom(p.atom, 0) + 1)
    case Quest => Mark(r) + RankAtom(p.atom, rx + 1)
  }

  function RankPiece(p: Piece, rx: nat): (m: Ranks)
    ensures |m| == LenPiece(p)
    decreases p, 1
  {
    if p.rep == Once then RankAtom(p.atom, rx)
    else if IsSimpleLoop(p) then Mark(EntryPiece(p, rx)) + Blank(LenAtom(p.atom))
    else RankLoopHead(p, rx) + Mark(rx + 2) + Mark(rx + 1)
  }

  function RankBranch(b: Branch, rx: nat): (m: Ranks)
    ensures |m| == LenBranch(b)
    decreases b, 0
  {
    match b
    case Empty => Mark(rx + 1)
    case Cons(p, rest) =>
      if rest.Empty? then RankPiece(p, rx) else RankPiece(p, EntryBranch(rest, rx)) + RankBranch(rest, rx)
  }

  function RankAlts(alts: Alts, rx: nat): (m: Ranks)
    ensures |m| == LenAlts(alts)
    decreases alts, 0
  {
    Mark(EntryAlts(alts, rx)) + RankBranch(alts.branch, rx) + if alts.Or? then RankAlts(alts.rest, rx) else []
  }

  function RankProgram(alts: Alts): (m: Ranks)
    ensures |m| == LenProgram(alts)
  {
    [-1] + RankAlts(alts, 0) + Mark(0)
  }

  // ---------- With HASWIDTH, the entry does not see the exit ----------

  lemma {:induction false} EntryAtomIndependent(a: Atom, n: nat, r: nat, q: nat)
    requires HasWidthAtom(a) && WfAtom(a, n)
    ensures EntryAtom(a, r) == EntryAtom(a, q)
    decreases a, 0
  {
    if a.Group? {
      EntryAltsIndependent(a.alts, n + 1, r + 1, q + 1);
    }
  }

  lemma {:induction false} EntryPieceIndependent(p: Piece, n: nat, r: nat, q: nat)
    requires HasWidthPiece(p) && WfPiece(p, n)
    ensures EntryPiece(p, r) == EntryPiece(p, q)
    decreases p, 1
  {
    if p.rep == Once {
      EntryAtomIndependent(p.atom, n, r, q);
    } else if !IsSimpleLoop(p) {
      EntryAtomIndependent(p.atom, n, LoopRank(p, r), LoopRank(p, q));
    }
  }

  lemma {:induction false} EntryBranchIndependent(b: Branch, n: nat, r: nat, q: nat)
    requires HasWidthBranch(b) && WfBranch(b, n)
    ensures EntryBranch(b, r) == EntryBranch(b, q)
    decreases b, 0
  {
    hide EntryPiece;
    var next := (rx: nat) => if b.tail.Empty? then rx else EntryBranch(b.tail, rx);
    if HasWidthPiece(b.head) {
      EntryPieceIndependent(b.head, n, next(r), next(q));
    } else {
      EntryBranchIndependent(b.tail, NextAtom(b.head.atom, n), r, q);
    }
  }

  lemma {:induction false} EntryAltsIndependent(alts: Alts, n: nat, r: nat, q: nat)
    requires HasWidthAlts(alts) && WfAlts(alts, n)
    ensures EntryAlts(alts, r) == EntryAlts(alts, q)
    decreases alts, 0
  {
    EntryBranchIndependent(alts.branch, n, r, q);
    if alts.Or? {
      EntryAltsIndependent(alts.rest, NextBranch(alts.branch, n), r, q);
    }
  }

  // ---------- Ranked programs ----------

  /** The matcher can stand on cell n. */
  predicate IsNode(R: Ranks, n: int) {
    0 <= n < |R| && R[n] >= 0
  }

  /** regnext; -1 for a null link. */
  function Next(c: Code, n: nat): int
    requires n + 3 <= |c|
  {
    var off := NextOff(c, n);
    if off == 0 then -1 else if c[n] == BACK then n - off else n + off
  }

  /** The NUL-terminated string at k. */
  function CString(c: Code, k: nat): Text
    decreases |c| - k
  {
    if k < |c| && 0 < c[k] < 256 then [c[k] as Ch] + CString(c, k + 1) else []
  }

  predicate IsOpen(op: int) {
    SUB_OPEN < op < SUB_OPEN + NSUBEXP
  }

  predicate IsClose(op: int) {
    SUB_CLOSE < op < SUB_CLOSE + NSUBEXP
  }

  /** Opcodes that pass to the next node without consuming input. */
  predicate IsSilent(op: int) {
    op == BOL || op == EOL || op == NOTHING || op == BACK || op == STAR || IsOpen(op) || IsClose(op)
  }

  predicate IsConsuming(op: int) {
    op == ANY || op == ANYOF || op == ANYBUT || op == EXACTLY || op == PLUS
  }

  /** The links of node n lead to nodes, at a lower rank when no input is consumed. */
  predicate NodeOk(c: Code, R: Ranks, n: nat)
    requires |R| == |c|
  {
    && IsNode(R, n) && n + 3 <= |c|
    && (IsSilent(c[n]) || IsConsuming(c[n]) || c[n] == BRANCH || c[n] == END)
    && (c[n] != END ==> IsNode(R, Next(c, n)))
    && (IsSilent(c[n]) ==> R[Next(c, n)] < R[n])
    && (c[n] == EXACTLY ==> CString(c, n + 3) != [])
    && (c[n] == STAR || c[n] == PLUS ==> n + 6 <= |c|)
    && (c[n] == BRANCH ==>
          && IsNode(R, n + 3) && R[n + 3] < R[n]
          && (c[Next(c, n)] == BRANCH ==> R[Next(c, n)] < R[n]))
  }

  predicate OkRange(c: Code, R: Ranks, lo: nat, hi: nat)
    requires |R| == |c|
  {
    forall n :: lo <= n < hi && IsNode(R, n) ==> NodeOk(c, R, n)
  }

  /** Every node the matcher can stand on is in order. */
  predicate Ranked(c: Code, R: Ranks) {
    |R| == |c| && OkRange(c, R, 0, |c|)
  }

  // ---------- Regions placed in a program ----------

  /** The exit x of a region that ends at hi: a node of rank rx, d cells past hi. */
  ghost predicate ExitAt(R: Ranks, hi: nat, d: nat, rx: nat) {
    hi + d < |R| && R[hi + d] == rx
  }

  ghost predicate Sized(c: Code, R: Ranks) {
    |R| == |c| && Small(c)
  }

  ghost predicate AtomAt(c: Code, R: Ranks, lo: nat, a: Atom, d: nat, rx: nat) {
    && Sized(c, R) && Here(c, lo, CodeAtom(a, d)) && Here(R, lo, RankAtom(a, rx))
    && ExitAt(R, lo + LenAtom(a), d, rx)
  }

  ghost predicate PieceAt(c: Code, R: Ranks, lo: nat, p: Piece, d: nat, rx: nat) {
    && Sized(c, R) && Here(c, lo, CodePiece(p, d)) && Here(R, lo, RankPiece(p, rx))
    && ExitAt(R, lo + LenPiece(p), d, rx)
  }

  ghost predicate BranchAt(c: Code, R: Ranks, lo: nat, b: Branch, d: nat, rx: nat) {
    && Sized(c, R) && Here(c, lo, CodeBranch(b, d)) && Here(R, lo, RankBranch(b, rx))
    && ExitAt(R, lo + LenBranch(b), d, rx)
  }

  /** A choice is followed by its exit, which is no BRANCH. */
  ghost predicate AltsAt(c: Code, R: Ranks, lo: nat, alts: Alts, rx: nat) {
    && Sized(c, R) && Here(c, lo, CodeAlts(alts, 0, true)) && Here(R, lo, RankAlts(alts, rx))
    && ExitAt(R, lo + LenAlts(alts), 0, rx) && c[lo + LenAlts(alts)] != BRANCH
  }

  /** A node with its rank. */
  ghost predicate MarkAt(c: Code, R: Ranks, n: nat, op: int, off: nat, r: nat) {
    |R| == |c| && NodeAt(c, n, op, off) && R[n] == r
  }

  lemma {:induction false} MarkHere(R: Ranks, n: nat, r: nat)
    requires Here(R, n, Mark(r))
    ensures R[n] == r && R[n + 1] == -1 && R[n + 2] == -1
  {
    HereAt(R, n, Mark(r), 0);
    HereAt(R, n, Mark(r), 1);
    HereAt(R, n, Mark(r), 2);
  }

  lemma {:induction false} BlankHere(R: Ranks, n: nat, k: nat)
    requires Here(R, n, Blank(k))
    ensures forall x :: n <= x < n + k ==> R[x] == -1
  {
    forall x | n <= x < n + k ensures R[x] == -1 {
      HereAt(R, n, Blank(k), x - n);
    }
  }

  lemma {:induction false} AtomMarks(R: Ranks, lo: nat, a: Atom, rx: nat)
    requires Here(R, lo, RankAtom(a, rx)) && !a.Group?
    ensures lo + LenAtom(a) <= |R| && R[lo] == EntryAtom(a, rx)
    ensures forall x :: lo < x < lo + LenAtom(a) ==> R[x] == -1
  {
    hide OperandCells, Mark, Blank, EntryAtom, Here, RankAlts;
    HereSplit(R, lo, Mark(EntryAtom(a, rx)), Blank(|OperandCells(a)|));
    MarkHere(R, lo, EntryAtom(a, rx));
    BlankHere(R, lo + 3, |OperandCells(a)|);
  }

  lemma {:induction false} EnterAtom(c: Code, R: Ranks, lo: nat, a: Atom, d: nat, rx: nat)
    requires AtomAt(c, R, lo, a, d, rx) && !a.Group?
    ensures MarkAt(c, R, lo, OpAtom(a), LenAtom(a) + d, EntryAtom(a, rx))
    ensures Here(c, lo + 3, OperandCells(a))
    ensures forall x :: lo < x < lo + LenAtom(a) ==> R[x] == -1
  {
    hide CodeAtom, RankAtom, OperandCells, EntryAtom, OpAtom, Here, NodeAt, LenAtom;
    AtomParts(c, lo, a, d);
    AtomMarks(R, lo, a, rx);
  }

  lemma {:induction false} EnterGroup(c: Code, R: Ranks, lo: nat, a: Atom, d: nat, rx: nat)
    requires AtomAt(c, R, lo, a, d, rx) && a.Group?
    ensures MarkAt(c, R, lo, SUB_OPEN + a.no, 3, EntryAtom(a, rx))
    ensures MarkAt(c, R, lo + 3 + LenAlts(a.alts), SUB_CLOSE + a.no, 3 + d, rx + 1)
    ensures AltsAt(c, R, lo + 3, a.alts, rx + 1)
    ensures forall x :: lo < x < lo + 3 || lo + 3 + LenAlts(a.alts) < x < lo + LenAtom(a) ==> R[x] == -1
  {
    hide CodeAtom, CodeAlts, LenAlts, RankAlts, Mark, EntryAtom;
    GroupParts(c, lo, a, d);
    var v := Mark(EntryAtom(a, rx)) + RankAlts(a.alts, rx + 1);
    HereSplit(R, lo, v, Mark(rx + 1));
    HereSplit(R, lo, Mark(EntryAtom(a, rx)), RankAlts(a.alts, rx + 1));
    MarkHere(R, lo, EntryAtom(a, rx));
    MarkHere(R, lo + 3 + LenAlts(a.alts), rx + 1);
  }

  lemma {:induction false} SimpleLoopMarks(R: Ranks, lo: nat, p: Piece, rx: nat)
    requires Here(R, lo, RankPiece(p, rx)) && IsSimpleLoop(p)
    ensures lo + LenPiece(p) <= |R| && R[lo] == EntryPiece(p, rx)
    ensures forall x :: lo < x < lo + LenPiece(p) ==> R[x] == -1
  {
    hide Mark, Blank, EntryPiece, Here, RankAtom, LenAtom, SimpleAtom;
    HereSplit(R, lo, Mark(EntryPiece(p, rx)), Blank(LenAtom(p.atom)));
    MarkHere(R, lo, EntryPiece(p, rx));
    BlankHere(R, lo + 3, LenAtom(p.atom));
  }

  lemma {:induction false} EnterSimpleLoop(c: Code, R: Ranks, lo: nat, p: Piece, d: nat, rx: nat)
    requires PieceAt(c, R, lo, p, d, rx) && IsSimpleLoop(p)
    ensures MarkAt(c, R, lo, if p.rep == Star then STAR else PLUS, LenPiece(p) + d, EntryPiece(p, rx))
    ensures Here(c, lo + 3, CodeAtom(p.atom, -1))
    ensures forall x :: lo < x < lo + LenPiece(p) ==> R[x] == -1
  {
    hide CodePiece, RankPiece, EntryPiece, CodeAtom, Here, NodeAt, LenPiece, IsSimpleLoop;
    SimpleLoopParts(c, lo, p, d);
    SimpleLoopMarks(R, lo, p, rx);
  }

  lemma {:induction false} LoopMarks(R: Ranks, lo: nat, p: Piece, rx: nat)
    requires Here(R, lo, RankPiece(p, rx)) && IsLoop(p)
    ensures lo + LenPiece(p) <= |R| && Here(R, lo, RankLoopHead(p, rx))
    ensures var e := lo + LenPiece(p);
      R[e - 6] == rx + 2 && R[e - 5] == -1 && R[e - 4] == -1 && R[e - 3] == rx + 1 && R[e - 2] == -1 && R[e - 1] == -1
  {
    hide Mark, RankLoopHead, Here, RankAtom, LenAtom, SimpleAtom, EntryPiece;
    HereSplit(R, lo, RankLoopHead(p, rx) + Mark(rx + 2), Mark(rx + 1));
    HereSplit(R, lo, RankLoopHead(p, rx), Mark(rx + 2));
    MarkHere(R, lo + LenPiece(p) - 6, rx + 2);
    MarkHere(R, lo + LenPiece(p) - 3, rx + 1);
  }

  /** The end of the general schemes: BRANCH, NOTHING. */
  lemma {:induction false} EnterLoop(c: Code, R: Ranks, lo: nat, p: Piece, d: nat, rx: nat)
    requires PieceAt(c, R, lo, p, d, rx) && IsLoop(p)
    ensures Here(c, lo, LoopHead(p)) && Here(R, lo, RankLoopHead(p, rx))
    ensures MarkAt(c, R, lo + LenPiece(p) - 6, BRANCH, 3, rx + 2)
    ensures MarkAt(c, R, lo + LenPiece(p) - 3, NOTHING, 3 + d, rx + 1)
    ensures forall x :: lo + LenPiece(p) - 6 < x < lo + LenPiece(p) && x != lo + LenPiece(p) - 3 ==> R[x] == -1
  {
    hide CodePiece, RankPiece, LoopHead, RankLoopHead, IsLoop, Here, NodeAt, LenPiece;
    LoopParts(c, lo, p, d);
    LoopMarks(R, lo, p, rx);
  }

  lemma {:induction false} EnterStar(c: Code, R: Ranks, lo: nat, p: Piece, d: nat, rx: nat)
    requires PieceAt(c, R, lo, p, d, rx) && IsLoop(p) && p.rep == Star
    ensures var n := LenAtom(p.atom); var r := LoopRank(p, rx);
            && MarkAt(c, R, lo, BRANCH, n + 6, r)
            && AtomAt(c, R, lo + 3, p.atom, 0, r + 1)
            && MarkAt(c, R, lo + 3 + n, BACK, n + 3, r + 1)
            && (forall x :: lo < x < lo + 3 || lo + 3 + n < x < lo + n + 6 ==> R[x] == -1)
  {
    hide CodePiece, CodeAtom, RankAtom, Mark, LoopHead, LoopRank, LenAtom, RankPiece, SimpleAtom;
    var n := LenAtom(p.atom);
    var r := LoopRank(p, rx);
    EnterLoop(c, R, lo, p, d, rx);
    StarParts(c, lo, p);
    HereSplit(R, lo, Mark(r) + RankAtom(p.atom, r + 1), Mark(r + 1));
    HereSplit(R, lo, Mark(r), RankAtom(p.atom, r + 1));
    MarkHere(R, lo, r);
    MarkHere(R, lo + 3 + n, r + 1);
  }

  lemma {:induction false} EnterPlus(c: Code, R: Ranks, lo: nat, p: Piece, d: nat, rx: nat)
    requires PieceAt(c, R, lo, p, d, rx) && IsLoop(p) && p.rep == Plus
    ensures var n := LenAtom(p.atom); var r := LoopRank(p, rx);
            && AtomAt(c, R, lo, p.atom, 0, r)
            && MarkAt(c, R, lo + n, BRANCH, 6, r)
            && MarkAt(c, R, lo + n + 3, BACK, n + 3, EntryAtom(p.atom, 0) + 1)
            && (forall x :: lo + n < x < lo + n + 6 && x != lo + n + 3 ==> R[x] == -1)
  {
    hide CodePiece, CodeAtom, RankAtom, Mark, LoopHead, LoopRank, LenAtom, RankPiece, SimpleAtom, EntryAtom, Here, NodeAt;
    var n := LenAtom(p.atom);
    var r := LoopRank(p, rx);
    var e := EntryAtom(p.atom, 0);
    EnterLoop(c, R, lo, p, d, rx);
    PlusParts(c, lo, p);
    HereSplit(R, lo, RankAtom(p.atom, r) + Mark(r), Mark(e + 1));
    HereSplit(R, lo, RankAtom(p.atom, r), Mark(r));
    MarkHere(R, lo + n, r);
    MarkHere(R, lo + n + 3, e + 1);
  }

  lemma {:induction false} EnterQuest(c: Code, R: Ranks, lo: nat, p: Piece, d: nat, rx: nat)
    requires PieceAt(c, R, lo, p, d, rx) && p.rep == Quest
    ensures var n := LenAtom(p.atom); var r := LoopRank(p, rx);
            && MarkAt(c, R, lo, BRANCH, n + 3, r)
            && AtomAt(c, R, lo + 3, p.atom, 3, rx + 1)
            && (forall x :: lo < x < lo + 3 ==> R[x] == -1)
  {
    hide CodePiece, CodeAtom, RankAtom, Mark, LoopHead, LoopRank, LenAtom, RankPiece, SimpleAtom;
    var n := LenAtom(p.atom);
    var r := LoopRank(p, rx);
    EnterLoop(c, R, lo, p, d, rx);
    QuestParts(c, lo, p);
    HereSplit(R, lo, Mark(r), RankAtom(p.atom, rx + 1));
    MarkHere(R, lo, r);
  }

  lemma {:induction false} BranchEntry(R: Ranks, lo: nat, b: Branch, rx: nat)
    requires Here(R, lo, RankBranch(b, rx))
    ensures R[lo] == EntryBranch(b, rx)
  {
    HereAt(R, lo, RankBranch(b, rx), 0);
    RankBranchStart(b, rx);
  }

  lemma {:induction false} RankBranchStart(b: Branch, rx: nat)
    ensures RankBranch(b, rx)[0] == EntryBranch(b, rx)
  {
    if b.Cons? {
      RankPieceStart(b.head, if b.tail.Empty? then rx else EntryBranch(b.tail, rx));
    }
  }

  lemma {:induction false} RankAtomStart(a: Atom, rx: nat)
    ensures RankAtom(a, rx)[0] == EntryAtom(a, rx)
  {
    hide EntryAtom, RankAlts;
  }

  lemma {:induction false} RankPieceStart(p: Piece, rx: nat)
    ensures RankPiece(p, rx)[0] == EntryPiece(p, rx)
  {
    hide RankAtom, EntryAtom, LoopRank, SimpleAtom;
    RankAtomStart(p.atom, rx);
    if IsLoop(p) {
      var r := LoopRank(p, rx);
      RankAtomStart(p.atom, r);
      assert RankPiece(p, rx)[0] == RankLoopHead(p, rx)[0];
    }
  }

  lemma {:induction false} EnterBranch(c: Code, R: Ranks, lo: nat, b: Branch, d: nat, rx: nat)
    requires BranchAt(c, R, lo, b, d, rx) && b.Cons?
    ensures if b.tail.Empty? then PieceAt(c, R, lo, b.head, d, rx)
            else
              && PieceAt(c, R, lo, b.head, 0, EntryBranch(b.tail, rx))
              && BranchAt(c, R, lo + LenPiece(b.head), b.tail, d, rx)
  {
    hide CodePiece, RankPiece, LenPiece;
    if b.tail.Cons? {
      BranchParts(c, lo, b, d);
      HereSplit(R, lo, RankPiece(b.head, EntryBranch(b.tail, rx)), RankBranch(b.tail, rx));
      BranchEntry(R, lo + LenPiece(b.head), b.tail, rx);
    }
  }

  lemma {:induction false} RankAltsIs(alts: Alts, rx: nat)
    ensures RankAlts(alts, rx) == Mark(EntryAlts(alts, rx)) +
      (RankBranch(alts.branch, rx) + if alts.Or? then RankAlts(alts.rest, rx) else [])
  {
    hide RankBranch, Mark, EntryAlts;
  }

  lemma {:induction false} AltsMarks(R: Ranks, lo: nat, alts: Alts, rx: nat)
    requires Here(R, lo, RankAlts(alts, rx))
    ensures R[lo] == EntryAlts(alts, rx) && R[lo + 1] == -1 && R[lo + 2] == -1
    ensures Here(R, lo + 3, RankBranch(alts.branch, rx))
    ensures alts.Or? ==> Here(R, lo + 3 + LenBranch(alts.branch), RankAlts(alts.rest, rx))
  {
    hide RankBranch, RankAlts, Mark, LenBranch, EntryAlts, Here;
    RankAltsIs(alts, rx);
    var rest := if alts.Or? then RankAlts(alts.rest, rx) else [];
    HereSplit(R, lo, Mark(EntryAlts(alts, rx)), RankBranch(alts.branch, rx) + rest);
    HereSplit(R, lo + 3, RankBranch(alts.branch, rx), rest);
    MarkHere(R, lo, EntryAlts(alts, rx));
  }

  lemma {:induction false} EnterAlts(c: Code, R: Ranks, lo: nat, alts: Alts, rx: nat)
    requires AltsAt(c, R, lo, alts, rx)
    ensures var n := 3 + LenBranch(alts.branch);
            && MarkAt(c, R, lo, BRANCH, n, EntryAlts(alts, rx))
            && BranchAt(c, R, lo + 3, alts.branch, if alts.Or? then LenAlts(alts.rest) else 0, rx)
            && (alts.Or? ==> AltsAt(c, R, lo + n, alts.rest, rx))
            && R[lo + 1] == -1 && R[lo + 2] == -1
  {
    hide CodeAlts, CodeBranch, RankBranch, RankAlts, LenBranch, EntryAlts, Here, NodeAt;
    AltsParts(c, lo, alts, 0, true);
    AltsMarks(R, lo, alts, rx);
  }

  // ---------- Compiled programs are ranked ----------

  lemma {:induction false} CStringIs(c: Code, k: nat, t: Text)
    requires k + |t| < |c| && c[k..k + |t|] == t && c[k + |t|] == 0
    ensures CString(c, k) == t
    decreases |t|
  {
    if t != [] {
      assert c[k] == t[0];
      assert c[k + 1..k + 1 + |t[1..]|] == c[k..k + |t|][1..] == t[1..];
      CStringIs(c, k + 1, t[1..]);
    }
  }

  lemma {:induction false} CStringOperand(c: Code, k: nat, a: Atom)
    requires HasOperand(a) && Here(c, k, OperandCells(a))
    ensures CString(c, k) == Operand(a)
  {
    var t: Code := Operand(a);
    HereSplit(c, k, t, [0]);
    HereAt(c, k + |t|, [0], 0);
    CStringIs(c, k, Operand(a));
  }

  lemma {:induction false} SilentOk(c: Code, R: Ranks, n: nat, op: int, off: nat, r: nat)
    requires MarkAt(c, R, n, op, off, r) && IsSilent(op) && op != BACK && off > 0
    requires n + off < |R| && 0 <= R[n + off] < r && (op == STAR ==> n + 6 <= |c|)
    ensures NodeOk(c, R, n)
  {
  }

  lemma {:induction false} BackOk(c: Code, R: Ranks, n: nat, off: nat, r: nat)
    requires MarkAt(c, R, n, BACK, off, r) && 0 < off <= n && 0 <= R[n - off] < r
    ensures NodeOk(c, R, n)
  {
  }

  lemma {:induction false} ConsumingOk(c: Code, R: Ranks, n: nat, op: int, off: nat, r: nat)
    requires MarkAt(c, R, n, op, off, r) && IsConsuming(op) && off > 0
    requires n + off < |R| && R[n + off] >= 0
    requires (op == EXACTLY ==> CString(c, n + 3) != []) && (op == PLUS ==> n + 6 <= |c|)
    ensures NodeOk(c, R, n)
  {
  }

  lemma {:induction false} BranchOk(c: Code, R: Ranks, n: nat, off: nat, r: nat)
    requires MarkAt(c, R, n, BRANCH, off, r) && off > 0 && n + off < |R| && n + 3 < |R|
    requires 0 <= R[n + off] && (c[n + off] == BRANCH ==> R[n + off] < r) && 0 <= R[n + 3] < r
    ensures NodeOk(c, R, n)
  {
  }

  /** A region is in order when its nodes are and the cells between them start none. */
  lemma {:induction false} OkOne(c: Code, R: Ranks, n: nat, hi: nat)
    requires |R| == |c| && n < hi <= |c| && NodeOk(c, R, n) && forall x :: n < x < hi ==> R[x] == -1
    ensures OkRange(c, R, n, hi)
  {
  }

  lemma {:induction false} OkJoin(c: Code, R: Ranks, lo: nat, mid: nat, hi: nat)
    requires |R| == |c| && OkRange(c, R, lo, mid) && OkRange(c, R, mid, hi)
    ensures OkRange(c, R, lo, hi)
  {
    hide NodeOk;
  }

  /** The kind of node a plain atom compiles to, and its rank. */
  lemma {:induction false} PlainKind(a: Atom, n: nat, rx: nat)
    requires WfAtom(a, n) && !a.Group?
    ensures LenAtom(a) >= 3 && OpAtom(a) != BACK && OpAtom(a) != STAR && OpAtom(a) != PLUS
    ensures if a.Bol? || a.Eol? then IsSilent(OpAtom(a)) && EntryAtom(a, rx) == rx + 1
            else IsConsuming(OpAtom(a)) && EntryAtom(a, rx) == 0
    ensures OpAtom(a) == EXACTLY ==> HasOperand(a) && Operand(a) != []
  {
    hide WfAlts, OperandCells;
  }

  lemma {:induction false} OkPlainAtom(c: Code, R: Ranks, lo: nat, a: Atom, n: nat, d: nat, rx: nat)
    requires AtomAt(c, R, lo, a, d, rx) && WfAtom(a, n) && !a.Group?
    ensures OkRange(c, R, lo, lo + LenAtom(a))
  {
    hide NodeOk, OkRange, CodeAtom, RankAtom, Here, CString, OperandCells, NodeAt, LenAtom, WfAtom, EntryAtom, OpAtom, Operand, HasOperand;
    EnterAtom(c, R, lo, a, d, rx);
    PlainKind(a, n, rx);
    if a.Bol? || a.Eol? {
      SilentOk(c, R, lo, OpAtom(a), LenAtom(a) + d, rx + 1);
    } else {
      if OpAtom(a) == EXACTLY {
        CStringOperand(c, lo + 3, a);
      }
      ConsumingOk(c, R, lo, OpAtom(a), LenAtom(a) + d, 0);
    }
    OkOne(c, R, lo, lo + LenAtom(a));
  }

  lemma {:induction false} OkAtom(c: Code, R: Ranks, lo: nat, a: Atom, n: nat, d: nat, rx: nat)
    requires AtomAt(c, R, lo, a, d, rx) && WfAtom(a, n) && n > 0
    ensures OkRange(c, R, lo, lo + LenAtom(a))
    decreases a, 0
  {
    hide NodeOk, OkRange, CodeAtom, RankAtom, Here, CodeAlts, RankAlts, LenAlts, NodeAt, EntryAlts;
    if a.Group? {
      var hi := lo + 3 + LenAlts(a.alts);
      EnterGroup(c, R, lo, a, d, rx);
      EnterAlts(c, R, lo + 3, a.alts, rx + 1);
      SilentOk(c, R, lo, SUB_OPEN + a.no, 3, EntryAtom(a, rx));
      SilentOk(c, R, hi, SUB_CLOSE + a.no, 3 + d, rx + 1);
      OkOne(c, R, lo, lo + 3);
      OkOne(c, R, hi, hi + 3);
      OkAlts(c, R, lo + 3, a.alts, n + 1, rx + 1);
      OkJoin(c, R, lo, lo + 3, hi);
      OkJoin(c, R, lo, hi, hi + 3);
    } else {
      OkPlainAtom(c, R, lo, a, n, d, rx);
    }
  }

  lemma {:induction false} OkLoopTail(c: Code, R: Ranks, lo: nat, p: Piece, d: nat, rx: nat)
    requires PieceAt(c, R, lo, p, d, rx) && IsLoop(p)
    ensures OkRange(c, R, lo + LenPiece(p) - 6, lo + LenPiece(p))
  {
    hide NodeOk, OkRange, CodePiece, RankPiece, Here, NodeAt, LenPiece, IsLoop;
    var hi := lo + LenPiece(p);
    EnterLoop(c, R, lo, p, d, rx);
    BranchOk(c, R, hi - 6, 3, rx + 2);
    SilentOk(c, R, hi - 3, NOTHING, 3 + d, rx + 1);
    OkOne(c, R, hi - 6, hi - 3);
    OkOne(c, R, hi - 3, hi);
    OkJoin(c, R, hi - 6, hi - 3, hi);
  }

  lemma {:induction false} AtomEntry(R: Ranks, lo: nat, a: Atom, rx: nat)
    requires Here(R, lo, RankAtom(a, rx))
    ensures R[lo] == EntryAtom(a, rx)
  {
    HereAt(R, lo, RankAtom(a, rx), 0);
  }

  lemma {:induction false} OkStar(c: Code, R: Ranks, lo: nat, p: Piece, n: nat, d: nat, rx: nat)
    requires PieceAt(c, R, lo, p, d, rx) && IsLoop(p) && p.rep == Star && WfPiece(p, n) && n > 0
    ensures OkRange(c, R, lo, lo + LenPiece(p))
    decreases p, 0
  {
    hide NodeOk, OkRange, CodePiece, RankPiece, Here, NodeAt, LenAtom, EntryAtom, CodeAtom, RankAtom, SimpleAtom, WfAtom;
    var k := LenAtom(p.atom);
    var r := LoopRank(p, rx);
    EnterStar(c, R, lo, p, d, rx);
    EnterLoop(c, R, lo, p, d, rx);
    AtomEntry(R, lo + 3, p.atom, r + 1);
    EntryAtomIndependent(p.atom, n, r + 1, 0);
    BranchOk(c, R, lo, k + 6, r);
    BackOk(c, R, lo + 3 + k, k + 3, r + 1);
    OkOne(c, R, lo, lo + 3);
    OkAtom(c, R, lo + 3, p.atom, n, 0, r + 1);
    OkJoin(c, R, lo, lo + 3, lo + 3 + k);
    OkOne(c, R, lo + 3 + k, lo + 6 + k);
    OkJoin(c, R, lo, lo + 3 + k, lo + 6 + k);
    OkLoopTail(c, R, lo, p, d, rx);
    OkJoin(c, R, lo, lo + 6 + k, lo + LenPiece(p));
  }

  lemma {:induction false} OkPlus(c: Code, R: Ranks, lo: nat, p: Piece, n: nat, d: nat, rx: nat)
    requires PieceAt(c, R, lo, p, d, rx) && IsLoop(p) && p.rep == Plus && WfPiece(p, n) && n > 0
    ensures OkRange(c, R, lo, lo + LenPiece(p))
    decreases p, 0
  {
    hide NodeOk, OkRange, CodePiece, RankPiece, Here, NodeAt, LenAtom, EntryAtom, CodeAtom, RankAtom, SimpleAtom, WfAtom;
    var k := LenAtom(p.atom);
    var r := LoopRank(p, rx);
    EnterPlus(c, R, lo, p, d, rx);
    EnterLoop(c, R, lo, p, d, rx);
    AtomEntry(R, lo, p.atom, r);
    EntryAtomIndependent(p.atom, n, r, 0);
    BranchOk(c, R, lo + k, 6, r);
    BackOk(c, R, lo + k + 3, k + 3, EntryAtom(p.atom, 0) + 1);
    OkAtom(c, R, lo, p.atom, n, 0, r);
    OkOne(c, R, lo + k, lo + k + 3);
    OkJoin(c, R, lo, lo + k, lo + k + 3);
    OkOne(c, R, lo + k + 3, lo + k + 6);
    OkJoin(c, R, lo, lo + k + 3, lo + k + 6);
    OkLoopTail(c, R, lo, p, d, rx);
    OkJoin(c, R, lo, lo + k + 6, lo + LenPiece(p));
  }

  lemma {:induction false} OkQuest(c: Code, R: Ranks, lo: nat, p: Piece, n: nat, d: nat, rx: nat)
    requires PieceAt(c, R, lo, p, d, rx) && p.rep == Quest && WfPiece(p, n) && n > 0
    ensures OkRange(c, R, lo, lo + LenPiece(p))
    decreases p, 0
  {
    hide NodeOk, OkRange, CodePiece, RankPiece, Here, NodeAt, LenAtom, EntryAtom, CodeAtom, RankAtom, SimpleAtom, WfAtom;
    var k := LenAtom(p.atom);
    var r := LoopRank(p, rx);
    EnterQuest(c, R, lo, p, d, rx);
    EnterLoop(c, R, lo, p, d, rx);
    AtomEntry(R, lo + 3, p.atom, rx + 1);
    BranchOk(c, R, lo, k + 3, r);
    OkOne(c, R, lo, lo + 3);
    OkAtom(c, R, lo + 3, p.atom, n, 3, rx + 1);
    OkJoin(c, R, lo, lo + 3, lo + 3 + k);
    OkLoopTail(c, R, lo, p, d, rx);
    OkJoin(c, R, lo, lo + 3 + k, lo + LenPiece(p));
  }

  lemma {:induction false} OkPiece(c: Code, R: Ranks, lo: nat, p: Piece, n: nat, d: nat, rx: nat)
    requires PieceAt(c, R, lo, p, d, rx) && WfPiece(p, n) && n > 0
    ensures OkRange(c, R, lo, lo + LenPiece(p))
    decreases p, 1
  {
    hide NodeOk, OkRange, Here, NodeAt, LenAtom, CodeAtom, RankAtom, SimpleAtom, WfAtom;
    if p.rep == Once {
      OkAtom(c, R, lo, p.atom, n, d, rx);
    } else if IsSimpleLoop(p) {
      EnterSimpleLoop(c, R, lo, p, d, rx);
      if p.rep == Star {
        SilentOk(c, R, lo, STAR, LenPiece(p) + d, rx + 1);
      } else {
        ConsumingOk(c, R, lo, PLUS, LenPiece(p) + d, 0);
      }
      OkOne(c, R, lo, lo + LenPiece(p));
    } else {
      match p.rep
      case Star => OkStar(c, R, lo, p, n, d, rx);
      case Plus => OkPlus(c, R, lo, p, n, d, rx);
      case Quest => OkQuest(c, R, lo, p, n, d, rx);
    }
  }

  lemma {:induction false} OkBranch(c: Code, R: Ranks, lo: nat, b: Branch, n: nat, d: nat, rx: nat)
    requires BranchAt(c, R, lo, b, d, rx) && WfBranch(b, n) && n > 0
    ensures OkRange(c, R, lo, lo + LenBranch(b))
    decreases b, 0
  {
    hide NodeOk, OkRange, CodePiece, RankPiece, LenPiece, WfPiece, WfPair, Node;
    match b
    case Empty =>
      NodeHere(c, lo, NOTHING, 3 + d);
      MarkHere(R, lo, rx + 1);
      SilentOk(c, R, lo, NOTHING, 3 + d, rx + 1);
      OkOne(c, R, lo, lo + 3);
    case Cons(p, rest) =>
      EnterBranch(c, R, lo, b, d, rx);
      if rest.Empty? {
        OkPiece(c, R, lo, p, n, d, rx);
      } else {
        OkPiece(c, R, lo, p, n, 0, EntryBranch(rest, rx));
        OkBranch(c, R, lo + LenPiece(p), rest, NextAtom(p.atom, n), d, rx);
        OkJoin(c, R, lo, lo + LenPiece(p), lo + LenBranch(b));
      }
  }

  lemma {:induction false} OkAlts(c: Code, R: Ranks, lo: nat, alts: Alts, n: nat, rx: nat)
    requires AltsAt(c, R, lo, alts, rx) && WfAlts(alts, n) && n > 0
    ensures OkRange(c, R, lo, lo + LenAlts(alts))
    decreases alts, 0
  {
    hide NodeOk, OkRange, CodeAlts, RankAlts, Here, NodeAt, CodeBranch, RankBranch, LenBranch, EntryBranch, WfBranch, NextBranch;
    var k := 3 + LenBranch(alts.branch);
    EnterAlts(c, R, lo, alts, rx);
    BranchEntry(R, lo + 3, alts.branch, rx);
    if alts.Or? {
      EnterAlts(c, R, lo + k, alts.rest, rx);
    }
    BranchOk(c, R, lo, k, EntryAlts(alts, rx));
    OkOne(c, R, lo, lo + 3);
    OkBranch(c, R, lo + 3, alts.branch, n, if alts.Or? then LenAlts(alts.rest) else 0, rx);
    OkJoin(c, R, lo, lo + 3, lo + k);
    if alts.Or? {
      OkAlts(c, R, lo + k, alts.rest, NextBranch(alts.branch, n), rx);
      OkJoin(c, R, lo, lo + k, lo + LenAlts(alts));
    }
  }

  /** The alternatives of a compiled program, placed in it. */
  lemma {:induction false} EnterProgram(alts: Alts)
    requires LenProgram(alts) <= 0x7fff
    ensures AltsAt(CodeProgram(alts), RankProgram(alts), 1, alts, 0)
    ensures MarkAt(CodeProgram(alts), RankProgram(alts), 1 + LenAlts(alts), END, 0, 0)
  {
    hide CodeAlts, RankAlts, LenAlts, Node, Mark;
    var c, R, hi := CodeProgram(alts), RankProgram(alts), 1 + LenAlts(alts);
    assert c[hi..hi + 3] == Node(END, 0) && c[1..hi] == CodeAlts(alts, 0, true);
    assert R[hi..hi + 3] == Mark(0) && R[1..hi] == RankAlts(alts, 0);
    NodeHere(c, hi, END, 0);
    MarkHere(R, hi, 0);
  }

  /** Termination: every compiled program has ranks. */
  lemma {:induction false} CompiledIsRanked(alts: Alts)
    requires WfAlts(alts, 1) && LenProgram(alts) <= 0x7fff
    ensures Ranked(CodeProgram(alts), RankProgram(alts)) && IsNode(RankProgram(alts), 1)
  {
    hide NodeOk, CodeAlts, RankAlts, LenAlts, Here, CodeProgram, RankProgram;
    var c, R, hi := CodeProgram(alts), RankProgram(alts), 1 + LenAlts(alts);
    EnterProgram(alts);
    EnterAlts(c, R, 1, alts, 0);
    OkAlts(c, R, 1, alts, 1, 0);
    ProgramEdges(alts);
  }

  lemma {:induction false} ProgramEdges(alts: Alts)
    requires LenProgram(alts) <= 0x7fff
    ensures var c, R, hi := CodeProgram(alts), RankProgram(alts), 1 + LenAlts(alts);
            R[0] == -1 && R[hi + 1] == -1 && R[hi + 2] == -1 && NodeOk(c, R, hi)
  {
    hide CodeAlts, RankAlts, LenAlts, Node;
    EnterProgram(alts);
  }
}
