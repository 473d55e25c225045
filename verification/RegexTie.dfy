/** What regtail does to code that is being put together.

    regtail walks the links from p to the last node and links that one to val.  The lemmas
    compute its effect on each of the partly linked shapes that the compiler passes through,
    ending in the closed forms of RegexCode.
 */
module RegexTie {
  import opened Slices
  import opened RegexSyntax
  import opened RegexCode

  /** regtail(p, val). */
  function Tie(c: Code, p: nat, val: nat): (r: Code)
    requires p + 3 <= |c|
    ensures |r| == |c|
  {
    var q := ChainEnd(c, p);
    SetLink(c, q, if val < q then q - val else val - q)
  }

  /** The walk from p ends at a null link; only a BACK node may be linked backwards. */
  predicate TieOk(c: Code, p: nat, val: nat) {
    p + 3 <= |c| &&
    var q := ChainEnd(c, p);
    NextOff(c, q) == 0 && (if c[q] == BACK then val < q else q < val)
  }

  lemma {:induction false} HereMid(u: Code, w: Code, v: Code)
    ensures Here(u + w + v, |u|, w)
  {
    assert (u + w + v)[|u|..|u| + |w|] == w;
  }

  lemma {:induction false} TieIn(u: Code, w: Code, v: Code, p: nat, t: nat, off: nat)
    requires t + 3 <= |w| && p + 3 <= |u + w + v| && off > 0
    requires ChainEnd(u + w + v, p) == |u| + t && OpenAt(u + w + v, |u| + t)
    ensures TieOk(u + w + v, p, |u| + t + off)
    ensures Tie(u + w + v, p, |u| + t + off) == u + SetLink(w, t, off) + v
  {
    hide ChainEnd, NextOff, SetLink;
    SetLinkEarlier(u + w, v, |u| + t, off);
    SetLinkLater(u, w, t, off);
  }

  lemma {:induction false} TieAtom(u: Code, a: Atom, v: Code, d: nat)
    requires Small(u + CodeAtom(a, -1) + v)
    ensures TieOk(u + CodeAtom(a, -1) + v, |u|, |u| + LenAtom(a) + d)
    ensures Tie(u + CodeAtom(a, -1) + v, |u|, |u| + LenAtom(a) + d) == u + CodeAtom(a, d) + v
  {
    hide CodeAtom, ChainEnd, SetLink, Tie, TieOk, TailAtom, LenAtom;
    var w := CodeAtom(a, -1);
    HereMid(u, w, v);
    ChainAtom(u + w + v, |u|, a, -1);
    HookAtom(a, d);
    TieIn(u, w, v, |u|, TailAtom(a), LenAtom(a) - TailAtom(a) + d);
  }

  lemma {:induction false} TieBranch(u: Code, b: Branch, v: Code, d: nat)
    requires Small(u + CodeBranch(b, -1) + v)
    ensures TieOk(u + CodeBranch(b, -1) + v, |u|, |u| + LenBranch(b) + d)
    ensures Tie(u + CodeBranch(b, -1) + v, |u|, |u| + LenBranch(b) + d) == u + CodeBranch(b, d) + v
  {
    hide CodeBranch, ChainEnd, SetLink, Tie, TieOk, TailBranch, LenBranch;
    var w := CodeBranch(b, -1);
    HereMid(u, w, v);
    ChainBranch(u + w + v, |u|, b, -1);
    HookBranch(b, d);
    TieIn(u, w, v, |u|, TailBranch(b), LenBranch(b) - TailBranch(b) + d);
  }

  /** Links the last BRANCH of a choice to what follows it, walking from p to the choice. */
  lemma {:induction false} TieAlts(u: Code, alts: Alts, v: Code, p: nat)
    requires Small(u + CodeAlts(alts, -1, false) + v) && p + 3 <= |u + CodeAlts(alts, -1, false) + v|
    requires ChainEnd(u + CodeAlts(alts, -1, false) + v, p) == ChainEnd(u + CodeAlts(alts, -1, false) + v, |u|)
    ensures TieOk(u + CodeAlts(alts, -1, false) + v, p, |u| + LenAlts(alts))
    ensures Tie(u + CodeAlts(alts, -1, false) + v, p, |u| + LenAlts(alts)) == u + CodeAlts(alts, -1, true) + v
  {
    hide CodeAlts, ChainEnd, SetLink, Tie, TieOk, LastBranch, LenAlts;
    var w := CodeAlts(alts, -1, false);
    HereMid(u, w, v);
    ChainAlts(u + w + v, |u|, alts, -1, false);
    HookAlts(alts);
    TieIn(u, w, v, p, LastBranch(alts), LenAlts(alts) - LastBranch(alts));
  }

  /** Links the null node after u, reached from p. */
  lemma {:induction false} TieNode(u: Code, op: int, v: Code, p: nat, off: nat)
    requires Small(u + Node(op, 0) + v) && op != BACK && off > 0 && p + 3 <= |u + Node(op, 0) + v|
    requires p == |u| || ChainEnd(u + Node(op, 0) + v, p) == ChainEnd(u + Node(op, 0) + v, |u|)
    ensures TieOk(u + Node(op, 0) + v, p, |u| + off)
    ensures Tie(u + Node(op, 0) + v, p, |u| + off) == u + Node(op, off) + v
  {
    hide Node, ChainEnd, SetLink, Tie, TieOk;
    HereMid(u, Node(op, 0), v);
    NodeHere(u + Node(op, 0) + v, |u|, op, 0);
    ChainNode(u + Node(op, 0) + v, |u|, op, 0);
    SetLinkNode(op, 0, off, []);
    TieIn(u, Node(op, 0), v, p, 0, off);
  }

  /** Links the BACK node after u, reached from p, back to val. */
  lemma {:induction false} TieBack(u: Code, p: nat, val: nat)
    requires Small(u + Node(BACK, 0)) && p <= |u| && val < |u|
    requires p == |u| || ChainEnd(u + Node(BACK, 0), p) == ChainEnd(u + Node(BACK, 0), |u|)
    ensures TieOk(u + Node(BACK, 0), p, val)
    ensures Tie(u + Node(BACK, 0), p, val) == u + Node(BACK, |u| - val)
  {
    hide Node, SetLink;
    HereMid(u, Node(BACK, 0), []);
    assert u + Node(BACK, 0) + [] == u + Node(BACK, 0);
    NodeHere(u + Node(BACK, 0), |u|, BACK, 0);
    SetLinkLater(u, Node(BACK, 0), 0, |u| - val);
    SetLinkNode(BACK, 0, |u| - val, []);
  }

  /** The offset of the last piece of a branch. */
  function LastPiece(b: Branch): (t: nat)
    requires b.Cons?
    ensures t + 3 <= LenBranch(b)
  {
    if b.tail.Empty? then 0 else LenPiece(b.head) + LastPiece(b.tail)
  }

  lemma {:induction false} ChainLast(c: Code, lo: nat, b: Branch)
    requires b.Cons? && Here(c, lo, CodeBranch(b, -1)) && Small(c)
    ensures ChainEnd(c, lo + LastPiece(b)) == lo + TailBranch(b) && OpenAt(c, lo + TailBranch(b))
    decreases b
  {
    hide CodePiece, LenPiece, TailPiece, ChainEnd, OpenAt;
    if b.tail.Empty? {
      ChainPiece(c, lo, b.head, -1);
    } else {
      BranchParts(c, lo, b, -1);
      ChainLast(c, lo + LenPiece(b.head), b.tail);
    }
  }

  lemma {:induction false} LastPieceSnoc(b: Branch, p: Piece)
    ensures LastPiece(SnocBranch(b, p)) == if b.Empty? then 0 else LenBranch(b)
    decreases b
  {
    hide LenPiece;
    if b.Cons? {
      LastPieceSnoc(b.tail, p);
    }
  }

  /** regtail(chain, latest) in regbranch: the walk starts at the last piece. */
  lemma {:induction false} TieLast(u: Code, b: Branch, v: Code)
    requires b.Cons? && Small(u + CodeBranch(b, -1) + v)
    ensures TieOk(u + CodeBranch(b, -1) + v, |u| + LastPiece(b), |u| + LenBranch(b))
    ensures Tie(u + CodeBranch(b, -1) + v, |u| + LastPiece(b), |u| + LenBranch(b)) == u + CodeBranch(b, 0) + v
  {
    hide CodeBranch, ChainEnd, SetLink, Tie, TieOk, TailBranch, LenBranch, LastPiece;
    var w := CodeBranch(b, -1);
    HereMid(u, w, v);
    ChainLast(u + w + v, |u|, b);
    HookBranch(b, 0);
    TieIn(u, w, v, |u| + LastPiece(b), TailBranch(b), LenBranch(b) - TailBranch(b));
  }

  // ---------- x*: insert BRANCH, tie to BACK, tie BACK, tie to BRANCH, tie to NOTHING ----------

  lemma {:induction false} StarTies(pre: Code, p: Piece)
    requires p.rep == Star && |pre| + LenAtom(p.atom) + 12 <= 0x7fff
    ensures var a, n, lo := p.atom, LenAtom(p.atom), |pre|;
            var c1 := pre + Node(BRANCH, 0) + CodeAtom(a, -1) + Node(BACK, 0);
            var c2 := pre + Node(BRANCH, 0) + CodeAtom(a, 0) + Node(BACK, 0);
            var c3 := pre + Node(BRANCH, 0) + CodeAtom(a, 0) + Node(BACK, n + 3);
            && TieOk(c1, lo + 3, lo + 3 + n) && Tie(c1, lo + 3, lo + 3 + n) == c2
            && TieOk(c2, lo + 3, lo) && Tie(c2, lo + 3, lo) == c3
  {
    hide Node, CodeAtom, LenAtom, Tie, TieOk, ChainEnd;
    var a, n, lo := p.atom, LenAtom(p.atom), |pre|;
    var u := pre + Node(BRANCH, 0);
    TieAtom(u, a, Node(BACK, 0), 0);
    var c2 := u + CodeAtom(a, 0) + Node(BACK, 0);
    HereMid(u, CodeAtom(a, 0), Node(BACK, 0));
    ChainAtom(c2, lo + 3, a, 0);
    TieBack(u + CodeAtom(a, 0), lo + 3, lo);
  }

  lemma {:induction false} StarBranchTies(pre: Code, p: Piece)
    requires p.rep == Star && |pre| + LenAtom(p.atom) + 12 <= 0x7fff
    ensures var a, n, lo := p.atom, LenAtom(p.atom), |pre|;
            var w := CodeAtom(a, 0) + Node(BACK, n + 3);
            var c4 := pre + Node(BRANCH, 0) + (w + Node(BRANCH, 0));
            var c5 := pre + Node(BRANCH, n + 6) + (w + Node(BRANCH, 0));
            var c6 := pre + Node(BRANCH, n + 6) + w + Node(BRANCH, 0) + Node(NOTHING, 0);
            && TieOk(c4, lo, lo + n + 6) && Tie(c4, lo, lo + n + 6) == c5
            && TieOk(c6, lo, lo + n + 9) && Tie(c6, lo, lo + n + 9) == pre + LoopHead(p) + Node(NOTHING, 0)
  {
    hide Node, CodeAtom, LenAtom, Tie, TieOk, ChainEnd;
    var a, n, lo := p.atom, LenAtom(p.atom), |pre|;
    var w := CodeAtom(a, 0) + Node(BACK, n + 3);
    TieNode(pre, BRANCH, w + Node(BRANCH, 0), lo, n + 6);
    var u := pre + Node(BRANCH, n + 6) + w;
    var c6 := u + Node(BRANCH, 0) + Node(NOTHING, 0);
    HereMid(pre, Node(BRANCH, n + 6), w + Node(BRANCH, 0) + Node(NOTHING, 0));
    assert c6 == pre + Node(BRANCH, n + 6) + (w + Node(BRANCH, 0) + Node(NOTHING, 0));
    NodeHere(c6, lo, BRANCH, n + 6);
    ChainNode(c6, lo, BRANCH, n + 6);
    TieNode(u, BRANCH, Node(NOTHING, 0), lo, 3);
    assert u + Node(BRANCH, 3) == pre + LoopHead(p);
  }

  // ---------- x+: tie to BRANCH, tie BACK, tie to BRANCH, tie to NOTHING ----------

  lemma {:induction false} PlusTies(pre: Code, p: Piece)
    requires p.rep == Plus && |pre| + LenAtom(p.atom) + 12 <= 0x7fff
    ensures var a, n, lo := p.atom, LenAtom(p.atom), |pre|;
            var c1 := pre + CodeAtom(a, -1) + Node(BRANCH, 0);
            var u := pre + CodeAtom(a, 0);
            var c2 := u + Node(BRANCH, 0) + Node(BACK, 0);
            var c3 := u + Node(BRANCH, 0) + (Node(BACK, n + 3) + Node(BRANCH, 0));
            && TieOk(c1, lo, lo + n) && Tie(c1, lo, lo + n) == u + Node(BRANCH, 0)
            && TieOk(c2, lo + n + 3, lo) && Tie(c2, lo + n + 3, lo) == u + Node(BRANCH, 0) + Node(BACK, n + 3)
            && TieOk(c3, lo + n, lo + n + 6)
            && Tie(c3, lo + n, lo + n + 6) == u + Node(BRANCH, 6) + (Node(BACK, n + 3) + Node(BRANCH, 0))
  {
    hide Node, CodeAtom, LenAtom, Tie, TieOk, ChainEnd;
    var a, n, lo := p.atom, LenAtom(p.atom), |pre|;
    var u := pre + CodeAtom(a, 0);
    TieAtom(pre, a, Node(BRANCH, 0), 0);
    TieBack(u + Node(BRANCH, 0), lo + n + 3, lo);
    TieNode(u, BRANCH, Node(BACK, n + 3) + Node(BRANCH, 0), lo + n, 6);
  }

  lemma {:induction false} PlusLastTie(pre: Code, p: Piece)
    requires p.rep == Plus && |pre| + LenAtom(p.atom) + 12 <= 0x7fff
    ensures var a, n, lo := p.atom, LenAtom(p.atom), |pre|;
            var c := pre + CodeAtom(a, 0) + Node(BRANCH, 6) + Node(BACK, n + 3) + Node(BRANCH, 0) + Node(NOTHING, 0);
            TieOk(c, lo, lo + n + 9) && Tie(c, lo, lo + n + 9) == pre + LoopHead(p) + Node(NOTHING, 0)
  {
    hide Node, CodeAtom, LenAtom, Tie, TieOk, ChainEnd;
    var a, n, lo := p.atom, LenAtom(p.atom), |pre|;
    var v := Node(BACK, n + 3) + Node(BRANCH, 0) + Node(NOTHING, 0);
    var u := pre + CodeAtom(a, 0) + Node(BRANCH, 6) + Node(BACK, n + 3);
    var c := u + Node(BRANCH, 0) + Node(NOTHING, 0);
    HereMid(pre, CodeAtom(a, 0), Node(BRANCH, 6) + v);
    assert c == pre + CodeAtom(a, 0) + (Node(BRANCH, 6) + v);
    ChainAtom(c, lo, a, 0);
    HereMid(pre + CodeAtom(a, 0), Node(BRANCH, 6), v);
    assert c == pre + CodeAtom(a, 0) + Node(BRANCH, 6) + v;
    NodeHere(c, lo + n, BRANCH, 6);
    ChainNode(c, lo + n, BRANCH, 6);
    TieNode(u, BRANCH, Node(NOTHING, 0), lo, 3);
    assert u + Node(BRANCH, 3) == pre + LoopHead(p);
  }

  // ---------- x?: insert BRANCH, tie to BRANCH, tie to NOTHING, tie the operand ----------

  lemma {:induction false} QuestTies(pre: Code, p: Piece)
    requires p.rep == Quest && |pre| + LenAtom(p.atom) + 9 <= 0x7fff
    ensures var a, n, lo := p.atom, LenAtom(p.atom), |pre|;
            var x := CodeAtom(a, -1);
            var c1 := pre + Node(BRANCH, 0) + (x + Node(BRANCH, 0));
            var c2 := pre + Node(BRANCH, n + 3) + x + Node(BRANCH, 0) + Node(NOTHING, 0);
            var c3 := pre + Node(BRANCH, n + 3) + x + (Node(BRANCH, 3) + Node(NOTHING, 0));
            && TieOk(c1, lo, lo + n + 3) && Tie(c1, lo, lo + n + 3) == pre + Node(BRANCH, n + 3) + (x + Node(BRANCH, 0))
            && TieOk(c2, lo, lo + n + 6) && Tie(c2, lo, lo + n + 6) == c3
            && TieOk(c3, lo + 3, lo + n + 6) && Tie(c3, lo + 3, lo + n + 6) == pre + LoopHead(p) + Node(NOTHING, 0)
  {
    hide Node, CodeAtom, LenAtom, Tie, TieOk, ChainEnd;
    var a, n, lo := p.atom, LenAtom(p.atom), |pre|;
    var x := CodeAtom(a, -1);
    TieNode(pre, BRANCH, x + Node(BRANCH, 0), lo, n + 3);
    var u := pre + Node(BRANCH, n + 3) + x;
    var c2 := u + Node(BRANCH, 0) + Node(NOTHING, 0);
    HereMid(pre, Node(BRANCH, n + 3), x + Node(BRANCH, 0) + Node(NOTHING, 0));
    assert c2 == pre + Node(BRANCH, n + 3) + (x + Node(BRANCH, 0) + Node(NOTHING, 0));
    NodeHere(c2, lo, BRANCH, n + 3);
    ChainNode(c2, lo, BRANCH, n + 3);
    TieNode(u, BRANCH, Node(NOTHING, 0), lo, 3);
    assert u + Node(BRANCH, 3) + Node(NOTHING, 0) == u + (Node(BRANCH, 3) + Node(NOTHING, 0));
    TieAtom(pre + Node(BRANCH, n + 3), a, Node(BRANCH, 3) + Node(NOTHING, 0), 3);
    assert pre + Node(BRANCH, n + 3) + CodeAtom(a, 3) + (Node(BRANCH, 3) + Node(NOTHING, 0))
        == pre + LoopHead(p) + Node(NOTHING, 0);
  }
}
