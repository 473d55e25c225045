/** regcomp: both passes and the hints. */
module RegexComp {
  import opened Slices
  import opened RegexSyntax
  import opened RegexCode
  import opened RegexCompile
  import opened RegexRank
  import opened RegexHints

  /** The compiled form: the program and the hints; regmust is an index into the program, 0
      for NULL. */
  datatype Regexp = Regexp(program: Code, regstart: int, reganch: bool, regmust: nat, regmlen: nat)

  datatype Outcome = Compiled(re: Regexp) | Rejected(error: Error)

  /** The must-appear string; [] for none. */
  function MustText(re: Regexp): Text {
    if re.regmust == 0 then [] else CString(re.program, re.regmust)
  }

  /** re is the compiled form of the pattern tree. */
  ghost predicate IsRegexp(re: Regexp, alts: Alts) {
    && WfAlts(alts, 1) && LenProgram(alts) < 0x7fff
    && re.program == CodeProgram(alts)
    && re.regstart == StartHint(alts) && re.reganch == AnchorHint(alts)
    && MustText(re) == MustHint(alts) && re.regmlen == |MustHint(alts)| && (re.regmust == 0 <==> MustHint(alts) == [])
  }

  // ---------- Reading the hints off the program ----------

  lemma {:induction false} FirstOp(c: Code, lo: nat, b: Branch, n: nat, d: nat)
    requires Here(c, lo, CodeBranch(b, d)) && WfBranch(b, n)
    ensures c[lo] == EXACTLY <==> b.Cons? && IsPlainText(b.head)
    ensures c[lo] == BOL <==> b.Cons? && b.head == Piece(Bol, Once)
    ensures c[lo] == EXACTLY ==> lo + 3 < |c| && Operand(b.head.atom) != [] && c[lo + 3] == Operand(b.head.atom)[0]
  {
    hide CodeBranch, WfAtom;
    HereAt(c, lo, CodeBranch(b, d), 0);
    BranchOp(b, n, d);
    if b.Cons? && IsPlainText(b.head) {
      HereAt(c, lo, CodeBranch(b, d), 3);
    }
  }

  lemma {:induction false} BranchOp(b: Branch, n: nat, d: nat)
    requires WfBranch(b, n)
    ensures var op := CodeBranch(b, d)[0];
            && (op == EXACTLY <==> b.Cons? && IsPlainText(b.head))
            && (op == BOL <==> b.Cons? && b.head == Piece(Bol, Once))
    ensures b.Cons? && IsPlainText(b.head) ==>
              && LenBranch(b) > 4 && Operand(b.head.atom) != []
              && CodeBranch(b, d)[3] == Operand(b.head.atom)[0]
  {
    hide CodeAlts, LenAlts, WfAlts;
    if b.Cons? {
      var d' := if b.tail.Empty? then d else 0;
      PieceOp(b.head, n, d');
      assert forall k :: 0 <= k < LenPiece(b.head) ==> CodeBranch(b, d)[k] == CodePiece(b.head, d')[k];
    }
  }

  lemma {:induction false} AtomFirst(a: Atom, d: int)
    ensures CodeAtom(a, d)[0] == OpAtom(a)
    ensures !a.Group? && OperandCells(a) != [] ==> LenAtom(a) > 3 && CodeAtom(a, d)[3] == OperandCells(a)[0]
  {
    hide CodeAlts, LenAlts, OperandCells;
  }

  lemma {:induction false} PieceOp(p: Piece, n: nat, d: nat)
    requires WfPiece(p, n)
    ensures var op := CodePiece(p, d)[0];
            && (op == EXACTLY <==> IsPlainText(p)) && (op == BOL <==> p == Piece(Bol, Once))
    ensures IsPlainText(p) ==>
              LenPiece(p) > 4 && Operand(p.atom) != [] && CodePiece(p, d)[3] == Operand(p.atom)[0]
  {
    hide CodeAlts, LenAlts, WfAlts, CodeAtom, LenAtom;
    var e := if p.rep == Once then d else if IsSimpleLoop(p) then -1 else 0;
    AtomFirst(p.atom, e);
    LengthAtom(p.atom);
    if p.rep != Once {
      PieceFirst(p, d);
    }
  }

  lemma {:induction false} LengthAtom(a: Atom)
    ensures !a.Group? ==> LenAtom(a) == 3 + |OperandCells(a)|
  {
    hide OperandCells;
  }

  lemma {:induction false} PieceFirst(p: Piece, d: nat)
    requires p.rep != Once
    ensures CodePiece(p, d)[0] ==
      if IsSimpleLoop(p) then if p.rep == Star then STAR else PLUS
      else if p.rep == Plus then CodeAtom(p.atom, 0)[0] else BRANCH
    ensures !IsSimpleLoop(p) && p.rep == Plus && LenAtom(p.atom) > 3 ==> CodePiece(p, d)[3] == CodeAtom(p.atom, 0)[3]
    ensures LenPiece(p) > LenAtom(p.atom)
  {
    hide CodeAtom, SimpleAtom, OpAtom;
  }

  lemma {:induction false} TopShape(alts: Alts)
    requires WfAlts(alts, 1) && LenProgram(alts) < 0x7fff
    ensures var c, n := CodeProgram(alts), 3 + LenBranch(alts.branch);
            && |c| >= 10 && c[1] == BRANCH && NextOff(c, 1) == n && 1 + n + 3 <= |c|
            && (c[1 + n] == END <==> alts.Last?)
            && Here(c, 4, CodeBranch(alts.branch, if alts.Or? then LenAlts(alts.rest) else 0))
  {
    hide CodeProgram, RankProgram, CodeAlts, CodeBranch, LenBranch, Here, WfAlts, WfBranch, Ranked, Small;
    var c, n := CodeProgram(alts), 3 + LenBranch(alts.branch);
    EnterProgram(alts);
    AltsParts(c, 1, alts, 0, true);
    if alts.Or? {
      AltsParts(c, 1 + n, alts.rest, 0, true);
    }
  }

  /** The for loop that looks for the longest literal on the chain of links from node n. */
  method LongestOnChain(c: Code, n: nat) returns (longest: nat, len: nat)
    requires n + 3 <= |c| && Walkable(c, n)
    ensures Found(longest, len) == Walk(c, n, Found(0, 0))
  {
    hide CString;
    longest, len := 0, 0;
    var scan: int := n;
    while scan != -1
      invariant -1 <= scan <= |c| - 3
      invariant scan != -1 ==> Walk(c, n, Found(0, 0)) == Walk(c, scan, Found(longest, len)) && Walkable(c, scan)
      invariant scan == -1 ==> Walk(c, n, Found(0, 0)) == Found(longest, len)
      decreases if scan == -1 then 0 else |c| - scan
    {
      if c[scan] == EXACTLY && |CString(c, scan + 3)| >= len {
        longest, len := scan + 3, |CString(c, scan + 3)|;
      }
      scan := Next(c, scan);
    }
  }

  /** The links from n lead forward to a null link. */
  ghost predicate Walkable(c: Code, n: nat)
    requires n + 3 <= |c|
    decreases |c| - n
  {
    var off := NextOff(c, n);
    off == 0 || (c[n] != BACK && n + off + 3 <= |c| && Walkable(c, n + off))
  }

  lemma {:induction false} WalkableIs(c: Code, n: nat)
    requires n + 3 <= |c|
    ensures Walkable(c, n) <==> NextOff(c, ChainEnd(c, n)) == 0
    decreases |c| - n
  {
    var off := NextOff(c, n);
    if !(off == 0 || c[n] == BACK || n + off + 3 > |c|) {
      WalkableIs(c, n + off);
    }
  }

  /** The links of the single alternative lead to the END node. */
  lemma {:induction false} ProgramWalkable(alts: Alts)
    requires WfAlts(alts, 1) && LenProgram(alts) < 0x7fff && alts.Last?
    ensures var c := CodeProgram(alts); |c| >= 10 && Walkable(c, 4)
  {
    hide CodeProgram, RankProgram, CodeAlts, CodeBranch, LenBranch, Here, ChainEnd, NextOff, WfAlts, WfBranch, TailBranch;
    var c, x := CodeProgram(alts), 1 + LenAlts(alts);
    TopShape(alts);
    EnterProgram(alts);
    ChainBranch(c, 4, alts.branch, 0);
    ChainNode(c, x, END, 0);
    WalkableIs(c, 4);
  }

  method DigHints(c: Code, spStart: bool, ghost alts: Alts) returns (re: Regexp)
    requires WfAlts(alts, 1) && LenProgram(alts) < 0x7fff && c == CodeProgram(alts) && spStart == SpStartAlts(alts)
    ensures IsRegexp(re, alts)
  {
    hide CodeProgram, CodeBranch, LenBranch, Walk, Longest, Walkable, SpStartAlts, CString, WfBranch, Here;
    var regstart, reganch, regmust, regmlen := 0, false, 0, 0;
    TopShape(alts);
    FirstOp(c, 4, alts.branch, 1, if alts.Or? then LenAlts(alts.rest) else 0);
    var scan := 1;
    if c[Next(c, scan)] == END {
      scan := scan + 3;
      if c[scan] == EXACTLY {
        regstart := c[scan + 3];
      } else if c[scan] == BOL {
        reganch := true;
      }
      if spStart {
        ProgramWalkable(alts);
        WalkProgram(alts);
        regmust, regmlen := LongestOnChain(c, scan);
      }
    }
    MustIs(c, alts, Found(regmust, regmlen));
    re := Regexp(c, regstart, reganch, regmust, regmlen);
  }

  lemma {:induction false} MustIs(c: Code, alts: Alts, best: Found)
    requires Remembers(c, best, MustHint(alts))
    ensures MustHint(alts) == (if best.at == 0 then [] else CString(c, best.at)) && (best.at == 0 <==> MustHint(alts) == [])
  {
  }

  // ---------- Both passes ----------

  lemma {:induction false} TopParse(exp: Text)
    ensures var p, top := Parse(exp), ParseReg(exp, 0, 1, false);
            && (p.Err? ==> top == Err(p.error))
            && (p.Ok? ==> top == p && WfAlts(p.val, 1)
                          && |RegCells(top, 1, false)| == LenAlts(p.val) + 3 && LenProgram(p.val) == LenAlts(p.val) + 4
                          && [MAGIC] + RegCells(top, 1, false) == CodeProgram(p.val)
                          && RegFlags(top).spStart == SpStartAlts(p.val))
  {
    hide ParseAlts, CodeAlts, LenAlts, WfAlts, SpStartAlts, HasWidthAlts;
    if Parse(exp).Ok? {
      ParseIsInverseOfPrint(exp, Parse(exp).val);
    }
  }

  /** regcomp.  A pattern is accepted exactly when it parses and its program is small enough for
      15-bit links; the sizing pass counts exactly the cells that the emitting pass writes. */
  method RegComp(exp: Text) returns (r: Outcome)
    ensures match Parse(exp)
            case Err(e) => r == Rejected(e)
            case Ok(alts, _, _) =>
              if LenProgram(alts) >= 0x7fff then r == Rejected(TooBig) else r.Compiled? && IsRegexp(r.re, alts)
  {
    hide Parse, ParseReg, CodeProgram, LenProgram, RegCells, RegFlags, IsRegexp, WfAlts, SpStartAlts;
    ghost var p := Parse(exp);
    TopParse(exp);

    // This pass only counts, and rejects what is not a pattern.
    var co := new Comp(exp);
    co.RegC(MAGIC);
    var res := co.Reg(false);
    if res.Fail? {
      return Rejected(res.error);
    }
    if co.regsize >= 0x7fff {
      return Rejected(TooBig);
    }

    // Now the size is known.
    var program, spStart := EmitCode(co, p);
    var re := DigHints(program, spStart, p.val);
    return Compiled(re);
  }

  /** The second pass, with the sizes that the first pass found. */
  method EmitCode(co: Comp, ghost p: Parsed<Alts>) returns (program: Code, spStart: bool)
    requires !co.emitting && p == Parse(co.exp) && p.Ok? && co.regsize == LenProgram(p.val) < 0x7fff
    modifies co
    ensures program == CodeProgram(p.val) && spStart == SpStartAlts(p.val)
  {
    hide Parse, ParseReg, CodeProgram, LenProgram, RegCells, RegFlags, WfAlts, SpStartAlts;
    TopParse(co.exp);
    co.program := new int[co.regsize];
    co.regparse, co.regnpar, co.regcode, co.emitting := 0, 1, 0, true;
    co.RegC(MAGIC);
    var res := co.Reg(false);
    program, spStart := co.program[..], res.flags.spStart;
  }
}
