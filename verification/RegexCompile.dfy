/** regcomp: the recursive-descent compiler, run once to size the program and once to emit it.

    The routines are methods of `Comp`, the compiler's work variables.  Each is specified by
    the parse function of RegexSyntax (what it accepts, what it consumes, which error it
    reports) and by the closed-form code of RegexCode (what it emits, or how much it adds to
    the size).  In the emitting pass the program is an array of exactly the size counted in
    the sizing pass, so the bounds of the array accesses are proof obligations that the two
    passes agree.
 */
module RegexCompile {
  import opened RegexSyntax
  import opened RegexCode
  import opened RegexTie
  import opened CStrings

  datatype Flags = Flags(hasWidth: bool, simple: bool, spStart: bool)

  datatype Result = Fail(error: Error) | Done(ret: nat, flags: Flags)

  function FlagsAtom(a: Atom): Flags {
    Flags(HasWidthAtom(a), SimpleAtom(a), SpStartAtom(a))
  }

  function FlagsPiece(p: Piece): Flags {
    Flags(HasWidthPiece(p), p.rep == Once && SimpleAtom(p.atom), SpStartPiece(p))
  }

  function FlagsBranch(b: Branch): Flags {
    Flags(HasWidthBranch(b), false, SpStartBranch(b))
  }

  function FlagsAlts(alts: Alts): Flags {
    Flags(HasWidthAlts(alts), false, SpStartAlts(alts))
  }

  /** The META string. */
  const META: Text := [CH_CARET, CH_DOLLAR, CH_DOT, CH_LBRACKET, CH_LPAREN, CH_RPAREN, CH_BAR, CH_QUEST, CH_PLUS, CH_STAR,
                       CH_BACKSLASH, CH_BACKSLASH]

  /** struct comp, together with the program being emitted. */
  class Comp {
    const exp: Text
    var regparse: nat
    var regnpar: nat
    var emitting: bool
    var program: array<int>
    var regcode: nat
    var regsize: nat

    /** Start of the sizing pass. */
    constructor (exp: Text)
      ensures this.exp == exp && regparse == 0 && regnpar == 1 && !emitting && regsize == 0
      ensures regcode == 0 && program.Length == 0 && fresh(program)
    {
      this.exp := exp;
      regparse, regnpar, emitting, regcode, regsize := 0, 1, false, 0, 0;
      program := new int[0];
    }

    ghost predicate Valid()
      reads this
    {
      emitting ==> regcode <= program.Length <= 0x7fff
    }

    /** n more cells fit. */
    ghost predicate Room(n: nat)
      reads this
    {
      emitting ==> regcode + n <= program.Length <= 0x7fff
    }

    /** The code emitted so far. */
    ghost function Code(): Code
      requires Valid() && emitting
      reads this, program
    {
      program[..regcode]
    }

    /** The cells w were emitted, or counted. */
    twostate predicate Emits(w: Code)
      reads this, program
    {
      && emitting == old(emitting) && program == old(program)
      && (emitting ==> old(regcode) + |w| == regcode <= program.Length)
      && (emitting ==> program[..regcode] == old(program[..regcode]) + w && regsize == old(regsize))
      && (!emitting ==> regsize == old(regsize) + |w| && regcode == old(regcode))
    }

    method RegC(b: int)
      requires Room(1)
      modifies `regcode, `regsize, program
      ensures Valid() && Emits([b])
    {
      if emitting {
        program[regcode] := b;
        regcode := regcode + 1;
      } else {
        regsize := regsize + 1;
      }
    }

    method RegNode(op: int) returns (ret: nat)
      requires Room(3)
      modifies `regcode, `regsize, program
      ensures Valid() && Emits(Node(op, 0)) && ret == old(regcode)
    {
      ret := regcode;
      if !emitting {
        regsize := regsize + 3;
        return;
      }
      program[regcode] := op;
      program[regcode + 1] := 0;
      program[regcode + 2] := 0;
      regcode := regcode + 3;
    }

    /** Inserts an operator in front of the operand emitted from opnd on. */
    method RegInsert(op: int, opnd: nat)
      requires Room(3) && (emitting ==> opnd <= regcode)
      modifies `regcode, `regsize, program
      ensures Valid() && emitting == old(emitting)
      ensures emitting ==> regcode == old(regcode) + 3 <= program.Length && regsize == old(regsize)
      ensures emitting ==> program[..regcode] == old(program[..opnd]) + Node(op, 0) + old(program[opnd..regcode])
      ensures !emitting ==> regsize == old(regsize) + 3 && regcode == old(regcode)
    {
      if !emitting {
        regsize := regsize + 3;
        return;
      }
      ghost var was, n := program[..], regcode;
      MemMove(program, opnd + 3, opnd, regcode - opnd);
      ghost var moved := program[..];
      regcode := regcode + 3;
      program[opnd] := op;
      program[opnd + 1] := 0;
      program[opnd + 2] := 0;
      assert program[..] == moved[opnd := op][opnd + 1 := 0][opnd + 2 := 0];
      InsertShape(was, moved, program[..], opnd, n, op);
    }

    method RegTail(p: nat, val: nat)
      requires Valid() && (emitting ==> TieOk(Code(), p, val))
      modifies program
      ensures Valid() && (emitting ==> Code() == Tie(old(Code()), p, val))
    {
      if !emitting {
        return;
      }
      ghost var c := Code();
      var scan := p;
      while program[scan + 1] % 128 * 256 + program[scan + 2] % 256 != 0
        invariant p <= scan && scan + 3 <= regcode && ChainEnd(c, scan) == ChainEnd(c, p)
        decreases regcode - scan
      {
        assert NextOff(c, scan) == program[scan + 1] % 128 * 256 + program[scan + 2] % 256;
        var off := program[scan + 1] % 128 * 256 + program[scan + 2] % 256;
        scan := if program[scan] == BACK then scan - off else scan + off;
      }
      var offset := if program[scan] == BACK then scan - val else val - scan;
      program[scan + 1] := offset / 256 % 128;
      program[scan + 2] := offset % 256;
    }

    method RegOpTail(p: nat, val: nat)
      requires Valid() && (emitting ==> p + 3 <= regcode && (program[p] == BRANCH ==> TieOk(Code(), p + 3, val)))
      modifies program
      ensures Valid()
      ensures emitting ==> Code() == if old(program[p]) == BRANCH then Tie(old(Code()), p + 3, val) else old(Code())
    {
      if !emitting || program[p] != BRANCH {
        return;
      }
      RegTail(p + 3, val);
    }

    /** What a routine that parses one construct with the given code does, success or not. */
    twostate predicate Compiled<T>(parsed: Parsed<T>, w: Code, flags: Flags, r: Result)
      reads this, program
    {
      match parsed
      case Err(e) => r == Fail(e)
      case Ok(_, j, m) =>
        r == Done(old(regcode), flags) && regparse == j && regnpar == m && Valid() && Emits(w)
    }

    /** In the emitting pass the construct is known to parse and its code fits. */
    ghost predicate Fits<T>(parsed: Parsed<T>, n: nat)
      reads this
    {
      emitting ==> parsed.Ok? && Room(n)
    }

    /** A range of a bracketed set: all characters after lo up to hi. */
    method RegRange(lo: Ch, hi: Ch)
      requires Room(|Range(lo as int + 1, hi)|)
      modifies `regcode, `regsize, program
      ensures Valid() && Emits(Range(lo as int + 1, hi))
    {
      var range := lo as int + 1;
      ghost var todo := Range(range, hi);
      ghost var done: Code := [];
      while range <= hi
        invariant lo < range
        invariant done + Range(range, hi) == todo && Valid() && Emits(done)
        decreases hi as int + 1 - range
      {
        RegC(range);
        done := done + [range];
        range := range + 1;
      }
    }

    /** One trip through the loop over the members of a bracketed set. */
    method RegMember() returns (ok: bool)
      requires 0 < regparse < |exp| && exp[regparse] != CH_RBRACKET
      requires emitting ==> !BadRange(exp, regparse) && Room(|MemberCells(exp, regparse)|)
      modifies `regparse, `regcode, `regsize, program
      ensures ok == !BadRange(exp, old(regparse))
      ensures ok ==> regparse == MemberEnd(exp, old(regparse)) && Valid() && Emits(MemberCells(exp, old(regparse)))
    {
      var c := At(exp, regparse);
      regparse := regparse + 1;
      if c != CH_DASH {
        RegC(c);
        return true;
      }
      c := At(exp, regparse);
      if c == CH_RBRACKET || c == 0 {
        RegC(CH_DASH);
        return true;
      }
      var range, rangeEnd := exp[regparse - 2], exp[regparse];
      if range > rangeEnd {
        return false;
      }
      RegRange(range, rangeEnd);
      regparse := regparse + 1;
      return true;
    }

    /** The members of a bracketed set, from position k0 = regparse on, up to the character
        that ends the set. */
    method RegMembers(ghost start: nat) returns (r: Scanned)
      requires start <= regparse <= |exp| && 0 < regparse
      requires regparse == start ==> At(exp, regparse) != CH_DASH
      requires Valid() && (emitting ==> ScanSet(exp, regparse).End?
                                        && Room(|MembersFrom(exp[start..ScanSet(exp, regparse).pos], regparse - start)|))
      modifies `regparse, `regcode, `regsize, program
      ensures r == ScanSet(exp, old(regparse))
      ensures r.End? ==> regparse == r.pos + 1 && Valid()
                         && Emits(MembersFrom(exp[start..r.pos], old(regparse) - start))
    {
      hide ScanSet, MembersFrom, MemberCells, MemberEnd, BadRange;
      ghost var k0 := regparse;
      ghost var whole := ScanSet(exp, k0);
      ghost var raw := if whole.End? then exp[start..whole.pos] else [];
      ghost var out: Code := [];
      while At(exp, regparse) != 0 && At(exp, regparse) != CH_RBRACKET
        invariant start <= regparse <= |exp| && 0 < regparse
        invariant regparse == start ==> At(exp, regparse) != CH_DASH
        invariant whole == ScanSet(exp, regparse) && Valid() && Emits(out)
        invariant whole.End? ==> out + MembersFrom(raw, regparse - start) == MembersFrom(raw, k0 - start)
        decreases |exp| - regparse
      {
        MemberStep(exp, start, regparse);
        ghost var cells := MemberCells(exp, regparse);
        var ok := RegMember();
        if !ok {
          return Bad(InvalidRange);
        }
        out := out + cells;
      }
      MembersEnd(exp, start, regparse);
      var c := At(exp, regparse);
      regparse := regparse + 1;
      if c != CH_RBRACKET {
        return Bad(UnmatchedBracket);
      }
      return End(regparse - 1);
    }

    /** The start of a bracketed set: the node and a leading ] or -. */
    method RegSetHead() returns (ret: nat, ghost start: nat)
      requires regparse <= |exp| && Room(3 + |SetLead(exp, SetStart(exp, regparse))|)
      modifies `regparse, `regcode, `regsize, program
      ensures start == SetStart(exp, old(regparse)) && ret == old(regcode)
      ensures regparse == start + SetSkip(At(exp, start))
      ensures Valid() && Emits(SetHead(exp, old(regparse)))
    {
      var neg := At(exp, regparse) == CH_CARET;
      ret := RegNode(if neg then ANYBUT else ANYOF);
      if neg {
        regparse := regparse + 1;
      }
      start := regparse;
      var c := At(exp, regparse);
      if c == CH_RBRACKET || c == CH_DASH {
        RegC(c);
        regparse := regparse + 1;
      }
    }

    /** The bracket case of regatom, from just past the opening bracket. */
    method RegSet() returns (r: Result)
      requires Valid() && 0 < regparse <= |exp|
      requires var p := ParseSet(exp, regparse, regnpar); Fits(p, if p.Ok? then LenAtom(p.val) else 0)
      modifies `regparse, `regcode, `regsize, program
      ensures var p := ParseSet(exp, old(regparse), old(regnpar));
              Compiled(p, if p.Ok? then CodeAtom(p.val, -1) else [], Flags(true, true, false), r)
    {
      hide ParseSet, CodeAtom, LenAtom, MembersFrom, ScanSet, SetHead, SetStart, SetLead;
      SetShape(exp, regparse, regnpar);
      ghost var i := regparse;
      var ret, start := RegSetHead();
      ghost var k := regparse;
      var e := RegMembers(start);
      if e.Bad? {
        return Fail(e.error);
      }
      assert Emits(SetHead(exp, i) + MembersFrom(exp[start..e.pos], k - start));
      RegC(0);
      return Done(ret, Flags(true, true, false));
    }

    /** How many ordinary characters to gather, keeping clear of a ?+* operand. */
    method LiteralRun() returns (len: nat)
      requires regparse < |exp| && !IsMeta(exp[regparse])
      ensures len == LiteralLength(exp, regparse)
    {
      hide IsMeta, IsRep;
      len := StrCSpn(exp, regparse, META);
      MetaIsIsMeta();
      RunLengthIs(exp, regparse, len);
      var ender := At(exp, regparse + len);
      if len > 1 && IsRep(ender) {
        len := len - 1;
      }
    }

    /** Emits the next len characters of the pattern. */
    method RegText(n: nat)
      requires regparse + n <= |exp| && Room(n)
      modifies `regparse, `regcode, `regsize, program
      ensures regparse == old(regparse) + n && Valid() && Emits(exp[old(regparse)..old(regparse) + n])
    {
      ghost var i := regparse;
      var len := n;
      while len > 0
        invariant i <= regparse && regparse + len == i + n && Valid() && Emits(exp[i..regparse])
        decreases len
      {
        RegC(exp[regparse]);
        assert exp[i..regparse + 1] == exp[i..regparse] + [exp[regparse]];
        regparse := regparse + 1;
        len := len - 1;
      }
    }

    /** The default case of regatom: a run of ordinary characters. */
    method RegLiteral() returns (r: Result)
      requires regparse < |exp| && !IsMeta(exp[regparse]) && Room(4 + LiteralLength(exp, regparse))
      modifies `regparse, `regcode, `regsize, program
      ensures var n := LiteralLength(exp, old(regparse));
              && r == Done(old(regcode), Flags(true, n == 1, false))
              && regparse == old(regparse) + n && Valid()
              && Emits(CodeAtom(Literal(exp[old(regparse)..old(regparse) + n]), -1))
    {
      hide Node, LiteralLength, IsMeta, CodeAtom, LenAtom, ExactlyCells;
      var len := LiteralRun();
      LiteralCode(exp[regparse..regparse + len]);
      var ret := RegExactly(len);
      return Done(ret, Flags(true, len == 1, false));
    }

    /** EXACTLY with the next len characters. */
    method RegExactly(len: nat) returns (ret: nat)
      requires regparse + len <= |exp| && len > 0 && Room(4 + len)
      modifies `regparse, `regcode, `regsize, program
      ensures ret == old(regcode) && regparse == old(regparse) + len && Valid()
      ensures Emits(ExactlyCells(exp[old(regparse)..old(regparse) + len]))
    {
      hide Node;
      ghost var c := if emitting then program[..regcode] else [];
      ghost var t := exp[regparse..regparse + len];
      ret := RegNode(EXACTLY);
      ghost var c1 := if emitting then program[..regcode] else [];
      RegText(len);
      ghost var c2 := if emitting then program[..regcode] else [];
      RegC(0);
      ghost var c3 := if emitting then program[..regcode] else [];
      if emitting {
        Glue(c, Node(EXACTLY, 0), t, [0], c1, c2, c3);
      }
    }

    /** x* by the general scheme, with x emitted from ret on. */
    method RegStarLoop(ret: nat, ghost p: Piece)
      requires p.rep == Star && Room(12)
      requires emitting ==> ret + LenAtom(p.atom) == regcode && program[ret..regcode] == CodeAtom(p.atom, -1)
      modifies `regcode, `regsize, program
      ensures Valid() && (!emitting ==> regsize == old(regsize) + 12 && regcode == old(regcode))
      ensures emitting ==> regcode == old(regcode) + 12 && regsize == old(regsize)
                           && Code() == old(program[..ret]) + LoopHead(p) + Node(NOTHING, 0)
    {
      hide Node, CodeAtom, LenAtom, LoopHead;
      ghost var pre := if emitting then program[..ret] else [];
      RegStarBack(ret, p, pre);
      RegStarEnd(ret, p, pre);
    }

    /** The loop's BRANCH and the BACK that leads to it. */
    method RegStarBack(ret: nat, ghost p: Piece, ghost pre: Code)
      requires p.rep == Star && Room(12)
      requires emitting ==> ret + LenAtom(p.atom) == regcode && program[ret..regcode] == CodeAtom(p.atom, -1) && pre == program[..ret]
      modifies `regcode, `regsize, program
      ensures Room(6) && (!emitting ==> regsize == old(regsize) + 6 && regcode == old(regcode))
      ensures emitting ==> regcode == old(regcode) + 6 && regsize == old(regsize)
      ensures emitting ==> Code() == pre + Node(BRANCH, 0) + CodeAtom(p.atom, 0) + Node(BACK, LenAtom(p.atom) + 3)
    {
      hide Node, CodeAtom, LenAtom, LoopHead, Tie, TieOk;
      ghost var a := p.atom;
      if emitting {
        StarTies(pre, p);
        BranchFirst(pre, 0);
      }
      RegInsert(BRANCH, ret);
      assert emitting ==> Code() == pre + Node(BRANCH, 0) + CodeAtom(a, -1);
      var back := RegNode(BACK);
      assert emitting ==> Code() == pre + Node(BRANCH, 0) + CodeAtom(a, -1) + Node(BACK, 0)
                          == pre + Node(BRANCH, 0) + (CodeAtom(a, -1) + Node(BACK, 0));
      RegOpTail(ret, back);
      assert emitting ==> Code() == pre + Node(BRANCH, 0) + CodeAtom(a, 0) + Node(BACK, 0)
                          == pre + Node(BRANCH, 0) + (CodeAtom(a, 0) + Node(BACK, 0));
      RegOpTail(ret, ret);
    }

    /** The way out of the loop. */
    method RegStarEnd(ret: nat, ghost p: Piece, ghost pre: Code)
      requires p.rep == Star && Room(6)
      requires emitting ==> ret == |pre| && regcode == ret + LenAtom(p.atom) + 6
      requires emitting ==> program[..regcode] == pre + Node(BRANCH, 0) + CodeAtom(p.atom, 0) + Node(BACK, LenAtom(p.atom) + 3)
      modifies `regcode, `regsize, program
      ensures Valid() && (!emitting ==> regsize == old(regsize) + 6 && regcode == old(regcode))
      ensures emitting ==> regcode == old(regcode) + 6 && regsize == old(regsize) && Code() == pre + LoopHead(p) + Node(NOTHING, 0)
    {
      hide Node, CodeAtom, LenAtom, LoopHead, Tie, TieOk;
      ghost var n := LenAtom(p.atom);
      ghost var w := CodeAtom(p.atom, 0) + Node(BACK, n + 3);
      if emitting {
        StarBranchTies(pre, p);
      }
      var next := RegNode(BRANCH);
      assert emitting ==> Code() == pre + Node(BRANCH, 0) + (w + Node(BRANCH, 0));
      RegTail(ret, next);
      var last := RegNode(NOTHING);
      assert emitting ==> Code() == pre + Node(BRANCH, n + 6) + w + Node(BRANCH, 0) + Node(NOTHING, 0);
      RegTail(ret, last);
    }

    /** x+ by the general scheme, with x emitted from ret on. */
    method RegPlusLoop(ret: nat, ghost p: Piece)
      requires p.rep == Plus && Room(12)
      requires emitting ==> ret + LenAtom(p.atom) == regcode && program[ret..regcode] == CodeAtom(p.atom, -1)
      modifies `regcode, `regsize, program
      ensures Valid() && (!emitting ==> regsize == old(regsize) + 12 && regcode == old(regcode))
      ensures emitting ==> regcode == old(regcode) + 12 && regsize == old(regsize)
                           && Code() == old(program[..ret]) + LoopHead(p) + Node(NOTHING, 0)
    {
      hide Node, CodeAtom, LenAtom, LoopHead;
      ghost var pre := if emitting then program[..ret] else [];
      var next := RegPlusBack(ret, p, pre);
      RegPlusEnd(ret, next, p, pre);
    }

    /** The loop's BRANCH and the BACK that leads to the operand. */
    method RegPlusBack(ret: nat, ghost p: Piece, ghost pre: Code) returns (next: nat)
      requires p.rep == Plus && Room(12)
      requires emitting ==> ret + LenAtom(p.atom) == regcode && program[ret..regcode] == CodeAtom(p.atom, -1) && pre == program[..ret]
      modifies `regcode, `regsize, program
      ensures Room(6) && (!emitting ==> regsize == old(regsize) + 6 && regcode == old(regcode))
      ensures emitting ==> regcode == old(regcode) + 6 && regsize == old(regsize)
      ensures next == old(regcode)
      ensures emitting ==> Code() == pre + CodeAtom(p.atom, 0) + Node(BRANCH, 0) + Node(BACK, LenAtom(p.atom) + 3)
    {
      hide Node, CodeAtom, LenAtom, LoopHead, Tie, TieOk;
      ghost var a := p.atom;
      if emitting {
        PlusTies(pre, p);
        assert Code() == pre + CodeAtom(a, -1);
      }
      next := RegNode(BRANCH);
      RegTail(ret, next);
      assert emitting ==> Code() == pre + CodeAtom(a, 0) + Node(BRANCH, 0);
      var back := RegNode(BACK);
      RegTail(back, ret);
    }

    /** The way out of the loop. */
    method RegPlusEnd(ret: nat, next: nat, ghost p: Piece, ghost pre: Code)
      requires p.rep == Plus && Room(6)
      requires emitting ==> ret == |pre| && next == ret + LenAtom(p.atom) && regcode == next + 6
      requires emitting ==> program[..regcode] == pre + CodeAtom(p.atom, 0) + Node(BRANCH, 0) + Node(BACK, LenAtom(p.atom) + 3)
      modifies `regcode, `regsize, program
      ensures Valid() && (!emitting ==> regsize == old(regsize) + 6 && regcode == old(regcode))
      ensures emitting ==> regcode == old(regcode) + 6 && regsize == old(regsize) && Code() == pre + LoopHead(p) + Node(NOTHING, 0)
    {
      hide Node, CodeAtom, LenAtom, LoopHead, Tie, TieOk;
      ghost var a, n := p.atom, LenAtom(p.atom);
      if emitting {
        PlusTies(pre, p);
        PlusLastTie(pre, p);
      }
      var next2 := RegNode(BRANCH);
      assert emitting ==> Code() == pre + CodeAtom(a, 0) + Node(BRANCH, 0) + (Node(BACK, n + 3) + Node(BRANCH, 0));
      RegTail(next, next2);
      var last := RegNode(NOTHING);
      assert emitting ==>
          Code() == pre + CodeAtom(a, 0) + Node(BRANCH, 6) + Node(BACK, n + 3) + Node(BRANCH, 0) + Node(NOTHING, 0);
      RegTail(ret, last);
    }

    /** x?, with x emitted from ret on. */
    method RegQuest(ret: nat, ghost p: Piece)
      requires p.rep == Quest && Room(9)
      requires emitting ==> ret + LenAtom(p.atom) == regcode && program[ret..regcode] == CodeAtom(p.atom, -1)
      modifies `regcode, `regsize, program
      ensures Valid() && (!emitting ==> regsize == old(regsize) + 9 && regcode == old(regcode))
      ensures emitting ==> regcode == old(regcode) + 9 && regsize == old(regsize)
                           && Code() == old(program[..ret]) + LoopHead(p) + Node(NOTHING, 0)
    {
      hide Node, CodeAtom, LenAtom, LoopHead, Tie, TieOk;
      ghost var pre := if emitting then program[..ret] else [];
      ghost var x, n := CodeAtom(p.atom, -1), LenAtom(p.atom);
      if emitting {
        QuestTies(pre, p);
        BranchFirst(pre, n + 3);
      }
      RegInsert(BRANCH, ret);
      var next := RegNode(BRANCH);
      assert emitting ==> Code() == pre + Node(BRANCH, 0) + (x + Node(BRANCH, 0));
      RegTail(ret, next);
      var last := RegNode(NOTHING);
      assert emitting ==> Code() == pre + Node(BRANCH, n + 3) + x + Node(BRANCH, 0) + Node(NOTHING, 0);
      RegTail(ret, last);
      assert emitting ==> Code()[ret] == BRANCH by {
        if emitting {
          assert Code() == pre + Node(BRANCH, n + 3) + (x + (Node(BRANCH, 3) + Node(NOTHING, 0)));
        }
      }
      RegOpTail(ret, last);
    }

    method RegAtom() returns (r: Result)
      requires Valid() && regparse <= |exp|
      requires var p := ParseAtom(exp, regparse, regnpar); Fits(p, |AtomCells(p)|)
      modifies `regparse, `regnpar, `regcode, `regsize, program
      ensures var p := ParseAtom(exp, old(regparse), old(regnpar)); Compiled(p, AtomCells(p), AtomFlags(p), r)
      decreases |exp| - regparse, 0
    {
      hide ParseAtom, AtomCells, AtomFlags, CodeAtom, LenAtom, ParseSet, LiteralLength, IsMeta, IsRep, ParseReg, RegCells, RegFlags,
           Node;
      var c := At(exp, regparse);
      if c == CH_CARET || c == CH_DOLLAR || c == CH_DOT {
        NodeCase(exp, regparse, regnpar);
        regparse := regparse + 1;
        var ret := RegNode(if c == CH_CARET then BOL else if c == CH_DOLLAR then EOL else ANY);
        r := Done(ret, Flags(c == CH_DOT, c == CH_DOT, false));
      } else if c == CH_LBRACKET {
        SetCase(exp, regparse, regnpar);
        regparse := regparse + 1;
        r := RegSet();
      } else if c == CH_LPAREN {
        GroupCase(exp, regparse, regnpar);
        regparse := regparse + 1;
        r := Reg(true);
      } else if EndsBranch(c) {
        ErrorCase(exp, regparse, regnpar);
        r := Fail(Internal);
      } else if IsRep(c) {
        ErrorCase(exp, regparse, regnpar);
        r := Fail(RepFollowsNothing);
      } else if c == CH_BACKSLASH {
        QuotedCase(exp, regparse, regnpar);
        regparse := regparse + 1;
        if At(exp, regparse) == 0 {
          return Fail(TrailingBackslash);
        }
        r := RegQuoted();
      } else {
        LiteralCase(exp, regparse, regnpar);
        r := RegLiteral();
      }
    }

    /** The backslash case of regatom, from just past the backslash. */
    method RegQuoted() returns (r: Result)
      requires regparse < |exp| && Room(5)
      modifies `regparse, `regcode, `regsize, program
      ensures r == Done(old(regcode), Flags(true, true, false))
      ensures regparse == old(regparse) + 1 && Valid() && Emits(CodeAtom(Quoted(exp[old(regparse)]), -1))
    {
      var ret := RegNode(EXACTLY);
      RegC(exp[regparse]);
      regparse := regparse + 1;
      RegC(0);
      r := Done(ret, Flags(true, true, false));
    }

    /** The repetition part of regpiece, for an operand emitted from ret on. */
    method RegRep(op: int, ret: nat, simple: bool, ghost a: Atom)
      requires IsRep(op) && simple == SimpleAtom(a) && Room(LenPiece(Piece(a, RepOf(op))) - LenAtom(a))
      requires emitting ==> ret + LenAtom(a) == regcode && program[ret..regcode] == CodeAtom(a, -1)
      modifies `regcode, `regsize, program
      ensures var p := Piece(a, RepOf(op));
              && Valid()
              && (!emitting ==> regsize == old(regsize) + LenPiece(p) - LenAtom(a) && regcode == old(regcode))
              && (emitting ==> regcode == ret + LenPiece(p) && regsize == old(regsize)
                               && Code() == old(program[..ret]) + CodePiece(p, -1))
    {
      hide CodeAtom, LenAtom, CodePiece, LenPiece, LoopHead, Node, SimpleAtom;
      RepForm(a, op, if emitting then program[..ret] else []);
      if op == CH_STAR && simple {
        RegInsert(STAR, ret);
      } else if op == CH_STAR {
        RegStarLoop(ret, Piece(a, Star));
      } else if op == CH_PLUS && simple {
        RegInsert(PLUS, ret);
      } else if op == CH_PLUS {
        RegPlusLoop(ret, Piece(a, Plus));
      } else {
        RegQuest(ret, Piece(a, Quest));
      }
    }

    method RegPiece() returns (r: Result)
      requires Valid() && regparse <= |exp|
      requires var p := ParsePiece(exp, regparse, regnpar); Fits(p, |PieceCells(p)|)
      modifies `regparse, `regnpar, `regcode, `regsize, program
      ensures var p := ParsePiece(exp, old(regparse), old(regnpar)); Compiled(p, PieceCells(p), PieceFlags(p), r)
      decreases |exp| - regparse, 1
    {
      hide ParsePiece, ParseAtom, PieceCells, AtomCells, PieceFlags, AtomFlags, IsRep, CodePiece, LenPiece, CodeAtom, LenAtom,
           SimpleAtom, HasWidthAtom, RepOf;
      ghost var a := ParseAtom(exp, regparse, regnpar);
      PieceCase(exp, regparse, regnpar);
      r := RegAtom();
      if r.Fail? {
        return;
      }
      var op := At(exp, regparse);
      if !IsRep(op) {
        return;
      }
      if !r.flags.hasWidth && op != CH_QUEST {
        return Fail(OperandCouldBeEmpty);
      }
      var flags := Flags(op == CH_PLUS, false, op != CH_QUEST);
      RegRep(op, r.ret, r.flags.simple, a.val);
      regparse := regparse + 1;
      if IsRep(At(exp, regparse)) {
        return Fail(NestedRep);
      }
      r := Done(r.ret, flags);
    }

    /** One trip through the loop of regbranch: a piece, hooked to the pieces done before it,
        which were emitted after u. */
    method RegNextPiece(chain: int, ghost u: Code, ghost done: Branch) returns (r: Result)
      requires Valid() && regparse <= |exp| && chain >= -1 && (chain == -1 <==> done.Empty?)
      requires var p := ParsePiece(exp, regparse, regnpar); Fits(p, |PieceCells(p)|)
      requires emitting ==> Code() == u + DoneCells(done) && (done.Cons? ==> chain == |u| + LastPiece(done))
      modifies `regparse, `regnpar, `regcode, `regsize, program
      ensures var p := ParsePiece(exp, old(regparse), old(regnpar));
              match p
              case Err(e) => r == Fail(e)
              case Ok(q, j, m) =>
                && r == Done(old(regcode), PieceFlags(p)) && regparse == j && regnpar == m && Valid()
                && (emitting ==> Code() == u + DoneCells(SnocBranch(done, q)) && regsize == old(regsize))
                && (!emitting ==> regsize == old(regsize) + |PieceCells(p)| && regcode == old(regcode))
      decreases |exp| - regparse, 2, 0
    {
      hide ParsePiece, PieceCells, PieceFlags, CodeBranch, CodePiece, LenBranch, LenPiece, LastPiece, DoneCells, Tie, TieOk,
           HasWidthBranch, HasWidthPiece, SpStartBranch, SpStartPiece;
      ghost var p := ParsePiece(exp, regparse, regnpar);
      r := RegPiece();
      if r.Fail? {
        return;
      }
      PieceSize(p);
      DoneSnoc(done, p.val);
      if chain != -1 {
        if emitting {
          TieDone(u, done, p.val, Code());
        }
        RegTail(chain, r.ret);
      } else {
        DoneStart();
      }
    }

    /** One alternative. */
    method RegBranch() returns (r: Result)
      requires Valid() && regparse <= |exp|
      requires var p := ParseBranch(exp, regparse, regnpar); Fits(p, |BranchCells(p)|)
      modifies `regparse, `regnpar, `regcode, `regsize, program
      ensures var p := ParseBranch(exp, old(regparse), old(regnpar)); Compiled(p, BranchCells(p), BranchFlags(p), r)
      decreases |exp| - regparse, 2, 2
    {
      hide ParseBranch, CodeBranch, LenBranch, Node, HasWidthBranch, SpStartBranch, BranchCells, BranchFlags, DoneCells, LastPiece;
      ghost var whole := ParseBranch(exp, regparse, regnpar);
      ghost var pre := if emitting then Code() else [];
      BranchSize(whole);
      BranchFlagsAre(whole);
      BranchLength(whole);
      var ret := RegNode(BRANCH);
      ghost var u := if emitting then Code() else [];
      var chain;
      ghost var done;
      r, chain, done := RegPieces(u, whole);
      if r.Fail? {
        return;
      }
      DoneIs(done);
      EmptyLength(whole);
      RegBranchEnd(chain, u, done);
      assert emitting ==> Code() == pre + (Node(BRANCH, 0) + CodeBranch(done, -1));
      r := Done(ret, r.flags);
    }

    /** The loop of regbranch over the pieces of one alternative, whose code follows u. */
    method RegPieces(ghost u: Code, ghost whole: Parsed<Branch>) returns (r: Result, chain: int, ghost done: Branch)
      requires Valid() && regparse <= |exp| && whole == ParseBranch(exp, regparse, regnpar)
      requires emitting ==> whole.Ok? && Code() == u && (whole.val.Cons? ==> Room(LenBranch(whole.val)))
      modifies `regparse, `regnpar, `regcode, `regsize, program
      ensures whole.Err? ==> r == Fail(whole.error)
      ensures whole.Ok? ==>
        && r == Done(0, Flags(HasWidthBranch(done), false, SpStartBranch(done))) && whole == Ok(done, regparse, regnpar) && Valid()
        && (chain == -1 <==> done.Empty?)
        && (emitting ==> Code() == u + DoneCells(done) && regsize == old(regsize))
        && (!emitting ==> regsize == old(regsize) + |DoneCells(done)| && regcode == old(regcode))
      decreases |exp| - regparse, 2, 1
    {
      hide ParseBranch, ParsePiece, PieceCells, PieceFlags, CodeBranch, LenBranch, Node, LastPiece, HasWidthBranch, SpStartBranch,
           DoneCells, GlueBranch, HasWidthPiece, SpStartPiece, LenPiece, CodePiece;
      done := Empty;
      var hasWidth, spStart := false, false;
      chain := -1;
      DoneStart();
      while At(exp, regparse) != 0 && At(exp, regparse) != CH_BAR && At(exp, regparse) != CH_RPAREN
        invariant old(regparse) <= regparse <= |exp| && Valid()
        invariant whole == GlueBranch(done, ParseBranch(exp, regparse, regnpar))
        invariant hasWidth == HasWidthBranch(done) && spStart == SpStartBranch(done)
        invariant chain >= -1 && (chain == -1 <==> done.Empty?)
        invariant emitting ==> Code() == u + DoneCells(done) && (done.Cons? ==> chain == |u| + LastPiece(done))
                               && regsize == old(regsize)
        invariant !emitting ==> regsize == old(regsize) + |DoneCells(done)| && regcode == old(regcode)
        decreases |exp| - regparse
      {
        ghost var q := ParsePiece(exp, regparse, regnpar);
        BranchStep(exp, regparse, regnpar, done);
        StepNotEmpty(exp, regparse, regnpar, done);
        r := RegNextPiece(chain, u, done);
        if r.Fail? {
          return;
        }
        hasWidth := hasWidth || r.flags.hasWidth;
        if chain == -1 {
          spStart := r.flags.spStart;
        }
        chain := r.ret;
        DoneSnoc(done, q.val);
        DoneGrows(done, q.val);
        done := SnocBranch(done, q.val);
      }
      BranchStop(exp, regparse, regnpar, done);
      r := Done(0, Flags(hasWidth, false, spStart));
    }

    /** An empty alternative gets a NOTHING. */
    method RegBranchEnd(chain: int, ghost u: Code, ghost done: Branch)
      requires Valid() && (chain == -1 <==> done.Empty?) && (emitting ==> Code() == u + DoneCells(done))
      requires done.Empty? ==> Room(3)
      modifies `regcode, `regsize, program
      ensures Valid() && (emitting ==> Code() == u + CodeBranch(done, -1) && regsize == old(regsize))
      ensures !emitting ==> regsize - LenBranch(done) == old(regsize) - |DoneCells(done)| && regcode == old(regcode)
    {
      hide Node;
      DoneIs(done);
      if chain == -1 {
        var _ := RegNode(NOTHING);
      }
    }

    /** regnext; -1 for NULL. */
    method RegNext(p: nat) returns (q: int)
      requires Valid() && emitting && p + 3 <= regcode
      ensures var off := NextOff(Code(), p);
              q == if off == 0 then -1 else if program[p] == BACK then p - off else p + off
    {
      var offset := program[p + 1] % 128 * 256 + program[p + 2] % 256;
      if offset == 0 {
        return -1;
      }
      return if program[p] == BACK then p - offset else p + offset;
    }

    /** The loop at the end of reg: hooks the tails of all alternatives, which stand after
        pre + head, to the closing node. */
    method RegHookAll(ret: nat, ender: nat, ghost pre: Code, ghost paren: bool, ghost no: nat, ghost alts: Alts, ghost op: int)
      requires Valid() && emitting && ret == |pre| && ender == |pre + Head(paren, no)| + LenAlts(alts)
      requires op != BRANCH && op != BACK
      requires Code() == pre + Head(paren, no) + CodeAlts(alts, -1, true) + Node(op, 0)
      modifies program
      ensures Valid() && Code() == pre + Head(paren, no) + CodeAlts(alts, 0, true) + Node(op, 0)
    {
      hide CodeAlts, LenAlts, HookedHead, LinkedRest, Node, LenBranch, NextOff, Head, Tie, TieOk, StillHooking;
      ghost var head := Head(paren, no);
      ghost var h := Hooking(pre + head, alts, op);
      HeadNode(pre, paren, no, CodeAlts(alts, -1, true) + Node(op, 0), Code());
      ghost var first := Code();
      HookStart(h, first);
      ghost var atHead := paren;
      ghost var a, left := pre + head, Some(alts);
      var br: int := ret;
      while br != -1
        invariant Valid() && -1 <= br
        invariant atHead ==> br == |pre| && left == Some(alts) && a == h.u && Code() == first
        invariant !atHead && left.Some? ==> br == |a|
        invariant left.Some? ==> StillHooking(h, a, left.value, Code()) && |a| + LenAlts(left.value) == ender
        invariant left.None? ==> Code() == Hooked(h) && (br == ender || br == -1)
        decreases if atHead then 1 else 0, if left.Some? then LenAlts(left.value) + 1 else 0, br
      {
        if left.None? {
          EnderNode(h, ender, Code());
        } else if !atHead {
          HookStep(h, a, left.value, Code(), ender);
        }
        RegOpTail(br, ender);
        br := RegNext(br);
        if left.None? {
        } else if atHead {
          atHead := false;
        } else {
          if left.value.Or? {
            a, left := a + HookedHead(left.value), Some(left.value.rest);
          } else {
            left := None;
          }
        }
      }
    }

    /** The opening node of a group, if any, and the first alternative. */
    method RegFirst(paren: bool, parno: nat) returns (r: Result)
      requires Valid() && regparse <= |exp|
      requires var p := ParseBranch(exp, regparse, regnpar); Fits(p, |Head(paren, parno)| + |BranchCells(p)|)
      modifies `regparse, `regnpar, `regcode, `regsize, program
      ensures var p := ParseBranch(exp, old(regparse), old(regnpar));
              Compiled(p, if p.Ok? then Head(paren, parno) + CodeAlts(Last(p.val), -1, false) else [], BranchFlags(p), r)
      decreases |exp| - regparse, 2, 3
    {
      hide ParseBranch, BranchCells, BranchFlags, Node, CodeAlts, LenAlts, Tie, TieOk;
      ghost var p := ParseBranch(exp, regparse, regnpar);
      ghost var pre := if emitting then Code() else [];
      BranchAsChoice(p);
      BranchFlagsAre(p);
      if !paren {
        r := RegBranch();
        return;
      }
      var ret := RegNode(SUB_OPEN + parno);
      r := RegBranch();
      if r.Fail? {
        return;
      }
      if emitting {
        TieNode(pre, SUB_OPEN + parno, CodeAlts(Last(p.val), -1, false), |pre|, 3);
      }
      RegTail(ret, r.ret);
      r := Done(ret, r.flags);
    }

    /** One trip through the loop of reg: a further alternative, hooked to those done before. */
    method RegNextBranch(ret: nat, ghost pre: Code, ghost paren: bool, ghost no: nat, ghost done: Alts) returns (r: Result)
      requires Valid() && regparse <= |exp|
      requires var p := ParseBranch(exp, regparse, regnpar); Fits(p, |BranchCells(p)|)
      requires emitting ==> ret == |pre| && Code() == pre + Head(paren, no) + CodeAlts(done, -1, false)
      modifies `regparse, `regnpar, `regcode, `regsize, program
      ensures var p := ParseBranch(exp, old(regparse), old(regnpar));
              match p
              case Err(e) => r == Fail(e)
              case Ok(b, j, m) =>
                && r.Done? && r.flags == BranchFlags(p) && regparse == j && regnpar == m && Valid()
                && (emitting ==> Code() == pre + Head(paren, no) + CodeAlts(SnocAlts(done, b), -1, false)
                                 && regsize == old(regsize))
                && (!emitting ==> regsize == old(regsize) + |BranchCells(p)| && regcode == old(regcode))
      decreases |exp| - regparse, 2, 3
    {
      hide ParseBranch, BranchCells, BranchFlags, Head, CodeAlts, LenAlts, Tie, TieOk, ChainEnd;
      ghost var p := ParseBranch(exp, regparse, regnpar);
      ghost var u := pre + Head(paren, no);
      BranchAsChoice(p);
      BranchFlagsAre(p);
      r := RegBranch();
      if r.Fail? {
        return;
      }
      if emitting {
        ghost var v := CodeAlts(Last(p.val), -1, false);
        assert Code() == u + (CodeAlts(done, -1, false) + v) == u + CodeAlts(done, -1, false) + v;
        HeadNode(pre, paren, no, CodeAlts(done, -1, false) + v, Code());
        TieAlts(u, done, v, ret);
        CodeSnocAlts(done, p.val);
      }
      RegTail(ret, r.ret);
    }

    /** The closing node and the links to it. */
    method RegClose(ret: nat, op: int, ghost pre: Code, ghost paren: bool, ghost no: nat, ghost alts: Alts)
      requires Room(3) && op != BRANCH && op != BACK
      requires emitting ==> ret == |pre| && Code() == pre + Head(paren, no) + CodeAlts(alts, -1, false)
      modifies `regcode, `regsize, program
      ensures Valid()
      ensures emitting ==> Code() == pre + Head(paren, no) + CodeAlts(alts, 0, true) + Node(op, 0) && regsize == old(regsize)
      ensures !emitting ==> regsize == old(regsize) + 3 && regcode == old(regcode)
    {
      hide Head, CodeAlts, LenAlts, Tie, TieOk, ChainEnd, Node;
      var ender := RegNode(op);
      if emitting {
        ghost var u := pre + Head(paren, no);
        assert Code() == u + (CodeAlts(alts, -1, false) + Node(op, 0));
        HeadNode(pre, paren, no, CodeAlts(alts, -1, false) + Node(op, 0), Code());
        TieAlts(u, alts, Node(op, 0), ret);
      }
      RegTail(ret, ender);
      // In the sizing pass the walk starts at the dummy node, which has a null link and is
      // no BRANCH, so that nothing happens.
      if emitting {
        RegHookAll(ret, ender, pre, paren, no, alts, op);
      }
    }

    /** The loop of reg: the alternatives after the first ones, done0. */
    method RegOthers(ret: nat, flags: Flags, ghost pre: Code, ghost paren: bool, ghost no: nat, ghost done0: Alts)
      returns (r: Result)
      requires Valid() && regparse <= |exp| && flags == FlagsAlts(done0)
      requires var s := AltsState(exp, regparse, regnpar, done0);
               emitting ==> s.Ok? && regcode + LenAlts(s.val) - LenAlts(done0) <= program.Length
      requires emitting ==> ret == |pre| && Code() == pre + Head(paren, no) + CodeAlts(done0, -1, false)
      modifies `regparse, `regnpar, `regcode, `regsize, program
      ensures match AltsState(exp, old(regparse), old(regnpar), done0)
              case Err(e) => r == Fail(e)
              case Ok(alts, j, m) =>
                && r == Done(ret, FlagsAlts(alts)) && regparse == j && regnpar == m && Valid()
                && (emitting ==> Code() == pre + Head(paren, no) + CodeAlts(alts, -1, false) && regsize == old(regsize))
                && (!emitting ==> regsize == old(regsize) + LenAlts(alts) - LenAlts(done0) && regcode == old(regcode))
      decreases |exp| - regparse, 2, 4
    {
      hide ParseAlts, ParseBranch, BranchCells, BranchFlags, Head, CodeAlts, LenAlts, AltsState, HasWidthAlts, SpStartAlts;
      ghost var i, whole := regparse, AltsState(exp, regparse, regnpar, done0);
      ghost var done := done0;
      var hasWidth, spStart := flags.hasWidth, flags.spStart;
      while At(exp, regparse) == CH_BAR
        invariant i <= regparse <= |exp| && Valid() && whole == AltsState(exp, regparse, regnpar, done)
        invariant hasWidth == HasWidthAlts(done) && spStart == SpStartAlts(done)
        invariant emitting ==> Code() == pre + Head(paren, no) + CodeAlts(done, -1, false) && regsize == old(regsize)
        invariant !emitting ==> regsize == old(regsize) + LenAlts(done) - LenAlts(done0) && regcode == old(regcode)
        decreases |exp| - regparse
      {
        RegStep(exp, regparse, regnpar, done);
        regparse := regparse + 1;
        ghost var b := ParseBranch(exp, regparse, regnpar);
        r := RegNextBranch(ret, pre, paren, no, done);
        if r.Fail? {
          return;
        }
        hasWidth, spStart := hasWidth && r.flags.hasWidth, spStart || r.flags.spStart;
        done := SnocAlts(done, b.val);
      }
      StateEnd(exp, regparse, regnpar, done);
      r := Done(ret, Flags(hasWidth, false, spStart));
    }

    /** All of reg but the counting of groups and the check for proper termination. */
    method RegBody(paren: bool, parno: nat) returns (r: Result)
      requires Valid() && regparse <= |exp|
      requires var s := ParseAlts(exp, regparse, regnpar); Fits(s, |BodyCells(s, paren, parno)|)
      modifies `regparse, `regnpar, `regcode, `regsize, program
      ensures var s := ParseAlts(exp, old(regparse), old(regnpar)); Compiled(s, BodyCells(s, paren, parno), RegFlags(s), r)
      decreases |exp| - regparse, 2, 5
    {
      hide ParseAlts, ParseBranch, BranchCells, BranchFlags, BodyCells, RegFlags, Head, CodeAlts, LenAlts, Node, AltsState, FlagsAlts;
      ghost var pre := if emitting then Code() else [];
      ghost var s := ParseAlts(exp, regparse, regnpar);
      BodySize(s, paren, parno);
      BodyStart(exp, regparse, regnpar);
      ghost var b := ParseBranch(exp, regparse, regnpar);
      r := RegFirst(paren, parno);
      if r.Fail? {
        return;
      }
      assert emitting ==> Code() == pre + Head(paren, parno) + CodeAlts(Last(b.val), -1, false);
      r := RegOthers(r.ret, r.flags, pre, paren, parno, Last(b.val));
      if r.Fail? {
        return;
      }
      var op := if paren then SUB_CLOSE + parno else END;
      RegClose(r.ret, op, pre, paren, parno, s.val);
      if emitting {
        var head, alts := pre + Head(paren, parno), CodeAlts(s.val, 0, true);
        Glue(pre, Head(paren, parno), alts, Node(op, 0), head, head + alts, Code());
      }
    }

    method Reg(paren: bool) returns (r: Result)
      requires Valid() && regparse <= |exp|
      requires var p := ParseReg(exp, regparse, regnpar, paren); Fits(p, |RegCells(p, regnpar, paren)|)
      modifies `regparse, `regnpar, `regcode, `regsize, program
      ensures var p := ParseReg(exp, old(regparse), old(regnpar), paren);
              Compiled(p, RegCells(p, old(regnpar), paren), RegFlags(p), r)
      decreases |exp| - regparse, 3
    {
      hide ParseReg, ParseAlts, RegCells, RegFlags, BodyCells;
      RegCase(exp, regparse, regnpar, paren);
      var parno := regnpar;
      if paren {
        if regnpar >= NSUBEXP {
          return Fail(TooManyParens);
        }
        regnpar := regnpar + 1;
      }
      r := RegBody(paren, parno);
      if r.Fail? {
        return;
      }
      if paren {
        if At(exp, regparse) != CH_RPAREN {
          return Fail(UnterminatedParen);
        }
        regparse := regparse + 1;
      } else if At(exp, regparse) != 0 {
        return Fail(UnmatchedParen);
      }
    }
  }

  // ---------- The cells and flags of parsed constructs ----------

  /** The two ways a repetition is emitted after pre: a single node before the operand, or the general scheme. */
  lemma {:induction false} RepForm(a: Atom, op: int, pre: Code)
    requires IsRep(op)
    ensures var p := Piece(a, RepOf(op));
            if SimpleAtom(a) && op != CH_QUEST then
              && LenPiece(p) == LenAtom(a) + 3
              && pre + Node(if op == CH_STAR then STAR else PLUS, 0) + CodeAtom(a, -1) == pre + CodePiece(p, -1)
            else
              && LenPiece(p) == LenAtom(a) + (if op == CH_QUEST then 9 else 12)
              && pre + LoopHead(p) + Node(NOTHING, 0) == pre + CodePiece(p, -1)
  {
    hide CodeAtom, LenAtom, LoopHead, Node, SimpleAtom;
  }

  function AtomCells(p: Parsed<Atom>): Code {
    if p.Ok? then CodeAtom(p.val, -1) else []
  }

  function AtomFlags(p: Parsed<Atom>): Flags {
    if p.Ok? then FlagsAtom(p.val) else Flags(false, false, false)
  }

  function PieceCells(p: Parsed<Piece>): Code {
    if p.Ok? then CodePiece(p.val, -1) else []
  }

  function PieceFlags(p: Parsed<Piece>): Flags {
    if p.Ok? then FlagsPiece(p.val) else Flags(false, false, false)
  }

  function BranchCells(p: Parsed<Branch>): Code {
    if p.Ok? then CodeAlts(Last(p.val), -1, false) else []
  }

  function BranchFlags(p: Parsed<Branch>): Flags {
    if p.Ok? then FlagsBranch(p.val) else Flags(false, false, false)
  }

  /** reg: the alternatives and, for a group, the closing parenthesis. */
  function ParseReg(p: Text, i: nat, npar: nat, paren: bool): Parsed<Alts>
    requires i <= |p|
  {
    if paren && npar >= NSUBEXP then Err(TooManyParens)
    else FinishReg(p, paren, ParseAlts(p, i, if paren then npar + 1 else npar))
  }

  /** The check at the end of reg. */
  function FinishReg(p: Text, paren: bool, r: Parsed<Alts>): Parsed<Alts> {
    match r
    case Err(e) => Err(e)
    case Ok(alts, j, m) =>
      if paren then if At(p, j) != CH_RPAREN then Err(UnterminatedParen) else Ok(alts, j + 1, m)
      else if At(p, j) != 0 then Err(UnmatchedParen) else Ok(alts, j, m)
  }

  function RegCells(p: Parsed<Alts>, npar: nat, paren: bool): Code {
    BodyCells(p, paren, npar)
  }

  /** The alternatives between their opening node, if any, and their closing node. */
  function BodyCells(p: Parsed<Alts>, paren: bool, parno: nat): Code {
    if p.Err? then []
    else Head(paren, parno) + CodeAlts(p.val, 0, true) + Node(if paren then SUB_CLOSE + parno else END, 0)
  }

  function RegFlags(p: Parsed<Alts>): Flags {
    if p.Ok? then FlagsAlts(p.val) else Flags(false, false, false)
  }

  // The cases of regatom, with the code and flags of each.

  lemma {:induction false} NodeCase(p: Text, i: nat, npar: nat)
    requires i <= |p| && (At(p, i) == CH_CARET || At(p, i) == CH_DOLLAR || At(p, i) == CH_DOT)
    ensures var c, r := At(p, i), ParseAtom(p, i, npar);
            && r.Ok? && r.pos == i + 1 && r.npar == npar
            && AtomCells(r) == Node(if c == CH_CARET then BOL else if c == CH_DOLLAR then EOL else ANY, 0)
            && AtomFlags(r) == Flags(c == CH_DOT, c == CH_DOT, false)
  {
  }

  lemma {:induction false} SetCase(p: Text, i: nat, npar: nat)
    requires i <= |p| && At(p, i) == CH_LBRACKET
    ensures var r := ParseAtom(p, i, npar);
            && r == ParseSet(p, i + 1, npar)
            && (r.Ok? ==> AtomCells(r) == CodeAtom(r.val, -1) && |AtomCells(r)| == LenAtom(r.val)
                          && AtomFlags(r) == Flags(true, true, false))
  {
    hide ParseSet;
  }

  lemma {:induction false} GroupCase(p: Text, i: nat, npar: nat)
    requires i <= |p| && At(p, i) == CH_LPAREN
    ensures var g, r := ParseReg(p, i + 1, npar, true), ParseAtom(p, i, npar);
            && (g.Err? ==> r == Err(g.error))
            && (g.Ok? ==> r.Ok? && r.pos == g.pos && r.npar == g.npar && AtomFlags(r) == RegFlags(g)
                          && AtomCells(r) == RegCells(g, npar, true))
  {
    hide CodeAlts, HasWidthAlts, SpStartAlts, ParseAlts, Node, LenAlts;
  }

  lemma {:induction false} ErrorCase(p: Text, i: nat, npar: nat)
    requires i <= |p|
    ensures EndsBranch(At(p, i)) ==> ParseAtom(p, i, npar) == Err(Internal)
    ensures IsRep(At(p, i)) ==> ParseAtom(p, i, npar) == Err(RepFollowsNothing)
  {
  }

  lemma {:induction false} QuotedCase(p: Text, i: nat, npar: nat)
    requires i <= |p| && At(p, i) == CH_BACKSLASH
    ensures var r := ParseAtom(p, i, npar);
            if At(p, i + 1) == 0 then r == Err(TrailingBackslash)
            else
              && r.Ok? && r.pos == i + 2 && r.npar == npar && AtomFlags(r) == Flags(true, true, false)
              && AtomCells(r) == CodeAtom(Quoted(p[i + 1]), -1) && |AtomCells(r)| == 5
  {
  }

  lemma {:induction false} LiteralCase(p: Text, i: nat, npar: nat)
    requires i <= |p|
    requires At(p, i) != CH_CARET && At(p, i) != CH_DOLLAR && At(p, i) != CH_DOT && At(p, i) != CH_LBRACKET
    requires At(p, i) != CH_LPAREN && !EndsBranch(At(p, i)) && !IsRep(At(p, i)) && At(p, i) != CH_BACKSLASH
    ensures i < |p| && !IsMeta(p[i])
    ensures var n, r := LiteralLength(p, i), ParseAtom(p, i, npar);
            && r.Ok? && r.pos == i + n && r.npar == npar && AtomFlags(r) == Flags(true, n == 1, false)
            && AtomCells(r) == CodeAtom(Literal(p[i..i + n]), -1) && |AtomCells(r)| == 4 + n
  {
    hide LiteralLength;
  }

  lemma {:induction false} PieceCase(p: Text, i: nat, npar: nat)
    requires i <= |p|
    ensures var a, r := ParseAtom(p, i, npar), ParsePiece(p, i, npar);
            && (a.Err? ==> r == Err(a.error))
            && (a.Ok? ==>
                  var op := At(p, a.pos);
                  var q := Piece(a.val, RepOf(op));
                  && AtomCells(a) == CodeAtom(a.val, -1) && |AtomCells(a)| == LenAtom(a.val) <= LenPiece(q)
                  && AtomFlags(a).hasWidth == HasWidthAtom(a.val) && AtomFlags(a).simple == SimpleAtom(a.val)
                  && if !IsRep(op) then
                       r.Ok? && r.pos == a.pos && r.npar == a.npar && PieceCells(r) == AtomCells(a) && PieceFlags(r) == AtomFlags(a)
                     else if !HasWidthAtom(a.val) && op != CH_QUEST then r == Err(OperandCouldBeEmpty)
                     else if IsRep(At(p, a.pos + 1)) then r == Err(NestedRep)
                     else
                       && r.Ok? && r.pos == a.pos + 1 && r.npar == a.npar
                       && PieceCells(r) == CodePiece(q, -1) && |PieceCells(r)| == LenPiece(q)
                       && PieceFlags(r) == Flags(op == CH_PLUS, false, op != CH_QUEST))
  {
    hide ParseAtom, CodeAtom, LenAtom, SimpleAtom, HasWidthAtom, SpStartAtom, LoopHead, Node;
  }

  // ---------- The loop of regbranch ----------

  function AppendBranch(a: Branch, b: Branch): Branch {
    match a
    case Empty => b
    case Cons(p, rest) => Cons(p, AppendBranch(rest, b))
  }

  /** A branch parsed after the pieces done. */
  function GlueBranch(done: Branch, p: Parsed<Branch>): Parsed<Branch> {
    if p.Ok? then Ok(AppendBranch(done, p.val), p.pos, p.npar) else p
  }

  /** The cells of the pieces done, the last one unlinked. */
  function DoneCells(done: Branch): Code {
    if done.Empty? then [] else CodeBranch(done, -1)
  }

  lemma {:induction false} DoneStart()
    ensures DoneCells(Empty) == [] && !HasWidthBranch(Empty) && !SpStartBranch(Empty)
    ensures forall p :: GlueBranch(Empty, p) == p
  {
  }

  /** What regbranch emits, as one node and an alternative. */
  lemma {:induction false} BranchSize(whole: Parsed<Branch>)
    ensures whole.Ok? ==> BranchCells(whole) == Node(BRANCH, 0) + CodeBranch(whole.val, -1)
                          && |BranchCells(whole)| == 3 + LenBranch(whole.val)
  {
    hide CodeBranch, LenBranch;
  }

  /** The same as a choice of one. */
  lemma {:induction false} BranchAsChoice(p: Parsed<Branch>)
    ensures p.Ok? ==> BranchCells(p) == CodeAlts(Last(p.val), -1, false) && |BranchCells(p)| == LenAlts(Last(p.val))
  {
    hide CodeAlts, LenAlts;
  }

  lemma {:induction false} BranchFlagsAre(p: Parsed<Branch>)
    ensures p.Ok? ==> BranchFlags(p) == Flags(HasWidthBranch(p.val), false, SpStartBranch(p.val))
  {
  }

  lemma {:induction false} AppendCons(a: Branch, q: Piece, b: Branch)
    ensures AppendBranch(a, Cons(q, b)) == AppendBranch(SnocBranch(a, q), b)
    ensures LenBranch(AppendBranch(a, Cons(q, b))) >= |DoneCells(a)| + LenPiece(q)
  {
    hide LenPiece, CodeBranch;
    if a.Cons? {
      AppendCons(a.tail, q, b);
      assert AppendBranch(a.tail, Cons(q, b)).Cons?;
    }
  }

  /** One more piece. */
  lemma {:induction false} BranchStep(p: Text, i: nat, npar: nat, done: Branch)
    requires i <= |p| && !EndsBranch(At(p, i))
    ensures var q, whole := ParsePiece(p, i, npar), GlueBranch(done, ParseBranch(p, i, npar));
            && (q.Err? ==> whole == Err(q.error))
            && (q.Ok? ==>
                  && whole == GlueBranch(SnocBranch(done, q.val), ParseBranch(p, q.pos, q.npar))
                  && |PieceCells(q)| == LenPiece(q.val) && PieceCells(q) == CodePiece(q.val, -1)
                  && PieceFlags(q).hasWidth == HasWidthPiece(q.val) && PieceFlags(q).spStart == SpStartPiece(q.val)
                  && (whole.Ok? ==> LenBranch(whole.val) >= |DoneCells(done)| + LenPiece(q.val)))
  {
    hide ParsePiece, CodePiece, LenPiece, HasWidthPiece, SpStartPiece, LenBranch;
    var q := ParsePiece(p, i, npar);
    if q.Ok? && ParseBranch(p, q.pos, q.npar).Ok? {
      AppendCons(done, q.val, ParseBranch(p, q.pos, q.npar).val);
    }
  }

  lemma {:induction false} AppendEmpty(a: Branch)
    ensures AppendBranch(a, Empty) == a
  {
    if a.Cons? {
      AppendEmpty(a.tail);
    }
  }

  lemma {:induction false} BranchStop(p: Text, i: nat, npar: nat, done: Branch)
    requires i <= |p| && EndsBranch(At(p, i))
    ensures GlueBranch(done, ParseBranch(p, i, npar)) == Ok(done, i, npar)
    ensures CodeBranch(done, -1) == if done.Empty? then Node(NOTHING, 0) else DoneCells(done)
    ensures |CodeBranch(done, -1)| == LenBranch(done)
  {
    hide Node;
    AppendEmpty(done);
  }

  lemma {:induction false} DoneSnoc(done: Branch, q: Piece)
    ensures var next := SnocBranch(done, q);
            && next.Cons? && LastPiece(next) == |DoneCells(done)|
            && HasWidthBranch(next) == (HasWidthBranch(done) || HasWidthPiece(q))
            && SpStartBranch(next) == (if done.Empty? then SpStartPiece(q) else SpStartBranch(done))
            && DoneCells(next) == (if done.Empty? then [] else CodeBranch(done, 0)) + CodePiece(q, -1)
  {
    hide CodePiece, CodeBranch, LenPiece, LenBranch, HasWidthPiece, SpStartPiece, LastPiece;
    LastPieceSnoc(done, q);
    HasWidthSnoc(done, q);
    if done.Cons? {
      CodeSnocBranch(done, q, -1);
    } else {
      SnocOne(q);
    }
  }

  lemma {:induction false} DoneIs(done: Branch)
    ensures DoneCells(done) == (if done.Empty? then [] else CodeBranch(done, -1)) && |CodeBranch(done, -1)| == LenBranch(done)
    ensures done.Empty? ==> CodeBranch(done, -1) == Node(NOTHING, 0)
  {
    hide Node;
  }

  lemma {:induction false} BranchLength(whole: Parsed<Branch>)
    ensures whole.Ok? ==> |CodeBranch(whole.val, -1)| == LenBranch(whole.val)
  {
    hide CodeBranch, LenBranch;
  }

  lemma {:induction false} EmptyLength(whole: Parsed<Branch>)
    ensures whole.Ok? && whole.val.Empty? ==> LenBranch(whole.val) == 3
  {
  }

  /** If a piece is parsed next, the branch is not empty. */
  lemma {:induction false} StepNotEmpty(p: Text, i: nat, npar: nat, done: Branch)
    requires i <= |p| && !EndsBranch(At(p, i))
    ensures var whole := GlueBranch(done, ParseBranch(p, i, npar)); whole.Ok? ==> whole.val.Cons?
  {
    hide ParsePiece;
  }

  lemma {:induction false} DoneGrows(done: Branch, q: Piece)
    ensures |DoneCells(SnocBranch(done, q))| == |DoneCells(done)| + LenPiece(q)
  {
    hide CodePiece, CodeBranch, LenPiece, LenBranch, HasWidthPiece, SpStartPiece, LastPiece;
    DoneSnoc(done, q);
  }

  lemma {:induction false} PieceSize(p: Parsed<Piece>)
    requires p.Ok?
    ensures PieceCells(p) == CodePiece(p.val, -1) && |PieceCells(p)| == LenPiece(p.val)
  {
    hide CodePiece;
  }

  lemma {:induction false} SnocOne(q: Piece)
    ensures CodeBranch(SnocBranch(Empty, q), -1) == CodePiece(q, -1)
  {
    hide CodePiece;
  }

  lemma {:induction false} HasWidthSnoc(done: Branch, q: Piece)
    ensures HasWidthBranch(SnocBranch(done, q)) == (HasWidthBranch(done) || HasWidthPiece(q))
  {
    hide HasWidthPiece;
    if done.Cons? {
      HasWidthSnoc(done.tail, q);
    }
  }

  /** Linking the pieces done to the piece just emitted. */
  lemma {:induction false} TieDone(u: Code, done: Branch, q: Piece, c: Code)
    requires done.Cons? && c == u + DoneCells(done) + CodePiece(q, -1) && Small(c)
    ensures TieOk(c, |u| + LastPiece(done), |u| + |DoneCells(done)|)
    ensures Tie(c, |u| + LastPiece(done), |u| + |DoneCells(done)|) == u + CodeBranch(done, 0) + CodePiece(q, -1)
  {
    hide CodeBranch, CodePiece, LastPiece, LenBranch, Tie, TieOk;
    TieLast(u, done, CodePiece(q, -1));
  }

  // ---------- The loop of reg ----------

  function AppendAlts(a: Alts, b: Alts): Alts {
    match a
    case Last(x) => Or(x, b)
    case Or(x, rest) => Or(x, AppendAlts(rest, b))
  }

  /** What is still to be parsed at i, after the alternatives done. */
  function AltsState(p: Text, i: nat, npar: nat, done: Alts): Parsed<Alts>
    requires i <= |p|
  {
    if At(p, i) != CH_BAR then Ok(done, i, npar)
    else
      match ParseAlts(p, i + 1, npar)
      case Err(e) => Err(e)
      case Ok(alts, j, m) => Ok(AppendAlts(done, alts), j, m)
  }

  lemma {:induction false} AppendSnoc(a: Alts, b: Branch, c: Alts)
    ensures AppendAlts(a, Or(b, c)) == AppendAlts(SnocAlts(a, b), c)
    ensures AppendAlts(a, Last(b)) == SnocAlts(a, b)
    ensures LenAlts(AppendAlts(a, Or(b, c))) >= LenAlts(a) + LenAlts(Last(b))
    ensures LenAlts(SnocAlts(a, b)) == LenAlts(a) + LenAlts(Last(b))
    ensures HasWidthAlts(SnocAlts(a, b)) == (HasWidthAlts(a) && HasWidthBranch(b))
    ensures SpStartAlts(SnocAlts(a, b)) == (SpStartAlts(a) || SpStartBranch(b))
  {
    hide LenBranch, HasWidthBranch, SpStartBranch;
    if a.Or? {
      AppendSnoc(a.rest, b, c);
    }
  }

  /** Facts about a parsed alternative. */
  lemma {:induction false} BodySize(s: Parsed<Alts>, paren: bool, parno: nat)
    ensures s.Ok? ==>
              && BodyCells(s, paren, parno)
                 == Head(paren, parno) + CodeAlts(s.val, 0, true) + Node(if paren then SUB_CLOSE + parno else END, 0)
              && |BodyCells(s, paren, parno)| == |Head(paren, parno)| + LenAlts(s.val) + 3
              && RegFlags(s) == FlagsAlts(s.val)
  {
    hide CodeAlts, LenAlts;
  }

  lemma {:induction false} BodyStart(p: Text, i: nat, npar: nat)
    requires i <= |p|
    ensures var b, s := ParseBranch(p, i, npar), ParseAlts(p, i, npar);
            && (b.Err? ==> s == Err(b.error))
            && (b.Ok? ==>
                  && s == AltsState(p, b.pos, b.npar, Last(b.val))
                  && |BranchCells(b)| == LenAlts(Last(b.val)) && BranchFlags(b) == FlagsAlts(Last(b.val))
                  && (s.Ok? ==> LenAlts(s.val) >= |BranchCells(b)|))
  {
    hide CodeAlts, ParseBranch, BranchCells, BranchFlags, LenAlts, HasWidthBranch, SpStartBranch;
    var b, s := ParseBranch(p, i, npar), ParseAlts(p, i, npar);
    BranchAsChoice(b);
    BranchFlagsAre(b);
    if s.Ok? {
      FirstFits(b.val, s.val);
    }
  }

  lemma {:induction false} FirstFits(b: Branch, alts: Alts)
    ensures alts == Last(b) || (alts.Or? && alts.branch == b) ==> LenAlts(alts) >= LenAlts(Last(b))
  {
    hide LenBranch;
  }

  lemma {:induction false} RegStep(p: Text, i: nat, npar: nat, done: Alts)
    requires i <= |p| && At(p, i) == CH_BAR
    ensures var b, s := ParseBranch(p, i + 1, npar), AltsState(p, i, npar, done);
            && (b.Err? ==> s == Err(b.error))
            && (b.Ok? ==>
                  var next := SnocAlts(done, b.val);
                  && s == AltsState(p, b.pos, b.npar, next)
                  && |BranchCells(b)| == LenAlts(Last(b.val)) && LenAlts(next) == LenAlts(done) + LenAlts(Last(b.val))
                  && HasWidthAlts(next) == (HasWidthAlts(done) && BranchFlags(b).hasWidth)
                  && SpStartAlts(next) == (SpStartAlts(done) || BranchFlags(b).spStart)
                  && (s.Ok? ==> LenAlts(s.val) >= LenAlts(next)))
  {
    hide CodeAlts, ParseBranch, BranchCells, BranchFlags, LenAlts, HasWidthBranch, SpStartBranch, HasWidthAlts, SpStartAlts;
    var b := ParseBranch(p, i + 1, npar);
    BranchAsChoice(b);
    BranchFlagsAre(b);
    if b.Ok? {
      var rest := if At(p, b.pos) == CH_BAR then ParseAlts(p, b.pos + 1, b.npar) else Ok(Last(b.val), 0, 0);
      AppendSnoc(done, b.val, if rest.Ok? then rest.val else Last(b.val));
    }
  }

  lemma {:induction false} StateEnd(p: Text, i: nat, npar: nat, done: Alts)
    requires i <= |p| && At(p, i) != CH_BAR
    ensures AltsState(p, i, npar, done) == Ok(done, i, npar)
  {
  }

  /** The result of reg, from that of its body. */
  lemma {:induction false} RegCase(p: Text, i: nat, parno: nat, paren: bool)
    requires i <= |p|
    ensures var s := ParseAlts(p, i, if paren then parno + 1 else parno);
            var whole := ParseReg(p, i, parno, paren);
            if paren && parno >= NSUBEXP then whole == Err(TooManyParens)
            else if s.Err? then whole == Err(s.error)
            else if At(p, s.pos) != (if paren then CH_RPAREN as int else 0) then
              whole == Err(if paren then UnterminatedParen else UnmatchedParen)
            else
              && whole == Ok(s.val, if paren then s.pos + 1 else s.pos, s.npar)
              && RegFlags(whole) == RegFlags(s) && RegCells(whole, parno, paren) == BodyCells(s, paren, parno)
  {
    hide ParseAlts, CodeAlts, HasWidthAlts, SpStartAlts, Node;
  }

  // ---------- The end of reg ----------

  /** What stands before the alternatives: nothing, or the opening node of a group. */
  function Head(paren: bool, no: nat): Code {
    if paren then Node(SUB_OPEN + no, 3) else []
  }

  /** The first alternative with its tail hooked past the choice. */
  function HookedHead(alts: Alts): (c: Code)
    ensures |c| == 3 + LenBranch(alts.branch)
  {
    Node(BRANCH, 3 + LenBranch(alts.branch)) + CodeBranch(alts.branch, if alts.Or? then LenAlts(alts.rest) else 0)
  }

  /** The other alternatives with their tails not yet hooked. */
  function LinkedRest(alts: Alts): Code {
    if alts.Or? then CodeAlts(alts.rest, -1, true) else []
  }

  lemma {:induction false} HookedParts(alts: Alts)
    ensures CodeAlts(alts, 0, true) == HookedHead(alts) + if alts.Or? then CodeAlts(alts.rest, 0, true) else []
    ensures LenAlts(alts) == |HookedHead(alts)| + if alts.Or? then LenAlts(alts.rest) else 0
    ensures alts.Or? ==> LinkedRest(alts) == CodeAlts(alts.rest, -1, true)
    ensures alts.Last? ==> LinkedRest(alts) == []
  {
    hide CodeBranch, LenBranch, Node;
  }

  /** How a choice whose first alternative is not hooked, and one whose is, divide. */
  lemma {:induction false} HeadDivides(a: Code, alts: Alts, op: int)
    ensures var b, n := alts.branch, 3 + LenBranch(alts.branch); var d := if alts.Or? then LenAlts(alts.rest) else 0;
      var v := LinkedRest(alts) + Node(op, 0);
      && a + CodeAlts(alts, -1, true) + Node(op, 0) == (a + Node(BRANCH, n)) + CodeBranch(b, -1) + v
                                                    == a + Node(BRANCH, n) + (CodeBranch(b, -1) + v)
      && a + HookedHead(alts) + LinkedRest(alts) + Node(op, 0) == (a + Node(BRANCH, n)) + CodeBranch(b, d) + v
                                                               == a + Node(BRANCH, n) + (CodeBranch(b, d) + v)
      && LenAlts(alts) == n + d
  {
    hide CodeBranch, LenBranch, Node;
    var b, n := alts.branch, 3 + LenBranch(alts.branch);
    var d := if alts.Or? then LenAlts(alts.rest) else 0;
    Regroup(a, Node(BRANCH, n), CodeBranch(b, -1), LinkedRest(alts), Node(op, 0));
    Regroup(a, Node(BRANCH, n), CodeBranch(b, d), LinkedRest(alts), Node(op, 0));
    assert CodeAlts(alts, -1, true) == Node(BRANCH, n) + CodeBranch(b, -1) + LinkedRest(alts);
    assert HookedHead(alts) == Node(BRANCH, n) + CodeBranch(b, d);
  }

  lemma {:induction false} Regroup(a: Code, x: Code, y: Code, z: Code, w: Code)
    ensures a + (x + y + z) + w == (a + x) + y + (z + w) == a + x + (y + (z + w))
    ensures a + (x + y) + z + w == (a + x) + y + (z + w)
  {
  }

  /** Hooking the tail of the first alternative of a choice that stands after a. */
  lemma {:induction false} TieHead(a: Code, alts: Alts, op: int)
    requires Small(a + CodeAlts(alts, -1, true) + Node(op, 0))
    ensures var c, n := a + CodeAlts(alts, -1, true) + Node(op, 0), 3 + LenBranch(alts.branch);
            && c[|a|] == BRANCH && TieOk(c, |a| + 3, |a| + LenAlts(alts))
            && Tie(c, |a| + 3, |a| + LenAlts(alts)) == a + HookedHead(alts) + LinkedRest(alts) + Node(op, 0)
            && NodeAt(a + HookedHead(alts) + LinkedRest(alts) + Node(op, 0), |a|, BRANCH, n)
  {
    hide CodeBranch, LenBranch, Node, Tie, TieOk, CodeAlts, HookedHead, LinkedRest, LenAlts;
    var b, n := alts.branch, 3 + LenBranch(alts.branch);
    var d := if alts.Or? then LenAlts(alts.rest) else 0;
    var u, v := a + Node(BRANCH, n), LinkedRest(alts) + Node(op, 0);
    var c, r := a + CodeAlts(alts, -1, true) + Node(op, 0), a + HookedHead(alts) + LinkedRest(alts) + Node(op, 0);
    HeadDivides(a, alts, op);
    TieBranch(u, b, v, d);
    HereMid(a, Node(BRANCH, n), CodeBranch(b, d) + v);
    NodeHere(r, |a|, BRANCH, n);
    HereMid(a, Node(BRANCH, n), CodeBranch(b, -1) + v);
    NodeHere(c, |a|, BRANCH, n);
  }

  /** The walk from the start of a group passes its opening node. */
  lemma {:induction false} HeadNode(pre: Code, paren: bool, no: nat, w: Code, c: Code)
    requires c == pre + Head(paren, no) + w && Small(c) && |w| >= 3
    ensures paren ==> |Head(paren, no)| == 3 && c[|pre|] != BRANCH && c[|pre|] != BACK && NextOff(c, |pre|) == 3
    ensures !paren ==> Head(paren, no) == []
    ensures ChainEnd(c, |pre|) == ChainEnd(c, |pre + Head(paren, no)|)
  {
    hide Node, ChainEnd, NextOff;
    if paren {
      HereMid(pre, Head(paren, no), w);
      NodeHere(c, |pre|, SUB_OPEN + no, 3);
      ChainNode(c, |pre|, SUB_OPEN + no, 3);
    }
  }

  /** The job of the final loop: alternatives after u, closed by a node op. */
  datatype Hooking = Hooking(u: Code, alts: Alts, op: int)

  function Hooked(h: Hooking): Code {
    h.u + CodeAlts(h.alts, 0, true) + Node(h.op, 0)
  }

  /** The alternatives left, which stand after a, are still to be hooked. */
  ghost predicate StillHooking(h: Hooking, a: Code, left: Alts, c: Code) {
    && c == a + CodeAlts(left, -1, true) + Node(h.op, 0)
    && a + CodeAlts(left, 0, true) == h.u + CodeAlts(h.alts, 0, true)
  }

  lemma {:induction false} HookStart(h: Hooking, c: Code)
    requires c == h.u + CodeAlts(h.alts, -1, true) + Node(h.op, 0)
    ensures StillHooking(h, h.u, h.alts, c)
  {
  }

  /** Hooking the first of the alternatives left. */
  lemma {:induction false} HookStep(h: Hooking, a: Code, left: Alts, c: Code, ender: nat)
    requires StillHooking(h, a, left, c) && Small(c) && ender == |a| + LenAlts(left)
    ensures |a| + 3 <= |c| && c[|a|] == BRANCH && TieOk(c, |a| + 3, ender)
    ensures var next, off := Tie(c, |a| + 3, ender), 3 + LenBranch(left.branch);
      && NodeAt(next, |a|, BRANCH, off)
      && (left.Or? ==>
            && StillHooking(h, a + HookedHead(left), left.rest, next) && |a + HookedHead(left)| == |a| + off
            && |a| + off + LenAlts(left.rest) == ender && LenAlts(left.rest) < LenAlts(left))
      && (left.Last? ==> next == Hooked(h) && |a| + off == ender)
  {
    hide CodeAlts, LenAlts, HookedHead, LinkedRest, Node, LenBranch, NextOff, Tie, TieOk;
    TieHead(a, left, h.op);
    HookedParts(left);
    HeadLength(left);
    if left.Or? {
      var b := a + HookedHead(left);
      assert b + CodeAlts(left.rest, 0, true) == a + CodeAlts(left, 0, true);
    } else {
      assert HookedHead(left) + [] == HookedHead(left);
    }
  }

  lemma {:induction false} HeadLength(alts: Alts)
    ensures |HookedHead(alts)| == 3 + LenBranch(alts.branch)
  {
    hide CodeBranch, LenBranch, Node;
  }

  lemma {:induction false} EnderNode(h: Hooking, ender: nat, c: Code)
    requires c == Hooked(h) && ender == |h.u| + LenAlts(h.alts)
    ensures ender + 3 <= |c| && c[ender] == h.op && NextOff(c, ender) == 0
  {
    hide CodeAlts, LenAlts;
  }

  lemma {:induction false} LiteralCode(t: Text)
    ensures CodeAtom(Literal(t), -1) == ExactlyCells(t)
  {
    hide Node;
  }

  function ExactlyCells(t: seq<int>): Code {
    Node(EXACTLY, 0) + t + [0]
  }

  lemma {:induction false} Glue(c: Code, x: Code, y: Code, z: Code, c1: Code, c2: Code, c3: Code)
    requires c1 == c + x && c2 == c1 + y && c3 == c2 + z
    ensures c3 == c + (x + y + z)
  {
  }

  /** What moving the operand and storing the operator leave. */
  lemma {:induction false} InsertShape(was: Code, moved: Code, now: Code, opnd: nat, n: nat, op: int)
    requires opnd <= n && n + 3 <= |was| && moved == was[..opnd + 3] + was[opnd..n] + was[n + 3..]
    requires now == moved[opnd := op][opnd + 1 := 0][opnd + 2 := 0]
    ensures now[..n + 3] == was[..opnd] + Node(op, 0) + was[opnd..n]
  {
    var r := was[..opnd] + Node(op, 0) + was[opnd..n];
    assert |r| == n + 3 && |moved| == |was|;
    forall i | 0 <= i < n + 3
      ensures now[i] == r[i]
    {
      if i >= opnd + 3 {
        assert moved[i] == was[i - 3];
      }
    }
  }

  lemma {:induction false} BranchFirst(pre: Code, off: nat)
    ensures forall v: Code :: (pre + Node(BRANCH, off) + v)[|pre|] == BRANCH
  {
  }

  lemma {:induction false} MetaIsIsMeta()
    ensures forall c: Ch :: c in META <==> IsMeta(c)
  {
  }

  // ---------- One member of a bracketed set ----------

  /** At k there is a range that runs downwards. */
  predicate BadRange(p: Text, k: nat)
    requires 0 < k < |p|
  {
    p[k] == CH_DASH && At(p, k + 1) != CH_RBRACKET && At(p, k + 1) != 0 && p[k - 1] > At(p, k + 1)
  }

  /** The cells emitted for the member at k. */
  function MemberCells(p: Text, k: nat): Code
    requires 0 < k < |p|
  {
    if p[k] != CH_DASH || At(p, k + 1) == CH_RBRACKET || At(p, k + 1) == 0 then [p[k]]
    else Range(p[k - 1] as int + 1, p[k + 1])
  }

  function MemberEnd(p: Text, k: nat): nat
    requires 0 < k < |p|
  {
    if p[k] != CH_DASH || At(p, k + 1) == CH_RBRACKET || At(p, k + 1) == 0 then k + 1 else k + 2
  }

  lemma {:induction false} MemberStep(p: Text, start: nat, k: nat)
    requires start <= k < |p| && 0 < k && p[k] != CH_RBRACKET && (k == start ==> p[k] != CH_DASH)
    ensures k < MemberEnd(p, k) && (!BadRange(p, k) ==> MemberEnd(p, k) <= |p|)
    ensures BadRange(p, k) ==> ScanSet(p, k) == Bad(InvalidRange)
    ensures !BadRange(p, k) ==> ScanSet(p, k) == ScanSet(p, MemberEnd(p, k))
    ensures ScanSet(p, k).End? ==>
              var raw := p[start..ScanSet(p, k).pos];
              MembersFrom(raw, k - start) == MemberCells(p, k) + MembersFrom(raw, MemberEnd(p, k) - start)
  {
    hide Range;
  }

  lemma {:induction false} MembersEnd(p: Text, start: nat, k: nat)
    requires start <= k <= |p| && 0 < k && (At(p, k) == 0 || At(p, k) == CH_RBRACKET)
    ensures At(p, k) == 0 ==> ScanSet(p, k) == Bad(UnmatchedBracket)
    ensures At(p, k) == CH_RBRACKET ==> ScanSet(p, k) == End(k) && MembersFrom(p[start..k], k - start) == []
  {
  }

  function SetStart(p: Text, i: nat): nat {
    if At(p, i) == CH_CARET then i + 1 else i
  }

  function SetLead(p: Text, start: nat): Code {
    if SetSkip(At(p, start)) == 1 then [At(p, start)] else []
  }

  function SetHead(p: Text, i: nat): (c: Code)
    ensures |c| == 3 + |SetLead(p, SetStart(p, i))|
  {
    Node(if At(p, i) == CH_CARET then ANYBUT else ANYOF, 0) + SetLead(p, SetStart(p, i))
  }

  lemma {:induction false} SetCells(neg: bool, raw: Text)
    ensures var k := SetSkip(At(raw, 0));
            var lead: Code := if k == 1 then [At(raw, 0)] else [];
            var rest: Code := MembersFrom(raw, k);
            CodeAtom(Set(neg, raw), -1) == Node(if neg then ANYBUT else ANYOF, 0) + lead + rest + [0]
  {
    hide MembersFrom, Node;
  }

  /** How a bracketed set is emitted: the node, a leading ] or -, the other members, a NUL. */
  lemma {:induction false} SetShape(p: Text, i: nat, npar: nat)
    requires 0 < i <= |p|
    ensures var start := SetStart(p, i);
            var k := start + SetSkip(At(p, start));
            var r := ParseSet(p, i, npar);
            && k <= |p| && 0 < k && start <= k && (k == start ==> At(p, k) != CH_DASH)
            && match ScanSet(p, k)
               case Bad(e) => r == Err(e)
               case End(e) =>
                 && r.Ok? && r.pos == e + 1 && r.npar == npar
                 && var rest: Code := MembersFrom(p[start..e], k - start);
                 && CodeAtom(r.val, -1) == SetHead(p, i) + rest + [0]
                 && LenAtom(r.val) == |SetHead(p, i)| + |rest| + 1
  {
    hide ScanSet, MembersFrom, Node, CodeAtom, LenAtom;
    var start := SetStart(p, i);
    var scan := ScanSet(p, start + SetSkip(At(p, start)));
    if scan.End? {
      assert At(p[start..scan.pos], 0) == At(p, start) || scan.pos == start;
      SetCells(At(p, i) == CH_CARET, p[start..scan.pos]);
    }
  }
}
