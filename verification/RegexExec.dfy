/** regexec, regtry, regmatch and regrepeat.

    `Exec` holds the work variables of the matcher.  regmatch is proved to compute `Run`,
    including the end of the match and the group boundaries it records, and regexec, with all
    its shortcuts, to report what trying every position in order would.
 */
module RegexExec {
  import opened RegexSyntax
  import opened RegexCode
  import opened RegexSemantics
  import opened RegexRank
  import opened RegexMatch
  import opened CStrings

  /** struct exec, with the program and the subject; NULL positions are -1. */
  class Exec {
    const program: Code
    const subject: Text
    const regbol: int
    ghost const ranks: Ranks
    var reginput: nat
    const startp: array<int>
    const endp: array<int>

    constructor (program: Code, subject: Text, regbol: int, ghost ranks: Ranks)
      ensures this.program == program && this.subject == subject && this.regbol == regbol && this.ranks == ranks
      ensures Shape() && fresh(startp) && fresh(endp)
    {
      this.program, this.subject, this.regbol, this.ranks := program, subject, regbol, ranks;
      reginput := 0;
      startp := new int[NSUBEXP];
      endp := new int[NSUBEXP];
    }

    ghost predicate Shape() {
      startp.Length == NSUBEXP == endp.Length && startp != endp
    }

    ghost function Mach(): Machine {
      Machine(program, ranks, subject, regbol)
    }

    ghost predicate Ready(n: int)
      reads this
    {
      Shape() && Good(Mach()) && IsNode(ranks, n) && reginput <= |subject|
    }

    /** The arrays hold exactly the boundaries of w. */
    ghost predicate Records(w: Way)
      requires Shape()
      reads startp, endp
    {
      forall no: nat :: no < NSUBEXP ==>
        && startp[no] == (if no in w.starts then w.starts[no] else -1)
        && endp[no] == (if no in w.ends then w.ends[no] else -1)
    }

    /** What a call that runs from node n at position i promises. */
    ghost predicate Outcome(r: Option<Way>, ok: bool)
      requires Shape()
      reads this, startp, endp
    {
      && ok == r.Some?
      && (ok ==> reginput == r.value.end && Records(r.value))
      && (!ok ==> Records(Plain(0)))
    }

    /** The opcodes that test the input: moves on if the test succeeds. */
    method MatchTest(scan: nat) returns (ok: bool)
      requires Ready(scan) && IsTest(program[scan])
      modifies `reginput
      ensures var op, t := program[scan], CString(program, scan + 3);
              && ok == Passes(op, t, subject, regbol, old(reginput))
              && reginput == old(reginput) + if ok then Width(op, t) else 0
    {
      var op := program[scan];
      if op == BOL {
        ok := reginput == regbol;
      } else if op == EOL {
        ok := At(subject, reginput) == 0;
      } else if op == EXACTLY {
        assert NodeOk(program, ranks, scan);
        var opnd := CString(program, scan + 3);
        if opnd[0] != At(subject, reginput) {
          return false;
        }
        ok := StrStr(subject, reginput, opnd);
        if ok {
          reginput := reginput + |opnd|;
        }
      } else if At(subject, reginput) == 0 {
        ok := false;
      } else {
        if op == ANY {
          ok := true;
        } else {
          var opnd := CString(program, scan + 3);
          var k := StrChr(opnd, 0, subject[reginput]);
          assert opnd[0..] == opnd;
          ok := if op == ANYOF then k != -1 else k == -1;
        }
        if ok {
          reginput := reginput + 1;
        }
      }
    }

    /** How many characters a STAR or PLUS operand matches. */
    method RegRepeat(node: nat) returns (count: nat)
      requires node + 3 <= |program| && reginput <= |subject|
      ensures count == Repeat(program, node, subject, reginput)
    {
      hide OneChar, CString;
      var op := program[node];
      if op == ANY {
        count := |subject| - reginput;
      } else if op == EXACTLY {
        var opnd := CString(program, node + 3);
        count := 0;
        while opnd != [] && At(subject, reginput + count) == opnd[0]
          invariant reginput + count <= |subject|
          invariant forall k :: reginput <= k < reginput + count ==> opnd != [] && subject[k] == opnd[0]
          decreases |subject| - reginput - count
        {
          count := count + 1;
        }
      } else if op == ANYOF {
        count := StrSpn(subject, reginput, CString(program, node + 3));
      } else if op == ANYBUT {
        count := StrCSpn(subject, reginput, CString(program, node + 3));
      } else {
        count := 0;
      }
      forall k | reginput <= k < reginput + count ensures OneChar(program, node, subject[k]) {
        OneCharCases(program, node, subject[k]);
      }
      if reginput + count < |subject| {
        OneCharCases(program, node, subject[reginput + count]);
      }
      RepeatIs(program, node, subject, reginput, count);
    }

    /** A group node: match the rest, then note where the group started or ended unless some
        later passage through the same parentheses already has. */
    method MatchGroup(scan: nat) returns (ok: bool)
      requires Ready(scan) && (IsOpen(program[scan]) || IsClose(program[scan])) && Records(Plain(0))
      modifies `reginput, startp, endp
      ensures Outcome(Run(Mach(), scan, old(reginput)), ok)
      decreases |subject| - reginput, ranks[scan], 0
    {
      hide NodeOk;
      GroupStep(Mach(), scan, reginput);
      var input := reginput;
      ok := RegMatch(Next(program, scan));
      if ok {
        if IsOpen(program[scan]) {
          var no := program[scan] - SUB_OPEN;
          if startp[no] == -1 {
            startp[no] := input;
          }
        } else {
          var no := program[scan] - SUB_CLOSE;
          if endp[no] == -1 {
            endp[no] := input;
          }
        }
      }
    }

    /** The alternatives of a choice, in order. */
    method MatchBranches(first: nat) returns (ok: bool)
      requires Ready(first) && program[first] == BRANCH && Records(Plain(0))
      modifies `reginput, startp, endp
      ensures Outcome(Run(Mach(), first, old(reginput)), ok)
      decreases |subject| - reginput, ranks[first], 0
    {
      hide Run, Records, NodeOk;
      var save := reginput;
      var scan := first;
      while program[scan] == BRANCH
        invariant Ready(scan) && reginput == save && Records(Plain(0))
        invariant program[scan] == BRANCH ==> ranks[scan] <= ranks[first]
        invariant Run(Mach(), first, save) == if program[scan] == BRANCH then Run(Mach(), scan, save) else None
        decreases if program[scan] == BRANCH then ranks[scan] + 1 else 0
      {
        BranchStep(Mach(), scan, save);
        ok := RegMatch(scan + 3);
        if ok {
          return;
        }
        reginput := save;
        scan := Next(program, scan);
      }
      ok := false;
    }

    /** Repetition of a one-character operand, longest first. */
    method MatchLoop(scan: nat) returns (ok: bool)
      requires Ready(scan) && (program[scan] == STAR || program[scan] == PLUS) && Records(Plain(0))
      modifies `reginput, startp, endp
      ensures Outcome(Run(Mach(), scan, old(reginput)), ok)
      decreases |subject| - reginput, ranks[scan], 0
    {
      hide Run, RunDown, Records, NodeOk, Repeat;
      ghost var m := Mach();
      LoopStep(m, scan, reginput);
      var next := Next(program, scan);
      var nextch := if program[next] == EXACTLY then At(CString(program, next + 3), 0) else 0;
      var save := reginput;
      var min := if program[scan] == STAR then 0 else 1;
      var count := RegRepeat(scan + 3);
      var no := count + 1;
      DownNone(m, scan, save, count);
      while no > min
        invariant Shape() && Records(Plain(0)) && min <= no <= count + 1
        invariant Run(m, scan, save) == if no > min then RunDown(m, scan, save, no - 1) else None
      {
        reginput := save + no - 1;
        DownStep(m, scan, save, no - 1);
        if nextch == 0 || At(subject, reginput) == nextch {
          ok := RegMatch(next);
          if ok {
            return;
          }
        } else {
          NextCharRulesOut(m, next, reginput);
        }
        no := no - 1;
      }
      ok := false;
    }

    method RegMatch(prog: nat) returns (ok: bool)
      requires Ready(prog) && Records(Plain(0))
      modifies `reginput, startp, endp
      ensures Outcome(Run(Mach(), prog, old(reginput)), ok)
      decreases |subject| - reginput, ranks[prog], 1
    {
      hide Run, NodeOk, Passes, Width, CString;
      ghost var m, i0 := Mach(), reginput;
      var scan := prog;
      while true
        invariant Ready(scan) && Records(Plain(0)) && Run(m, prog, i0) == Run(m, scan, reginput)
        invariant i0 < reginput || (i0 == reginput && ranks[scan] <= ranks[prog])
        decreases |subject| - reginput, ranks[scan]
      {
        OpCases(m, scan);
        var op := program[scan];
        if op == END {
          EndStep(m, scan, reginput);
          return true;
        } else if IsTest(op) {
          TestStep(m, scan, reginput);
          ok := MatchTest(scan);
          if !ok {
            return;
          }
          scan := Next(program, scan);
        } else if op == NOTHING || op == BACK {
          SilentStep(m, scan, reginput);
          scan := Next(program, scan);
        } else if IsOpen(op) || IsClose(op) {
          ok := MatchGroup(scan);
          return;
        } else if op == BRANCH {
          var next := Next(program, scan);
          BranchStep(m, scan, reginput);
          if program[next] != BRANCH {
            scan := scan + 3;
          } else {
            ok := MatchBranches(scan);
            return;
          }
        } else {
          ok := MatchLoop(scan);
          return;
        }
      }
    }

    /** Forgets all group boundaries. */
    method ClearGroups()
      requires Shape()
      modifies startp, endp
      ensures Records(Plain(0))
    {
      var k := 0;
      while k < NSUBEXP
        invariant k <= NSUBEXP && forall x :: 0 <= x < k ==> startp[x] == -1 && endp[x] == -1
      {
        startp[k] := -1;
        endp[k] := -1;
        k := k + 1;
      }
    }

    /** regtry: a match at position i, with group 0 standing for the whole. */
    method RegTry(i: nat) returns (ok: bool)
      requires Shape() && Good(Mach()) && IsNode(ranks, 1) && i <= |subject|
      modifies `reginput, startp, endp
      ensures var r := Run(Mach(), 1, i);
              ok == r.Some? && (ok ==> Records(Whole(i, r.value)))
    {
      hide Run, Good;
      reginput := i;
      ClearGroups();
      ok := RegMatch(1);
      if ok {
        startp[0] := i;
        endp[0] := reginput;
      }
    }
  }

  /** The boundaries that a successful regtry at i leaves behind. */
  function Whole(i: nat, w: Way): Way {
    Way(w.end, w.starts[0 := i], w.ends[0 := w.end])
  }

  // ---------- Run, unfolded at each kind of node ----------

  lemma {:induction false} OpCases(m: Machine, n: nat)
    requires Good(m) && IsNode(m.R, n)
    ensures var op := m.c[n];
            op == END || IsTest(op) || op == NOTHING || op == BACK || IsOpen(op) || IsClose(op) || op == BRANCH || op == STAR
            || op == PLUS
    ensures n + 3 <= |m.c|
  {
    assert NodeOk(m.c, m.R, n);
  }

  lemma {:induction false} EndStep(m: Machine, n: nat, i: nat)
    requires Good(m) && IsNode(m.R, n) && i <= |m.s| && m.c[n] == END
    ensures Run(m, n, i) == Some(Plain(i))
  {
  }

  lemma {:induction false} TestStep(m: Machine, n: nat, i: nat)
    requires Good(m) && IsNode(m.R, n) && i <= |m.s| && IsTest(m.c[n])
    ensures n + 3 <= |m.c| && IsNode(m.R, Next(m.c, n))
    ensures var op, t := m.c[n], CString(m.c, n + 3);
            if Passes(op, t, m.s, m.bol, i) then
              && i + Width(op, t) <= |m.s| && Run(m, n, i) == Run(m, Next(m.c, n), i + Width(op, t))
              && (Width(op, t) > 0 || m.R[Next(m.c, n)] < m.R[n])
            else Run(m, n, i) == None
  {
    hide CString, LooselyAt;
    assert NodeOk(m.c, m.R, n);
    var op, t := m.c[n], CString(m.c, n + 3);
    if Passes(op, t, m.s, m.bol, i) {
      PassesInRange(op, t, m.s, m.bol, i);
    }
  }

  lemma {:induction false} SilentStep(m: Machine, n: nat, i: nat)
    requires Good(m) && IsNode(m.R, n) && i <= |m.s| && (m.c[n] == NOTHING || m.c[n] == BACK)
    ensures n + 3 <= |m.c| && IsNode(m.R, Next(m.c, n)) && m.R[Next(m.c, n)] < m.R[n]
    ensures Run(m, n, i) == Run(m, Next(m.c, n), i)
  {
    assert NodeOk(m.c, m.R, n);
  }

  lemma {:induction false} GroupStep(m: Machine, n: nat, i: nat)
    requires Good(m) && IsNode(m.R, n) && i <= |m.s| && (IsOpen(m.c[n]) || IsClose(m.c[n]))
    ensures n + 3 <= |m.c| && IsNode(m.R, Next(m.c, n)) && m.R[Next(m.c, n)] < m.R[n]
    ensures var op, r := m.c[n], Run(m, Next(m.c, n), i);
            Run(m, n, i)
            == if IsOpen(op) then Before(Opening(op - SUB_OPEN, i), r) else Before(Closing(op - SUB_CLOSE, i), r)
  {
    assert NodeOk(m.c, m.R, n);
  }

  lemma {:induction false} BranchStep(m: Machine, n: nat, i: nat)
    requires Good(m) && IsNode(m.R, n) && i <= |m.s| && m.c[n] == BRANCH
    ensures n + 3 <= |m.c| && IsNode(m.R, n + 3) && m.R[n + 3] < m.R[n] && IsNode(m.R, Next(m.c, n))
    ensures m.c[Next(m.c, n)] == BRANCH ==> m.R[Next(m.c, n)] < m.R[n]
    ensures Run(m, n, i)
            == OrElse(Run(m, n + 3, i), if m.c[Next(m.c, n)] == BRANCH then Run(m, Next(m.c, n), i) else None)
  {
    assert NodeOk(m.c, m.R, n);
  }

  lemma {:induction false} LoopStep(m: Machine, n: nat, i: nat)
    requires Good(m) && IsNode(m.R, n) && i <= |m.s| && (m.c[n] == STAR || m.c[n] == PLUS)
    ensures n + 6 <= |m.c| && IsNode(m.R, Next(m.c, n)) && Next(m.c, n) + 3 <= |m.c|
    ensures m.c[n] == STAR ==> m.R[Next(m.c, n)] < m.R[n]
    ensures Run(m, n, i) == RunDown(m, n, i, Repeat(m.c, n + 3, m.s, i))
  {
    assert NodeOk(m.c, m.R, n);
    assert NodeOk(m.c, m.R, Next(m.c, n));
  }

  lemma {:induction false} DownStep(m: Machine, n: nat, i: nat, no: nat)
    requires Good(m) && IsNode(m.R, n) && (m.c[n] == STAR || m.c[n] == PLUS) && i + no <= |m.s|
    requires no >= LeastCount(m.c[n])
    ensures n + 3 <= |m.c| && IsNode(m.R, Next(m.c, n))
    ensures RunDown(m, n, i, no)
            == OrElse(Run(m, Next(m.c, n), i + no), if no > LeastCount(m.c[n]) then RunDown(m, n, i, no - 1) else None)
  {
    hide Run;
    assert NodeOk(m.c, m.R, n);
  }

  lemma {:induction false} DownNone(m: Machine, n: nat, i: nat, no: nat)
    requires Good(m) && IsNode(m.R, n) && (m.c[n] == STAR || m.c[n] == PLUS) && i + no <= |m.s|
    ensures no < LeastCount(m.c[n]) ==> RunDown(m, n, i, no) == None
  {
  }

  /** Skipping positions at which the literal after a loop cannot start loses nothing. */
  lemma {:induction false} NextCharRulesOut(m: Machine, n: nat, i: nat)
    requires Good(m) && IsNode(m.R, n) && n + 3 <= |m.c| && i <= |m.s| && m.c[n] == EXACTLY
    requires At(CString(m.c, n + 3), 0) != At(m.s, i)
    ensures Run(m, n, i) == None
  {
    hide CString, StandsFrom;
    TestStep(m, n, i);
  }

  lemma {:induction false} OneCharCases(c: Code, k: nat, ch: Ch)
    requires k + 3 <= |c|
    ensures var t := CString(c, k + 3);
            && (c[k] == ANY ==> OneChar(c, k, ch))
            && (c[k] == EXACTLY ==> (OneChar(c, k, ch) <==> t != [] && t[0] == ch))
            && (c[k] == ANYOF ==> (OneChar(c, k, ch) <==> ch in t))
            && (c[k] == ANYBUT ==> (OneChar(c, k, ch) <==> ch !in t))
            && (c[k] != ANY && c[k] != EXACTLY && c[k] != ANYOF && c[k] != ANYBUT ==> !OneChar(c, k, ch))
  {
    hide CString;
  }

  lemma {:induction false} RepeatIs(c: Code, k: nat, s: Text, i: nat, n: nat)
    requires k + 3 <= |c| && i + n <= |s|
    requires forall x :: i <= x < i + n ==> OneChar(c, k, s[x])
    requires i + n == |s| || !OneChar(c, k, s[i + n])
    ensures Repeat(c, k, s, i) == n
    decreases n
  {
    hide OneChar;
    if n > 0 {
      RepeatIs(c, k, s, i + 1, n - 1);
    }
  }
}
