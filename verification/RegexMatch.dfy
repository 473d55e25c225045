/** The backtracking matcher, as a function of the program, and what it computes.

    `Run` follows regmatch node by node; the ranks make it well-founded.  The region theorems
    say that running a region is the same as trying, in order, the ways its pattern can match
    and continuing each from the region's exit.  For a whole program this means: regmatch
    finds the first way, if there is any.
 */
module RegexMatch {
  import opened Slices
  import opened RegexSyntax
  import opened RegexCode
  import opened RegexSemantics
  import opened RegexRank

  /** A program with its ranks, and the subject it runs on. */
  datatype Machine = Machine(c: Code, R: Ranks, s: Text, bol: int)

  ghost predicate Good(m: Machine) {
    Ranked(m.c, m.R)
  }

  /** regrepeat's test of one character. */
  predicate OneChar(c: Code, k: nat, ch: Ch)
    requires k + 3 <= |c|
  {
    if c[k] == ANY then true
    else if c[k] == EXACTLY then CString(c, k + 3) != [] && CString(c, k + 3)[0] == ch
    else if c[k] == ANYOF then ch in CString(c, k + 3)
    else if c[k] == ANYBUT then ch !in CString(c, k + 3)
    else false
  }

  /** regrepeat: how many characters from i on the operand at k matches. */
  function Repeat(c: Code, k: nat, s: Text, i: nat): (n: nat)
    requires k + 3 <= |c| && i <= |s|
    ensures i + n <= |s|
    decreases |s| - i
  {
    if i < |s| && OneChar(c, k, s[i]) then 1 + Repeat(c, k, s, i + 1) else 0
  }

  function Before(w: Way, r: Option<Way>): Option<Way> {
    match r
    case None => None
    case Some(v) => Some(Merge(w, v))
  }

  function OrElse(a: Option<Way>, b: Option<Way>): Option<Way> {
    if a.Some? then a else b
  }

  /** The test made by the opcodes that test the input and go on; t is the string operand. */
  predicate Passes(op: int, t: Text, s: Text, bol: int, i: nat) {
    || (op == BOL && i == bol)
    || (op == EOL && i == |s|)
    || (op == ANY && i < |s|)
    || (op == ANYOF && i < |s| && s[i] in t)
    || (op == ANYBUT && i < |s| && s[i] !in t)
    || (op == EXACTLY && LooselyAt(t, s, i))
  }

  /** How many characters such an opcode consumes. */
  function Width(op: int, t: Text): nat {
    if op == BOL || op == EOL then 0 else if op == EXACTLY then |t| else 1
  }

  predicate IsTest(op: int) {
    op == BOL || op == EOL || op == ANY || op == ANYOF || op == ANYBUT || op == EXACTLY
  }

  lemma {:induction false} PassesInRange(op: int, t: Text, s: Text, bol: int, i: nat)
    requires Passes(op, t, s, bol, i) && i <= |s|
    ensures i + Width(op, t) <= |s|
  {
    if op == EXACTLY {
      StandsFromLength(t, s, i);
    }
  }

  /** regmatch from node n at position i. */
  ghost function Run(m: Machine, n: nat, i: nat): Option<Way>
    requires Good(m) && IsNode(m.R, n) && i <= |m.s|
    decreases |m.s| - i, m.R[n], |m.s| + 2
  {
    var op := m.c[n];
    assert NodeOk(m.c, m.R, n);
    if op == END then Some(Plain(i))
    else
      var next := Next(m.c, n);
      if IsTest(op) then
        var t := CString(m.c, n + 3);
        if Passes(op, t, m.s, m.bol, i) then
          PassesInRange(op, t, m.s, m.bol, i);
          Run(m, next, i + Width(op, t))
        else None
      else if op == NOTHING || op == BACK then Run(m, next, i)
      else if IsOpen(op) then Before(Opening(op - SUB_OPEN, i), Run(m, next, i))
      else if IsClose(op) then Before(Closing(op - SUB_CLOSE, i), Run(m, next, i))
      else if op == BRANCH then
        OrElse(Run(m, n + 3, i), if m.c[next] == BRANCH then Run(m, next, i) else None)
      else RunDown(m, n, i, Repeat(m.c, n + 3, m.s, i))
  }

  function LeastCount(op: int): nat {
    if op == STAR then 0 else 1
  }

  /** The loop of the STAR and PLUS cases: try the next node after no characters, then after
      fewer. */
  ghost function RunDown(m: Machine, n: nat, i: nat, no: nat): Option<Way>
    requires Good(m) && IsNode(m.R, n) && (m.c[n] == STAR || m.c[n] == PLUS) && i + no <= |m.s|
    decreases |m.s| - i, m.R[n], no
  {
    assert NodeOk(m.c, m.R, n);
    if no < LeastCount(m.c[n]) then None
    else OrElse(Run(m, Next(m.c, n), i + no), if no == 0 then None else RunDown(m, n, i, no - 1))
  }

  // ---------- Trying a list of ways ----------

  ghost predicate InRange(ws: seq<Way>, s: Text) {
    forall x :: 0 <= x < |ws| ==> ws[x].end <= |s|
  }

  /** Continues the first way in ws from whose end node x succeeds. */
  ghost function Try(m: Machine, ws: seq<Way>, x: nat): Option<Way>
    requires Good(m) && IsNode(m.R, x) && InRange(ws, m.s)
  {
    if ws == [] then None
    else OrElse(Before(ws[0], Run(m, x, ws[0].end)), Try(m, ws[1..], x))
  }

  lemma {:induction false} MergeAssoc(u: Way, v: Way, w: Way)
    ensures Merge(u, Merge(v, w)) == Merge(Merge(u, v), w)
  {
    assert u.starts + (v.starts + w.starts) == (u.starts + v.starts) + w.starts;
    assert u.ends + (v.ends + w.ends) == (u.ends + v.ends) + w.ends;
  }

  lemma {:induction false} MergePlain(w: Way, i: nat)
    ensures Merge(Plain(i), w) == w
    ensures Merge(w, Plain(w.end)) == w
  {
    assert map[] + w.starts == w.starts && map[] + w.ends == w.ends;
  }

  lemma {:induction false} BeforeBefore(u: Way, v: Way, r: Option<Way>)
    ensures Before(u, Before(v, r)) == Before(Merge(u, v), r)
  {
    if r.Some? {
      MergeAssoc(u, v, r.value);
    }
  }

  lemma {:induction false} TryConcat(m: Machine, vs: seq<Way>, ws: seq<Way>, x: nat)
    requires Good(m) && IsNode(m.R, x) && InRange(vs, m.s) && InRange(ws, m.s)
    ensures InRange(vs + ws, m.s) && Try(m, vs + ws, x) == OrElse(Try(m, vs, x), Try(m, ws, x))
  {
    hide Run;
    if vs == [] {
      assert vs + ws == ws;
    } else {
      assert (vs + ws)[1..] == vs[1..] + ws;
      TryConcat(m, vs[1..], ws, x);
    }
  }

  lemma {:induction false} TryPlain(m: Machine, j: nat, x: nat)
    requires Good(m) && IsNode(m.R, x) && j <= |m.s|
    ensures Try(m, [Plain(j)], x) == Run(m, x, j)
  {
    hide Run;
    var r := Run(m, x, j);
    if r.Some? {
      MergePlain(r.value, j);
    }
  }

  lemma {:induction false} MergeAllInRange(w: Way, vs: seq<Way>, s: Text)
    requires InRange(vs, s)
    ensures InRange(MergeAll(w, vs), s)
  {
    if vs != [] {
      MergeAllInRange(w, vs[1..], s);
    }
  }

  lemma {:induction false} TryMergeAll(m: Machine, w: Way, vs: seq<Way>, x: nat)
    requires Good(m) && IsNode(m.R, x) && InRange(vs, m.s) && InRange(MergeAll(w, vs), m.s)
    ensures Try(m, MergeAll(w, vs), x) == Before(w, Try(m, vs, x))
  {
    hide Run;
    if vs != [] {
      MergeAllInRange(w, vs[1..], m.s);
      TryMergeAll(m, w, vs[1..], x);
      BeforeBefore(w, vs[0], Run(m, x, vs[0].end));
    }
  }

  // ---------- The ways stay inside the subject ----------

  lemma {:induction false} AtomInRange(a: Atom, n: nat, s: Text, bol: int, i: nat)
    requires WfAtom(a, n) && i <= |s|
    ensures InRange(WaysAtom(a, s, bol, i), s)
    ensures HasWidthAtom(a) ==> forall x :: 0 <= x < |WaysAtom(a, s, bol, i)| ==> i < WaysAtom(a, s, bol, i)[x].end
  {
    hide WaysAtom, MatchAtom, WfAtom, HasWidthAtom;
    var ws := WaysAtom(a, s, bol, i);
    forall x | 0 <= x < |ws| ensures i <= ws[x].end <= |s| && (HasWidthAtom(a) ==> i < ws[x].end) {
      AtomAgrees(a, n, s, bol, i, ws[x].end);
      AtomWidth(a, n, s, bol, false, i, ws[x].end);
    }
  }

  lemma {:induction false} PieceInRange(p: Piece, n: nat, s: Text, bol: int, i: nat)
    requires WfPiece(p, n) && i <= |s|
    ensures InRange(WaysPiece(p, s, bol, i), s)
  {
    hide WaysPiece, MatchPiece, WfPiece;
    var ws := WaysPiece(p, s, bol, i);
    forall x | 0 <= x < |ws| ensures ws[x].end <= |s| {
      PieceAgrees(p, n, s, bol, i, ws[x].end);
      PieceWidth(p, n, s, bol, false, i, ws[x].end);
    }
  }

  // ---------- Single steps ----------

  lemma {:induction false} StepTo(m: Machine, n: nat, op: int, off: nat, i: nat)
    requires Good(m) && IsNode(m.R, n) && NodeAt(m.c, n, op, off) && i <= |m.s| && op != END && op != BACK
    ensures IsNode(m.R, n + off) && Next(m.c, n) == n + off
  {
    assert NodeOk(m.c, m.R, n);
  }

  lemma {:induction false} StepNothing(m: Machine, n: nat, off: nat, i: nat)
    requires Good(m) && IsNode(m.R, n) && NodeAt(m.c, n, NOTHING, off) && i <= |m.s|
    ensures IsNode(m.R, n + off) && Run(m, n, i) == Run(m, n + off, i)
  {
    StepTo(m, n, NOTHING, off, i);
  }

  lemma {:induction false} StepBack(m: Machine, n: nat, off: nat, i: nat)
    requires Good(m) && IsNode(m.R, n) && NodeAt(m.c, n, BACK, off) && i <= |m.s|
    ensures IsNode(m.R, n - off) && Run(m, n, i) == Run(m, n - off, i)
  {
    assert NodeOk(m.c, m.R, n);
  }

  lemma {:induction false} StepOpen(m: Machine, n: nat, no: nat, off: nat, i: nat)
    requires Good(m) && IsNode(m.R, n) && NodeAt(m.c, n, SUB_OPEN + no, off) && i <= |m.s| && 0 < no < NSUBEXP
    ensures IsNode(m.R, n + off) && Run(m, n, i) == Before(Opening(no, i), Run(m, n + off, i))
  {
    StepTo(m, n, SUB_OPEN + no, off, i);
  }

  lemma {:induction false} StepClose(m: Machine, n: nat, no: nat, off: nat, i: nat)
    requires Good(m) && IsNode(m.R, n) && NodeAt(m.c, n, SUB_CLOSE + no, off) && i <= |m.s| && 0 < no < NSUBEXP
    ensures IsNode(m.R, n + off) && Run(m, n, i) == Before(Closing(no, i), Run(m, n + off, i))
  {
    StepTo(m, n, SUB_CLOSE + no, off, i);
  }

  lemma {:induction false} StepBranch(m: Machine, n: nat, off: nat, i: nat)
    requires Good(m) && IsNode(m.R, n) && NodeAt(m.c, n, BRANCH, off) && i <= |m.s|
    ensures IsNode(m.R, n + off) && IsNode(m.R, n + 3)
    ensures Run(m, n, i) == OrElse(Run(m, n + 3, i), if m.c[n + off] == BRANCH then Run(m, n + off, i) else None)
  {
    StepTo(m, n, BRANCH, off, i);
    assert NodeOk(m.c, m.R, n);
  }

  /** The character test of a one-character atom. */
  predicate CharOk(a: Atom, ch: Ch) {
    match a
    case Any => true
    case Set(neg, raw) => (ch in Members(raw)) != neg
    case Quoted(c) => ch == c
    case Literal(t) => |t| == 1 && t[0] == ch
    case _ => false
  }

  lemma {:induction false} WaysSimple(a: Atom, s: Text, bol: int, i: nat)
    requires SimpleAtom(a) && i <= |s|
    ensures WaysAtom(a, s, bol, i) == OneIf(i < |s| && CharOk(a, s[i]), i + 1)
  {
    match a
    case Quoted(c) => QuotedMeaning(c, s, i);
    case Literal(t) =>
      assert t == [t[0]];
      QuotedMeaning(t[0], s, i);
    case _ =>
  }

  lemma {:induction false} StepTest(m: Machine, n: nat, op: int, off: nat, i: nat)
    requires Good(m) && IsNode(m.R, n) && NodeAt(m.c, n, op, off) && i <= |m.s| && IsTest(op)
    ensures var t := CString(m.c, n + 3);
            && IsNode(m.R, n + off)
            && (Passes(op, t, m.s, m.bol, i) ==>
                  i + Width(op, t) <= |m.s| && Run(m, n, i) == Run(m, n + off, i + Width(op, t)))
            && (!Passes(op, t, m.s, m.bol, i) ==> Run(m, n, i) == None)
  {
    hide CString, LooselyAt;
    StepTo(m, n, op, off, i);
    if Passes(op, CString(m.c, n + 3), m.s, m.bol, i) {
      PassesInRange(op, CString(m.c, n + 3), m.s, m.bol, i);
    }
  }

  lemma {:induction false} WaysTest(a: Atom, s: Text, bol: int, i: nat)
    requires !a.Group?
    ensures WaysAtom(a, s, bol, i)
            == OneIf(Passes(OpAtom(a), Operand(a), s, bol, i), i + Width(OpAtom(a), Operand(a)))
  {
    hide LooselyAt, Members;
  }

  /** What running from lo does, said of a region that matches in the ways ws and exits to x. */
  ghost predicate Runs(m: Machine, lo: nat, ws: seq<Way>, x: nat, i: nat)
    requires Good(m) && i <= |m.s|
  {
    IsNode(m.R, lo) && IsNode(m.R, x) && InRange(ws, m.s) && Run(m, lo, i) == Try(m, ws, x)
  }

  /** Running from y is running from x. */
  ghost predicate SameRun(m: Machine, y: nat, x: nat, i: nat)
    requires Good(m) && i <= |m.s|
  {
    IsNode(m.R, y) && IsNode(m.R, x) && Run(m, y, i) == Run(m, x, i)
  }

  /** The one-node atoms. */
  lemma {:induction false} RunPlainAtom(m: Machine, lo: nat, a: Atom, n: nat, d: nat, rx: nat, i: nat)
    requires Good(m) && AtomAt(m.c, m.R, lo, a, d, rx) && WfAtom(a, n) && !a.Group? && i <= |m.s|
    ensures Runs(m, lo, WaysAtom(a, m.s, m.bol, i), lo + LenAtom(a) + d, i)
  {
    hide CodeAtom, RankAtom, Here, OperandCells, EntryAtom, Operand, LenAtom, Passes, Width, WaysAtom, NodeOk, CString, Run;
    var op, t := OpAtom(a), Operand(a);
    EnterAtom(m.c, m.R, lo, a, d, rx);
    StepTest(m, lo, op, LenAtom(a) + d, i);
    if HasOperand(a) {
      CStringOperand(m.c, lo + 3, a);
    } else {
      PassesWithout(op, CString(m.c, lo + 3), t, m.s, m.bol, i);
    }
    WaysTest(a, m.s, m.bol, i);
    if Passes(op, t, m.s, m.bol, i) {
      TryPlain(m, i + Width(op, t), lo + LenAtom(a) + d);
    }
  }

  /** Opcodes without operand ignore it. */
  lemma {:induction false} PassesWithout(op: int, t: Text, u: Text, s: Text, bol: int, i: nat)
    requires op == BOL || op == EOL || op == ANY
    ensures Passes(op, t, s, bol, i) == Passes(op, u, s, bol, i) && Width(op, t) == Width(op, u)
  {
  }

  // ---------- Regions ----------

  lemma {:induction false} EncloseInRange(no: nat, i: nat, ws: seq<Way>, s: Text)
    requires InRange(ws, s)
    ensures InRange(Enclose(no, i, ws), s)
  {
    if ws != [] {
      EncloseInRange(no, i, ws[1..], s);
    }
  }

  /** Between the nodes of a group: the closing node at y, whose next is x. */
  lemma {:induction false} TryEnclose(m: Machine, no: nat, i: nat, ws: seq<Way>, y: nat, x: nat)
    requires Good(m) && IsNode(m.R, x) && IsNode(m.R, y) && InRange(ws, m.s) && InRange(Enclose(no, i, ws), m.s)
    requires forall k: nat :: k <= |m.s| ==> Run(m, y, k) == Before(Closing(no, k), Run(m, x, k))
    ensures Before(Opening(no, i), Try(m, ws, y)) == Try(m, Enclose(no, i, ws), x)
  {
    hide Run;
    if ws != [] {
      var e := ws[0].end;
      EncloseInRange(no, i, ws[1..], m.s);
      TryEnclose(m, no, i, ws[1..], y, x);
      BeforeBefore(ws[0], Closing(no, e), Run(m, x, e));
      BeforeBefore(Opening(no, i), Merge(ws[0], Closing(no, e)), Run(m, x, e));
      BeforeOrElse(Opening(no, i), Before(ws[0], Run(m, y, e)), Try(m, ws[1..], y));
    }
  }

  lemma {:induction false} BeforeOrElse(w: Way, a: Option<Way>, b: Option<Way>)
    ensures Before(w, OrElse(a, b)) == OrElse(Before(w, a), Before(w, b))
  {
  }

  lemma {:induction false} RunAtom(m: Machine, lo: nat, a: Atom, n: nat, d: nat, rx: nat, i: nat)
    requires Good(m) && AtomAt(m.c, m.R, lo, a, d, rx) && WfAtom(a, n) && n > 0 && i <= |m.s|
    ensures Runs(m, lo, WaysAtom(a, m.s, m.bol, i), lo + LenAtom(a) + d, i)
    decreases a, 0
  {
    hide Run, CodeAtom, RankAtom, Here, CodeAlts, RankAlts, LenAlts, EntryAtom, WaysAlts, NodeAt, NodeOk;
    if a.Group? {
      var y := lo + 3 + LenAlts(a.alts);
      var x := lo + LenAtom(a) + d;
      var ws := WaysAlts(a.alts, m.s, m.bol, i);
      EnterGroup(m.c, m.R, lo, a, d, rx);
      StepOpen(m, lo, a.no, 3, i);
      RunAlts(m, lo + 3, a.alts, n + 1, rx + 1, i);
      forall k: nat | k <= |m.s| ensures Run(m, y, k) == Before(Closing(a.no, k), Run(m, x, k)) {
        StepClose(m, y, a.no, 3 + d, k);
      }
      EncloseInRange(a.no, i, ws, m.s);
      TryEnclose(m, a.no, i, ws, y, x);
    } else {
      RunPlainAtom(m, lo, a, n, d, rx, i);
    }
  }

  /** Each way in ws moves past i, and continuing it at y means further iterations to x. */
  lemma {:induction false} TryThenStar(m: Machine, ws: seq<Way>, a: Atom, n: nat, i: nat, y: nat, x: nat)
    requires Good(m) && i <= |m.s| && IsNode(m.R, x) && IsNode(m.R, y) && InRange(ws, m.s)
    requires forall z :: 0 <= z < |ws| ==> i < ws[z].end
    requires forall k: nat :: i < k <= |m.s| ==> Runs(m, y, WaysStar(a, m.s, m.bol, k), x, k)
    ensures InRange(ThenStar(ws, a, m.s, m.bol, i), m.s)
    ensures Try(m, ws, y) == Try(m, ThenStar(ws, a, m.s, m.bol, i), x)
  {
    hide Run, WaysStar;
    if ws != [] {
      var e := ws[0].end;
      var vs := WaysStar(a, m.s, m.bol, e);
      TryThenStar(m, ws[1..], a, n, i, y, x);
      assert Runs(m, y, vs, x, e);
      MergeAllInRange(ws[0], vs, m.s);
      TryMergeAll(m, ws[0], vs, x);
      TryConcat(m, MergeAll(ws[0], vs), ThenStar(ws[1..], a, m.s, m.bol, i), x);
    }
  }

  /** x* by the general scheme: BRANCH, body, BACK, BRANCH, NOTHING. */
  lemma {:induction false} RunStar(m: Machine, lo: nat, p: Piece, n: nat, d: nat, rx: nat, i: nat)
    requires Good(m) && PieceAt(m.c, m.R, lo, p, d, rx) && IsLoop(p) && p.rep == Star && WfPiece(p, n) && n > 0
    requires i <= |m.s|
    ensures Runs(m, lo, WaysStar(p.atom, m.s, m.bol, i), lo + LenPiece(p) + d, i)
    decreases p, 0, |m.s| - i
  {
    hide Run, Here, NodeAt, NodeOk, CodePiece, RankPiece, CodeAtom, RankAtom, LenAtom, EntryAtom, SimpleAtom, WaysAtom, WfAtom,
         HasWidthAtom;
    var k := LenAtom(p.atom);
    var x := lo + LenPiece(p) + d;
    var ws := WaysAtom(p.atom, m.s, m.bol, i);
    EnterStar(m.c, m.R, lo, p, d, rx);
    StepBranch(m, lo, k + 6, i);
    RunLoopEnd(m, lo, p, d, rx, i);
    RunAtom(m, lo + 3, p.atom, n, 0, LoopRank(p, rx) + 1, i);
    AtomInRange(p.atom, n, m.s, m.bol, i);
    forall z: nat | i < z <= |m.s| ensures Runs(m, lo + 3 + k, WaysStar(p.atom, m.s, m.bol, z), x, z) {
      StepBack(m, lo + 3 + k, k + 3, z);
      RunStar(m, lo, p, n, d, rx, z);
    }
    TryThenStar(m, ws, p.atom, n, i, lo + 3 + k, x);
    TryConcat(m, WaysPlus(p.atom, m.s, m.bol, i), [Plain(i)], x);
    TryPlain(m, i, x);
  }

  /** The end of the general schemes, an alternative that matches nothing. */
  lemma {:induction false} RunLoopEnd(m: Machine, lo: nat, p: Piece, d: nat, rx: nat, i: nat)
    requires Good(m) && PieceAt(m.c, m.R, lo, p, d, rx) && IsLoop(p) && i <= |m.s|
    ensures SameRun(m, lo + LenPiece(p) - 6, lo + LenPiece(p) + d, i) && m.c[lo + LenPiece(p) - 6] == BRANCH
    ensures SameRun(m, lo + LenPiece(p) - 3, lo + LenPiece(p) + d, i)
  {
    hide Run, Here, NodeOk, CodePiece, RankPiece, LenPiece, IsLoop;
    var y := lo + LenPiece(p) - 6;
    EnterLoop(m.c, m.R, lo, p, d, rx);
    StepBranch(m, y, 3, i);
    StepNothing(m, y + 3, 3 + d, i);
  }

  /** x+ by the general scheme: body, BRANCH, BACK, BRANCH, NOTHING. */
  lemma {:induction false} RunPlus(m: Machine, lo: nat, p: Piece, n: nat, d: nat, rx: nat, i: nat)
    requires Good(m) && PieceAt(m.c, m.R, lo, p, d, rx) && IsLoop(p) && p.rep == Plus && WfPiece(p, n) && n > 0
    requires i <= |m.s|
    ensures Runs(m, lo, WaysPlus(p.atom, m.s, m.bol, i), lo + LenPiece(p) + d, i)
    decreases p, 0, |m.s| - i
  {
    hide Run, Here, NodeAt, NodeOk, CodePiece, RankPiece, CodeAtom, RankAtom, LenAtom, EntryAtom, SimpleAtom, WaysAtom, WfAtom,
         HasWidthAtom;
    var k := LenAtom(p.atom);
    var x := lo + LenPiece(p) + d;
    var ws := WaysAtom(p.atom, m.s, m.bol, i);
    EnterPlus(m.c, m.R, lo, p, d, rx);
    RunAtom(m, lo, p.atom, n, 0, LoopRank(p, rx), i);
    AtomInRange(p.atom, n, m.s, m.bol, i);
    forall z: nat | i < z <= |m.s| ensures Runs(m, lo + k, WaysStar(p.atom, m.s, m.bol, z), x, z) {
      RunPlus(m, lo, p, n, d, rx, z);
      RunAgain(m, lo, p, d, rx, z);
    }
    TryThenStar(m, ws, p.atom, n, i, lo + k, x);
  }

  /** After the body of x+: loop back or go on. */
  lemma {:induction false} RunAgain(m: Machine, lo: nat, p: Piece, d: nat, rx: nat, z: nat)
    requires Good(m) && PieceAt(m.c, m.R, lo, p, d, rx) && IsLoop(p) && p.rep == Plus && z <= |m.s|
    requires Runs(m, lo, WaysPlus(p.atom, m.s, m.bol, z), lo + LenPiece(p) + d, z)
    ensures Runs(m, lo + LenAtom(p.atom), WaysStar(p.atom, m.s, m.bol, z), lo + LenPiece(p) + d, z)
  {
    hide Run, Here, NodeAt, NodeOk, CodePiece, RankPiece, CodeAtom, RankAtom, LenAtom, EntryAtom, SimpleAtom, WaysPlus;
    var k := LenAtom(p.atom);
    var x := lo + LenPiece(p) + d;
    EnterPlus(m.c, m.R, lo, p, d, rx);
    StepBranch(m, lo + k, 6, z);
    StepBack(m, lo + k + 3, k + 3, z);
    RunLoopEnd(m, lo, p, d, rx, z);
    TryConcat(m, WaysPlus(p.atom, m.s, m.bol, z), [Plain(z)], x);
    TryPlain(m, z, x);
  }

  /** Nodes from which running is the same can be exchanged as exits. */
  lemma {:induction false} TrySame(m: Machine, ws: seq<Way>, y: nat, x: nat)
    requires Good(m) && IsNode(m.R, x) && IsNode(m.R, y) && InRange(ws, m.s)
    requires forall k: nat :: k <= |m.s| ==> Run(m, y, k) == Run(m, x, k)
    ensures Try(m, ws, y) == Try(m, ws, x)
  {
    hide Run;
    if ws != [] {
      TrySame(m, ws[1..], y, x);
    }
  }

  /** x?: BRANCH, body, BRANCH, NOTHING. */
  lemma {:induction false} RunQuest(m: Machine, lo: nat, p: Piece, n: nat, d: nat, rx: nat, i: nat)
    requires Good(m) && PieceAt(m.c, m.R, lo, p, d, rx) && p.rep == Quest && WfPiece(p, n) && n > 0 && i <= |m.s|
    ensures Runs(m, lo, WaysPiece(p, m.s, m.bol, i), lo + LenPiece(p) + d, i)
    decreases p, 0
  {
    hide Run, Here, NodeAt, NodeOk, CodePiece, RankPiece, CodeAtom, RankAtom, LenAtom, EntryAtom, SimpleAtom, WaysAtom, WfAtom, Try, Good;
    var k := LenAtom(p.atom);
    var x := lo + LenPiece(p) + d;
    var ws := WaysAtom(p.atom, m.s, m.bol, i);
    EnterQuest(m.c, m.R, lo, p, d, rx);
    StepBranch(m, lo, k + 3, i);
    RunLoopEnd(m, lo, p, d, rx, i);
    RunAtom(m, lo + 3, p.atom, n, 3, rx + 1, i);
    forall z: nat | z <= |m.s| ensures Run(m, lo + 6 + k, z) == Run(m, x, z) {
      RunLoopEnd(m, lo, p, d, rx, z);
    }
    TrySame(m, ws, lo + 6 + k, x);
    TryConcat(m, ws, [Plain(i)], x);
    TryPlain(m, i, x);
  }

  // ---------- Repetition of one character ----------

  /** Runs node x from hi, hi - 1, ..., lo, taking the first success. */
  ghost function TryDown(m: Machine, x: nat, lo: nat, hi: nat): Option<Way>
    requires Good(m) && IsNode(m.R, x) && hi <= |m.s|
  {
    if hi < lo then None else OrElse(Run(m, x, hi), if hi == 0 then None else TryDown(m, x, lo, hi - 1))
  }

  lemma {:induction false} TryDownBottom(m: Machine, x: nat, lo: nat, hi: nat)
    requires Good(m) && IsNode(m.R, x) && lo <= hi <= |m.s|
    ensures TryDown(m, x, lo, hi) == OrElse(TryDown(m, x, lo + 1, hi), Run(m, x, lo))
  {
    hide Run;
    if lo < hi {
      TryDownBottom(m, x, lo, hi - 1);
    } else if lo > 0 {
      assert TryDown(m, x, lo, hi - 1) == None;
    }
  }

  lemma {:induction false} RunDownIs(m: Machine, n: nat, i: nat, no: nat)
    requires Good(m) && IsNode(m.R, n) && (m.c[n] == STAR || m.c[n] == PLUS) && i + no <= |m.s| && n + 3 <= |m.c|
    requires IsNode(m.R, Next(m.c, n))
    ensures RunDown(m, n, i, no) == TryDown(m, Next(m.c, n), i + LeastCount(m.c[n]), i + no)
    decreases no
  {
    hide Run, Good;
    if no > 0 {
      RunDownIs(m, n, i, no - 1);
    } else if m.c[n] == STAR && i > 0 {
      assert TryDown(m, Next(m.c, n), i, i - 1) == None;
    }
  }

  lemma {:induction false} OneCharIs(c: Code, k: nat, a: Atom, ch: Ch)
    requires SimpleAtom(a) && Here(c, k, CodeAtom(a, -1)) && Small(c)
    ensures OneChar(c, k, ch) == CharOk(a, ch)
  {
    hide CodeAtom, OperandCells, Members;
    assert !a.Group?;
    AtomParts(c, k, a, -1);
    if HasOperand(a) {
      CStringOperand(c, k + 3, a);
    }
  }

  /** The ways of x+ for a one-character x, one iteration unrolled. */
  lemma {:induction false} PlusUnrolled(a: Atom, s: Text, bol: int, i: nat)
    requires SimpleAtom(a) && i <= |s|
    ensures WaysPlus(a, s, bol, i)
            == if i < |s| && CharOk(a, s[i]) then MergeAll(Plain(i + 1), WaysStar(a, s, bol, i + 1)) else []
  {
    hide WaysAtom, CharOk, SimpleAtom, WaysStar;
    WaysSimple(a, s, bol, i);
    var b := i < |s| && CharOk(a, s[i]);
    if b {
      assert OneIf(b, i + 1)[1..] == [];
      assert ThenStar([], a, s, bol, i) == [];
    }
  }

  lemma {:induction false} RepeatUnrolled(c: Code, k: nat, a: Atom, s: Text, i: nat)
    requires SimpleAtom(a) && Here(c, k, CodeAtom(a, -1)) && Small(c) && i <= |s|
    ensures k + 3 <= |c|
    ensures Repeat(c, k, s, i) == if i < |s| && CharOk(a, s[i]) then 1 + Repeat(c, k, s, i + 1) else 0
  {
    hide CodeAtom, CharOk, OneChar;
    if i < |s| {
      OneCharIs(c, k, a, s[i]);
    }
  }

  lemma {:induction false} TryPlusDown(m: Machine, k: nat, a: Atom, n: nat, x: nat, i: nat)
    requires Good(m) && IsNode(m.R, x) && i <= |m.s| && SimpleAtom(a) && WfAtom(a, n)
    requires Here(m.c, k, CodeAtom(a, -1)) && Small(m.c) && k + 3 <= |m.c|
    ensures InRange(WaysPlus(a, m.s, m.bol, i), m.s)
    ensures Try(m, WaysPlus(a, m.s, m.bol, i), x) == TryDown(m, x, i + 1, i + Repeat(m.c, k, m.s, i))
    decreases |m.s| - i, 0
  {
    hide Run, Here, CodeAtom, Repeat, CharOk, WaysStar, WaysPlus, WfAtom, SimpleAtom, MergeAll;
    PlusUnrolled(a, m.s, m.bol, i);
    RepeatUnrolled(m.c, k, a, m.s, i);
    if i < |m.s| && CharOk(a, m.s[i]) {
      var vs := WaysStar(a, m.s, m.bol, i + 1);
      TryStarDown(m, k, a, n, x, i + 1);
      MergeAllInRange(Plain(i + 1), vs, m.s);
      TryMergeAll(m, Plain(i + 1), vs, x);
      BeforePlain(i + 1, Try(m, vs, x));
    }
  }

  lemma {:induction false} TryStarDown(m: Machine, k: nat, a: Atom, n: nat, x: nat, i: nat)
    requires Good(m) && IsNode(m.R, x) && i <= |m.s| && SimpleAtom(a) && WfAtom(a, n)
    requires Here(m.c, k, CodeAtom(a, -1)) && Small(m.c) && k + 3 <= |m.c|
    ensures InRange(WaysStar(a, m.s, m.bol, i), m.s)
    ensures Try(m, WaysStar(a, m.s, m.bol, i), x) == TryDown(m, x, i, i + Repeat(m.c, k, m.s, i))
    decreases |m.s| - i, 1
  {
    hide Run, CodeAtom, WaysPlus, WfAtom, SimpleAtom, Try, TryDown, Repeat, Here, Small, Good;
    TryPlusDown(m, k, a, n, x, i);
    TryConcat(m, WaysPlus(a, m.s, m.bol, i), [Plain(i)], x);
    TryPlain(m, i, x);
    TryDownBottom(m, x, i, i + Repeat(m.c, k, m.s, i));
  }

  lemma {:induction false} BeforePlain(j: nat, r: Option<Way>)
    ensures Before(Plain(j), r) == r
  {
    if r.Some? {
      MergePlain(r.value, j);
    }
  }

  lemma {:induction false} StepLoop(m: Machine, n: nat, op: int, off: nat, i: nat)
    requires Good(m) && IsNode(m.R, n) && NodeAt(m.c, n, op, off) && i <= |m.s| && (op == STAR || op == PLUS)
    ensures IsNode(m.R, n + off) && n + 6 <= |m.c|
    ensures Run(m, n, i) == TryDown(m, n + off, i + LeastCount(op), i + Repeat(m.c, n + 3, m.s, i))
  {
    hide RunDown, TryDown, Repeat;
    StepTo(m, n, op, off, i);
    assert NodeOk(m.c, m.R, n);
    RunDownIs(m, n, i, Repeat(m.c, n + 3, m.s, i));
  }

  lemma {:induction false} RunSimpleLoop(m: Machine, lo: nat, p: Piece, n: nat, d: nat, rx: nat, i: nat)
    requires Good(m) && PieceAt(m.c, m.R, lo, p, d, rx) && IsSimpleLoop(p) && WfPiece(p, n) && i <= |m.s|
    ensures Runs(m, lo, WaysPiece(p, m.s, m.bol, i), lo + LenPiece(p) + d, i)
  {
    hide Run, Here, NodeOk, CodePiece, RankPiece, CodeAtom, RankAtom, LenPiece, WaysStar, WaysPlus, WfAtom, TryDown,
         Repeat, NodeAt, Try, Good, SimpleAtom, HasWidthAtom, LenAtom, WaysAtom, InRange;
    var op := if p.rep == Star then STAR else PLUS;
    var x := lo + LenPiece(p) + d;
    EnterSimpleLoop(m.c, m.R, lo, p, d, rx);
    StepLoop(m, lo, op, LenPiece(p) + d, i);
    if p.rep == Star {
      TryStarDown(m, lo + 3, p.atom, n, x, i);
    } else {
      TryPlusDown(m, lo + 3, p.atom, n, x, i);
    }
  }

  // ---------- Pieces, branches, choices, programs ----------

  lemma {:induction false} RunPiece(m: Machine, lo: nat, p: Piece, n: nat, d: nat, rx: nat, i: nat)
    requires Good(m) && PieceAt(m.c, m.R, lo, p, d, rx) && WfPiece(p, n) && n > 0 && i <= |m.s|
    ensures Runs(m, lo, WaysPiece(p, m.s, m.bol, i), lo + LenPiece(p) + d, i)
    decreases p, 1
  {
    hide Runs, Here, CodeAtom, RankAtom, LenAtom, WfAtom, WaysAtom, WaysStar, WaysPlus;
    if IsSimpleLoop(p) {
      RunSimpleLoop(m, lo, p, n, d, rx, i);
    } else {
      match p.rep
      case Once => RunAtom(m, lo, p.atom, n, d, rx, i);
      case Star => RunStar(m, lo, p, n, d, rx, i);
      case Plus => RunPlus(m, lo, p, n, d, rx, i);
      case Quest => RunQuest(m, lo, p, n, d, rx, i);
    }
  }

  /** Continuing each way in ws at y, where the rest of the branch starts. */
  lemma {:induction false} TryThenBranch(m: Machine, ws: seq<Way>, rest: Branch, y: nat, x: nat)
    requires Good(m) && IsNode(m.R, x) && IsNode(m.R, y) && InRange(ws, m.s)
    requires forall k: nat :: k <= |m.s| ==> Runs(m, y, WaysBranch(rest, m.s, m.bol, k), x, k)
    ensures InRange(ThenBranch(ws, rest, m.s, m.bol), m.s)
    ensures Try(m, ws, y) == Try(m, ThenBranch(ws, rest, m.s, m.bol), x)
    decreases |ws|
  {
    hide Run, WaysBranch;
    if ws != [] {
      var e := ws[0].end;
      var vs := WaysBranch(rest, m.s, m.bol, e);
      TryThenBranch(m, ws[1..], rest, y, x);
      assert Runs(m, y, vs, x, e);
      MergeAllInRange(ws[0], vs, m.s);
      TryMergeAll(m, ws[0], vs, x);
      TryConcat(m, MergeAll(ws[0], vs), ThenBranch(ws[1..], rest, m.s, m.bol), x);
    }
  }

  lemma {:induction false} ThenEmpty(ws: seq<Way>, s: Text, bol: int)
    ensures ThenBranch(ws, Empty, s, bol) == ws
    decreases |ws|
  {
    if ws != [] {
      ThenEmpty(ws[1..], s, bol);
      MergePlain(ws[0], ws[0].end);
      assert MergeAll(ws[0], [Plain(ws[0].end)]) == [ws[0]];
    }
  }

  lemma {:induction false} RunEmpty(m: Machine, lo: nat, d: nat, rx: nat, i: nat)
    requires Good(m) && BranchAt(m.c, m.R, lo, Empty, d, rx) && i <= |m.s|
    ensures Runs(m, lo, [Plain(i)], lo + 3 + d, i)
  {
    hide Run, NodeOk, Node, Mark;
    NodeHere(m.c, lo, NOTHING, 3 + d);
    MarkHere(m.R, lo, rx + 1);
    StepNothing(m, lo, 3 + d, i);
    TryPlain(m, i, lo + 3 + d);
  }

  lemma {:induction false} RunBranch(m: Machine, lo: nat, b: Branch, n: nat, d: nat, rx: nat, i: nat)
    requires Good(m) && BranchAt(m.c, m.R, lo, b, d, rx) && WfBranch(b, n) && n > 0 && i <= |m.s|
    ensures Runs(m, lo, WaysBranch(b, m.s, m.bol, i), lo + LenBranch(b) + d, i)
    decreases b, 0
  {
    hide Run, CodePiece, RankPiece, LenPiece, WfPiece, WfPair, Here, NodeOk, WaysPiece, Good, Try, InRange;
    match b
    case Empty =>
      RunEmpty(m, lo, d, rx, i);
    case Cons(p, rest) =>
      var ws := WaysPiece(p, m.s, m.bol, i);
      EnterBranch(m.c, m.R, lo, b, d, rx);
      if rest.Empty? {
        RunPiece(m, lo, p, n, d, rx, i);
        ThenEmpty(ws, m.s, m.bol);
      } else {
        var y, x := lo + LenPiece(p), lo + LenBranch(b) + d;
        RunPiece(m, lo, p, n, 0, EntryBranch(rest, rx), i);
        forall k: nat | k <= |m.s| ensures Runs(m, y, WaysBranch(rest, m.s, m.bol, k), x, k) {
          RunBranch(m, y, rest, NextAtom(p.atom, n), d, rx, k);
        }
        TryThenBranch(m, ws, rest, y, x);
      }
  }

  lemma {:induction false} RunAlts(m: Machine, lo: nat, alts: Alts, n: nat, rx: nat, i: nat)
    requires Good(m) && AltsAt(m.c, m.R, lo, alts, rx) && WfAlts(alts, n) && n > 0 && i <= |m.s|
    ensures Runs(m, lo, WaysAlts(alts, m.s, m.bol, i), lo + LenAlts(alts), i)
    decreases alts, 0
  {
    hide Run, Here, NodeOk, CodeAlts, RankAlts, CodeBranch, RankBranch, LenBranch, EntryAlts, WaysBranch, WfBranch, NextBranch;
    var k := 3 + LenBranch(alts.branch);
    var x := lo + LenAlts(alts);
    var ws := WaysBranch(alts.branch, m.s, m.bol, i);
    EnterAlts(m.c, m.R, lo, alts, rx);
    StepBranch(m, lo, k, i);
    RunBranch(m, lo + 3, alts.branch, n, if alts.Or? then LenAlts(alts.rest) else 0, rx, i);
    if alts.Or? {
      RunAlts(m, lo + k, alts.rest, NextBranch(alts.branch, n), rx, i);
      EnterAlts(m.c, m.R, lo + k, alts.rest, rx);
      TryConcat(m, ws, WaysAlts(alts.rest, m.s, m.bol, i), x);
    } else {
      assert WaysAlts(alts, m.s, m.bol, i) == ws;
    }
  }

  /** The machine that runs a compiled pattern on a subject. */
  function MachineFor(alts: Alts, s: Text, bol: int): Machine {
    Machine(CodeProgram(alts), RankProgram(alts), s, bol)
  }

  function First(ws: seq<Way>): Option<Way> {
    if ws == [] then None else Some(ws[0])
  }

  /** Meaning preservation: the matcher, started on the compiled program, terminates and finds
      the first way in which the pattern can match, group boundaries included. */
  lemma {:induction false} RunProgram(alts: Alts, s: Text, bol: int, i: nat)
    requires WfAlts(alts, 1) && LenProgram(alts) <= 0x7fff && i <= |s|
    ensures Good(MachineFor(alts, s, bol)) && IsNode(RankProgram(alts), 1)
    ensures Run(MachineFor(alts, s, bol), 1, i) == First(WaysAlts(alts, s, bol, i))
  {
    hide CodeProgram, RankProgram, CodeAlts, RankAlts, LenAlts, WaysAlts, WfAlts, NodeOk, Here;
    var m, x := MachineFor(alts, s, bol), 1 + LenAlts(alts);
    var ws := WaysAlts(alts, s, bol, i);
    CompiledIsRanked(alts);
    EnterProgram(alts);
    RunAlts(m, 1, alts, 1, 0, i);
    if ws != [] {
      assert Run(m, x, ws[0].end) == Some(Plain(ws[0].end));
      MergePlain(ws[0], ws[0].end);
    }
  }
}
