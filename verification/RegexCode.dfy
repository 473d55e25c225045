/** The threaded program that regcomp produces, given in closed form.

    A node is an opcode cell followed by a two-cell link; string operands follow the node
    and are NUL-terminated.  Links are relative, so the code of a subtree does not depend on
    where it stands.  `CodeAtom(a, d)` and its friends are the code of a subtree whose exit
    is d cells past its own end; a negative d means that the exit is still unlinked (null
    link), which is how the compiler leaves a subtree until regtail hooks it up.

    The lemmas say what following links from the start of such code leads to, and that
    setting the link found there gives the linked code.
 */
module RegexCode {
  import opened Slices
  import opened RegexSyntax

  const MAGIC: int := 0x9c

  const END: int := 0
  const BOL: int := 1
  const EOL: int := 2
  const ANY: int := 3
  const ANYOF: int := 4
  const ANYBUT: int := 5
  const BRANCH: int := 6
  const BACK: int := 7
  const EXACTLY: int := 8
  const NOTHING: int := 9
  const STAR: int := 10
  const PLUS: int := 11
  const SUB_OPEN: int := 20
  const SUB_CLOSE: int := 30

  type Code = seq<int>

  // ---------- Nodes and links ----------

  /** A node with its 15-bit link. */
  function Node(op: int, off: nat): (n: Code)
    ensures |n| == 3
  {
    [op, off / 256 % 128, off % 256]
  }

  /** The link of a node whose region ends k cells further on. */
  function Off(d: int, k: nat): nat {
    if d < 0 then 0 else k + d
  }

  /** NEXT: the offset stored in the node at n. */
  function NextOff(c: Code, n: nat): nat
    requires n + 3 <= |c|
  {
    c[n + 1] % 128 * 256 + c[n + 2] % 256
  }

  /** Stores an offset in the node at n, as regtail does. */
  function SetLink(c: Code, n: nat, off: nat): (r: Code)
    requires n + 3 <= |c|
    ensures |r| == |c|
  {
    c[n + 1 := off / 256 % 128][n + 2 := off % 256]
  }

  /** The node at n has the given opcode and link. */
  ghost predicate NodeAt(c: Code, n: nat, op: int, off: nat) {
    n + 3 <= |c| && c[n] == op && NextOff(c, n) == off
  }

  /** A link below 2^15 survives its encoding. */
  lemma {:induction false} LinkRoundTrip(c: Code, n: nat, op: int, off: nat)
    requires Here(c, n, Node(op, off)) && off < 0x8000
    ensures NodeAt(c, n, op, off)
  {
    HereAt(c, n, Node(op, off), 0);
    HereAt(c, n, Node(op, off), 1);
    HereAt(c, n, Node(op, off), 2);
  }

  /** Programs small enough for 15-bit links. */
  predicate Small(c: Code) {
    |c| <= 0x7fff
  }

  // ---------- Sizes ----------

  /** The string operand of a one-node atom. */
  function Operand(a: Atom): Text {
    match a
    case Set(_, raw) => Members(raw)
    case Quoted(c) => [c]
    case Literal(t) => t
    case _ => []
  }

  predicate HasOperand(a: Atom) {
    a.Set? || a.Quoted? || a.Literal?
  }

  /** The cells of the operand, with the terminating NUL. */
  function OperandCells(a: Atom): (c: Code)
    ensures |c| == if HasOperand(a) then |Operand(a)| + 1 else 0
  {
    var text: Code := Operand(a);
    if HasOperand(a) then text + [0] else []
  }

  function LenAtom(a: Atom): (n: nat)
    ensures n >= 3
  {
    if a.Group? then 6 + LenAlts(a.alts) else 3 + |OperandCells(a)|
  }

  /** The general scheme for * and + takes four extra nodes, the one for ? three. */
  function LenPiece(p: Piece): (n: nat)
    ensures n >= 3
  {
    match p.rep
    case Once => LenAtom(p.atom)
    case Quest => LenAtom(p.atom) + 9
    case _ => LenAtom(p.atom) + if SimpleAtom(p.atom) then 3 else 12
  }

  function LenBranch(b: Branch): (n: nat)
    ensures n >= 3
  {
    match b
    case Empty => 3
    case Cons(p, rest) => LenPiece(p) + if rest.Empty? then 0 else LenBranch(rest)
  }

  function LenAlts(alts: Alts): (n: nat)
    ensures n >= 6
  {
    3 + LenBranch(alts.branch) + if alts.Last? then 0 else LenAlts(alts.rest)
  }

  /** The whole program: magic cell, alternatives, END node. */
  function LenProgram(alts: Alts): nat {
    1 + LenAlts(alts) + 3
  }

  // ---------- Code ----------

  function OpAtom(a: Atom): int {
    match a
    case Bol => BOL
    case Eol => EOL
    case Any => ANY
    case Set(neg, _) => if neg then ANYBUT else ANYOF
    case Group(no, _) => SUB_OPEN + no
    case _ => EXACTLY
  }

  function CodeAtom(a: Atom, d: int): (c: Code)
    ensures |c| == LenAtom(a)
  {
    if a.Group? then
      Node(SUB_OPEN + a.no, 3) + CodeAlts(a.alts, 0, true) + Node(SUB_CLOSE + a.no, Off(d, 3))
    else
      Node(OpAtom(a), Off(d, LenAtom(a))) + OperandCells(a)
  }

  /** The general schemes, up to their closing NOTHING node:
      x* is (x&|), x+ is x(&|) and x? is (x|), where & loops back. */
  function LoopHead(p: Piece): (c: Code)
    requires p.rep != Once
    ensures |c| == LenAtom(p.atom) + if p.rep == Quest then 6 else 9
    decreases p, 0
  {
    var n := LenAtom(p.atom);
    match p.rep
    case Star => Node(BRANCH, n + 6) + CodeAtom(p.atom, 0) + Node(BACK, n + 3) + Node(BRANCH, 3)
    case Plus => CodeAtom(p.atom, 0) + Node(BRANCH, 6) + Node(BACK, n + 3) + Node(BRANCH, 3)
    case Quest => Node(BRANCH, n + 3) + CodeAtom(p.atom, 3) + Node(BRANCH, 3)
  }

  /** Repetition of a one-character atom. */
  predicate IsSimpleLoop(p: Piece) {
    (p.rep == Star || p.rep == Plus) && SimpleAtom(p.atom)
  }

  function CodePiece(p: Piece, d: int): (c: Code)
    ensures |c| == LenPiece(p)
    decreases p, 1
  {
    if p.rep == Once then CodeAtom(p.atom, d)
    else if IsSimpleLoop(p) then
      Node(if p.rep == Star then STAR else PLUS, Off(d, LenPiece(p))) + CodeAtom(p.atom, -1)
    else LoopHead(p) + Node(NOTHING, Off(d, 3))
  }

  function CodeBranch(b: Branch, d: int): (c: Code)
    ensures |c| == LenBranch(b)
  {
    match b
    case Empty => Node(NOTHING, Off(d, 3))
    case Cons(p, rest) =>
      if rest.Empty? then CodePiece(p, d) else CodePiece(p, 0) + CodeBranch(rest, d)
  }

  /** The exit of alternative k lies beyond the remaining alternatives. */
  function ExitPast(d: int, rest: Alts): int {
    if d < 0 then -1 else LenAlts(rest) + d
  }

  /** `closed` says whether the last BRANCH is linked to what follows the choice. */
  function CodeAlts(alts: Alts, d: int, closed: bool): (c: Code)
    ensures |c| == LenAlts(alts)
  {
    var n := 3 + LenBranch(alts.branch);
    match alts
    case Last(b) => Node(BRANCH, if closed then n else 0) + CodeBranch(b, d)
    case Or(b, rest) =>
      Node(BRANCH, n) + CodeBranch(b, ExitPast(d, rest)) + CodeAlts(rest, d, closed)
  }

  function CodeProgram(alts: Alts): (c: Code)
    ensures |c| == LenProgram(alts)
  {
    [MAGIC] + CodeAlts(alts, 0, true) + Node(END, 0)
  }

  // ---------- Hooking up a tail ----------

  /** The offset of the node that carries the exit link. */
  function TailAtom(a: Atom): (t: nat)
    ensures t + 3 <= LenAtom(a)
  {
    if a.Group? then LenAtom(a) - 3 else 0
  }

  function TailPiece(p: Piece): (t: nat)
    ensures t + 3 <= LenPiece(p)
  {
    if p.rep == Once then TailAtom(p.atom)
    else if IsSimpleLoop(p) then 0
    else LenPiece(p) - 3
  }

  function TailBranch(b: Branch): (t: nat)
    ensures t + 3 <= LenBranch(b)
  {
    match b
    case Empty => 0
    case Cons(p, rest) => if rest.Empty? then TailPiece(p) else LenPiece(p) + TailBranch(rest)
  }

  lemma {:induction false} SetLinkLater(v: Code, w: Code, n: nat, off: nat)
    requires n + 3 <= |w|
    ensures SetLink(v + w, |v| + n, off) == v + SetLink(w, n, off)
  {
  }

  lemma {:induction false} SetLinkEarlier(v: Code, w: Code, n: nat, off: nat)
    requires n + 3 <= |v|
    ensures SetLink(v + w, n, off) == SetLink(v, n, off) + w
  {
  }

  lemma {:induction false} SetLinkNode(op: int, prev: nat, off: nat, w: Code)
    ensures SetLink(Node(op, prev), 0, off) == Node(op, off)
    ensures SetLink(Node(op, prev) + w, 0, off) == Node(op, off) + w
  {
    SetLinkEarlier(Node(op, prev), w, 0, off);
  }

  lemma {:induction false} HookAtom(a: Atom, d: nat)
    ensures SetLink(CodeAtom(a, -1), TailAtom(a), LenAtom(a) - TailAtom(a) + d) == CodeAtom(a, d)
  {
    hide SetLink, Node, CodeAlts, OperandCells, OpAtom;
    if a.Group? {
      var v := Node(SUB_OPEN + a.no, 3) + CodeAlts(a.alts, 0, true);
      SetLinkLater(v, Node(SUB_CLOSE + a.no, 0), 0, 3 + d);
      SetLinkNode(SUB_CLOSE + a.no, 0, 3 + d, []);
    } else {
      SetLinkNode(OpAtom(a), 0, LenAtom(a) + d, OperandCells(a));
    }
  }

  lemma {:induction false} HookPiece(p: Piece, d: nat)
    ensures SetLink(CodePiece(p, -1), TailPiece(p), LenPiece(p) - TailPiece(p) + d) == CodePiece(p, d)
  {
    hide CodeAtom, SimpleAtom, SetLink, LoopHead, Node, LenAtom, TailAtom;
    if p.rep == Once {
      HookAtom(p.atom, d);
    } else if IsSimpleLoop(p) {
      SetLinkNode(if p.rep == Star then STAR else PLUS, 0, LenPiece(p) + d, CodeAtom(p.atom, -1));
    } else {
      SetLinkLater(LoopHead(p), Node(NOTHING, 0), 0, 3 + d);
      SetLinkNode(NOTHING, 0, 3 + d, []);
    }
  }

  lemma {:induction false} HookBranch(b: Branch, d: nat)
    ensures SetLink(CodeBranch(b, -1), TailBranch(b), LenBranch(b) - TailBranch(b) + d) == CodeBranch(b, d)
  {
    hide CodePiece, LenPiece, TailPiece, SetLink, Node;
    match b
    case Empty =>
      SetLinkNode(NOTHING, 0, 3 + d, []);
    case Cons(p, rest) =>
      if rest.Empty? {
        HookPiece(p, d);
      } else {
        HookBranch(rest, d);
        SetLinkLater(CodePiece(p, 0), CodeBranch(rest, -1), TailBranch(rest), LenBranch(b) - TailBranch(b) + d);
      }
  }

  /** The offset of the last BRANCH of a choice. */
  function LastBranch(alts: Alts): (t: nat)
    ensures t + 3 <= LenAlts(alts)
  {
    match alts
    case Last(_) => 0
    case Or(b, rest) => 3 + LenBranch(b) + LastBranch(rest)
  }

  lemma {:induction false} HookAlts(alts: Alts)
    ensures SetLink(CodeAlts(alts, -1, false), LastBranch(alts), LenAlts(alts) - LastBranch(alts))
            == CodeAlts(alts, -1, true)
  {
    hide Node, CodeBranch, LenBranch, SetLink;
    match alts
    case Last(b) =>
      SetLinkNode(BRANCH, 0, LenAlts(alts), CodeBranch(b, -1));
    case Or(b, rest) =>
      HookAlts(rest);
      SetLinkLater(Node(BRANCH, 3 + LenBranch(b)) + CodeBranch(b, -1), CodeAlts(rest, -1, false),
                   LastBranch(rest), LenAlts(rest) - LastBranch(rest));
  }

  // ---------- Adding at the end ----------

  function SnocBranch(b: Branch, p: Piece): Branch {
    match b
    case Empty => Cons(p, Empty)
    case Cons(q, rest) => Cons(q, SnocBranch(rest, p))
  }

  lemma {:induction false} CodeSnocBranch(b: Branch, p: Piece, d: int)
    requires b.Cons?
    ensures CodeBranch(SnocBranch(b, p), d) == CodeBranch(b, 0) + CodePiece(p, d)
    ensures TailBranch(SnocBranch(b, p)) == LenBranch(b) + TailPiece(p)
  {
    hide CodePiece, LenPiece, TailPiece;
    if b.tail.Cons? {
      CodeSnocBranch(b.tail, p, d);
      assert SnocBranch(b.tail, p).Cons?;
    }
  }

  function SnocAlts(alts: Alts, b: Branch): Alts {
    match alts
    case Last(a) => Or(a, Last(b))
    case Or(a, rest) => Or(a, SnocAlts(rest, b))
  }

  lemma {:induction false} CodeSnocAlts(alts: Alts, b: Branch)
    ensures CodeAlts(SnocAlts(alts, b), -1, false) == CodeAlts(alts, -1, true) + CodeAlts(Last(b), -1, false)
    ensures LastBranch(SnocAlts(alts, b)) == LenAlts(alts)
  {
    hide CodeBranch, LenBranch, Node;
    if alts.Or? {
      CodeSnocAlts(alts.rest, b);
    }
  }

  // ---------- Taking regions apart ----------

  /** The node at n, in a region that stands in c with its exit inside c. */
  lemma {:induction false} NodeHere(c: Code, n: nat, op: int, off: nat)
    requires Here(c, n, Node(op, off)) && Small(c) && n + off <= |c|
    ensures NodeAt(c, n, op, off)
  {
    hide Node;
    LinkRoundTrip(c, n, op, off);
  }

  lemma {:induction false} AtomParts(c: Code, lo: nat, a: Atom, d: int)
    requires Here(c, lo, CodeAtom(a, d)) && Small(c) && lo + LenAtom(a) + d <= |c| && !a.Group?
    ensures NodeAt(c, lo, OpAtom(a), Off(d, LenAtom(a)))
    ensures Here(c, lo + 3, OperandCells(a))
  {
    hide Node, OperandCells, OpAtom;
    HereSplit(c, lo, Node(OpAtom(a), Off(d, LenAtom(a))), OperandCells(a));
    NodeHere(c, lo, OpAtom(a), Off(d, LenAtom(a)));
  }

  lemma {:induction false} GroupParts(c: Code, lo: nat, a: Atom, d: int)
    requires Here(c, lo, CodeAtom(a, d)) && Small(c) && lo + LenAtom(a) + d <= |c| && a.Group?
    ensures NodeAt(c, lo, SUB_OPEN + a.no, 3)
    ensures Here(c, lo + 3, CodeAlts(a.alts, 0, true))
    ensures NodeAt(c, lo + 3 + LenAlts(a.alts), SUB_CLOSE + a.no, Off(d, 3))
  {
    hide Node, CodeAlts, LenAlts;
    var hi := lo + 3 + LenAlts(a.alts);
    HereSplit(c, lo, Node(SUB_OPEN + a.no, 3) + CodeAlts(a.alts, 0, true), Node(SUB_CLOSE + a.no, Off(d, 3)));
    HereSplit(c, lo, Node(SUB_OPEN + a.no, 3), CodeAlts(a.alts, 0, true));
    NodeHere(c, lo, SUB_OPEN + a.no, 3);
    NodeHere(c, hi, SUB_CLOSE + a.no, Off(d, 3));
  }

  lemma {:induction false} SimpleLoopParts(c: Code, lo: nat, p: Piece, d: int)
    requires Here(c, lo, CodePiece(p, d)) && Small(c) && lo + LenPiece(p) + d <= |c| && IsSimpleLoop(p)
    ensures NodeAt(c, lo, if p.rep == Star then STAR else PLUS, Off(d, LenPiece(p)))
    ensures Here(c, lo + 3, CodeAtom(p.atom, -1))
  {
    hide Node, CodeAtom;
    var op := if p.rep == Star then STAR else PLUS;
    HereSplit(c, lo, Node(op, Off(d, LenPiece(p))), CodeAtom(p.atom, -1));
    NodeHere(c, lo, op, Off(d, LenPiece(p)));
  }

  /** A piece compiled by one of the general schemes. */
  predicate IsLoop(p: Piece) {
    p.rep != Once && !IsSimpleLoop(p)
  }

  lemma {:induction false} LoopParts(c: Code, lo: nat, p: Piece, d: int)
    requires Here(c, lo, CodePiece(p, d)) && Small(c) && lo + LenPiece(p) + d <= |c| && IsLoop(p)
    ensures Here(c, lo, LoopHead(p))
    ensures NodeAt(c, lo + LenPiece(p) - 6, BRANCH, 3)
    ensures NodeAt(c, lo + LenPiece(p) - 3, NOTHING, Off(d, 3))
  {
    hide Node, CodeAtom, SimpleAtom;
    var hi := lo + LenPiece(p);
    HereSplit(c, lo, LoopHead(p), Node(NOTHING, Off(d, 3)));
    NodeHere(c, hi - 3, NOTHING, Off(d, 3));
    HereSplit(c, lo, LoopHead(p)[..LenPiece(p) - 6], Node(BRANCH, 3));
    NodeHere(c, hi - 6, BRANCH, 3);
  }

  lemma {:induction false} StarParts(c: Code, lo: nat, p: Piece)
    requires p.rep == Star && Here(c, lo, LoopHead(p)) && Small(c)
    ensures var n := LenAtom(p.atom);
            && NodeAt(c, lo, BRANCH, n + 6)
            && Here(c, lo + 3, CodeAtom(p.atom, 0))
            && NodeAt(c, lo + 3 + n, BACK, n + 3)
  {
    hide Node, CodeAtom, LenAtom;
    var n := LenAtom(p.atom);
    var v := Node(BRANCH, n + 6) + CodeAtom(p.atom, 0);
    HereSplit(c, lo, v + Node(BACK, n + 3), Node(BRANCH, 3));
    HereSplit(c, lo, v, Node(BACK, n + 3));
    HereSplit(c, lo, Node(BRANCH, n + 6), CodeAtom(p.atom, 0));
    NodeHere(c, lo, BRANCH, n + 6);
    LinkRoundTrip(c, lo + 3 + n, BACK, n + 3);
  }

  lemma {:induction false} PlusParts(c: Code, lo: nat, p: Piece)
    requires p.rep == Plus && Here(c, lo, LoopHead(p)) && Small(c)
    ensures var n := LenAtom(p.atom);
            && Here(c, lo, CodeAtom(p.atom, 0))
            && NodeAt(c, lo + n, BRANCH, 6)
            && NodeAt(c, lo + n + 3, BACK, n + 3)
  {
    hide Node, CodeAtom, LenAtom;
    var n := LenAtom(p.atom);
    var v := CodeAtom(p.atom, 0) + Node(BRANCH, 6);
    HereSplit(c, lo, v + Node(BACK, n + 3), Node(BRANCH, 3));
    HereSplit(c, lo, v, Node(BACK, n + 3));
    HereSplit(c, lo, CodeAtom(p.atom, 0), Node(BRANCH, 6));
    NodeHere(c, lo + n, BRANCH, 6);
    LinkRoundTrip(c, lo + n + 3, BACK, n + 3);
  }

  lemma {:induction false} QuestParts(c: Code, lo: nat, p: Piece)
    requires p.rep == Quest && Here(c, lo, LoopHead(p)) && Small(c)
    ensures NodeAt(c, lo, BRANCH, LenAtom(p.atom) + 3)
    ensures Here(c, lo + 3, CodeAtom(p.atom, 3))
  {
    hide Node, CodeAtom, LenAtom;
    var n := LenAtom(p.atom);
    HereSplit(c, lo, Node(BRANCH, n + 3) + CodeAtom(p.atom, 3), Node(BRANCH, 3));
    HereSplit(c, lo, Node(BRANCH, n + 3), CodeAtom(p.atom, 3));
    NodeHere(c, lo, BRANCH, n + 3);
  }

  /** The first alternative of a choice; its BRANCH leads to the next one or past the choice. */
  lemma {:induction false} AltsParts(c: Code, lo: nat, alts: Alts, d: int, closed: bool)
    requires Here(c, lo, CodeAlts(alts, d, closed)) && Small(c)
    ensures var n := 3 + LenBranch(alts.branch);
            && NodeAt(c, lo, BRANCH, if alts.Or? || closed then n else 0)
            && Here(c, lo + 3, CodeBranch(alts.branch, if alts.Or? then ExitPast(d, alts.rest) else d))
            && (alts.Or? ==> Here(c, lo + n, CodeAlts(alts.rest, d, closed)))
  {
    hide Node, CodeBranch, LenBranch, ExitPast;
    var n := 3 + LenBranch(alts.branch);
    var off := if alts.Or? || closed then n else 0;
    var body := CodeBranch(alts.branch, if alts.Or? then ExitPast(d, alts.rest) else d);
    if alts.Or? {
      HereSplit(c, lo, Node(BRANCH, n) + body, CodeAlts(alts.rest, d, closed));
    }
    HereSplit(c, lo, Node(BRANCH, off), body);
    NodeHere(c, lo, BRANCH, off);
  }

  lemma {:induction false} BranchParts(c: Code, lo: nat, b: Branch, d: int)
    requires Here(c, lo, CodeBranch(b, d)) && b.Cons? && b.tail.Cons?
    ensures Here(c, lo, CodePiece(b.head, 0))
    ensures Here(c, lo + LenPiece(b.head), CodeBranch(b.tail, d))
  {
    hide CodePiece, LenPiece;
    HereSplit(c, lo, CodePiece(b.head, 0), CodeBranch(b.tail, d));
  }

  // ---------- Following links ----------

  /** The node at which regtail's walk along the links from p stops. */
  function ChainEnd(c: Code, p: nat): (q: nat)
    requires p + 3 <= |c|
    ensures p <= q && q + 3 <= |c|
    decreases |c| - p
  {
    var off := NextOff(c, p);
    if off == 0 || c[p] == BACK || p + off + 3 > |c| then p else ChainEnd(c, p + off)
  }

  /** Where the walk leads from a region that ends at hi: to its own tail while unlinked. */
  ghost function ExitChain(c: Code, tail: nat, hi: nat, d: int): nat
    requires d >= 0 ==> hi + d + 3 <= |c|
  {
    if d < 0 then tail else ChainEnd(c, hi + d)
  }

  /** A forward node whose link is still null. */
  ghost predicate OpenAt(c: Code, q: nat) {
    q + 3 <= |c| && NextOff(c, q) == 0 && c[q] != BACK
  }

  lemma {:induction false} ChainNode(c: Code, p: nat, op: int, off: nat)
    requires NodeAt(c, p, op, off) && op != BACK && p + off + 3 <= |c|
    ensures ChainEnd(c, p) == if off == 0 then p else ChainEnd(c, p + off)
  {
  }

  lemma {:induction false} ChainAlts(c: Code, lo: nat, alts: Alts, d: int, closed: bool)
    requires Here(c, lo, CodeAlts(alts, d, closed)) && Small(c)
    requires closed ==> lo + LenAlts(alts) + 3 <= |c|
    ensures ChainEnd(c, lo) == if closed then ChainEnd(c, lo + LenAlts(alts)) else lo + LastBranch(alts)
    ensures !closed ==> OpenAt(c, lo + LastBranch(alts))
    decreases alts
  {
    hide CodeAlts, LenBranch, ChainEnd, CodeBranch, NextOff;
    AltsParts(c, lo, alts, d, closed);
    var n := 3 + LenBranch(alts.branch);
    if alts.Or? {
      ChainNode(c, lo, BRANCH, n);
      ChainAlts(c, lo + n, alts.rest, d, closed);
    } else {
      ChainNode(c, lo, BRANCH, if closed then n else 0);
    }
  }

  lemma {:induction false} ChainAtom(c: Code, lo: nat, a: Atom, d: int)
    requires Here(c, lo, CodeAtom(a, d)) && Small(c)
    requires d >= 0 ==> lo + LenAtom(a) + d + 3 <= |c|
    ensures ChainEnd(c, lo) == ExitChain(c, lo + TailAtom(a), lo + LenAtom(a), d)
    ensures d < 0 ==> OpenAt(c, lo + TailAtom(a))
  {
    hide CodeAtom, CodeAlts, LenAlts, OperandCells, ChainEnd;
    if a.Group? {
      GroupParts(c, lo, a, d);
      ChainNode(c, lo, SUB_OPEN + a.no, 3);
      ChainAlts(c, lo + 3, a.alts, 0, true);
      ChainNode(c, lo + 3 + LenAlts(a.alts), SUB_CLOSE + a.no, Off(d, 3));
    } else {
      AtomParts(c, lo, a, d);
      ChainNode(c, lo, OpAtom(a), Off(d, LenAtom(a)));
    }
  }

  lemma {:induction false} ChainLoop(c: Code, lo: nat, p: Piece)
    requires IsLoop(p) && Here(c, lo, LoopHead(p)) && Small(c) && lo + LenPiece(p) <= |c|
    ensures ChainEnd(c, lo) == ChainEnd(c, lo + LenPiece(p) - 6)
  {
    hide CodeAtom, LoopHead, SimpleAtom, LenAtom, ChainEnd;
    var n := LenAtom(p.atom);
    match p.rep
    case Star =>
      StarParts(c, lo, p);
      ChainNode(c, lo, BRANCH, n + 6);
    case Plus =>
      PlusParts(c, lo, p);
      ChainAtom(c, lo, p.atom, 0);
      ChainNode(c, lo + n, BRANCH, 6);
    case Quest =>
      QuestParts(c, lo, p);
      ChainNode(c, lo, BRANCH, n + 3);
  }

  lemma {:induction false} ChainPiece(c: Code, lo: nat, p: Piece, d: int)
    requires Here(c, lo, CodePiece(p, d)) && Small(c)
    requires d >= 0 ==> lo + LenPiece(p) + d + 3 <= |c|
    ensures ChainEnd(c, lo) == ExitChain(c, lo + TailPiece(p), lo + LenPiece(p), d)
    ensures d < 0 ==> OpenAt(c, lo + TailPiece(p))
  {
    hide CodeAtom, LoopHead, SimpleAtom, LenAtom, ChainEnd;
    if p.rep == Once {
      ChainAtom(c, lo, p.atom, d);
    } else if IsSimpleLoop(p) {
      SimpleLoopParts(c, lo, p, d);
      ChainNode(c, lo, if p.rep == Star then STAR else PLUS, Off(d, LenPiece(p)));
    } else {
      LoopParts(c, lo, p, d);
      ChainLoop(c, lo, p);
      ChainNode(c, lo + LenPiece(p) - 6, BRANCH, 3);
      ChainNode(c, lo + LenPiece(p) - 3, NOTHING, Off(d, 3));
    }
  }

  lemma {:induction false} ChainNothing(c: Code, lo: nat, d: int)
    requires Here(c, lo, CodeBranch(Empty, d)) && Small(c) && (d >= 0 ==> lo + 3 + d + 3 <= |c|)
    ensures ChainEnd(c, lo) == ExitChain(c, lo, lo + 3, d) && (d < 0 ==> OpenAt(c, lo))
  {
    hide Node, ChainEnd;
    NodeHere(c, lo, NOTHING, Off(d, 3));
    ChainNode(c, lo, NOTHING, Off(d, 3));
  }

  lemma {:induction false} ChainBranch(c: Code, lo: nat, b: Branch, d: int)
    requires Here(c, lo, CodeBranch(b, d)) && Small(c)
    requires d >= 0 ==> lo + LenBranch(b) + d + 3 <= |c|
    ensures ChainEnd(c, lo) == ExitChain(c, lo + TailBranch(b), lo + LenBranch(b), d)
    ensures d < 0 ==> OpenAt(c, lo + TailBranch(b))
    decreases b
  {
    hide CodePiece, LenPiece, TailPiece, Node, ChainEnd, OpenAt;
    match b
    case Empty =>
      ChainNothing(c, lo, d);
    case Cons(p, rest) =>
      if rest.Empty? {
        ChainPiece(c, lo, p, d);
      } else {
        BranchParts(c, lo, b, d);
        ChainPiece(c, lo, p, 0);
        ChainBranch(c, lo + LenPiece(p), rest, d);
      }
  }
}
