/** Pattern text and pattern syntax of the regular-expression library.

    A pattern is a C string: a sequence of non-NUL characters followed by NUL.  `At` reads
    it the way the C code does, giving 0 at the terminator.

    The abstract syntax is stratified the way regcomp's four mutually recursive routines
    are (reg, regbranch, regpiece, regatom), so a tree can be printed back to exactly one
    text.  `ParseAlts` and its friends follow those routines; the theorems at the end of
    the file say that parsing and printing are inverse to each other, which pins down both
    what is accepted and which tree it denotes.
 */
module RegexSyntax {
  import opened Slices

  /** A character of a C string. */
  type Ch = c: int | 0 < c < 256 witness 1

  type Text = seq<Ch>

  datatype Option<T> = None | Some(value: T)

  /** Reads position i of a NUL-terminated text. */
  function At(s: Text, i: nat): int {
    if i < |s| then s[i] else 0
  }

  const CH_DOLLAR: Ch := 36
  const CH_LPAREN: Ch := 40
  const CH_RPAREN: Ch := 41
  const CH_STAR: Ch := 42
  const CH_PLUS: Ch := 43
  const CH_DASH: Ch := 45
  const CH_DOT: Ch := 46
  const CH_QUEST: Ch := 63
  const CH_LBRACKET: Ch := 91
  const CH_BACKSLASH: Ch := 92
  const CH_RBRACKET: Ch := 93
  const CH_CARET: Ch := 94
  const CH_BAR: Ch := 124

  /** NSUBEXP: group numbers run from 1 to NSUBEXP - 1. */
  const NSUBEXP: nat := 10

  /** ISREPN. */
  predicate IsRep(c: int) {
    c == CH_STAR || c == CH_PLUS || c == CH_QUEST
  }

  /** Membership in the META string. */
  predicate IsMeta(c: int) {
    || c == CH_CARET || c == CH_DOLLAR || c == CH_DOT || c == CH_LBRACKET || c == CH_LPAREN
    || c == CH_RPAREN || c == CH_BAR || c == CH_BACKSLASH || IsRep(c)
  }

  // ---------- Abstract syntax ----------

  datatype Rep = Once | Star | Plus | Quest

  /** `Set` keeps the text between the brackets, so that it can be printed back. */
  datatype Atom =
    | Bol
    | Eol
    | Any
    | Set(neg: bool, raw: Text)
    | Group(no: nat, alts: Alts)
    | Quoted(c: Ch)
    | Literal(text: Text)

  datatype Piece = Piece(atom: Atom, rep: Rep)

  datatype Branch = Empty | Cons(head: Piece, tail: Branch)

  datatype Alts = Last(branch: Branch) | Or(branch: Branch, rest: Alts)

  // ---------- The flags passed up by the parser ----------

  /** HASWIDTH: known never to match the empty string. */
  predicate HasWidthAtom(a: Atom) {
    match a
    case Bol => false
    case Eol => false
    case Group(_, alts) => HasWidthAlts(alts)
    case _ => true
  }

  predicate HasWidthPiece(p: Piece) {
    match p.rep
    case Once => HasWidthAtom(p.atom)
    case Plus => true
    case _ => false
  }

  predicate HasWidthBranch(b: Branch) {
    b.Cons? && (HasWidthPiece(b.head) || HasWidthBranch(b.tail))
  }

  predicate HasWidthAlts(alts: Alts) {
    HasWidthBranch(alts.branch) && (alts.Or? ==> HasWidthAlts(alts.rest))
  }

  /** SIMPLE: one character wide, usable as a STAR or PLUS operand. */
  predicate SimpleAtom(a: Atom) {
    match a
    case Any => true
    case Set(_, _) => true
    case Quoted(_) => true
    case Literal(t) => |t| == 1
    case _ => false
  }

  /** SPSTART: starts with * or +. */
  predicate SpStartAtom(a: Atom) {
    a.Group? && SpStartAlts(a.alts)
  }

  predicate SpStartPiece(p: Piece) {
    match p.rep
    case Once => SpStartAtom(p.atom)
    case Quest => false
    case _ => true
  }

  predicate SpStartBranch(b: Branch) {
    b.Cons? && SpStartPiece(b.head)
  }

  predicate SpStartAlts(alts: Alts) {
    SpStartBranch(alts.branch) || (alts.Or? && SpStartAlts(alts.rest))
  }

  // ---------- Bracketed sets ----------

  /** The characters lo, lo+1, ..., hi. */
  function Range(lo: int, hi: int): (r: Text)
    requires 0 < lo && hi < 256
    ensures forall c: Ch :: c in r <==> lo <= c <= hi
    decreases hi - lo + 1
  {
    if lo > hi then [] else [lo as Ch] + Range(lo + 1, hi)
  }

  /** The characters a bracketed set lists, from position k on. */
  function MembersFrom(raw: Text, k: nat): Text
    decreases |raw| - k
  {
    if k >= |raw| then []
    else if raw[k] != CH_DASH then [raw[k]] + MembersFrom(raw, k + 1)
    else if k + 1 == |raw| then [CH_DASH]
    else if k == 0 then MembersFrom(raw, k + 1)
    else Range(raw[k - 1] as int + 1, raw[k + 1]) + MembersFrom(raw, k + 2)
  }

  /** Where the scan proper starts: a leading ] or - is an ordinary member. */
  function SetSkip(c: int): nat {
    if c == CH_RBRACKET || c == CH_DASH then 1 else 0
  }

  function Members(raw: Text): Text {
    var k := SetSkip(At(raw, 0));
    (if k == 1 then [raw[0]] else []) + MembersFrom(raw, k)
  }

  /** Every range in the set runs upwards. */
  predicate RangesOkFrom(raw: Text, k: nat)
    decreases |raw| - k
  {
    if k >= |raw| then true
    else if raw[k] != CH_DASH then RangesOkFrom(raw, k + 1)
    else if k + 1 == |raw| then true
    else k > 0 && raw[k - 1] <= raw[k + 1] && RangesOkFrom(raw, k + 2)
  }

  predicate WfRaw(neg: bool, raw: Text) {
    && |raw| > 0
    && (!neg ==> raw[0] != CH_CARET)
    && CH_RBRACKET !in raw[1..]
    && RangesOkFrom(raw, SetSkip(raw[0]))
  }

  // ---------- Printing ----------

  function PrintRep(r: Rep): Text {
    match r
    case Once => []
    case Star => [CH_STAR]
    case Plus => [CH_PLUS]
    case Quest => [CH_QUEST]
  }

  function PrintAtom(a: Atom): Text {
    match a
    case Bol => [CH_CARET]
    case Eol => [CH_DOLLAR]
    case Any => [CH_DOT]
    case Set(neg, raw) => [CH_LBRACKET] + (if neg then [CH_CARET] else []) + raw + [CH_RBRACKET]
    case Group(_, alts) => [CH_LPAREN] + PrintAlts(alts) + [CH_RPAREN]
    case Quoted(c) => [CH_BACKSLASH, c]
    case Literal(t) => t
  }

  function PrintPiece(p: Piece): Text {
    PrintAtom(p.atom) + PrintRep(p.rep)
  }

  function PrintBranch(b: Branch): Text {
    match b
    case Empty => []
    case Cons(p, rest) => PrintPiece(p) + PrintBranch(rest)
  }

  function PrintAlts(alts: Alts): Text {
    match alts
    case Last(b) => PrintBranch(b)
    case Or(b, rest) => PrintBranch(b) + [CH_BAR] + PrintAlts(rest)
  }

  // ---------- Well-formed trees ----------

  /** The next free group number after a tree whose first group gets number n. */
  function NextAtom(a: Atom, n: nat): (m: nat)
    ensures n <= m
  {
    if a.Group? then NextAlts(a.alts, n + 1) else n
  }

  function NextBranch(b: Branch, n: nat): (m: nat)
    ensures n <= m
  {
    if b.Empty? then n else NextBranch(b.tail, NextAtom(b.head.atom, n))
  }

  function NextAlts(alts: Alts, n: nat): (m: nat)
    ensures n <= m
  {
    var m := NextBranch(alts.branch, n);
    if alts.Last? then m else NextAlts(alts.rest, m)
  }

  predicate WfText(t: Text) {
    |t| > 0 && forall k :: 0 <= k < |t| ==> !IsMeta(t[k])
  }

  /** Groups are numbered from n in order of their opening parentheses, at most nine of them. */
  predicate WfAtom(a: Atom, n: nat) {
    match a
    case Set(neg, raw) => WfRaw(neg, raw)
    case Group(no, alts) => no == n < NSUBEXP && WfAlts(alts, n + 1)
    case Literal(t) => WfText(t)
    case _ => true
  }

  predicate WfPiece(p: Piece, n: nat) {
    && WfAtom(p.atom, n)
    && (p.rep == Star || p.rep == Plus ==> HasWidthAtom(p.atom))
    && (p.rep != Once && p.atom.Literal? ==> |p.atom.text| == 1)
  }

  /** Literals are gathered into runs as long as possible, except that a repeated character
      stands alone. */
  predicate WfPair(p: Piece, next: Piece) {
    p.atom.Literal? && p.rep == Once && next.atom.Literal? ==> next.rep != Once
  }

  predicate WfBranch(b: Branch, n: nat) {
    b.Cons? ==>
      && WfPiece(b.head, n)
      && WfBranch(b.tail, NextAtom(b.head.atom, n))
      && (b.tail.Cons? ==> WfPair(b.head, b.tail.head))
  }

  predicate WfAlts(alts: Alts, n: nat) {
    && WfBranch(alts.branch, n)
    && (alts.Or? ==> WfAlts(alts.rest, NextBranch(alts.branch, n)))
  }

  // ---------- Parsing ----------

  datatype Error =
    | TooManyParens
    | UnterminatedParen
    | UnmatchedParen
    | OperandCouldBeEmpty
    | NestedRep
    | InvalidRange
    | UnmatchedBracket
    | RepFollowsNothing
    | TrailingBackslash
    | TooBig
    | Internal

  datatype Parsed<T> = Ok(val: T, pos: nat, npar: nat) | Err(error: Error)

  datatype Scanned = End(pos: nat) | Bad(error: Error)

  /** The loop over the members of a bracketed set: finds the closing bracket. */
  function ScanSet(p: Text, k: nat): (r: Scanned)
    requires 0 < k <= |p|
    ensures r.End? ==> k <= r.pos < |p|
    decreases |p| - k
  {
    var c := At(p, k);
    if c == 0 then Bad(UnmatchedBracket)
    else if c == CH_RBRACKET then End(k)
    else if c != CH_DASH then ScanSet(p, k + 1)
    else
      var hi := At(p, k + 1);
      if hi == CH_RBRACKET || hi == 0 then ScanSet(p, k + 1)
      else if p[k - 1] > hi then Bad(InvalidRange)
      else ScanSet(p, k + 2)
  }

  /** The bracket case of regatom; i is just past the opening bracket. */
  function ParseSet(p: Text, i: nat, npar: nat): (r: Parsed<Atom>)
    requires 0 < i <= |p|
    ensures r.Ok? ==> i < r.pos <= |p| && r.npar == npar && r.val.Set?
  {
    var neg := At(p, i) == CH_CARET;
    var start := if neg then i + 1 else i;
    var k := start + SetSkip(At(p, start));
    match ScanSet(p, k)
    case Bad(e) => Err(e)
    case End(e) => Ok(Set(neg, p[start..e]), e + 1, npar)
  }

  /** strcspn(p + i, META). */
  function RunLength(p: Text, i: nat): (n: nat)
    requires i <= |p|
    ensures i + n <= |p|
    ensures forall k :: i <= k < i + n ==> !IsMeta(p[k])
    ensures i + n == |p| || IsMeta(p[i + n])
    decreases |p| - i
  {
    if i == |p| || IsMeta(p[i]) then 0 else 1 + RunLength(p, i + 1)
  }

  /** The number of ordinary characters gathered into one literal at i. */
  function LiteralLength(p: Text, i: nat): (n: nat)
    requires i < |p| && !IsMeta(p[i])
    ensures 0 < n <= RunLength(p, i)
  {
    var n := RunLength(p, i);
    if n > 1 && IsRep(At(p, i + n)) then n - 1 else n
  }

  function RepOf(c: int): Rep {
    if c == CH_STAR then Star else if c == CH_PLUS then Plus else if c == CH_QUEST then Quest else Once
  }

  function ParseAtom(p: Text, i: nat, npar: nat): (r: Parsed<Atom>)
    requires i <= |p|
    ensures r.Ok? ==> i < r.pos <= |p| && npar <= r.npar
    decreases |p| - i, 0
  {
    var c := At(p, i);
    if c == CH_CARET then Ok(Bol, i + 1, npar)
    else if c == CH_DOLLAR then Ok(Eol, i + 1, npar)
    else if c == CH_DOT then Ok(Any, i + 1, npar)
    else if c == CH_LBRACKET then ParseSet(p, i + 1, npar)
    else if c == CH_LPAREN then
      if npar >= NSUBEXP then Err(TooManyParens)
      else
        match ParseAlts(p, i + 1, npar + 1)
        case Err(e) => Err(e)
        case Ok(alts, j, m) =>
          if At(p, j) != CH_RPAREN then Err(UnterminatedParen) else Ok(Group(npar, alts), j + 1, m)
    else if c == 0 || c == CH_BAR || c == CH_RPAREN then Err(Internal)
    else if IsRep(c) then Err(RepFollowsNothing)
    else if c == CH_BACKSLASH then
      if At(p, i + 1) == 0 then Err(TrailingBackslash) else Ok(Quoted(p[i + 1]), i + 2, npar)
    else
      var n := LiteralLength(p, i);
      Ok(Literal(p[i..i + n]), i + n, npar)
  }

  function ParsePiece(p: Text, i: nat, npar: nat): (r: Parsed<Piece>)
    requires i <= |p|
    ensures r.Ok? ==> i < r.pos <= |p| && npar <= r.npar
    decreases |p| - i, 1
  {
    match ParseAtom(p, i, npar)
    case Err(e) => Err(e)
    case Ok(a, j, m) =>
      var op := At(p, j);
      if !IsRep(op) then Ok(Piece(a, Once), j, m)
      else if !HasWidthAtom(a) && op != CH_QUEST then Err(OperandCouldBeEmpty)
      else if IsRep(At(p, j + 1)) then Err(NestedRep)
      else Ok(Piece(a, RepOf(op)), j + 1, m)
  }

  /** What ends the loop of regbranch. */
  predicate EndsBranch(c: int) {
    c == 0 || c == CH_BAR || c == CH_RPAREN
  }

  function ParseBranch(p: Text, i: nat, npar: nat): (r: Parsed<Branch>)
    requires i <= |p|
    ensures r.Ok? ==> i <= r.pos <= |p| && npar <= r.npar && EndsBranch(At(p, r.pos))
    decreases |p| - i, 2
  {
    if EndsBranch(At(p, i)) then Ok(Empty, i, npar)
    else
      match ParsePiece(p, i, npar)
      case Err(e) => Err(e)
      case Ok(q, j, m) =>
        match ParseBranch(p, j, m)
        case Err(e) => Err(e)
        case Ok(rest, k, n) => Ok(Cons(q, rest), k, n)
  }

  function ParseAlts(p: Text, i: nat, npar: nat): (r: Parsed<Alts>)
    requires i <= |p|
    ensures r.Ok? ==> i <= r.pos <= |p| && npar <= r.npar && (r.pos == |p| || p[r.pos] == CH_RPAREN)
    decreases |p| - i, 3
  {
    match ParseBranch(p, i, npar)
    case Err(e) => Err(e)
    case Ok(b, j, m) =>
      if At(p, j) != CH_BAR then Ok(Last(b), j, m)
      else
        match ParseAlts(p, j + 1, m)
        case Err(e) => Err(e)
        case Ok(rest, k, n) => Ok(Or(b, rest), k, n)
  }

  /** A whole pattern: reg called with paren = 0. */
  function Parse(p: Text): (r: Parsed<Alts>)
    ensures r.Ok? ==> r.pos == |p|
  {
    match ParseAlts(p, 0, 1)
    case Err(e) => Err(e)
    case Ok(alts, j, m) => if j < |p| then Err(UnmatchedParen) else Ok(alts, j, m)
  }

  // ---------- Parsing only accepts printed trees ----------

  lemma {:induction false} ScanSetSound(p: Text, start: nat, k: nat)
    requires start <= k <= |p| && 0 < k
    requires start == k ==> At(p, k) != CH_DASH
    requires ScanSet(p, k).End?
    ensures var e := ScanSet(p, k).pos;
            p[e] == CH_RBRACKET && CH_RBRACKET !in p[k..e] && RangesOkFrom(p[start..e], k - start)
    decreases |p| - k
  {
    var e := ScanSet(p, k).pos;
    var raw := p[start..e];
    if At(p, k) != CH_RBRACKET {
      var step := if At(p, k) != CH_DASH || At(p, k + 1) == CH_RBRACKET then 1 else 2;
      ScanSetSound(p, start, k + step);
      assert p[k..e] == p[k..k + step] + p[k + step..e];
    }
  }

  lemma {:induction false} SetTextSound(p: Text, neg: bool, start: nat)
    requires 0 < start <= |p| && (!neg ==> At(p, start) != CH_CARET)
    requires ScanSet(p, start + SetSkip(At(p, start))).End?
    ensures var e := ScanSet(p, start + SetSkip(At(p, start))).pos;
            start <= e && p[e] == CH_RBRACKET && WfRaw(neg, p[start..e])
  {
    var k := start + SetSkip(At(p, start));
    ScanSetSound(p, start, k);
    var e := ScanSet(p, k).pos;
    if k == start {
      assert p[start..e][1..] == p[k..e][1..];
    } else {
      assert p[start..e][1..] == p[k..e];
    }
  }

  lemma {:induction false} ParseSetSound(p: Text, i: nat, npar: nat)
    requires 0 < i <= |p| && p[i - 1] == CH_LBRACKET
    requires ParseSet(p, i, npar).Ok?
    ensures var r := ParseSet(p, i, npar);
            WfAtom(r.val, npar) && p[i - 1..r.pos] == PrintAtom(r.val)
  {
    hide ScanSet, WfRaw;
    var neg := At(p, i) == CH_CARET;
    var start := if neg then i + 1 else i;
    SetTextSound(p, neg, start);
    var e := ScanSet(p, start + SetSkip(At(p, start))).pos;
    SetTextSplits(p, i, start, e);
  }

  lemma {:induction false} SetTextSplits(p: Text, i: nat, start: nat, e: nat)
    requires 0 < i <= start <= e < |p| && start <= i + 1 && p[i - 1] == CH_LBRACKET && p[e] == CH_RBRACKET
    requires start > i ==> p[i] == CH_CARET
    ensures p[i - 1..e + 1] == [CH_LBRACKET] + (if start > i then [CH_CARET] else []) + p[start..e] + [CH_RBRACKET]
  {
  }

  lemma {:induction false} ParseAtomSound(p: Text, i: nat, npar: nat)
    requires i <= |p| && ParseAtom(p, i, npar).Ok?
    ensures var r := ParseAtom(p, i, npar);
            WfAtom(r.val, npar) && p[i..r.pos] == PrintAtom(r.val) && r.npar == NextAtom(r.val, npar)
    decreases |p| - i, 0
  {
    hide ParseSet, WfRaw, RunLength, ParseBranch;
    var c := At(p, i);
    if c == CH_LBRACKET {
      ParseSetSound(p, i + 1, npar);
    } else if c == CH_LPAREN {
      ParseAltsSound(p, i + 1, npar + 1);
      var j := ParseAlts(p, i + 1, npar + 1).pos;
      assert p[i..j + 1] == [CH_LPAREN] + p[i + 1..j] + [CH_RPAREN];
    }
  }

  lemma {:induction false} ParsePieceSound(p: Text, i: nat, npar: nat)
    requires i <= |p| && ParsePiece(p, i, npar).Ok?
    ensures var r := ParsePiece(p, i, npar);
            WfPiece(r.val, npar) && p[i..r.pos] == PrintPiece(r.val) && r.npar == NextAtom(r.val.atom, npar)
    ensures !IsRep(At(p, ParsePiece(p, i, npar).pos))
    decreases |p| - i, 1
  {
    ParseAtomSound(p, i, npar);
    var j := ParseAtom(p, i, npar).pos;
    if IsRep(At(p, j)) {
      assert p[i..j + 1] == p[i..j] + [p[j]];
    }
  }

  /** Two literals in a row only arise by backing off a repeated character. */
  lemma {:induction false} LiteralPair(p: Text, i: nat, npar: nat, j: nat, n: nat)
    requires i <= |p| && j <= |p| && ParsePiece(p, i, npar).Ok? && ParsePiece(p, j, n).Ok?
    requires ParsePiece(p, i, npar).pos == j
    ensures WfPair(ParsePiece(p, i, npar).val, ParsePiece(p, j, n).val)
  {
    var q := ParsePiece(p, i, npar).val;
    if q.atom.Literal? && q.rep == Once && j < |p| && !IsMeta(p[j]) {
      assert j == i + RunLength(p, i) - 1;
      assert RunLength(p, j) == 1;
    }
  }

  lemma {:induction false} ParseBranchSound(p: Text, i: nat, npar: nat)
    requires i <= |p| && ParseBranch(p, i, npar).Ok?
    ensures var r := ParseBranch(p, i, npar);
            WfBranch(r.val, npar) && p[i..r.pos] == PrintBranch(r.val) && r.npar == NextBranch(r.val, npar)
    decreases |p| - i, 2
  {
    hide ParsePiece, WfPiece, PrintPiece, WfPair, NextAtom;
    if !EndsBranch(At(p, i)) {
      var q := ParsePiece(p, i, npar);
      var rest := ParseBranch(p, q.pos, q.npar);
      assert WfPiece(q.val, npar) && p[i..q.pos] == PrintPiece(q.val) && q.npar == NextAtom(q.val.atom, npar) by {
        ParsePieceSound(p, i, npar);
      }
      ParseBranchSound(p, q.pos, q.npar);
      assert rest.val.Cons? ==> WfPair(q.val, rest.val.head) by {
        if rest.val.Cons? {
          LiteralPair(p, i, npar, q.pos, q.npar);
        }
      }
      assert p[i..rest.pos] == p[i..q.pos] + p[q.pos..rest.pos];
    }
  }

  lemma {:induction false} ParseAltsSound(p: Text, i: nat, npar: nat)
    requires i <= |p| && ParseAlts(p, i, npar).Ok?
    ensures var r := ParseAlts(p, i, npar);
            WfAlts(r.val, npar) && p[i..r.pos] == PrintAlts(r.val) && r.npar == NextAlts(r.val, npar)
    decreases |p| - i, 3
  {
    hide ParseBranch, WfBranch;
    ParseBranchSound(p, i, npar);
    var j := ParseBranch(p, i, npar).pos;
    if At(p, j) == CH_BAR {
      ParseAltsSound(p, j + 1, ParseBranch(p, i, npar).npar);
      var r := ParseAlts(p, i, npar);
      assert p[i..r.pos] == p[i..j] + [CH_BAR] + p[j + 1..r.pos];
    }
  }

  // ---------- Every well-formed tree is parsed back from its text ----------

  /** What follows a literal of the given length does not extend it. */
  predicate LiteralStops(p: Text, len: nat, j: nat) {
    || ((At(p, j) == 0 || IsMeta(At(p, j))) && (len > 1 ==> !IsRep(At(p, j))))
    || (At(p, j) != 0 && !IsMeta(At(p, j)) && IsRep(At(p, j + 1)))
  }

  lemma {:induction false} RunLengthIs(p: Text, i: nat, n: nat)
    requires i + n <= |p| && (forall k :: i <= k < i + n ==> !IsMeta(p[k]))
    requires i + n == |p| || IsMeta(p[i + n])
    ensures RunLength(p, i) == n
  {
  }

  lemma {:induction false} ParseLiteralComplete(t: Text, p: Text, i: nat, n: nat)
    requires WfText(t) && Here(p, i, t) && LiteralStops(p, |t|, i + |t|)
    ensures ParseAtom(p, i, n) == Ok(Literal(t), i + |t|, n)
  {
    var j := i + |t|;
    assert forall k :: i <= k < j ==> p[k] == t[k - i] && !IsMeta(p[k]);
    if At(p, j) == 0 || IsMeta(At(p, j)) {
      RunLengthIs(p, i, |t|);
    } else {
      RunLengthIs(p, i, |t| + 1);
    }
    assert !IsMeta(p[i]) && LiteralLength(p, i) == |t|;
  }

  lemma {:induction false} ScanSetComplete(p: Text, start: nat, e: nat, k: nat)
    requires start <= k <= e < |p| && 0 < k && p[e] == CH_RBRACKET
    requires CH_RBRACKET !in p[k..e] && RangesOkFrom(p[start..e], k - start)
    ensures ScanSet(p, k) == End(e)
    decreases e - k
  {
    var raw := p[start..e];
    if k < e {
      assert p[k] in p[k..e] && raw[k - start] == p[k];
      var step := if p[k] != CH_DASH || k + 1 == e then 1 else 2;
      if step == 2 {
        assert p[k + 1] in p[k..e] && raw[k + 1 - start] == p[k + 1] && raw[k - 1 - start] == p[k - 1];
      }
      assert CH_RBRACKET !in p[k + step..e] by {
        assert p[k..e] == p[k..k + step] + p[k + step..e];
      }
      ScanSetComplete(p, start, e, k + step);
    }
  }

  /** The members of a printed set stand between its brackets. */
  lemma {:induction false} SetStands(neg: bool, raw: Text, p: Text, i: nat)
    requires Here(p, i, PrintAtom(Set(neg, raw))) && raw != []
    ensures var start := if neg then i + 2 else i + 1; var e := start + |raw|;
      && e < |p| && p[start..e] == raw && p[e] == CH_RBRACKET && p[start] == raw[0] && (neg ==> p[i + 1] == CH_CARET)
      && |PrintAtom(Set(neg, raw))| == e + 1 - i
  {
    var pre: Text := [CH_LBRACKET] + if neg then [CH_CARET] else [];
    assert PrintAtom(Set(neg, raw)) == pre + raw + [CH_RBRACKET];
    HereSplit(p, i, pre + raw, [CH_RBRACKET]);
    HereSplit(p, i, pre, raw);
    HereAt(p, i + |pre| + |raw|, [CH_RBRACKET], 0);
    HereAt(p, i + |pre|, raw, 0);
    if neg {
      HereAt(p, i, pre, 1);
    }
  }

  lemma {:induction false} ParseSetComplete(neg: bool, raw: Text, p: Text, i: nat, n: nat)
    requires WfRaw(neg, raw) && Here(p, i, PrintAtom(Set(neg, raw)))
    ensures ParseSet(p, i + 1, n) == Ok(Set(neg, raw), i + |PrintAtom(Set(neg, raw))|, n)
  {
    hide Here, PrintAtom, ScanSet;
    SetStands(neg, raw, p, i);
    var start := if neg then i + 2 else i + 1;
    var e := start + |raw|;
    var k := start + SetSkip(raw[0]);
    assert CH_RBRACKET !in p[k..e] by {
      if k == start {
        assert p[k..e] == [raw[0]] + raw[1..];
      } else {
        assert p[k..e] == raw[1..];
      }
    }
    ScanSetComplete(p, start, e, k);
  }

  lemma {:induction false} ParseAtomComplete(a: Atom, p: Text, i: nat, n: nat)
    requires WfAtom(a, n) && Here(p, i, PrintAtom(a))
    requires a.Literal? ==> LiteralStops(p, |a.text|, i + |a.text|)
    ensures ParseAtom(p, i, n) == Ok(a, i + |PrintAtom(a)|, NextAtom(a, n))
    decreases a
  {
    hide ParseAlts, ParseSet, RunLength, WfAlts;
    assert |PrintAtom(a)| > 0;
    HereAt(p, i, PrintAtom(a), 0);
    match a
    case Literal(t) =>
      ParseLiteralComplete(t, p, i, n);
    case Set(neg, raw) =>
      ParseSetComplete(neg, raw, p, i, n);
    case Quoted(c) =>
      HereAt(p, i, PrintAtom(a), 1);
    case Group(_, alts) =>
      var inner := PrintAlts(alts);
      HereSplit(p, i, [CH_LPAREN] + inner, [CH_RPAREN]);
      HereSplit(p, i, [CH_LPAREN], inner);
      HereAt(p, i + 1 + |inner|, [CH_RPAREN], 0);
      ParseAltsComplete(alts, p, i + 1, n + 1);
    case _ =>
  }

  lemma {:induction false} ParsePieceComplete(q: Piece, p: Text, i: nat, n: nat)
    requires WfPiece(q, n) && Here(p, i, PrintPiece(q)) && !IsRep(At(p, i + |PrintPiece(q)|))
    requires q.rep == Once && q.atom.Literal? ==> LiteralStops(p, |q.atom.text|, i + |PrintPiece(q)|)
    ensures ParsePiece(p, i, n) == Ok(q, i + |PrintPiece(q)|, NextAtom(q.atom, n))
    decreases q
  {
    var j := i + |PrintAtom(q.atom)|;
    HereSplit(p, i, PrintAtom(q.atom), PrintRep(q.rep));
    if q.rep != Once {
      HereAt(p, j, PrintRep(q.rep), 0);
      assert IsRep(At(p, j));
    }
    ParseAtomComplete(q.atom, p, i, n);
    ParsePieceFrom(p, i, n, ParseAtom(p, i, n));
  }

  lemma {:induction false} ParsePieceFrom(p: Text, i: nat, n: nat, a: Parsed<Atom>)
    requires i <= |p| && a.Ok? && a == ParseAtom(p, i, n)
    requires var op := At(p, a.pos);
             if IsRep(op) then (HasWidthAtom(a.val) || op == CH_QUEST) && !IsRep(At(p, a.pos + 1)) else true
    ensures var rep := RepOf(At(p, a.pos));
            ParsePiece(p, i, n) == Ok(Piece(a.val, rep), a.pos + |PrintRep(rep)|, a.npar)
  {
  }

  /** The first character of a printed piece, and the second one if the piece is a repeated
      literal. */
  lemma {:induction false} PieceStart(q: Piece, n: nat, p: Text, i: nat)
    requires WfPiece(q, n) && Here(p, i, PrintPiece(q))
    ensures At(p, i) != 0 && !IsRep(At(p, i)) && !EndsBranch(At(p, i))
    ensures q.atom.Literal? <==> !IsMeta(At(p, i))
    ensures q.atom.Literal? && q.rep != Once ==> IsRep(At(p, i + 1))
  {
    assert |PrintAtom(q.atom)| > 0;
    HereAt(p, i, PrintPiece(q), 0);
    if q.atom.Literal? && q.rep != Once {
      HereAt(p, i, PrintPiece(q), 1);
    }
  }

  /** What follows a piece in a branch neither repeats it nor extends its literal. */
  lemma {:induction false} PieceStops(q: Piece, rest: Branch, n: nat, p: Text, j: nat)
    requires WfBranch(Cons(q, rest), n) && Here(p, j, PrintBranch(rest))
    requires rest.Empty? ==> EndsBranch(At(p, j))
    ensures !IsRep(At(p, j))
    ensures q.rep == Once && q.atom.Literal? ==> LiteralStops(p, |q.atom.text|, j)
  {
    if rest.Cons? {
      HereSplit(p, j, PrintPiece(rest.head), PrintBranch(rest.tail));
      PieceStart(rest.head, NextAtom(q.atom, n), p, j);
    }
  }

  lemma {:induction false} ParseBranchComplete(b: Branch, p: Text, i: nat, n: nat)
    requires WfBranch(b, n) && Here(p, i, PrintBranch(b)) && EndsBranch(At(p, i + |PrintBranch(b)|))
    ensures ParseBranch(p, i, n) == Ok(b, i + |PrintBranch(b)|, NextBranch(b, n))
    decreases b
  {
    hide ParsePiece, ParseAtom, ParseAlts, PrintPiece, WfPiece, WfPair, LiteralStops, IsRep;
    match b
    case Empty =>
    case Cons(q, rest) =>
      var j := i + |PrintPiece(q)|;
      HereSplit(p, i, PrintPiece(q), PrintBranch(rest));
      PieceStart(q, n, p, i);
      PieceStops(q, rest, n, p, j);
      ParsePieceComplete(q, p, i, n);
      ParseBranchComplete(rest, p, j, NextAtom(q.atom, n));
  }

  predicate EndsAlts(c: int) {
    c == 0 || c == CH_RPAREN
  }

  lemma {:induction false} OrText(b: Branch, rest: Alts, p: Text, i: nat)
    requires Here(p, i, PrintAlts(Or(b, rest)))
    ensures var j := i + |PrintBranch(b)|;
            && Here(p, i, PrintBranch(b)) && At(p, j) == CH_BAR && Here(p, j + 1, PrintAlts(rest))
            && i + |PrintAlts(Or(b, rest))| == j + 1 + |PrintAlts(rest)|
  {
    var w := PrintBranch(b);
    HereSplit(p, i, w + [CH_BAR], PrintAlts(rest));
    HereSplit(p, i, w, [CH_BAR]);
    HereAt(p, i + |w|, [CH_BAR], 0);
  }

  lemma {:induction false} ParseAltsComplete(alts: Alts, p: Text, i: nat, n: nat)
    requires WfAlts(alts, n) && Here(p, i, PrintAlts(alts)) && EndsAlts(At(p, i + |PrintAlts(alts)|))
    ensures ParseAlts(p, i, n) == Ok(alts, i + |PrintAlts(alts)|, NextAlts(alts, n))
    decreases alts
  {
    hide ParseBranch, ParsePiece, ParseAtom;
    match alts
    case Last(b) =>
      ParseBranchComplete(b, p, i, n);
    case Or(b, rest) =>
      OrText(b, rest, p, i);
      ParseBranchComplete(b, p, i, n);
      ParseAltsComplete(rest, p, i + |PrintBranch(b)| + 1, NextBranch(b, n));
  }

  /** The accepted patterns are exactly the texts of the well-formed trees, and the tree is
      the one the pattern is the text of. */
  lemma {:induction false} ParseIsInverseOfPrint(p: Text, alts: Alts)
    ensures Parse(p).Ok? && Parse(p).val == alts <==> WfAlts(alts, 1) && PrintAlts(alts) == p
  {
    if Parse(p).Ok? && Parse(p).val == alts {
      ParseAltsSound(p, 0, 1);
    }
    if WfAlts(alts, 1) && PrintAlts(alts) == p {
      assert p[0..|p|] == p;
      ParseAltsComplete(alts, p, 0, 1);
    }
  }
}
