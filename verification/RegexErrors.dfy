/** What is wrong with a pattern that is rejected.

    The error of a rejected pattern names a fault that is there, at a place in the text.
 */
module RegexErrors {
  import opened RegexSyntax
  import opened RegexSemantics

  // ---------- HASWIDTH is exact ----------

  lemma {:induction false} AtomEmpty(a: Atom, n: nat, strict: bool)
    requires WfAtom(a, n) && !HasWidthAtom(a)
    ensures MatchAtom(a, [], 0, strict, 0, 0)
    decreases a
  {
    if a.Group? {
      AltsEmpty(a.alts, n + 1, strict);
    }
  }

  lemma {:induction false} PieceEmpty(p: Piece, n: nat, strict: bool)
    requires WfPiece(p, n) && !HasWidthPiece(p)
    ensures MatchPiece(p, [], 0, strict, 0, 0)
    decreases p
  {
    if p.rep == Once || p.rep == Plus {
      AtomEmpty(p.atom, n, strict);
    }
  }

  lemma {:induction false} BranchEmpty(b: Branch, n: nat, strict: bool)
    requires WfBranch(b, n) && !HasWidthBranch(b)
    ensures MatchBranch(b, [], 0, strict, 0, 0)
    decreases b
  {
    hide MatchPiece, WfPiece, WfPair;
    if b.Cons? {
      PieceEmpty(b.head, n, strict);
      BranchEmpty(b.tail, NextAtom(b.head.atom, n), strict);
    }
  }

  lemma {:induction false} AltsEmpty(alts: Alts, n: nat, strict: bool)
    requires WfAlts(alts, n) && !HasWidthAlts(alts)
    ensures MatchAlts(alts, [], 0, strict, 0, 0)
    decreases alts
  {
    hide MatchBranch, WfBranch;
    if !HasWidthBranch(alts.branch) {
      BranchEmpty(alts.branch, n, strict);
    } else {
      AltsEmpty(alts.rest, NextBranch(alts.branch, n), strict);
    }
  }

  /** a matches the empty stretch at i. */
  ghost predicate MatchesNothing(a: Atom, s: Text, bol: int, strict: bool, i: nat) {
    i <= |s| && MatchAtom(a, s, bol, strict, i, i)
  }

  /** An atom is flagged HASWIDTH exactly if it matches the empty stretch of no subject. */
  lemma {:induction false} WidthIff(a: Atom, n: nat, strict: bool)
    requires WfAtom(a, n)
    ensures HasWidthAtom(a) <==> forall s: Text, bol: int, i: nat :: !MatchesNothing(a, s, bol, strict, i)
  {
    hide MatchAtom, WfAtom, HasWidthAtom;
    if HasWidthAtom(a) {
      forall s: Text, bol: int, i: nat
        ensures !MatchesNothing(a, s, bol, strict, i)
      {
        if MatchesNothing(a, s, bol, strict, i) {
          AtomWidth(a, n, s, bol, strict, i, i);
        }
      }
    } else {
      AtomEmpty(a, n, strict);
      assert MatchesNothing(a, [], 0, strict, 0);
    }
  }

  // ---------- Parentheses ----------

  /** How many opening parentheses there are. */
  function Opens(t: Text): nat {
    if t == [] then 0 else Opens(t[..|t| - 1]) + if t[|t| - 1] == CH_LPAREN then 1 else 0
  }

  lemma {:induction false} OpensConcat(t: Text, u: Text)
    ensures Opens(t + u) == Opens(t) + Opens(u)
    decreases |u|
  {
    if u == [] {
      assert t + u == t;
    } else {
      var u' := u[..|u| - 1];
      OpensConcat(t, u');
      assert (t + u)[..|t + u| - 1] == t + u';
    }
  }

  lemma {:induction false} OpensOne(c: Ch)
    ensures Opens([c]) == if c == CH_LPAREN then 1 else 0
  {
    assert [c][..0] == [];
  }

  /** Every group that is counted has its parenthesis. */
  lemma {:induction false} AtomOpens(a: Atom, n: nat)
    ensures NextAtom(a, n) <= n + Opens(PrintAtom(a))
    decreases a
  {
    if a.Group? {
      AltsOpens(a.alts, n + 1);
      var t := PrintAlts(a.alts);
      OpensOne(CH_LPAREN);
      OpensConcat([CH_LPAREN], t);
      OpensConcat([CH_LPAREN] + t, [CH_RPAREN]);
    }
  }

  lemma {:induction false} BranchOpens(b: Branch, n: nat)
    ensures NextBranch(b, n) <= n + Opens(PrintBranch(b))
    decreases b
  {
    if b.Cons? {
      AtomOpens(b.head.atom, n);
      BranchOpens(b.tail, NextAtom(b.head.atom, n));
      OpensConcat(PrintAtom(b.head.atom), PrintRep(b.head.rep));
      OpensConcat(PrintPiece(b.head), PrintBranch(b.tail));
    }
  }

  lemma {:induction false} AltsOpens(alts: Alts, n: nat)
    ensures NextAlts(alts, n) <= n + Opens(PrintAlts(alts))
    decreases alts
  {
    BranchOpens(alts.branch, n);
    if alts.Or? {
      AltsOpens(alts.rest, NextBranch(alts.branch, n));
      OpensConcat(PrintBranch(alts.branch), [CH_BAR]);
      OpensConcat(PrintBranch(alts.branch) + [CH_BAR], PrintAlts(alts.rest));
    }
  }

  /** The groups counted before place i are no more than the parentheses opened there. */
  ghost predicate Counted(p: Text, i: nat, npar: nat) {
    i <= |p| && npar <= 1 + Opens(p[..i])
  }

  lemma {:induction false} CountedOn(p: Text, i: nat, npar: nat, j: nat, m: nat, t: Text)
    requires Counted(p, i, npar) && i <= j <= |p| && p[i..j] == t && m <= npar + Opens(t)
    ensures Counted(p, j, m)
  {
    assert p[..j] == p[..i] + p[i..j];
    OpensConcat(p[..i], p[i..j]);
  }

  lemma {:induction false} CountedNext(p: Text, i: nat, npar: nat)
    requires Counted(p, i, npar) && i < |p|
    ensures Counted(p, i + 1, npar) && (p[i] == CH_LPAREN ==> Counted(p, i + 1, npar + 1))
  {
    assert p[..i + 1][..i] == p[..i];
  }

  // ---------- Faults ----------

  /** Something that can be repeated only once, up to place k. */
  ghost predicate CouldBeEmpty(p: Text, k: nat) {
    exists i: nat, n: nat, a: Atom :: i < k <= |p| && p[i..k] == PrintAtom(a) && WfAtom(a, n) && !HasWidthAtom(a)
  }

  /** What error e says about place k of the text. */
  ghost predicate Faulty(p: Text, k: nat, e: Error) {
    match e
    // an opening parenthesis, after at least nine others
    case TooManyParens => k < |p| && p[k] == CH_LPAREN && Opens(p[..k]) >= NSUBEXP - 1
    // the end, after an opening parenthesis
    case UnterminatedParen => k == |p| && CH_LPAREN in p
    case UnmatchedParen => k < |p| && p[k] == CH_RPAREN
    // * or + after something that can match nothing
    case OperandCouldBeEmpty => k < |p| && (p[k] == CH_STAR || p[k] == CH_PLUS) && CouldBeEmpty(p, k)
    case NestedRep => k + 1 < |p| && IsRep(p[k]) && IsRep(p[k + 1])
    // a dash between two characters in the wrong order
    case InvalidRange => 0 < k && k + 1 < |p| && p[k] == CH_DASH && p[k - 1] > p[k + 1] && CH_LBRACKET in p[..k]
    case UnmatchedBracket => k == |p| && CH_LBRACKET in p
    // a repetition at the beginning of an alternative
    case RepFollowsNothing => k < |p| && IsRep(p[k]) && Beginning(p, k)
    case TrailingBackslash => k + 1 == |p| && p[k] == CH_BACKSLASH
    case _ => false
  }

  predicate Beginning(p: Text, k: nat) {
    k == 0 || (k <= |p| && (p[k - 1] == CH_LPAREN || p[k - 1] == CH_BAR))
  }

  lemma {:induction false} SetFault(p: Text, k: nat) returns (x: nat)
    requires 0 < k <= |p| && CH_LBRACKET in p[..k] && ScanSet(p, k).Bad?
    ensures Faulty(p, x, ScanSet(p, k).error)
    decreases |p| - k
  {
    var c := At(p, k);
    x := k;
    if c != 0 {
      var hi := At(p, k + 1);
      var step := if c != CH_DASH || hi == CH_RBRACKET || hi == 0 then 1 else 2;
      if !(c == CH_DASH && step == 2 && p[k - 1] > hi) {
        assert p[..k] <= p[..k + step];
        x := SetFault(p, k + step);
      }
    } else {
      assert p[..k] == p;
    }
  }

  lemma {:induction false} AtomFault(p: Text, i: nat, npar: nat) returns (x: nat)
    requires Counted(p, i, npar) && ParseAtom(p, i, npar).Err? && !EndsBranch(At(p, i)) && (IsRep(At(p, i)) ==> Beginning(p, i))
    ensures Faulty(p, x, ParseAtom(p, i, npar).error)
    decreases |p| - i, 0
  {
    hide ScanSet, ParseAlts;
    var c := p[i];
    x := i;
    if c == CH_LBRACKET {
      var start := if At(p, i + 1) == CH_CARET then i + 2 else i + 1;
      var k := start + SetSkip(At(p, start));
      assert p[..k][i] == CH_LBRACKET;
      x := SetFault(p, k);
    } else if c == CH_LPAREN && npar < NSUBEXP {
      CountedNext(p, i, npar);
      if ParseAlts(p, i + 1, npar + 1).Err? {
        x := AltsFault(p, i + 1, npar + 1);
      } else {
        x := |p|;
      }
    }
  }

  lemma {:induction false} PieceFault(p: Text, i: nat, npar: nat) returns (x: nat)
    requires Counted(p, i, npar) && ParsePiece(p, i, npar).Err? && !EndsBranch(At(p, i)) && (IsRep(At(p, i)) ==> Beginning(p, i))
    ensures Faulty(p, x, ParsePiece(p, i, npar).error)
    decreases |p| - i, 1
  {
    hide ParseAtom, WfAtom, PrintAtom, HasWidthAtom;
    var r := ParseAtom(p, i, npar);
    if r.Err? {
      x := AtomFault(p, i, npar);
    } else {
      ParseAtomSound(p, i, npar);
      x := r.pos;
    }
  }

  lemma {:induction false} BranchFault(p: Text, i: nat, npar: nat) returns (x: nat)
    requires Counted(p, i, npar) && ParseBranch(p, i, npar).Err? && (IsRep(At(p, i)) ==> Beginning(p, i))
    ensures Faulty(p, x, ParseBranch(p, i, npar).error)
    decreases |p| - i, 2
  {
    hide ParsePiece, Faulty, Counted, Beginning, PrintPiece;
    assert i <= |p| by { CountedIn(p, i, npar); }
    var q := ParsePiece(p, i, npar);
    if q.Err? {
      x := PieceFault(p, i, npar);
    } else {
      ParsePieceSound(p, i, npar);
      PieceOpens(q.val, npar);
      CountedOn(p, i, npar, q.pos, q.npar, PrintPiece(q.val));
      x := BranchFault(p, q.pos, q.npar);
    }
  }

  lemma {:induction false} CountedIn(p: Text, i: nat, npar: nat)
    requires Counted(p, i, npar)
    ensures i <= |p|
  {
  }

  lemma {:induction false} PieceOpens(q: Piece, n: nat)
    ensures NextAtom(q.atom, n) <= n + Opens(PrintPiece(q))
  {
    AtomOpens(q.atom, n);
    OpensConcat(PrintAtom(q.atom), PrintRep(q.rep));
  }

  lemma {:induction false} AltsFault(p: Text, i: nat, npar: nat) returns (x: nat)
    requires Counted(p, i, npar) && Beginning(p, i) && ParseAlts(p, i, npar).Err?
    ensures Faulty(p, x, ParseAlts(p, i, npar).error)
    decreases |p| - i, 3
  {
    hide ParseBranch, Faulty, Counted, PrintBranch;
    assert i <= |p| by { CountedIn(p, i, npar); }
    var b := ParseBranch(p, i, npar);
    if b.Err? {
      x := BranchFault(p, i, npar);
    } else {
      ParseBranchSound(p, i, npar);
      BranchOpens(b.val, npar);
      CountedOn(p, i, npar, b.pos, b.npar, PrintBranch(b.val));
      CountedNext(p, b.pos, b.npar);
      x := AltsFault(p, b.pos + 1, b.npar);
    }
  }

  /** The error of a rejected pattern is true of some place in it. */
  lemma {:induction false} ErrorIsThere(p: Text) returns (x: nat)
    requires Parse(p).Err?
    ensures Faulty(p, x, Parse(p).error)
  {
    hide ParseAlts;
    var r := ParseAlts(p, 0, 1);
    if r.Err? {
      x := AltsFault(p, 0, 1);
    } else {
      x := r.pos;
    }
  }
}
