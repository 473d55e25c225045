/** regexec against its reference: try every position in order. */
module RegexSearch {
  import opened RegexSyntax
  import opened RegexCode
  import opened RegexSemantics
  import opened RegexRank
  import opened RegexMatch
  import opened RegexHints
  import opened RegexComp
  import opened RegexExec
  import opened CStrings

  /** A match: where it starts and how it goes on. */
  datatype Hit = Hit(start: nat, way: Way)

  /** The first position from i on at which the pattern can match, with its first way. */
  function FirstHit(alts: Alts, s: Text, bol: int, i: nat): Option<Hit>
    requires i <= |s|
    decreases |s| - i
  {
    var ws := WaysAlts(alts, s, bol, i);
    if ws != [] then Some(Hit(i, ws[0])) else if i < |s| then FirstHit(alts, s, bol, i + 1) else None
  }

  /** Nothing matches from i up to, but not including, k. */
  ghost predicate NoneUpTo(alts: Alts, s: Text, bol: int, i: nat, k: nat) {
    forall x :: i <= x < k ==> WaysAlts(alts, s, bol, x) == []
  }

  lemma {:induction false} SkipTo(alts: Alts, s: Text, bol: int, i: nat, k: nat)
    requires i <= k <= |s| && NoneUpTo(alts, s, bol, i, k)
    ensures FirstHit(alts, s, bol, i) == FirstHit(alts, s, bol, k)
    decreases k - i
  {
    hide WaysAlts;
    if i < k {
      SkipTo(alts, s, bol, i + 1, k);
    }
  }

  lemma {:induction false} NoHit(alts: Alts, s: Text, bol: int, i: nat)
    requires i <= |s| && NoneUpTo(alts, s, bol, i, |s| + 1)
    ensures FirstHit(alts, s, bol, i) == None
  {
    hide WaysAlts;
    SkipTo(alts, s, bol, i, |s|);
  }

  /** What regexec reports: success, and the boundary arrays on success. */
  ghost predicate Reports(ex: Exec, hit: Option<Hit>, ok: bool)
    reads ex, ex.startp, ex.endp
  {
    && ex.Shape() && ok == hit.Some?
    && (ok ==> ex.Records(Whole(hit.value.start, hit.value.way)))
  }

  /** The matcher object for a compiled pattern. */
  ghost predicate Loaded(ex: Exec, alts: Alts) {
    && ex.Shape() && WfAlts(alts, 1) && LenProgram(alts) < 0x7fff
    && ex.program == CodeProgram(alts) && ex.ranks == RankProgram(alts)
  }

  /** regtry in terms of the pattern. */
  method TryAt(ex: Exec, i: nat, ghost alts: Alts) returns (ok: bool)
    requires Loaded(ex, alts) && i <= |ex.subject|
    modifies ex`reginput, ex.startp, ex.endp
    ensures var ws := WaysAlts(alts, ex.subject, ex.regbol, i);
            ok == (ws != []) && (ok ==> ex.Records(Whole(i, ws[0])))
  {
    hide Run, WaysAlts, CodeProgram, RankProgram, WfAlts;
    RunProgram(alts, ex.subject, ex.regbol, i);
    ok := ex.RegTry(i);
  }

  /** The loop for patterns whose first character is known, from its strchr step on. */
  method SearchFrom(ex: Exec, regstart: Ch, from: nat, ghost alts: Alts) returns (ok: bool)
    requires Loaded(ex, alts) && from <= |ex.subject| && regstart == StartHint(alts)
    modifies ex`reginput, ex.startp, ex.endp
    ensures Reports(ex, FirstHit(alts, ex.subject, ex.regbol, from), ok)
  {
    hide WaysAlts, StartHint, FirstHit;
    ghost var s, bol := ex.subject, ex.regbol;
    var k := StrChr(ex.subject, from, regstart);
    NoneBetween(alts, s, bol, regstart, from, if k == -1 then |s| + 1 else k);
    while k != -1
      invariant k == -1 || from <= k < |s|
      invariant NoneUpTo(alts, s, bol, from, if k == -1 then |s| + 1 else k)
      decreases if k == -1 then 0 else |s| + 1 - k
    {
      ok := TryAt(ex, k, alts);
      if ok {
        SkipTo(alts, s, bol, from, k);
        HitAt(alts, s, bol, k);
        return;
      }
      var next := StrChr(ex.subject, k + 1, regstart);
      NoneBetween(alts, s, bol, regstart, k + 1, if next == -1 then |s| + 1 else next);
      k := next;
    }
    NoHit(alts, s, bol, from);
    ok := false;
  }

  lemma {:induction false} HitAt(alts: Alts, s: Text, bol: int, k: nat)
    requires k <= |s| && WaysAlts(alts, s, bol, k) != []
    ensures FirstHit(alts, s, bol, k) == Some(Hit(k, WaysAlts(alts, s, bol, k)[0]))
  {
    hide WaysAlts;
  }

  /** Positions without the start character can be skipped. */
  lemma {:induction false} NoneBetween(alts: Alts, s: Text, bol: int, regstart: Ch, from: nat, next: nat)
    requires next <= |s| + 1 && regstart == StartHint(alts)
    requires forall x :: from <= x < next && x < |s| ==> s[x] != regstart
    ensures NoneUpTo(alts, s, bol, from, next)
  {
    hide WaysAlts, StartHint;
    forall x | from <= x < next ensures WaysAlts(alts, s, bol, x) == [] {
      StartRulesOut(alts, s, bol, x);
    }
  }

  /** The loop for the general case. */
  method SearchAll(ex: Exec, ghost alts: Alts) returns (ok: bool)
    requires Loaded(ex, alts)
    modifies ex`reginput, ex.startp, ex.endp
    ensures Reports(ex, FirstHit(alts, ex.subject, ex.regbol, 0), ok)
  {
    hide WaysAlts, FirstHit;
    ghost var s, bol := ex.subject, ex.regbol;
    var k := 0;
    while true
      invariant k <= |s| && NoneUpTo(alts, s, bol, 0, k)
      decreases |s| - k
    {
      ok := TryAt(ex, k, alts);
      if ok {
        SkipTo(alts, s, bol, 0, k);
        HitAt(alts, s, bol, k);
        return;
      }
      if At(ex.subject, k) == 0 {
        NoHit(alts, s, bol, 0);
        return;
      }
      k := k + 1;
    }
  }

  /** regexec.  `beyond` is what stands in memory after the terminator of s, up to the next
      NUL: with a known first character, the search loop steps over the terminator of an
      empty subject.  The boundaries of a match found there are offsets in `beyond`. */
  method RegExec(re: Regexp, s: Text, beyond: Text, ghost alts: Alts) returns (ok: bool, startp: seq<int>, endp: seq<int>)
    requires IsRegexp(re, alts)
    ensures |startp| == |endp| == NSUBEXP
    ensures s != [] || re.regstart == 0 ==> Answers(FirstHit(alts, s, 0, 0), ok, startp, endp)
    ensures s == [] && re.regstart != 0 ==> Answers(FirstHit(alts, beyond, -1, 0), ok, startp, endp)
  {
    hide WaysAlts, FirstHit, CodeProgram, RankProgram, WfAlts, StartHint, AnchorHint, MustHint, LenProgram, CString;
    HintFacts(re, alts);
    var ex := new Exec(re.program, s, 0, RankProgram(alts));
    startp, endp := ex.startp[..], ex.endp[..];
    if re.regmust != 0 {
      ok := StrStr(s, 0, CString(re.program, re.regmust));
      if !ok {
        NoMust(alts, s);
        return;
      }
    }
    if re.reganch {
      ok := TryAt(ex, 0, alts);
      AnchoredOnce(alts, s);
    } else if re.regstart != 0 {
      ok := TryAt(ex, 0, alts);
      StartOnce(alts, s);
      if !ok {
        if At(s, 0) != 0 {
          ok := SearchFrom(ex, re.regstart, 1, alts);
        } else {
          var past := new Exec(re.program, beyond, -1, RankProgram(alts));
          ok := SearchFrom(past, re.regstart, 0, alts);
          startp, endp := past.startp[..], past.endp[..];
          return;
        }
      }
    } else {
      ok := SearchAll(ex, alts);
    }
    startp, endp := ex.startp[..], ex.endp[..];
  }

  /** The answer of regexec: success, and on success the boundary arrays. */
  ghost predicate Answers(hit: Option<Hit>, ok: bool, startp: seq<int>, endp: seq<int>)
    requires |startp| == |endp| == NSUBEXP
  {
    && ok == hit.Some?
    && (ok ==>
          var w := Whole(hit.value.start, hit.value.way);
          forall no: nat :: no < NSUBEXP ==>
            && startp[no] == (if no in w.starts then w.starts[no] else -1)
            && endp[no] == (if no in w.ends then w.ends[no] else -1))
  }

  lemma {:induction false} HintFacts(re: Regexp, alts: Alts)
    requires IsRegexp(re, alts)
    ensures re.regmust != 0 ==> CString(re.program, re.regmust) == MustHint(alts) != []
    ensures re.regstart == StartHint(alts) && re.reganch == AnchorHint(alts)
    ensures StartHint(alts) != 0 ==> 0 < StartHint(alts) < 256 && !AnchorHint(alts)
  {
  }

  lemma {:induction false} NoMust(alts: Alts, s: Text)
    requires WfAlts(alts, 1) && MustHint(alts) != [] && !StandsFrom(MustHint(alts), s, 0)
    ensures FirstHit(alts, s, 0, 0) == None && StartHint(alts) == 0
  {
    hide WaysAlts, FirstHit, StandsFrom, WfAlts;
    forall x | 0 <= x < |s| + 1 ensures WaysAlts(alts, s, 0, x) == [] {
      hide MustHint;
      MustRulesOut(alts, s, 0, x);
    }
    NoHit(alts, s, 0, 0);
    MustNoStart(alts);
  }

  lemma {:induction false} MustNoStart(alts: Alts)
    requires MustHint(alts) != []
    ensures StartHint(alts) == 0
  {
    hide Longest;
    assert alts.Last? && SpStartAlts(alts);
    assert SpStartBranch(alts.branch);
    assert SpStartPiece(alts.branch.head);
    assert IsPlainText(alts.branch.head) ==> !SpStartAtom(alts.branch.head.atom);
  }

  lemma {:induction false} AnchoredOnce(alts: Alts, s: Text)
    requires AnchorHint(alts)
    ensures var ws := WaysAlts(alts, s, 0, 0);
            FirstHit(alts, s, 0, 0) == if ws == [] then None else Some(Hit(0, ws[0]))
  {
    hide WaysAlts, AnchorHint;
    if WaysAlts(alts, s, 0, 0) == [] {
      forall x | 0 < x < |s| + 1 ensures WaysAlts(alts, s, 0, x) == [] {
        AnchorRulesOut(alts, s, 0, x);
      }
      NoHit(alts, s, 0, 0);
    }
  }

  lemma {:induction false} StartOnce(alts: Alts, s: Text)
    requires StartHint(alts) != 0
    ensures var ws := WaysAlts(alts, s, 0, 0);
            if ws != [] then s != [] && FirstHit(alts, s, 0, 0) == Some(Hit(0, ws[0]))
            else s != [] ==> FirstHit(alts, s, 0, 0) == FirstHit(alts, s, 0, 1)
  {
    hide WaysAlts, StartHint;
    if s == [] {
      StartRulesOut(alts, s, 0, 0);
    }
  }
}
