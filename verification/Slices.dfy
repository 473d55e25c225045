/** Facts about a sequence standing inside another one. */
module Slices {

  /** Sequence w stands in c at position i. */
  ghost predicate Here<T>(c: seq<T>, i: nat, w: seq<T>) {
    i + |w| <= |c| && c[i..i + |w|] == w
  }

  lemma HereSplit<T>(c: seq<T>, i: nat, v: seq<T>, w: seq<T>)
    requires Here(c, i, v + w)
    ensures Here(c, i, v) && Here(c, i + |v|, w)
  {
    assert c[i..i + |v|] == (v + w)[..|v|];
    assert c[i + |v|..i + |v| + |w|] == (v + w)[|v|..];
  }

  lemma HereAt<T>(c: seq<T>, i: nat, w: seq<T>, k: nat)
    requires Here(c, i, w) && k < |w|
    ensures c[i + k] == w[k]
  {
    assert c[i..i + |w|][k] == w[k];
  }
}
