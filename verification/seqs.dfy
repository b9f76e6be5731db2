/** Small facts about splitting sequences, kept apart so that each is
    proved without the quantifiers of the modules that use it. */
module Seqs {

  /** A non-empty sequence is its prefix followed by its last element. */
  lemma SnocSplit<T>(xs: seq<T>)
    requires |xs| > 0
    ensures xs == xs[..|xs| - 1] + [xs[|xs| - 1]]
  {
  }

  /** Taking one more element extends the prefix by that element. */
  lemma TakeSnoc<T>(xs: seq<T>, i: int)
    requires 0 <= i < |xs|
    ensures xs[..i + 1] == xs[..i] + [xs[i]]
  {
  }

  /** Indexing into a sequence of pairs extended by one more pair. */
  lemma AppendPairAt<T>(prev: seq<T>, a: T, b: T, n: int, i: int)
    requires |prev| == 2 * n && 0 <= i <= n
    ensures i < n ==> (prev + [a, b])[2 * i] == prev[2 * i] && (prev + [a, b])[2 * i + 1] == prev[2 * i + 1]
    ensures i == n ==> (prev + [a, b])[2 * i] == a && (prev + [a, b])[2 * i + 1] == b
  {
  }

  /** An index past `a` reads `b`, shifted by `|a|`. */
  lemma AppendAt<T>(a: seq<T>, b: seq<T>, n: int)
    requires |a| <= n < |a| + |b|
    ensures (a + b)[n] == b[n - |a|]
  {
  }
}
