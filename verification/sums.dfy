/** Sums over an enumeration of distinct keys: the model of a Go `range`
    over a map whose iteration order the runtime chooses. */
module Sums {

  predicate Distinct<K(==)>(ks: seq<K>) {
    forall i, j :: 0 <= i < j < |ks| ==> ks[i] != ks[j]
  }

  /** `ks` lists every key of `keys` exactly once, in some order. */
  predicate IsEnumeration<K(==)>(ks: seq<K>, keys: set<K>) {
    Distinct(ks) && (forall k :: k in ks ==> k in keys) && (forall k :: k in keys ==> k in ks)
  }

  /** `g(ks[0]) + … + g(ks[|ks| - 1])`, accumulated front to back. */
  function SumBy<K>(ks: seq<K>, g: K -> int): int {
    if |ks| == 0 then 0 else SumBy(ks[..|ks| - 1], g) + g(ks[|ks| - 1])
  }

  /** A sum of terms that vanish on every listed key is zero. */
  lemma {:induction false} SumByZero<K>(ks: seq<K>, g: K -> int)
    requires forall i :: 0 <= i < |ks| ==> g(ks[i]) == 0
    ensures SumBy(ks, g) == 0
  {
    if |ks| > 0 {
      SumByZero(ks[..|ks| - 1], g);
    }
  }

  /** Sums whose terms agree on every listed key are equal. */
  lemma {:induction false} SumByCongruent<K>(ks: seq<K>, g1: K -> int, g2: K -> int)
    requires forall i :: 0 <= i < |ks| ==> g1(ks[i]) == g2(ks[i])
    ensures SumBy(ks, g1) == SumBy(ks, g2)
  {
    if |ks| > 0 {
      var init := ks[..|ks| - 1];
      assert forall i :: 0 <= i < |init| ==> init[i] == ks[i];
      SumByCongruent(init, g1, g2);
    }
  }

  /** Raising the term of a single key `x` by `d` raises the sum over a
      distinct enumeration by `d` if `x` is listed and leaves it alone if not. */
  lemma {:induction false} SumByBump<K>(ks: seq<K>, g1: K -> int, g2: K -> int, x: K, d: int)
    requires Distinct(ks)
    requires forall i :: 0 <= i < |ks| ==> g1(ks[i]) == g2(ks[i]) + (if ks[i] == x then d else 0)
    ensures SumBy(ks, g1) == SumBy(ks, g2) + (if x in ks then d else 0)
  {
    if |ks| > 0 {
      var init := ks[..|ks| - 1];
      assert forall i :: 0 <= i < |init| ==> init[i] == ks[i];
      SumByBump(init, g1, g2, x, d);
      assert x in ks <==> x in init || x == ks[|ks| - 1];
      assert x == ks[|ks| - 1] ==> x !in init;
    }
  }

  /** The sum can equally be accumulated back to front. */
  lemma {:induction false} SumByCons<K>(x: K, ks: seq<K>, g: K -> int)
    ensures SumBy([x] + ks, g) == g(x) + SumBy(ks, g)
  {
    if |ks| > 0 {
      var init := ks[..|ks| - 1];
      assert ([x] + ks)[..|ks|] == [x] + init;
      SumByCons(x, init, g);
    } else {
      assert ([x] + ks)[..0] == [];
    }
  }

  /** Extending a prefix of the enumeration by one key adds that key's term. */
  lemma SumByPrefixStep<K>(ks: seq<K>, i: int, g: K -> int)
    requires 0 <= i < |ks|
    ensures SumBy(ks[..i + 1], g) == SumBy(ks[..i], g) + g(ks[i])
  {
    assert ks[..i + 1][..i] == ks[..i];
  }
}
