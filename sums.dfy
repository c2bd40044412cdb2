/**
 * Sums over a finite set of genres, in no particular order: the source adds
 * up per-genre quantities over the Python set `genres`, whose iteration
 * order is unspecified.
 */
module Sums {

  ghost function Pick(ks: set<string>): (k: string)
    requires ks != {}
    ensures k in ks
  {
    var k :| k in ks; k
  }

  /** The sum of `m[k]` over the keys `k` in `ks`. */
  ghost function SumOver(m: map<string, nat>, ks: set<string>): nat
    requires ks <= m.Keys
    decreases ks
  {
    if ks == {} then 0
    else
      var k := Pick(ks);
      m[k] + SumOver(m, ks - {k})
  }

  /** The sum does not depend on the order: any key may be taken out first. */
  lemma {:induction false} SumOverRemove(m: map<string, nat>, ks: set<string>, k: string)
    requires ks <= m.Keys && k in ks
    ensures SumOver(m, ks) == m[k] + SumOver(m, ks - {k})
    decreases ks
  {
    var j := Pick(ks);
    if j != k {
      SumOverRemove(m, ks - {j}, k);
      SumOverRemove(m, ks - {k}, j);
      assert ks - {j} - {k} == ks - {k} - {j};
    }
  }

  /** Adding a new key adds its value. */
  lemma SumOverAdd(m: map<string, nat>, ks: set<string>, k: string)
    requires ks <= m.Keys && k in m && k !in ks
    ensures SumOver(m, ks + {k}) == m[k] + SumOver(m, ks)
  {
    SumOverRemove(m, ks + {k}, k);
    assert ks + {k} - {k} == ks;
  }

  /** The sum is monotone in every term. */
  lemma {:induction false} SumOverMono(m1: map<string, nat>, m2: map<string, nat>, ks: set<string>)
    requires ks <= m1.Keys && ks <= m2.Keys
    requires forall k :: k in ks ==> m1[k] <= m2[k]
    ensures SumOver(m1, ks) <= SumOver(m2, ks)
    decreases ks
  {
    if ks != {} {
      SumOverMono(m1, m2, ks - {Pick(ks)});
    }
  }

  /** Maps that agree on `ks` have the same sum over `ks`. */
  lemma SumOverAgree(m1: map<string, nat>, m2: map<string, nat>, ks: set<string>)
    requires ks <= m1.Keys && ks <= m2.Keys
    requires forall k :: k in ks ==> m1[k] == m2[k]
    ensures SumOver(m1, ks) == SumOver(m2, ks)
  {
    SumOverMono(m1, m2, ks);
    SumOverMono(m2, m1, ks);
  }

  /** Changing one term changes the sum by the same amount. */
  lemma SumOverUpdate(m: map<string, nat>, ks: set<string>, k: string, v: nat)
    requires ks <= m.Keys && k in ks
    ensures SumOver(m[k := v], ks) + m[k] == SumOver(m, ks) + v
  {
    SumOverRemove(m, ks, k);
    SumOverRemove(m[k := v], ks, k);
    SumOverAgree(m, m[k := v], ks - {k});
  }
}
