/**
 * One genre's problem as lines 46-61 actually pose and decode it. Line 46
 * passes the function `LpVariable.isInteger` in the place where PuLP takes
 * the category of the variables. That value is not the integer category, so
 * the variables stay continuous between 0 and 1 and the solver answers the
 * linear relaxation of the 0/1 problem of `Knapsack`. Line 61 then copies a
 * file when its variable exceeds 0.5. This module shows that the rounded
 * optimum of the relaxation can break the genre's constraint; the rest of
 * the model solves the 0/1 problem the comment at line 45 asks for.
 */
module Relaxation {
  import opened Knapsack

  /** The objective of line 49 over real-valued variables. */
  function RealCount(x: seq<real>): real
  {
    if x == [] then 0.0 else RealCount(x[..|x| - 1]) + x[|x| - 1]
  }

  /** The left-hand side of the constraint of line 53 over real-valued variables. */
  function RealLoad(w: seq<nat>, x: seq<real>): real
    requires |x| == |w|
  {
    if x == [] then 0.0 else RealLoad(w[..|w| - 1], x[..|x| - 1]) + (w[|w| - 1] as real) * x[|x| - 1]
  }

  /** The bounds 0 and 1 of line 46 and the capacity constraint of line 53. */
  predicate RelaxedFeasible(w: seq<nat>, cap: int, x: seq<real>)
  {
    |x| == |w| && (forall i :: 0 <= i < |x| ==> 0.0 <= x[i] <= 1.0) && RealLoad(w, x) <= cap as real
  }

  /** An optimum of the relaxation: what the solver returns for continuous variables. */
  ghost predicate RelaxedOptimal(w: seq<nat>, cap: int, x: seq<real>)
  {
    RelaxedFeasible(w, cap, x) && forall y :: RelaxedFeasible(w, cap, y) ==> RealCount(y) <= RealCount(x)
  }

  /** The test of line 61: a file is copied when its variable's value exceeds 0.5. */
  function Rounded(x: seq<real>): (r: seq<bool>)
    ensures |r| == |x|
  {
    seq(|x|, i requires 0 <= i < |x| => x[i] > 0.5)
  }

  /** A 0/1 choice read as values 0.0 and 1.0. */
  function AsReal(x: seq<bool>): (r: seq<real>)
    ensures |r| == |x|
  {
    seq(|x|, i requires 0 <= i < |x| => if x[i] then 1.0 else 0.0)
  }

  /**
   * The relaxation contains the 0/1 problem: a 0/1 choice read as reals
   * counts and weighs the same, is feasible for the relaxation exactly when
   * it is feasible, and the test of line 61 gives it back unchanged.
   */
  lemma {:induction false} Embedding(w: seq<nat>, cap: int, x: seq<bool>)
    requires |x| == |w|
    ensures RealCount(AsReal(x)) == Count(x) as real
    ensures RealLoad(w, AsReal(x)) == Load(w, x) as real
    ensures RelaxedFeasible(w, cap, AsReal(x)) <==> Feasible(w, cap, x)
    ensures Rounded(AsReal(x)) == x
  {
    if x != [] {
      var n := |x| - 1;
      assert AsReal(x)[..n] == AsReal(x[..n]);
      Embedding(w[..n], cap, x[..n]);
    }
  }

  /** The objective and the load of two variables, written out. */
  lemma TwoFiles(y: seq<real>)
    requires |y| == 2
    ensures RealCount(y) == y[0] + y[1]
    ensures RealLoad([3, 5], y) == 3.0 * y[0] + 5.0 * y[1]
  {
    var w: seq<nat> := [3, 5];
    var y1 := y[..1];
    assert y1[..0] == [] && y1[0] == y[0];
    assert RealCount(y1) == y[0];
    assert w[..1] == [3] && w[..1][..0] == [];
    assert RealLoad(w[..1], y1) == 3.0 * y[0];
  }

  /**
   * Two files of weights 3 and 5 under a capacity of 7. The relaxation has
   * the single optimum (1, 0.8), whose objective is 1.8; line 61 copies both
   * files, whose weights sum to 8, above the capacity. The 0/1 optimum
   * copies one file.
   */
  lemma RoundingExceedsCapacity()
    ensures RelaxedOptimal([3, 5], 7, [1.0, 0.8])
    ensures forall y :: RelaxedOptimal([3, 5], 7, y) ==> y == [1.0, 0.8]
    ensures Rounded([1.0, 0.8]) == [true, true]
    ensures Load([3, 5], [true, true]) == 8
    ensures !Feasible([3, 5], 7, Rounded([1.0, 0.8]))
  {
    var w: seq<nat> := [3, 5];
    var best: seq<real> := [1.0, 0.8];
    TwoFiles(best);
    assert RelaxedFeasible(w, 7, best);
    forall y | RelaxedFeasible(w, 7, y)
      ensures RealCount(y) <= RealCount(best)
    {
      TwoFiles(y);
      assert 0.0 <= y[0] <= 1.0;
    }
    forall y | RelaxedOptimal(w, 7, y)
      ensures y == best
    {
      TwoFiles(y);
      assert 0.0 <= y[0] <= 1.0 && 0.0 <= y[1] <= 1.0;
      assert RealCount(best) <= RealCount(y);
    }
    var both := [true, true];
    assert Rounded(best) == both;
    assert both[..1] == [true] && both[..1][..0] == [];
    assert w[..1] == [3] && w[..1][..0] == [];
  }
}
