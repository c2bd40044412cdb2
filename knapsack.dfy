/**
 * The selection problem of one genre that lines 45-53 set out to pose: one
 * 0/1 variable per file, maximise the number of files chosen, subject to the
 * chosen weights summing to at most the capacity. (As written, line 46 leaves
 * the variables continuous; module `Relaxation` shows what that changes.)
 * Every file is worth 1, so this is a unit-value 0/1 knapsack, and taking
 * the lightest files first solves it exactly.
 */
module Knapsack {

  /** The number of files chosen by the 0/1 variables `x`: one genre's share of the objective. */
  function Count(x: seq<bool>): nat
  {
    if x == [] then 0 else Count(x[..|x| - 1]) + (if x[|x| - 1] then 1 else 0)
  }

  /** The total weight chosen by `x`: the left-hand side of the genre's constraint. */
  function Load(w: seq<nat>, x: seq<bool>): nat
    requires |x| == |w|
  {
    if x == [] then 0 else Load(w[..|w| - 1], x[..|x| - 1]) + (if x[|x| - 1] then w[|w| - 1] else 0)
  }

  /** `x` assigns every file a value and keeps the genre within the capacity. */
  predicate Feasible(w: seq<nat>, cap: int, x: seq<bool>)
  {
    |x| == |w| && Load(w, x) <= cap
  }

  /** `x` is an optimal solution: feasible, and no feasible choice picks more files. */
  ghost predicate Optimal(w: seq<nat>, cap: int, x: seq<bool>)
  {
    Feasible(w, cap, x) && forall y :: Feasible(w, cap, y) ==> Count(y) <= Count(x)
  }

  /** Every chosen file weighs no more than any file left out. */
  ghost predicate LightestFirst(w: seq<nat>, x: seq<bool>)
    requires |x| == |w|
  {
    forall i, k :: 0 <= i < |x| && 0 <= k < |x| && x[i] && !x[k] ==> w[i] <= w[k]
  }

  function Meet(x: seq<bool>, y: seq<bool>): (r: seq<bool>)
    requires |x| == |y|
    ensures |r| == |x| && forall i :: 0 <= i < |x| ==> r[i] == (x[i] && y[i])
  {
    seq(|x|, i requires 0 <= i < |x| => x[i] && y[i])
  }

  function Minus(x: seq<bool>, y: seq<bool>): (r: seq<bool>)
    requires |x| == |y|
    ensures |r| == |x| && forall i :: 0 <= i < |x| ==> r[i] == (x[i] && !y[i])
  {
    seq(|x|, i requires 0 <= i < |x| => x[i] && !y[i])
  }

  lemma {:induction false} NothingChosen(w: seq<nat>, x: seq<bool>)
    requires |x| == |w| && forall i :: 0 <= i < |x| ==> !x[i]
    ensures Count(x) == 0 && Load(w, x) == 0
  {
    if x != [] {
      NothingChosen(w[..|w| - 1], x[..|x| - 1]);
    }
  }

  lemma {:induction false} CountAtMostLength(x: seq<bool>)
    ensures Count(x) <= |x|
    ensures (forall i :: 0 <= i < |x| ==> x[i]) ==> Count(x) == |x|
  {
    if x != [] {
      CountAtMostLength(x[..|x| - 1]);
    }
  }

  /** Choosing one more file adds one to the count and its weight to the load. */
  lemma {:induction false} ChooseOne(w: seq<nat>, x: seq<bool>, j: nat)
    requires |x| == |w| && j < |x| && !x[j]
    ensures Count(x[j := true]) == Count(x) + 1
    ensures Load(w, x[j := true]) == Load(w, x) + w[j]
  {
    var n := |x| - 1;
    if j == n {
      assert x[j := true][..n] == x[..n];
    } else {
      ChooseOne(w[..n], x[..n], j);
      assert x[j := true][..n] == x[..n][j := true];
    }
  }

  /** Splitting a choice along another one splits its count and its load. */
  lemma {:induction false} Split(w: seq<nat>, x: seq<bool>, y: seq<bool>)
    requires |x| == |w| && |y| == |w|
    ensures Load(w, x) == Load(w, Meet(x, y)) + Load(w, Minus(x, y))
    ensures Count(x) == Count(Meet(x, y)) + Count(Minus(x, y))
  {
    if w != [] {
      var n := |w| - 1;
      Split(w[..n], x[..n], y[..n]);
      assert Meet(x, y)[..n] == Meet(x[..n], y[..n]);
      assert Minus(x, y)[..n] == Minus(x[..n], y[..n]);
    }
  }

  lemma {:induction false} LoadAtLeast(w: seq<nat>, x: seq<bool>, m: nat)
    requires |x| == |w|
    requires forall i :: 0 <= i < |x| && x[i] ==> m <= w[i]
    ensures m * Count(x) <= Load(w, x)
  {
    if w != [] {
      var n := |w| - 1;
      LoadAtLeast(w[..n], x[..n], m);
      if x[n] {
        assert m * Count(x) == m * Count(x[..n]) + m;
      }
    }
  }

  lemma {:induction false} LoadAtMost(w: seq<nat>, x: seq<bool>, m: nat)
    requires |x| == |w|
    requires forall i :: 0 <= i < |x| && x[i] ==> w[i] <= m
    ensures Load(w, x) <= m * Count(x)
  {
    if w != [] {
      var n := |w| - 1;
      LoadAtMost(w[..n], x[..n], m);
      if x[n] {
        assert m * Count(x) == m * Count(x[..n]) + m;
      }
    }
  }

  lemma MulMore(m: nat, a: nat, b: nat)
    requires a < b
    ensures m * a + m <= m * b
  {
    assert m * b == m * a + m * (b - a);
    assert m * (b - a) == m * (b - a - 1) + m;
  }

  /**
   * The exchange argument: when `x` holds the lightest files and `j` is the
   * lightest file left out, any choice of more files than `x` weighs at least
   * as much as `x` plus file `j`.
   */
  lemma Exchange(w: seq<nat>, x: seq<bool>, j: nat, y: seq<bool>)
    requires |x| == |w| && |y| == |w| && LightestFirst(w, x)
    requires j < |w| && !x[j] && forall k :: 0 <= k < |w| && !x[k] ==> w[j] <= w[k]
    requires Count(y) > Count(x)
    ensures Load(w, y) >= Load(w, x) + w[j]
  {
    var gained, lost := Minus(y, x), Minus(x, y);
    Split(w, y, x);
    Split(w, x, y);
    assert Meet(x, y) == Meet(y, x);
    var cg, cl, m := Count(gained), Count(lost), w[j];
    assert cg >= cl + 1;
    LoadAtLeast(w, gained, m);
    LoadAtMost(w, lost, m);
    MulMore(m, cl, cg);
  }

  /**
   * The stopping rule of the greedy choice: holding the lightest files, with
   * the lightest file left out no longer fitting, is optimal.
   */
  lemma StopIsOptimal(w: seq<nat>, cap: int, x: seq<bool>, j: nat)
    requires Feasible(w, cap, x) && LightestFirst(w, x)
    requires j < |w| && !x[j] && forall k :: 0 <= k < |w| && !x[k] ==> w[j] <= w[k]
    requires Load(w, x) + w[j] > cap
    ensures Optimal(w, cap, x)
  {
    forall y | Feasible(w, cap, y) ensures Count(y) <= Count(x) {
      if Count(y) > Count(x) {
        Exchange(w, x, j, y);
      }
    }
  }

  /**
   * Weights 50, 30, 40 and 10 under capacity 80: the three lightest files
   * (weights 30, 40 and 10, summing to exactly 80) form an optimal choice.
   */
  lemma FourFilesExample()
    ensures Optimal([50, 30, 40, 10], 80, [false, true, true, true])
    ensures Count([false, true, true, true]) == 3
  {
    var w: seq<nat>, x := [50, 30, 40, 10], [false, true, true, true];
    var w3: seq<nat>, w2: seq<nat>, w1: seq<nat> := [50, 30, 40], [50, 30], [50];
    var x3, x2, x1 := [false, true, true], [false, true], [false];
    assert w[..3] == w3 && w3[..2] == w2 && w2[..1] == w1 && w1[..0] == [];
    assert x[..3] == x3 && x3[..2] == x2 && x2[..1] == x1 && x1[..0] == [];
    assert Load(w1, x1) == 0 && Count(x1) == 0;
    assert Load(w2, x2) == 30 && Count(x2) == 1;
    assert Load(w3, x3) == 70 && Count(x3) == 2;
    StopIsOptimal(w, 80, x, 0);
  }

  /**
   * The index of the lightest file not chosen yet, the first one among equals,
   * or `|w|` when every file is chosen.
   */
  method Lightest(w: seq<nat>, x: seq<bool>) returns (j: nat)
    requires |x| == |w|
    ensures j <= |w|
    ensures j == |w| <==> forall k :: 0 <= k < |w| ==> x[k]
    ensures j < |w| ==> !x[j] && forall k :: 0 <= k < |w| && !x[k] ==> w[j] <= w[k]
    ensures j < |w| ==> forall k :: 0 <= k < j && !x[k] ==> w[j] < w[k]
  {
    j := |w|;
    var k := 0;
    while k < |w|
      invariant 0 <= k <= |w|
      invariant j == |w| || (j < k && !x[j])
      invariant j == |w| <==> forall i :: 0 <= i < k ==> x[i]
      invariant j < |w| ==> forall i :: 0 <= i < k && !x[i] ==> w[j] <= w[i]
      invariant j < |w| ==> forall i :: 0 <= i < j && !x[i] ==> w[j] < w[i]
    {
      if !x[k] && (j == |w| || w[k] < w[j]) {
        j := k;
      }
      k := k + 1;
    }
  }

  /**
   * Solves one genre's problem: repeatedly choose the lightest remaining
   * file while it still fits. The result is an optimal solution.
   */
  method SelectGenre(w: seq<nat>, cap: nat) returns (x: seq<bool>)
    ensures Optimal(w, cap, x)
    ensures LightestFirst(w, x)
  {
    x := seq(|w|, _ => false);
    NothingChosen(w, x);
    var load := 0;
    while true
      invariant |x| == |w| && load == Load(w, x) && load <= cap
      invariant LightestFirst(w, x)
      invariant Count(x) <= |w|
      decreases |w| - Count(x)
    {
      var j := Lightest(w, x);
      if j == |w| {
        forall y | Feasible(w, cap, y) ensures Count(y) <= Count(x) {
          CountAtMostLength(y);
          CountAtMostLength(x);
        }
        return;
      }
      if load + w[j] > cap {
        StopIsOptimal(w, cap, x, j);
        return;
      }
      ChooseOne(w, x, j);
      x := x[j := true];
      load := load + w[j];
      CountAtMostLength(x);
    }
  }

  /** An optimal choice cannot take in any further file without breaking the capacity. */
  lemma OptimalIsMaximal(w: seq<nat>, cap: int, x: seq<bool>, j: nat)
    requires Optimal(w, cap, x) && j < |x| && !x[j]
    ensures Load(w, x) + w[j] > cap
  {
    ChooseOne(w, x, j);
    assert !Feasible(w, cap, x[j := true]);
  }

  /** With no capacity the optimal choices are exactly the files that weigh nothing. */
  lemma ZeroCapacity(w: seq<nat>, x: seq<bool>)
    requires Optimal(w, 0, x)
    ensures forall i :: 0 <= i < |x| ==> (x[i] <==> w[i] == 0)
  {
    forall i | 0 <= i < |x| ensures x[i] <==> w[i] == 0 {
      if x[i] {
        ChosenWeighsAtMostLoad(w, x, i);
      } else {
        OptimalIsMaximal(w, 0, x, i);
      }
    }
  }

  lemma {:induction false} ChosenWeighsAtMostLoad(w: seq<nat>, x: seq<bool>, i: nat)
    requires |x| == |w| && i < |x| && x[i]
    ensures w[i] <= Load(w, x)
  {
    var n := |x| - 1;
    if i < n {
      ChosenWeighsAtMostLoad(w[..n], x[..n], i);
    }
  }

  /** Every optimal choice takes the same number of files: ties change which files, never how many. */
  lemma OptimaAgreeOnCount(w: seq<nat>, cap: int, x1: seq<bool>, x2: seq<bool>)
    requires Optimal(w, cap, x1) && Optimal(w, cap, x2)
    ensures Count(x1) == Count(x2)
  {
  }

  /** Raising the capacity never lowers the optimal number of files. */
  lemma CapacityMonotone(w: seq<nat>, c1: int, c2: int, x1: seq<bool>, x2: seq<bool>)
    requires c1 <= c2 && Optimal(w, c1, x1) && Optimal(w, c2, x2)
    ensures Count(x1) <= Count(x2)
  {
    assert Feasible(w, c2, x1);
  }
}
