/**
 * The back end of lp_vc: threshold rounding of the LP solution (`my_round`)
 * and the rounded cover size `sum(rounded_results)`, with the facts that make
 * the rounded set a vertex cover within twice the LP value.
 *
 * The value of variable `x<v>` (node `v`) is `x[v - 1]`: the solver lists the
 * variables in the order they first appear in the model, and the objective
 * line names them `x1 .. xN`.
 */
module LpRounding {
  import opened Graphs
  import opened LpText

  /** `my_round`: 0 below one half, 1 from one half up (0.5 rounds up). */
  function MyRound(x: real): (r: int)
    ensures r == 0 || r == 1
    ensures r == 1 <==> x >= 0.5
  {
    if x < 0.5 then 0 else 1
  }

  /** Each edge constraint `xu + xv >= 1` makes one of its two variables round to 1. */
  lemma EdgeConstraintRoundsUp(xu: real, xv: real)
    requires xu + xv >= 1.0
    ensures MyRound(xu) == 1 || MyRound(xv) == 1
  {
  }

  /** `sum([my_round(x) for x in results])`. */
  function RoundedCount(results: seq<real>): (n: int)
    ensures 0 <= n <= |results|
  {
    if results == [] then 0
    else RoundedCount(results[..|results| - 1]) + MyRound(results[|results| - 1])
  }

  /** The nodes whose variable rounds to 1: the rounded vertex cover. */
  function RoundedSet(results: seq<real>): set<int>
  {
    set i | 0 <= i < |results| && MyRound(results[i]) == 1 :: i + 1
  }

  /** The LP objective `x1 + ... + xn` at the point `x`. */
  function Sum(x: seq<real>): real
  {
    if x == [] then 0.0 else Sum(x[..|x| - 1]) + x[|x| - 1]
  }

  /** The bounds `xi >= 0;` and `xi <= 1;` of the model. */
  predicate InUnitBox(x: seq<real>)
  {
    forall i :: 0 <= i < |x| ==> 0.0 <= x[i] <= 1.0
  }

  /** The constraint `xu + xv >= 1;` of edge `e`, over variables that exist. */
  predicate EdgeConstraint(x: seq<real>, e: Edge)
  {
    1 <= e.u <= |x| && 1 <= e.v <= |x| && x[e.u - 1] + x[e.v - 1] >= 1.0
  }

  /** `x` is a feasible point of the vertex-cover LP of `edges`. */
  predicate LpFeasible(edges: seq<Edge>, x: seq<real>)
  {
    InUnitBox(x) && forall e :: e in edges ==> EdgeConstraint(x, e)
  }

  /** The rounded count is the size of the rounded set. */
  lemma {:induction false} RoundedCountIsSetSize(results: seq<real>)
    ensures RoundedCount(results) == |RoundedSet(results)|
  {
    if results != [] {
      var n := |results|;
      var init := results[..n - 1];
      RoundedCountIsSetSize(init);
      assert n !in RoundedSet(init);
      if MyRound(results[n - 1]) == 1 {
        assert RoundedSet(results) == RoundedSet(init) + {n};
      } else {
        assert RoundedSet(results) == RoundedSet(init);
      }
    }
  }

  /** Rounding a feasible LP point gives a vertex cover. */
  lemma RoundingCovers(edges: seq<Edge>, x: seq<real>)
    requires forall e :: e in edges ==> EdgeConstraint(x, e)
    ensures IsCover(edges, RoundedSet(x))
  {
    forall e | e in edges ensures Touches(e, RoundedSet(x)) {
      EdgeConstraintRoundsUp(x[e.u - 1], x[e.v - 1]);
      if MyRound(x[e.u - 1]) == 1 {
        assert e.u == (e.u - 1) + 1;
      } else {
        assert e.v == (e.v - 1) + 1;
      }
    }
  }

  /** The rounded cover is at most twice the LP value of a non-negative point. */
  lemma {:induction false} RoundedAtMostTwiceSum(x: seq<real>)
    requires forall i :: 0 <= i < |x| ==> x[i] >= 0.0
    ensures RoundedCount(x) as real <= 2.0 * Sum(x)
  {
    if x != [] {
      RoundedAtMostTwiceSum(x[..|x| - 1]);
    }
  }

  /** The sum of non-negative values is non-negative. */
  lemma {:induction false} SumNonNegative(x: seq<real>)
    requires forall i :: 0 <= i < |x| ==> x[i] >= 0.0
    ensures Sum(x) >= 0.0
  {
    if x != [] {
      SumNonNegative(x[..|x| - 1]);
    }
  }

  /** Changing one value changes the sum by the difference. */
  lemma {:induction false} SumUpdate(x: seq<real>, i: nat, a: real)
    requires i < |x|
    ensures Sum(x[i := a]) == Sum(x) - x[i] + a
  {
    var n := |x|;
    if i < n - 1 {
      assert x[i := a][..n - 1] == x[..n - 1][i := a];
      SumUpdate(x[..n - 1], i, a);
    } else {
      assert x[i := a][..n - 1] == x[..n - 1];
    }
  }

  /** `x` satisfies statement `s` of the LP model; the objective constrains nothing. */
  predicate Holds(x: seq<real>, s: Statement)
  {
    match s
    case Objective(_) => true
    case LowerBound(i) => 1 <= i <= |x| && x[i - 1] >= 0.0
    case UpperBound(i) => 1 <= i <= |x| && x[i - 1] <= 1.0
    case CoverConstraint(e) => EdgeConstraint(x, e)
  }

  /**
   * A value for each of the `n` variables satisfies every statement of the
   * model `lp_vc` writes exactly when it is a feasible point of the LP.
   */
  lemma ModelMeansFeasible(n: nat, edges: seq<Edge>, x: seq<real>)
    requires |x| == n
    ensures (forall s :: s in Model(n, edges) ==> Holds(x, s)) <==> LpFeasible(edges, x)
  {
    BoundsMembers(n);
    var m := Model(n, edges);
    assert forall s :: s in m <==> s == Objective(n) || s in Bounds(n) || s in Constraints(edges);
    assert forall e :: e in edges ==> CoverConstraint(e) in Constraints(edges) by {
      forall e | e in edges ensures CoverConstraint(e) in Constraints(edges) {
        var j :| 0 <= j < |edges| && edges[j] == e;
        assert Constraints(edges)[j] == CoverConstraint(e);
      }
    }
    if forall s :: s in m ==> Holds(x, s) {
      forall i | 0 <= i < |x| ensures 0.0 <= x[i] <= 1.0 {
        assert Holds(x, LowerBound(i + 1)) && Holds(x, UpperBound(i + 1));
      }
    }
  }
}
