/**
 * Part b of flaskapp/Question2.py: the degree map of the adjacency
 * dictionary and the closed-form budget allocation
 * `x_i = 1/lambda - 1/d_i` with `lambda = n / (Bt + sum of 1/d_i)`.
 * Python's floats are modelled as exact reals. A dictionary's values are
 * summed as a set of keys, so the order `sum` visits them in plays no part.
 */
module BudgetAllocation {
  import opened SimpleGraph
  import GraphBuilder

  /** The total budget the script allocates (line 91). */
  const ScriptBudget: real := 10.0

  /** Line 88: every node with a non-empty neighbour list, mapped to the list's length. */
  function Degrees(adj: Adjacency): (deg: map<Node, nat>)
    ensures deg.Keys <= adj.Keys
    ensures forall u :: u in deg ==> deg[u] > 0
  {
    map u | u in adj && |adj[u]| > 0 :: |adj[u]|
  }

  /** `u` is an end of some edge of `adj`. */
  ghost predicate Endpoint(adj: Adjacency, u: Node) {
    exists e :: e in Edges(adj) && (e.0 == u || e.1 == u)
  }

  /**
   * In a well-formed graph the degree map holds exactly the nodes that
   * touch an edge, and gives each the number of its distinct neighbours.
   */
  lemma DegreesCountNeighbours(adj: Adjacency)
    requires WellFormed(adj)
    ensures forall u :: u in Degrees(adj) <==> u in adj && Endpoint(adj, u)
    ensures forall u :: u in Degrees(adj) ==> Degrees(adj)[u] == |Elems(adj[u])|
  {
    var deg := Degrees(adj);
    forall u | u in deg ensures Endpoint(adj, u) {
      var v := adj[u][0];
      if u <= v {
        assert (u, v) in Edges(adj);
      } else {
        assert (v, u) in Edges(adj);
      }
    }
    forall u | u in adj && Endpoint(adj, u) ensures u in deg {
      var e :| e in Edges(adj) && (e.0 == u || e.1 == u);
      var a, b :| a in adj && b in adj[a] && a <= b && e == (a, b);
      if u == b {
        assert a in adj[u];
      }
    }
    forall u | u in deg ensures deg[u] == |Elems(adj[u])| {
      DistinctCount(adj[u]);
    }
  }

  // ---------------------------------------------------------------------
  // Sums over the keys of a dictionary

  ghost function Pick(keys: set<Node>): (k: Node)
    requires keys != {}
    ensures k in keys
  {
    assert (forall k :: k !in keys) ==> keys == {};
    var k :| k in keys; k
  }

  /** The sum of `f` over `keys`. */
  ghost function Sum(keys: set<Node>, f: map<Node, real>): real
    requires keys <= f.Keys
    decreases keys
  {
    if keys == {} then 0.0
    else
      var k := Pick(keys);
      f[k] + Sum(keys - {k}, f)
  }

  /** Any key may be taken out of the sum first. */
  lemma {:induction false} SumRemove(keys: set<Node>, f: map<Node, real>, k: Node)
    requires keys <= f.Keys && k in keys
    ensures Sum(keys, f) == f[k] + Sum(keys - {k}, f)
    decreases keys
  {
    var p := Pick(keys);
    if p != k {
      SumRemove(keys - {p}, f, k);
      SumRemove(keys - {k}, f, p);
      assert keys - {p} - {k} == keys - {k} - {p};
    }
  }

  /** `c` added up `n` times, which is `c * n` (`CopiesIsProduct`). */
  ghost function Copies(c: real, n: nat): real {
    if n == 0 then 0.0 else c + Copies(c, n - 1)
  }

  /** Summing `c - f[k]` gives `c` once per key minus the sum of `f`. */
  lemma {:induction false} SumAffine(keys: set<Node>, f: map<Node, real>, g: map<Node, real>, c: real)
    requires keys <= f.Keys && keys <= g.Keys
    requires forall k :: k in keys ==> g[k] + f[k] == c
    ensures Sum(keys, g) + Sum(keys, f) == Copies(c, |keys|)
    decreases keys
  {
    if keys != {} {
      var p := Pick(keys);
      SumAffine(keys - {p}, f, g, c);
    }
  }

  /** A sum of terms in `(0, 1]` lies in `[0, |keys|]`, and is positive when there is a term. */
  lemma {:induction false} SumOfFractions(keys: set<Node>, f: map<Node, real>)
    requires keys <= f.Keys
    requires forall k :: k in keys ==> 0.0 < f[k] <= 1.0
    ensures 0.0 <= Sum(keys, f) <= |keys| as real
    ensures keys != {} ==> Sum(keys, f) > 0.0
    decreases keys
  {
    if keys != {} {
      var p := Pick(keys);
      SumOfFractions(keys - {p}, f);
    }
  }

  // ---------------------------------------------------------------------
  // The allocation

  /** `1 / d` for every entry of the degree map. */
  function Reciprocals(deg: map<Node, nat>): (r: map<Node, real>)
    requires forall u :: u in deg ==> deg[u] > 0
    ensures r.Keys == deg.Keys
    ensures forall u :: u in r ==> 0.0 < r[u] <= 1.0
  {
    map u | u in deg :: 1.0 / deg[u] as real
  }

  /** Line 93: the sum of the reciprocal degrees. */
  ghost function ReciprocalSum(deg: map<Node, nat>): (s: real)
    requires forall u :: u in deg ==> deg[u] > 0
    ensures 0.0 <= s <= |deg.Keys| as real
    ensures deg != map[] ==> s > 0.0
  {
    SumOfFractions(deg.Keys, Reciprocals(deg));
    assert deg != map[] ==> deg.Keys != {};
    Sum(deg.Keys, Reciprocals(deg))
  }

  /**
   * `lambda_val` and `x_star`, or the `ZeroDivisionError` that
   * the division of line 94 raises when its denominator is zero.
   */
  datatype Allocation = Allocated(lambda: real, x: map<Node, real>) | ZeroDivisionError

  /**
   * Lines 92-97 with `Bt` as the parameter `bt`. The only failure is a zero
   * denominator; an empty degree map gives `lambda_val == 0` and an empty
   * allocation. Otherwise every `x_i + 1/d_i` equals the same `1/lambda`.
   */
  ghost function Allocate(deg: map<Node, nat>, bt: real): (r: Allocation)
    requires forall u :: u in deg ==> deg[u] > 0
    ensures r.ZeroDivisionError? <==> bt + ReciprocalSum(deg) == 0.0
    ensures r.Allocated? ==> r.x.Keys == deg.Keys
    ensures r.Allocated? ==> (r.lambda == 0.0 <==> deg == map[])
    ensures r.Allocated? && r.lambda != 0.0 ==>
      forall u :: u in deg ==> r.x[u] + Reciprocals(deg)[u] == 1.0 / r.lambda
  {
    var s := ReciprocalSum(deg);
    if bt + s == 0.0 then ZeroDivisionError
    else
      var lambda := |deg.Keys| as real / (bt + s);
      assert deg != map[] <==> deg.Keys != {};
      QuotientZero(|deg.Keys| as real, bt + s);
      Allocated(lambda, map u | u in deg :: 1.0 / lambda - Reciprocals(deg)[u])
  }

  /** The allocations add up to the budget. */
  lemma AllocationConservesBudget(deg: map<Node, nat>, bt: real)
    requires forall u :: u in deg ==> deg[u] > 0
    requires deg != map[] && Allocate(deg, bt).Allocated?
    ensures Sum(deg.Keys, Allocate(deg, bt).x) == bt
  {
    var s := ReciprocalSum(deg);
    var r := Allocate(deg, bt);
    assert |deg.Keys| > 0 by { assert deg.Keys != {}; }
    assert r.lambda == |deg.Keys| as real / (bt + s);
    UniformSpend(deg, r.x, 1.0 / r.lambda);
    SpentIsBudget(Sum(deg.Keys, r.x), s, |deg.Keys|, bt, r.lambda);
  }

  /**
   * The allocation is the only one that spends exactly `bt` and makes
   * every `x_i + 1/d_i` equal: the stationary point of maximising the sum
   * of `log(x_i + 1/d_i)` under that budget.
   */
  lemma AllocationIsUniqueStationaryPoint(deg: map<Node, nat>, bt: real, y: map<Node, real>, c: real)
    requires forall u :: u in deg ==> deg[u] > 0
    requires deg != map[] && Allocate(deg, bt).Allocated?
    requires y.Keys == deg.Keys && Sum(deg.Keys, y) == bt
    requires forall u :: u in deg ==> y[u] + Reciprocals(deg)[u] == c
    ensures y == Allocate(deg, bt).x
  {
    var s := ReciprocalSum(deg);
    var r := Allocate(deg, bt);
    assert |deg.Keys| > 0 by { assert deg.Keys != {}; }
    assert r.lambda == |deg.Keys| as real / (bt + s);
    UniformSpend(deg, y, c);
    LevelIsInverse(c, |deg.Keys|, bt + s, r.lambda);
    forall u | u in deg ensures y[u] == r.x[u] {
    }
  }

  /** Spending `c - 1/d_i` on every node spends `c` per node less the reciprocal sum. */
  lemma UniformSpend(deg: map<Node, nat>, y: map<Node, real>, c: real)
    requires forall u :: u in deg ==> deg[u] > 0
    requires y.Keys == deg.Keys
    requires forall u :: u in deg ==> y[u] + Reciprocals(deg)[u] == c
    ensures Sum(deg.Keys, y) + ReciprocalSum(deg) == Copies(c, |deg.Keys|)
  {
    SumAffine(deg.Keys, Reciprocals(deg), y, c);
  }

  /** A node with a larger degree never receives less. */
  lemma AllocationFollowsDegree(deg: map<Node, nat>, bt: real, u: Node, v: Node)
    requires forall w :: w in deg ==> deg[w] > 0
    requires Allocate(deg, bt).Allocated? && u in deg && v in deg
    ensures deg[u] <= deg[v] ==> Allocate(deg, bt).x[u] <= Allocate(deg, bt).x[v]
    ensures deg[u] < deg[v] ==> Allocate(deg, bt).x[u] < Allocate(deg, bt).x[v]
  {
    ReciprocalDecreasing(deg[u] as real, deg[v] as real);
  }

  /** A budget of at least one unit per node gives every node a positive share. */
  lemma AllocationPositiveWhenBudgetCoversNodes(deg: map<Node, nat>, bt: real)
    requires forall u :: u in deg ==> deg[u] > 0
    requires deg != map[] && bt >= |deg.Keys| as real
    ensures Allocate(deg, bt).Allocated?
    ensures forall u :: u in deg ==> Allocate(deg, bt).x[u] > 0.0
  {
    var s := ReciprocalSum(deg);
    var r := Allocate(deg, bt);
    assert |deg.Keys| > 0 by { assert deg.Keys != {}; }
    assert bt + s > |deg.Keys| as real;
    assert r.lambda == |deg.Keys| as real / (bt + s);
    LevelAboveOne(|deg.Keys| as real, bt + s, r.lambda);
    forall u | u in deg ensures r.x[u] > 0.0 {
      assert Reciprocals(deg)[u] <= 1.0;
    }
  }

  /**
   * Nothing clamps the result: with degrees 1 and 3 and no budget, node 0
   * is allotted `-1/3`.
   */
  lemma AllocationCanBeNegative()
    ensures Allocate(map[0 := 1, 1 := 3], 0.0).Allocated?
    ensures Allocate(map[0 := 1, 1 := 3], 0.0).lambda == 3.0 / 2.0
    ensures Allocate(map[0 := 1, 1 := 3], 0.0).x == map[0 := -1.0 / 3.0, 1 := 1.0 / 3.0]
  {
    var deg: map<Node, nat> := map[0 := 1, 1 := 3];
    ExampleLevel();
    ExampleReciprocals();
    var r := Allocate(deg, 0.0);
    assert 1.0 / r.lambda == 2.0 / 3.0;
    assert r.x.Keys == {0, 1};
  }

  lemma ExampleLevel()
    ensures Allocate(map[0 := 1, 1 := 3], 0.0).Allocated?
    ensures Allocate(map[0 := 1, 1 := 3], 0.0).lambda == 3.0 / 2.0
  {
    var deg: map<Node, nat> := map[0 := 1, 1 := 3];
    ExampleReciprocalSum();
    assert deg.Keys == {0, 1};
  }

  lemma ExampleReciprocals()
    ensures Reciprocals(map[0 := 1, 1 := 3]) == map[0 := 1.0, 1 := 1.0 / 3.0]
  {
    var deg: map<Node, nat> := map[0 := 1, 1 := 3];
    assert deg.Keys == {0, 1};
  }

  lemma ExampleReciprocalSum()
    ensures ReciprocalSum(map[0 := 1, 1 := 3]) == 4.0 / 3.0
  {
    var deg: map<Node, nat> := map[0 := 1, 1 := 3];
    var rec := Reciprocals(deg);
    ExampleReciprocals();
    assert deg.Keys == {0, 1};
    SumRemove({0, 1}, rec, 0);
    SumRemove({1}, rec, 1);
    assert {0, 1} - {0} == {1} && {1} - {1} == {};
  }

  /**
   * The script itself: a graph on the ten nodes with at least one edge and
   * a budget of 10 never divides by zero, spends exactly 10, and gives every
   * node that has a neighbour a positive share.
   */
  lemma ScriptAllocation(adj: Adjacency)
    requires forall n :: n in adj <==> GraphBuilder.IsNode(n)
    requires Degrees(adj) != map[]
    ensures Allocate(Degrees(adj), ScriptBudget).Allocated?
    ensures Sum(Degrees(adj).Keys, Allocate(Degrees(adj), ScriptBudget).x) == ScriptBudget
    ensures forall u :: u in Degrees(adj) ==> Allocate(Degrees(adj), ScriptBudget).x[u] > 0.0
  {
    var deg := Degrees(adj);
    NodeRangeSize(adj.Keys, GraphBuilder.NodeCount);
    assert |deg.Keys| <= |adj.Keys| by { SubsetNotLarger(deg.Keys, adj.Keys); }
    assert |deg.Keys| <= 10;
    AllocationPositiveWhenBudgetCoversNodes(deg, ScriptBudget);
    AllocationConservesBudget(deg, ScriptBudget);
  }

  lemma {:induction false} NodeRangeSize(s: set<Node>, n: nat)
    requires forall x :: x in s <==> 0 <= x < n
    ensures |s| == n
    decreases n
  {
    if n > 0 {
      NodeRangeSize(s - {n - 1}, n - 1);
      assert s == (s - {n - 1}) + {n - 1};
    } else {
      assert (forall x :: x !in s) ==> s == {};
    }
  }

  // Facts of real arithmetic, each proved on its own

  lemma QuotientZero(n: real, a: real)
    requires a != 0.0
    ensures n / a == 0.0 <==> n == 0.0
  {
  }

  /**
   * Spending the level `1 / lambda` on each of `n` nodes, less the
   * reciprocal sum `s`, spends `bt` when `lambda == n / (bt + s)`.
   */
  lemma SpentIsBudget(spent: real, s: real, n: nat, bt: real, lambda: real)
    requires n != 0 && bt + s != 0.0 && lambda == n as real / (bt + s)
    requires spent + s == Copies(1.0 / lambda, n)
    ensures spent == bt
  {
    CopiesIsProduct(1.0 / lambda, n);
  }

  /** A level `c` with `c * n == a` is `1 / lambda` for `lambda == n / a`. */
  lemma LevelIsInverse(c: real, n: nat, a: real, lambda: real)
    requires n != 0 && a != 0.0 && lambda == n as real / a
    requires Copies(c, n) == a
    ensures c == 1.0 / lambda
  {
    CopiesIsProduct(c, n);
  }

  lemma {:induction false} CopiesIsProduct(c: real, n: nat)
    ensures Copies(c, n) == c * n as real
  {
    if n > 0 {
      CopiesIsProduct(c, n - 1);
    }
  }

  /** With `lambda == n / a` and `a > n > 0`, the level `1 / lambda` exceeds 1. */
  lemma LevelAboveOne(n: real, a: real, lambda: real)
    requires 0.0 < n < a && lambda == n / a
    ensures 1.0 / lambda > 1.0
  {
    assert 1.0 / lambda == a / n;
    assert a / n > 1.0;
  }

  lemma ReciprocalDecreasing(a: real, b: real)
    requires 0.0 < a && 0.0 < b
    ensures a <= b ==> 1.0 / b <= 1.0 / a
    ensures a < b ==> 1.0 / b < 1.0 / a
  {
    assert 1.0 / a - 1.0 / b == (b - a) / (a * b);
    assert a * b > 0.0;
  }
}
