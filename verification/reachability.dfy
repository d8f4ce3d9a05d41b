/**
 * Hop distance and reachability over an adjacency map, the reference the
 * two traversals of `GraphSearch` are proved against.
 */
module Reachability {
  import opened SimpleGraph

  /** The nodes one hop away from some node of `from`. */
  ghost function Successors(graph: Adjacency, from: set<Node>): set<Node> {
    set u, v | u in from && u in graph && v in graph[u] :: v
  }

  /** The nodes at most `k` hops away from `start`. */
  ghost function WithinHops(graph: Adjacency, start: Node, k: nat): set<Node>
    decreases k
  {
    if k == 0 then {start}
    else
      var inner := WithinHops(graph, start, k - 1);
      inner + Successors(graph, inner)
  }

  /** `v` can be reached from `start` by following neighbour lists. */
  ghost predicate Reachable(graph: Adjacency, start: Node, v: Node) {
    exists k: nat :: v in WithinHops(graph, start, k)
  }

  /** The shortest-path distance from `start` to `v` is exactly `k`. */
  ghost predicate IsDistance(graph: Adjacency, start: Node, v: Node, k: nat) {
    v in WithinHops(graph, start, k) && (k == 0 || v !in WithinHops(graph, start, k - 1))
  }

  lemma NextHop(graph: Adjacency, start: Node, k: nat, u: Node, v: Node)
    requires u in WithinHops(graph, start, k) && u in graph && v in graph[u]
    ensures v in WithinHops(graph, start, k + 1)
  {
    assert v in Successors(graph, WithinHops(graph, start, k));
  }

  /** A neighbour of a reachable node is reachable. */
  lemma ReachableStep(graph: Adjacency, start: Node, u: Node, v: Node)
    requires Reachable(graph, start, u) && u in graph && v in graph[u]
    ensures Reachable(graph, start, v)
  {
    var k: nat :| u in WithinHops(graph, start, k);
    NextHop(graph, start, k, u, v);
  }

  /** The balls grow with their radius. */
  lemma {:induction false} WithinHopsMonotone(graph: Adjacency, start: Node, j: nat, k: nat)
    requires j <= k
    ensures WithinHops(graph, start, j) <= WithinHops(graph, start, k)
    decreases k - j
  {
    if j < k {
      WithinHopsMonotone(graph, start, j, k - 1);
    }
  }

  /** A node whose distance is `m` and that is within `k` hops has `m <= k`. */
  lemma DistanceIsLeast(graph: Adjacency, start: Node, v: Node, m: nat, k: nat)
    requires IsDistance(graph, start, v, m) && v in WithinHops(graph, start, k)
    ensures m <= k
  {
    if k < m {
      WithinHopsMonotone(graph, start, k, m - 1);
    }
  }

  /**
   * A set that holds `start` and every neighbour of each of its members
   * holds every node reachable from `start`.
   */
  lemma ClosedSetHoldsReachable(graph: Adjacency, start: Node, s: set<Node>)
    requires start in s
    requires forall u, v :: u in s && u in graph && v in graph[u] ==> v in s
    ensures forall v :: Reachable(graph, start, v) ==> v in s
  {
    forall v | Reachable(graph, start, v) ensures v in s {
      var k: nat :| v in WithinHops(graph, start, k);
      ClosedSetHoldsBall(graph, start, s, k);
    }
  }

  lemma {:induction false} ClosedSetHoldsBall(graph: Adjacency, start: Node, s: set<Node>, k: nat)
    requires start in s
    requires forall u, v :: u in s && u in graph && v in graph[u] ==> v in s
    ensures WithinHops(graph, start, k) <= s
    decreases k
  {
    if k > 0 {
      ClosedSetHoldsBall(graph, start, s, k - 1);
    }
  }
}
