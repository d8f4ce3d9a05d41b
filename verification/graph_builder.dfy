/**
 * Steps 1 and 2 of flaskapp/Question2.py: the networkx `Graph` object that
 * the edge-adding loop mutates, the loop itself with its random draws taken
 * as inputs, and the plain adjacency dictionary read off the graph.
 */
module GraphBuilder {
  import opened SimpleGraph

  /** The script's nodes are 0 to 9 (line 7). */
  const NodeCount: nat := 10
  /** The target edge count is drawn from this range (line 10). */
  const MinEdges: nat := 10
  const MaxEdges: nat := 14

  /** The nodes the script adds, 0 to 9 in order. */
  function NodeList(): seq<Node>
  {
    seq(NodeCount, i => i)
  }

  predicate IsNode(n: Node) {
    0 <= n < NodeCount
  }

  /** The networkx graph object: its adjacency, updated in place by `add_edge`. */
  class Graph {
    var adj: Adjacency

    ghost predicate Valid()
      reads this
    {
      WellFormed(adj)
    }

    /** A new graph with the given nodes and no edge (lines 6 and 8). */
    constructor (nodes: seq<Node>)
      ensures Valid() && Loopless(adj) && adj == EmptyGraph(nodes)
      ensures adj.Keys == set n | n in nodes
      ensures forall n :: n in adj ==> adj[n] == []
    {
      adj := EmptyGraph(nodes);
    }

    /** The number of distinct undirected edges. */
    function NumberOfEdges(): nat
      reads this
    {
      |Edges(adj)|
    }

    /**
     * `add_edge`: the edge set grows by the pair `{u, v}` and by
     * nothing else; an existing edge leaves the graph unchanged.
     */
    method AddEdge(u: Node, v: Node)
      requires Valid()
      modifies this
      ensures Valid()
      ensures adj == WithEdge(old(adj), u, v)
      ensures adj.Keys == old(adj.Keys) + {u, v}
      ensures Edges(adj) == old(Edges(adj)) + {Norm(u, v)}
      ensures old(Loopless(adj)) && u != v ==> Loopless(adj)
      ensures u in old(adj) && v in old(adj[u]) ==> adj == old(adj)
    {
      WithEdgeProperties(adj, u, v);
      adj := WithEdge(adj, u, v);
    }

    /**
     * The dictionary of line 16: for every node, a copy of its
     * neighbour list, which is symmetric and free of repeats.
     */
    function AdjacencyDict(): (d: Adjacency)
      reads this
      requires Valid()
      ensures d.Keys == adj.Keys
      ensures forall u :: u in d ==> d[u] == adj[u]
      ensures Closed(d) && DuplicateFree(d)
      ensures forall u, v :: u in d && v in d ==> (v in d[u] <==> u in d[v])
      ensures |Edges(d)| == NumberOfEdges()
    {
      var d := map u | u in adj :: adj[u];
      assert d == adj;
      d
    }
  }

  /**
   * The loop of lines 10-13. `target` is the drawn edge count and `draws`
   * the pairs of distinct nodes that successive samples return. The loop
   * stops at the target edge count or when the draws run out; `used` is the
   * number of draws consumed.
   */
  method BuildRandomGraph(target: nat, draws: seq<(Node, Node)>) returns (g: Graph, used: nat)
    requires MinEdges <= target <= MaxEdges
    requires forall i :: 0 <= i < |draws| ==> IsNode(draws[i].0) && IsNode(draws[i].1)
    requires Distinct(draws)
    ensures fresh(g) && g.Valid() && Simple(g.adj)
    ensures forall n :: n in g.adj <==> IsNode(n)
    ensures used <= |draws| && g.adj == AddAll(EmptyGraph(NodeList()), draws[..used])
    ensures Edges(g.adj) == PairSet(draws[..used])
    ensures g.NumberOfEdges() <= target
    ensures g.NumberOfEdges() == target || (used == |draws| && |PairSet(draws)| < target)
    ensures forall k :: 0 <= k < used ==> |PairSet(draws[..k])| < target
  {
    g := new Graph(NodeList());
    used := 0;
    while g.NumberOfEdges() < target && used < |draws|
      invariant g.Valid()
      invariant used <= |draws| && g.adj == AddAll(EmptyGraph(NodeList()), draws[..used])
      invariant forall k :: 0 <= k < used ==> |PairSet(draws[..k])| < target
      decreases |draws| - used
    {
      var (n1, n2) := draws[used];
      DrawStep(draws, used, target);
      g.AddEdge(n1, n2);
      used := used + 1;
    }
    DrawsDone(draws, used, target);
  }

  /** The graph after `used` draws: its nodes, its edges, and that it is simple. */
  lemma AfterDraws(draws: seq<(Node, Node)>, used: nat)
    requires used <= |draws|
    requires forall i :: 0 <= i < |draws| ==> IsNode(draws[i].0) && IsNode(draws[i].1)
    requires Distinct(draws)
    ensures var adj := AddAll(EmptyGraph(NodeList()), draws[..used]);
      && Simple(adj)
      && Edges(adj) == PairSet(draws[..used])
      && (forall n :: n in adj <==> IsNode(n))
  {
    var empty := EmptyGraph(NodeList());
    forall n | IsNode(n) ensures n in empty { assert NodeList()[n] == n; }
    AddAllProperties(empty, draws[..used]);
    AddAllKeys(empty, draws[..used]);
    assert Distinct(draws[..used]);
    var adj := AddAll(empty, draws[..used]);
    assert adj.Keys == empty.Keys;
    forall n ensures n in adj <==> IsNode(n) {
      assert n in adj <==> n in empty;
    }
  }

  lemma DrawsPrefix(draws: seq<(Node, Node)>, k: nat)
    requires 0 < k <= |draws|
    ensures draws[..k] == draws[..k - 1] + [draws[k - 1]]
  {
  }

  /** One more draw adds its pair to the pairs seen so far. */
  lemma DrawStep(draws: seq<(Node, Node)>, used: nat, target: nat)
    requires used < |draws|
    requires forall i :: 0 <= i < |draws| ==> IsNode(draws[i].0) && IsNode(draws[i].1)
    requires Distinct(draws)
    requires |Edges(AddAll(EmptyGraph(NodeList()), draws[..used]))| < target
    requires forall k :: 0 <= k < used ==> |PairSet(draws[..k])| < target
    ensures forall k :: 0 <= k < used + 1 ==> |PairSet(draws[..k])| < target
    ensures AddAll(EmptyGraph(NodeList()), draws[..used + 1])
         == WithEdge(AddAll(EmptyGraph(NodeList()), draws[..used]), draws[used].0, draws[used].1)
  {
    AfterDraws(draws, used);
    AddAllNext(EmptyGraph(NodeList()), draws, used);
  }

  lemma AddAllNext(adj: Adjacency, draws: seq<(Node, Node)>, used: nat)
    requires used < |draws|
    ensures AddAll(adj, draws[..used + 1]) == WithEdge(AddAll(adj, draws[..used]), draws[used].0, draws[used].1)
  {
    assert draws[..used + 1][..used] == draws[..used];
  }

  /** When the loop stops: the target is met, or the draws ran out short of it. */
  lemma DrawsDone(draws: seq<(Node, Node)>, used: nat, target: nat)
    requires used <= |draws|
    requires forall i :: 0 <= i < |draws| ==> IsNode(draws[i].0) && IsNode(draws[i].1)
    requires Distinct(draws)
    requires forall k :: 0 <= k < used ==> |PairSet(draws[..k])| < target
    requires |Edges(AddAll(EmptyGraph(NodeList()), draws[..used]))| >= target || used == |draws|
    ensures var adj := AddAll(EmptyGraph(NodeList()), draws[..used]);
      && Simple(adj)
      && (forall n :: n in adj <==> IsNode(n))
      && Edges(adj) == PairSet(draws[..used])
      && |Edges(adj)| <= target
      && (|Edges(adj)| == target || (used == |draws| && |PairSet(draws)| < target))
  {
    AfterDraws(draws, used);
    assert used == |draws| ==> draws[..used] == draws;
    if used > 0 {
      DrawsPrefix(draws, used);
      PairSetSnoc(draws[..used - 1], draws[used - 1]);
    }
  }
}
