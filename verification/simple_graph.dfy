/**
 * The undirected graph of flaskapp/Question2.py as networkx keeps it: every
 * node maps to the list of its neighbours, in the order the edges were added.
 * `WithEdge` is the effect of `add_edge`, `Edges` the edge set that
 * `number_of_edges` counts.
 */
module SimpleGraph {

  type Node = int

  /** Node -> neighbour list (insertion order), the shape of `G.adj` and of `adj_dict`. */
  type Adjacency = map<Node, seq<Node>>

  ghost predicate NoDuplicates(s: seq<Node>) {
    forall i, j :: 0 <= i < j < |s| ==> s[i] != s[j]
  }

  /** The nodes listed in `s`. */
  ghost function Elems(s: seq<Node>): set<Node> {
    set x | x in s
  }

  /** Every neighbour is itself a node of the graph. */
  ghost predicate Closed(adj: Adjacency) {
    forall u, v :: u in adj && v in adj[u] ==> v in adj
  }

  /** Undirected: `v` is a neighbour of `u` exactly when `u` is a neighbour of `v`. */
  ghost predicate Symmetric(adj: Adjacency) {
    forall u, v :: u in adj && v in adj[u] ==> v in adj && u in adj[v]
  }

  ghost predicate DuplicateFree(adj: Adjacency) {
    forall u :: u in adj ==> NoDuplicates(adj[u])
  }

  ghost predicate Loopless(adj: Adjacency) {
    forall u :: u in adj ==> u !in adj[u]
  }

  /** What a networkx `Graph` always satisfies (self-loops are allowed there). */
  ghost predicate WellFormed(adj: Adjacency) {
    Symmetric(adj) && DuplicateFree(adj)
  }

  /** A simple graph: undirected, no repeated edge, no self-loop. */
  ghost predicate Simple(adj: Adjacency) {
    WellFormed(adj) && Loopless(adj)
  }

  /** An unordered pair written with its smaller end first. */
  function Norm(u: Node, v: Node): (Node, Node) {
    if u <= v then (u, v) else (v, u)
  }

  /** The edge set, each undirected edge once, smaller end first. */
  function Edges(adj: Adjacency): set<(Node, Node)> {
    set u, v | u in adj && v in adj[u] && u <= v :: (u, v)
  }

  /** The graph with no edges on the given nodes (`add_nodes_from`). */
  function EmptyGraph(nodes: seq<Node>): (adj: Adjacency)
    ensures adj.Keys == set n | n in nodes
    ensures Simple(adj) && Edges(adj) == {}
  {
    map n | n in nodes :: []
  }

  /**
   * `add_edge(u, v)`: a missing end becomes a node; if the edge exists
   * nothing changes; otherwise each end is appended to the other's list.
   */
  function WithEdge(adj: Adjacency, u: Node, v: Node): Adjacency {
    var nu := if u in adj then adj[u] else [];
    if v in nu then adj
    else if u == v then adj[u := nu + [u]]
    else
      var nv := if v in adj then adj[v] else [];
      adj[u := nu + [v]][v := nv + [u]]
  }

  /** The edges of `pairs` added one after the other. */
  function AddAll(adj: Adjacency, pairs: seq<(Node, Node)>): Adjacency
    decreases |pairs|
  {
    if pairs == [] then adj
    else
      var last := pairs[|pairs| - 1];
      WithEdge(AddAll(adj, pairs[..|pairs| - 1]), last.0, last.1)
  }

  /** The distinct unordered pairs among `pairs`. */
  function PairSet(pairs: seq<(Node, Node)>): set<(Node, Node)> {
    set i | 0 <= i < |pairs| :: Norm(pairs[i].0, pairs[i].1)
  }

  ghost predicate Distinct(pairs: seq<(Node, Node)>) {
    forall i :: 0 <= i < |pairs| ==> pairs[i].0 != pairs[i].1
  }

  /**
   * `add_edge` keeps the graph well formed, adds at most the one edge
   * `Norm(u, v)`, only appends to neighbour lists, and keeps a loopless
   * graph loopless when `u != v`.
   */
  lemma WithEdgeProperties(adj: Adjacency, u: Node, v: Node)
    requires WellFormed(adj)
    ensures var g := WithEdge(adj, u, v);
      && WellFormed(g)
      && g.Keys == adj.Keys + {u, v}
      && Edges(g) == Edges(adj) + {Norm(u, v)}
      && (forall w :: w in adj ==> g[w][..|adj[w]|] == adj[w])
      && (u in adj && v in adj[u] ==> g == adj)
      && (Loopless(adj) && u != v ==> Loopless(g))
  {
    var nu := if u in adj then adj[u] else [];
    if v in nu {
      assert u in adj;
      var (a, b) := Norm(u, v);
      assert b in adj[a];
    } else if u == v {
      SelfLoopAdded(adj, u);
    } else {
      EdgeAdded(adj, u, v);
    }
  }

  lemma SelfLoopAdded(adj: Adjacency, u: Node)
    requires WellFormed(adj)
    requires u !in adj || u !in adj[u]
    ensures var g := WithEdge(adj, u, u);
      && WellFormed(g)
      && g.Keys == adj.Keys + {u}
      && Edges(g) == Edges(adj) + {(u, u)}
      && (forall w :: w in adj ==> g[w][..|adj[w]|] == adj[w])
  {
    var g := WithEdge(adj, u, u);
    forall e | e in Edges(g) ensures e in Edges(adj) + {(u, u)} {
      var a, b :| a in g && b in g[a] && a <= b && e == (a, b);
      if a != u { assert b in adj[a]; }
      else if b != u { assert b in adj[a]; }
    }
    forall e | e in Edges(adj) ensures e in Edges(g) {
      var a, b :| a in adj && b in adj[a] && a <= b && e == (a, b);
      assert b in g[a];
    }
    assert u in g[u];
  }

  lemma EdgeAdded(adj: Adjacency, u: Node, v: Node)
    requires WellFormed(adj) && u != v
    requires u !in adj || v !in adj[u]
    ensures WellFormed(WithEdge(adj, u, v))
    ensures WithEdge(adj, u, v).Keys == adj.Keys + {u, v}
    ensures Edges(WithEdge(adj, u, v)) == Edges(adj) + {Norm(u, v)}
    ensures forall w :: w in adj ==> WithEdge(adj, u, v)[w][..|adj[w]|] == adj[w]
    ensures Loopless(adj) ==> Loopless(WithEdge(adj, u, v))
  {
    var g := WithEdge(adj, u, v);
    var nu := if u in adj then adj[u] else [];
    var nv := if v in adj then adj[v] else [];
    assert u !in nv;
    assert g == adj[u := nu + [v]][v := nv + [u]];
    EdgeAddedSymmetric(adj, u, v);
    NoDuplicatesSnoc(nu, v);
    NoDuplicatesSnoc(nv, u);
    assert DuplicateFree(g);
    forall w | w in adj ensures g[w][..|adj[w]|] == adj[w] {
      if w == u {
        assert g[w] == nu + [v];
      } else if w == v {
        assert g[w] == nv + [u];
      } else {
        assert g[w] == adj[w];
      }
    }
    if Loopless(adj) {
      forall w | w in g ensures w !in g[w] {
        if w == u {
          assert u !in nu;
        } else if w == v {
          assert v !in nv;
        } else {
          assert g[w] == adj[w];
        }
      }
    }
    EdgeAddedEdges(adj, u, v);
  }

  lemma EdgeAddedSymmetric(adj: Adjacency, u: Node, v: Node)
    requires WellFormed(adj) && u != v
    requires u !in adj || v !in adj[u]
    ensures Symmetric(WithEdge(adj, u, v))
  {
    var g := WithEdge(adj, u, v);
    var nu := if u in adj then adj[u] else [];
    var nv := if v in adj then adj[v] else [];
    assert g == adj[u := nu + [v]][v := nv + [u]];
    forall a, b | a in g && b in g[a] ensures b in g && a in g[b] {
      if a != u && a != v {
        assert b in adj[a];
      } else if a == u && b != v {
        assert b in adj[u];
      } else if a == v && b != u {
        assert b in adj[v];
      }
    }
  }

  lemma EdgeAddedEdges(adj: Adjacency, u: Node, v: Node)
    requires WellFormed(adj) && u != v
    requires u !in adj || v !in adj[u]
    ensures Edges(WithEdge(adj, u, v)) == Edges(adj) + {Norm(u, v)}
  {
    var g := WithEdge(adj, u, v);
    var nu := if u in adj then adj[u] else [];
    var nv := if v in adj then adj[v] else [];
    assert g == adj[u := nu + [v]][v := nv + [u]];
    forall e | e in Edges(g) ensures e in Edges(adj) + {Norm(u, v)} {
      var a, b :| a in g && b in g[a] && a <= b && e == (a, b);
      if a == u {
        if b != v { assert b in adj[u]; }
      } else if a == v {
        if b != u { assert b in adj[v]; }
      } else {
        assert b in adj[a];
      }
    }
    forall e | e in Edges(adj) ensures e in Edges(g) {
      var a, b :| a in adj && b in adj[a] && a <= b && e == (a, b);
      assert b in g[a];
    }
    if u <= v { assert v in g[u]; } else { assert u in g[v]; }
  }

  /**
   * Adding the pairs one after the other yields the edge set of the graph
   * plus the distinct pairs, and keeps a simple graph simple when no pair
   * joins a node to itself.
   */
  lemma {:induction false} AddAllProperties(adj: Adjacency, pairs: seq<(Node, Node)>)
    requires WellFormed(adj)
    ensures var g := AddAll(adj, pairs);
      && WellFormed(g)
      && Edges(g) == Edges(adj) + PairSet(pairs)
      && (Loopless(adj) && Distinct(pairs) ==> Loopless(g))
    decreases |pairs|
  {
    if pairs != [] {
      var front := pairs[..|pairs| - 1];
      var last := pairs[|pairs| - 1];
      AddAllProperties(adj, front);
      WithEdgeProperties(AddAll(adj, front), last.0, last.1);
      PairSetSnoc(front, last);
      assert front + [last] == pairs;
    }
  }

  /** Adding edges between existing nodes adds no node. */
  lemma {:induction false} AddAllKeys(adj: Adjacency, pairs: seq<(Node, Node)>)
    requires forall i :: 0 <= i < |pairs| ==> pairs[i].0 in adj && pairs[i].1 in adj
    ensures AddAll(adj, pairs).Keys == adj.Keys
    decreases |pairs|
  {
    if pairs != [] {
      var front := pairs[..|pairs| - 1];
      AddAllKeys(adj, front);
    }
  }

  lemma NoDuplicatesSnoc(s: seq<Node>, v: Node)
    requires NoDuplicates(s) && v !in s
    ensures NoDuplicates(s + [v])
  {
    var t := s + [v];
    forall i, j | 0 <= i < j < |t| ensures t[i] != t[j] {
      assert t[i] == s[i];
      if j < |s| { assert t[j] == s[j]; }
    }
  }

  /** A subset is no larger than the set holding it. */
  lemma SubsetNotLarger(a: set<Node>, b: set<Node>)
    requires a <= b
    ensures |a| <= |b|
  {
    assert b == a + (b - a);
  }

  /** A list without repeats lists as many nodes as it is long. */
  lemma {:induction false} DistinctCount(s: seq<Node>)
    requires NoDuplicates(s)
    ensures |Elems(s)| == |s|
    decreases |s|
  {
    if s != [] {
      var front, x := s[..|s| - 1], s[|s| - 1];
      assert s == front + [x];
      assert Elems(s) == Elems(front) + {x};
      assert x !in Elems(front);
      DistinctCount(front);
    }
  }

  lemma PairSetSnoc(pairs: seq<(Node, Node)>, p: (Node, Node))
    ensures PairSet(pairs + [p]) == PairSet(pairs) + {Norm(p.0, p.1)}
  {
    var s := pairs + [p];
    assert s[|pairs|] == p;
    forall e | e in PairSet(s) ensures e in PairSet(pairs) + {Norm(p.0, p.1)} {
      var i :| 0 <= i < |s| && e == Norm(s[i].0, s[i].1);
      if i < |pairs| { assert s[i] == pairs[i]; }
    }
    forall e | e in PairSet(pairs) ensures e in PairSet(s) {
      var i :| 0 <= i < |pairs| && e == Norm(pairs[i].0, pairs[i].1);
      assert s[i] == pairs[i];
    }
  }
}
