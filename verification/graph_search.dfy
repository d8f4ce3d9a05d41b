/**
 * `GraphSearch` of flaskapp/Question2.py: recursive pre-order depth-first
 * search and level-order (breadth-first) traversal over the adjacency
 * dictionary. The class holds only the dictionary it was built with and
 * never changes it, so each traversal takes the dictionary as a parameter.
 */
module GraphSearch {
  import opened SimpleGraph
  import opened Reachability

  /**
   * The outcome of a traversal: the visiting order, or the `KeyError`
   * Python raises when the start node has no entry in the dictionary.
   */
  datatype Traversal = Order(nodes: seq<Node>) | KeyError(key: Node)

  ghost predicate AllNodes(graph: Adjacency, s: seq<Node>) {
    forall x :: x in s ==> x in graph
  }

  /**
   * The traversal result lists each reachable node once, starting at
   * `start`.
   */
  ghost predicate VisitsComponentOnce(graph: Adjacency, start: Node, r: seq<Node>) {
    && |r| > 0 && r[0] == start
    && NoDuplicates(r)
    && (forall v :: v in r <==> Reachable(graph, start, v))
  }

  /**
   * Every node listed before a node that is within `k` hops of `start` is
   * itself within `k` hops: the shortest-path distance from `start` never
   * decreases along `r`.
   */
  ghost predicate NonDecreasingDistance(graph: Adjacency, start: Node, r: seq<Node>) {
    forall i, j, k: nat :: 0 <= i < j < |r| && r[j] in WithinHops(graph, start, k) ==>
      r[i] in WithinHops(graph, start, k)
  }

  // ---------------------------------------------------------------------
  // Depth-first search

  /**
   * The result list once `_dfs(v)` has returned, when the nodes of `done`
   * were visited before, in that order.
   */
  function Preorder(graph: Adjacency, v: Node, done: seq<Node>): (r: seq<Node>)
    requires Closed(graph) && v in graph && v !in done
    requires AllNodes(graph, done) && NoDuplicates(done)
    ensures |done| < |r| && r[..|done|] == done && r[|done|] == v
    ensures AllNodes(graph, r) && NoDuplicates(r)
    decreases |graph.Keys - Elems(done)|, 0, 0
  {
    FrontierShrinks(graph, done, v);
    NoDuplicatesSnoc(done, v);
    var r := PreorderAll(graph, graph[v], done + [v]);
    PrefixOfPrefix(done, v, r);
    r
  }

  /**
   * The result list once the `for neighbor in ...` loop has gone through
   * `ns`, starting from the visited nodes `done`.
   */
  function PreorderAll(graph: Adjacency, ns: seq<Node>, done: seq<Node>): (r: seq<Node>)
    requires Closed(graph) && AllNodes(graph, ns)
    requires AllNodes(graph, done) && NoDuplicates(done)
    ensures |done| <= |r| && r[..|done|] == done
    ensures AllNodes(graph, r) && NoDuplicates(r)
    decreases |graph.Keys - Elems(done)|, 1, |ns|
  {
    if ns == [] then done
    else if ns[0] in done then PreorderAll(graph, ns[1..], done)
    else
      var next := Preorder(graph, ns[0], done);
      FrontierNotGrowing(graph, done, next);
      PreorderAll(graph, ns[1..], next)
  }

  /**
   * What `_dfs(v)` adds is reachable from wherever `v` is, and once it
   * returns every neighbour of every node it added has been visited.
   */
  lemma {:induction false} PreorderFacts(graph: Adjacency, root: Node, v: Node, done: seq<Node>)
    requires Closed(graph) && v in graph && v !in done
    requires AllNodes(graph, done) && NoDuplicates(done)
    requires Reachable(graph, root, v)
    ensures forall i :: |done| <= i < |Preorder(graph, v, done)| ==>
      Reachable(graph, root, Preorder(graph, v, done)[i])
    ensures forall i, n :: |done| <= i < |Preorder(graph, v, done)| && n in graph[Preorder(graph, v, done)[i]] ==>
      n in Preorder(graph, v, done)
    decreases |graph.Keys - Elems(done)|, 0, 0
  {
    FrontierShrinks(graph, done, v);
    NoDuplicatesSnoc(done, v);
    forall n | n in graph[v] ensures Reachable(graph, root, n) {
      ReachableStep(graph, root, v, n);
    }
    PreorderAllFacts(graph, root, graph[v], done + [v]);
    var r := PreorderAll(graph, graph[v], done + [v]);
    assert r == Preorder(graph, v, done);
    assert r[|done|] == v by { PrefixOfPrefix(done, v, r); }
    forall i | |done| <= i < |r| ensures Reachable(graph, root, r[i]) {
      if i == |done| { assert r[i] == v; }
    }
    forall i, n | |done| <= i < |r| && n in graph[r[i]] ensures n in r {
      if i == |done| { assert r[i] == v; }
    }
  }

  lemma {:induction false} PreorderAllFacts(graph: Adjacency, root: Node, ns: seq<Node>, done: seq<Node>)
    requires Closed(graph) && AllNodes(graph, ns)
    requires AllNodes(graph, done) && NoDuplicates(done)
    requires forall n :: n in ns ==> Reachable(graph, root, n)
    ensures forall n :: n in ns ==> n in PreorderAll(graph, ns, done)
    ensures forall i :: |done| <= i < |PreorderAll(graph, ns, done)| ==>
      Reachable(graph, root, PreorderAll(graph, ns, done)[i])
    ensures forall i, n :: |done| <= i < |PreorderAll(graph, ns, done)| && n in graph[PreorderAll(graph, ns, done)[i]] ==>
      n in PreorderAll(graph, ns, done)
    decreases |graph.Keys - Elems(done)|, 1, |ns|
  {
    if ns == [] {
    } else if ns[0] in done {
      TailMembers(ns);
      PreorderAllFacts(graph, root, ns[1..], done);
      var r := PreorderAll(graph, ns[1..], done);
      assert r == PreorderAll(graph, ns, done);
      var i :| 0 <= i < |done| && done[i] == ns[0];
      assert r[i] == done[i];
    } else {
      TailMembers(ns);
      var next := Preorder(graph, ns[0], done);
      PreorderFacts(graph, root, ns[0], done);
      FrontierNotGrowing(graph, done, next);
      PreorderAllFacts(graph, root, ns[1..], next);
      var r := PreorderAll(graph, ns[1..], next);
      assert r == PreorderAll(graph, ns, done);
      PreorderAllExtends(graph, root, done, next, r);
    }
  }

  /** Glues the facts about the first call `_dfs(ns[0])` to those about the rest of the loop. */
  lemma PreorderAllExtends(graph: Adjacency, root: Node, done: seq<Node>, next: seq<Node>, r: seq<Node>)
    requires AllNodes(graph, next) && AllNodes(graph, r)
    requires |done| < |next| <= |r| && r[..|next|] == next
    requires forall i :: |done| <= i < |next| ==> Reachable(graph, root, next[i])
    requires forall i, n :: |done| <= i < |next| && n in graph[next[i]] ==> n in next
    requires forall i :: |next| <= i < |r| ==> Reachable(graph, root, r[i])
    requires forall i, n :: |next| <= i < |r| && n in graph[r[i]] ==> n in r
    ensures next[|done|] in r
    ensures forall i :: |done| <= i < |r| ==> Reachable(graph, root, r[i])
    ensures forall i, n :: |done| <= i < |r| && n in graph[r[i]] ==> n in r
  {
    assert r[|done|] == next[|done|];
    forall i | |done| <= i < |next| ensures r[i] == next[i] {
      assert r[..|next|][i] == next[i];
    }
    forall i, n | |done| <= i < |next| && n in graph[next[i]] ensures n in r {
      assert n in next;
      var j :| 0 <= j < |next| && next[j] == n;
      assert r[j] == n by { assert r[..|next|][j] == next[j]; }
    }
  }

  /**
   * `dfs(start)` lists `start` first, lists every node at most once, and
   * lists exactly the nodes reachable from `start`.
   */
  lemma PreorderVisitsComponent(graph: Adjacency, start: Node)
    requires Closed(graph) && start in graph
    ensures VisitsComponentOnce(graph, start, Preorder(graph, start, []))
  {
    var r := Preorder(graph, start, []);
    assert start in WithinHops(graph, start, 0);
    PreorderFacts(graph, start, start, []);

    forall u, n | u in Elems(r) && u in graph && n in graph[u] ensures n in Elems(r) {
      var i :| 0 <= i < |r| && r[i] == u;
      assert 0 <= i < |r| && n in graph[r[i]];
      assert n in r;
    }
    ClosedSetHoldsReachable(graph, start, Elems(r));
    forall v | v in r ensures Reachable(graph, start, v) {
      var i :| 0 <= i < |r| && r[i] == v;
      assert Reachable(graph, start, r[i]);
    }
  }

  /**
   * The nested `_dfs(v)` of `dfs`: marks `v` visited, appends it, then
   * recurses into each neighbour not yet visited, in list order. The
   * Python closure updates `visited` and `result` in place; here they are
   * passed in and handed back.
   */
  method DfsVisit(graph: Adjacency, v: Node, visited: set<Node>, result: seq<Node>)
    returns (visited': set<Node>, result': seq<Node>)
    requires Closed(graph) && v in graph && v !in visited
    requires visited == Elems(result) && AllNodes(graph, result) && NoDuplicates(result)
    ensures result' == Preorder(graph, v, result)
    ensures visited' == Elems(result')
    decreases |graph.Keys - visited|
  {
    visited' := visited + {v};
    result' := result + [v];
    ghost var done := result + [v];
    FrontierShrinks(graph, result, v);
    NoDuplicatesSnoc(result, v);
    for i := 0 to |graph[v]|
      invariant visited' == Elems(result')
      invariant AllNodes(graph, result') && NoDuplicates(result')
      invariant |done| <= |result'| && result'[..|done|] == done
      invariant PreorderAll(graph, graph[v][i..], result') == PreorderAll(graph, graph[v], done)
    {
      var neighbor := graph[v][i];
      PreorderAllStep(graph, graph[v][i..], result');
      assert graph[v][i..][0] == neighbor && graph[v][i..][1..] == graph[v][i + 1..];
      if neighbor !in visited' {
        FrontierNotGrowing(graph, done, result');
        ghost var before := result';
        visited', result' := DfsVisit(graph, neighbor, visited', result');
        PrefixTransitive(done, before, result');
      }
    }
    assert graph[v][|graph[v]|..] == [];
  }

  /** One turn of the `for neighbor in ...` loop, as `PreorderAll` unfolds it. */
  lemma PreorderAllStep(graph: Adjacency, ns: seq<Node>, done: seq<Node>)
    requires Closed(graph) && AllNodes(graph, ns) && ns != []
    requires AllNodes(graph, done) && NoDuplicates(done)
    ensures ns[0] in done ==> PreorderAll(graph, ns, done) == PreorderAll(graph, ns[1..], done)
    ensures ns[0] !in done ==>
      PreorderAll(graph, ns, done) == PreorderAll(graph, ns[1..], Preorder(graph, ns[0], done))
  {
  }

  lemma PrefixTransitive(a: seq<Node>, b: seq<Node>, c: seq<Node>)
    requires |a| <= |b| <= |c| && b[..|a|] == a && c[..|b|] == b
    ensures c[..|a|] == a
  {
    assert c[..|a|] == c[..|b|][..|a|];
  }

  /** `GraphSearch.dfs`: the nested visit from `start` with nothing visited yet. */
  method Dfs(graph: Adjacency, start: Node) returns (t: Traversal)
    requires Closed(graph)
    ensures start !in graph ==> t == KeyError(start)
    ensures start in graph ==> t == Order(Preorder(graph, start, []))
    ensures t.Order? ==> VisitsComponentOnce(graph, start, t.nodes)
  {
    if start !in graph {
      return KeyError(start);
    }
    var visited, result := DfsVisit(graph, start, {}, []);
    PreorderVisitsComponent(graph, start);
    return Order(result);
  }

  // ---------------------------------------------------------------------
  // Level-order (breadth-first) traversal

  /** Every node listed in `s` has a level, and the levels never decrease along `s`. */
  ghost predicate LevelsSorted(level: map<Node, nat>, s: seq<Node>) {
    && (forall x :: x in s ==> x in level)
    && (forall i, j :: 0 <= i < j < |s| ==> level[s[i]] <= level[s[j]])
  }

  /** The ghost map `level` gives each visited node its exact distance from `start`. */
  ghost predicate Discovered(graph: Adjacency, start: Node, visited: set<Node>, level: map<Node, nat>) {
    && visited <= graph.Keys && start in visited && level.Keys == visited
    && (forall x :: x in visited ==> IsDistance(graph, start, x, level[x]))
  }

  /** `visited` holds exactly the nodes listed in `result` or waiting in `queue`, each once. */
  ghost predicate Listed(start: Node, visited: set<Node>, result: seq<Node>, queue: seq<Node>) {
    && (forall x :: x in visited <==> x in result || x in queue)
    && NoDuplicates(result + queue) && |result + queue| > 0 && (result + queue)[0] == start
  }

  /**
   * The listed nodes are at most `d` hops away and the waiting ones `d` or
   * `d + 1`, both in non-decreasing order of distance.
   */
  ghost predicate Layered(level: map<Node, nat>, result: seq<Node>, queue: seq<Node>, d: nat) {
    && LevelsSorted(level, result) && LevelsSorted(level, queue)
    && (forall x :: x in result ==> level[x] <= d)
    && (forall x :: x in queue ==> d <= level[x] <= d + 1)
  }

  /** The state of `level_order` between two steps. */
  ghost predicate QueueState(graph: Adjacency, start: Node, visited: set<Node>,
    result: seq<Node>, queue: seq<Node>, level: map<Node, nat>, d: nat)
  {
    Discovered(graph, start, visited, level) && Listed(start, visited, result, queue)
    && Layered(level, result, queue, d)
  }

  /** Every neighbour of every node in `done` has been marked visited. */
  ghost predicate NeighboursSeen(graph: Adjacency, done: seq<Node>, visited: set<Node>) {
    forall x, n :: x in done && x in graph && n in graph[x] ==> n in visited
  }

  /** Every visited node closer than `d` is in `finished`. */
  ghost predicate CloserFinished(visited: set<Node>, finished: seq<Node>, level: map<Node, nat>, d: nat)
  {
    forall x :: x in visited && x in level && level[x] < d ==> x in finished
  }

  /**
   * Inside the `for neighbor in self.graph[current]` loop: `current`, at
   * distance `d`, has just been appended after `finished`; every node
   * closer than `d` is in `finished`, and the first `i` neighbours of
   * `current` have been looked at.
   */
  ghost predicate ScanState(graph: Adjacency, start: Node, visited: set<Node>, finished: seq<Node>,
    current: Node, queue: seq<Node>, level: map<Node, nat>, d: nat, i: nat)
  {
    && QueueState(graph, start, visited, finished + [current], queue, level, d)
    && current in graph && current in level && level[current] == d && i <= |graph[current]|
    && CloserFinished(visited, finished, level, d)
    && NeighboursSeen(graph, finished, visited)
    && (forall j :: 0 <= j < i ==> graph[current][j] in visited)
  }

  /** Every waiting node is visited, and every visited node is a key. */
  ghost predicate Frontier(graph: Adjacency, queue: seq<Node>, visited: set<Node>) {
    visited <= graph.Keys && forall i :: 0 <= i < |queue| ==> queue[i] in visited
  }

  /**
   * The visited set and queue after the `for neighbor in ...` loop of
   * `level_order` has looked at the neighbours `ns`: each one not yet
   * visited is marked and appended to the queue, in list order.
   */
  function EnqueueUnseen(ns: seq<Node>, visited: set<Node>, queue: seq<Node>): (r: (set<Node>, seq<Node>))
    ensures visited <= r.0 && (forall x :: x in ns ==> x in r.0)
    ensures forall x :: x in r.0 ==> x in visited || x in ns
    ensures |queue| <= |r.1| && r.1[..|queue|] == queue
    ensures forall j :: |queue| <= j < |r.1| ==> r.1[j] in ns && r.1[j] !in visited
    ensures r.0 == visited ==> r.1 == queue
    ensures (forall i :: 0 <= i < |queue| ==> queue[i] in visited) ==> forall i :: 0 <= i < |r.1| ==> r.1[i] in r.0
    decreases |ns|
  {
    if ns == [] then (visited, queue)
    else
      var p := EnqueueUnseen(ns[..|ns| - 1], visited, queue);
      var n := ns[|ns| - 1];
      assert forall x :: x in ns[..|ns| - 1] ==> x in ns;
      assert forall x :: x in ns ==> x in ns[..|ns| - 1] || x == n;
      if n in p.0 then p
      else
        assert (p.1 + [n])[..|queue|] == p.1[..|queue|];
        (p.0 + {n}, p.1 + [n])
  }

  /**
   * The order `level_order` lists the nodes in, from the waiting `queue`
   * and the `visited` set: the head of the queue, then what the traversal
   * lists after it has enqueued the head's unseen neighbours. The waiting
   * nodes come first, in queue order.
   */
  ghost function Bfs(graph: Adjacency, queue: seq<Node>, visited: set<Node>): (r: seq<Node>)
    requires Closed(graph) && Frontier(graph, queue, visited)
    ensures |queue| <= |r| && r[..|queue|] == queue
    decreases |graph.Keys - visited|, |queue|
  {
    if queue == [] then []
    else
      FrontierNext(graph, queue, visited);
      var next := EnqueueUnseen(graph[queue[0]], visited, queue[1..]);
      assert next.0 != visited ==> |graph.Keys - next.0| < |graph.Keys - visited| by {
        if next.0 != visited { SetFrontierShrinks(graph.Keys, visited, next.0); }
      }
      var rest := Bfs(graph, next.1, next.0);
      assert rest[..|queue| - 1] == next.1[..|queue| - 1] == queue[1..];
      [queue[0]] + rest
  }

  /** Dequeuing the head and enqueuing its unseen neighbours keeps the queue within the visited nodes. */
  lemma FrontierNext(graph: Adjacency, queue: seq<Node>, visited: set<Node>)
    requires Closed(graph) && Frontier(graph, queue, visited) && queue != []
    ensures queue[0] in graph
    ensures Frontier(graph, EnqueueUnseen(graph[queue[0]], visited, queue[1..]).1,
                            EnqueueUnseen(graph[queue[0]], visited, queue[1..]).0)
  {
    var head, rest := queue[0], queue[1..];
    assert head in visited;
    assert forall i :: 0 <= i < |rest| ==> rest[i] == queue[i + 1];
    forall x | x in graph[head] ensures x in graph {
    }
    var next := EnqueueUnseen(graph[head], visited, rest);
  }

  /** One turn of the `while queue` loop, as `Bfs` unfolds it. */
  lemma BfsStep(graph: Adjacency, queue: seq<Node>, visited: set<Node>)
    requires Closed(graph) && Frontier(graph, queue, visited) && queue != []
    ensures Frontier(graph, EnqueueUnseen(graph[queue[0]], visited, queue[1..]).1,
                            EnqueueUnseen(graph[queue[0]], visited, queue[1..]).0)
    ensures Bfs(graph, queue, visited)
         == [queue[0]] + Bfs(graph, EnqueueUnseen(graph[queue[0]], visited, queue[1..]).1,
                                    EnqueueUnseen(graph[queue[0]], visited, queue[1..]).0)
  {
    FrontierNext(graph, queue, visited);
  }

  /**
   * One turn of the `while queue` loop: what is listed plus what `Bfs`
   * still lists is the whole order again.
   */
  lemma BfsAdvance(graph: Adjacency, start: Node, finished: seq<Node>, queue: seq<Node>,
    visited: set<Node>, queue': seq<Node>, visited': set<Node>)
    requires Closed(graph) && start in graph && Frontier(graph, queue, visited) && queue != []
    requires finished + Bfs(graph, queue, visited) == Bfs(graph, [start], {start})
    requires queue[0] in graph
    requires visited' == EnqueueUnseen(graph[queue[0]], visited, queue[1..]).0
    requires queue' == EnqueueUnseen(graph[queue[0]], visited, queue[1..]).1
    ensures Frontier(graph, queue', visited')
    ensures (finished + [queue[0]]) + Bfs(graph, queue', visited') == Bfs(graph, [start], {start})
  {
    BfsStep(graph, queue, visited);
    var rest := Bfs(graph, queue', visited');
    assert (finished + [queue[0]]) + rest == finished + ([queue[0]] + rest);
  }

  /** Enqueuing the unseen neighbours of the head marks more nodes, or else shortens the queue. */
  lemma BfsMeasure(graph: Adjacency, queue: seq<Node>, visited: set<Node>)
    requires Closed(graph) && Frontier(graph, queue, visited) && queue != [] && queue[0] in graph
    ensures |graph.Keys - EnqueueUnseen(graph[queue[0]], visited, queue[1..]).0| < |graph.Keys - visited|
         || (EnqueueUnseen(graph[queue[0]], visited, queue[1..]).0 == visited
             && |EnqueueUnseen(graph[queue[0]], visited, queue[1..]).1| < |queue|)
  {
    FrontierNext(graph, queue, visited);
    var next := EnqueueUnseen(graph[queue[0]], visited, queue[1..]);
    if next.0 != visited {
      SetFrontierShrinks(graph.Keys, visited, next.0);
    } else {
      assert next.1 == queue[1..];
    }
  }

  /**
   * On the star with centre 0 and leaves 1 and 2, listed in that order,
   * the breadth-first order from 0 is 0, 1, 2: the leaves come in the
   * order of the centre's neighbour list, not in any other.
   */
  lemma BfsFollowsListOrder()
    ensures Bfs(map[0 := [1, 2], 1 := [0], 2 := [0]], [0], {0}) == [0, 1, 2]
  {
    var g := map[0 := [1, 2], 1 := [0], 2 := [0]];
    var all: set<Node> := {0, 1, 2};
    assert g.Keys == all;
    assert g[0] == [1, 2] && g[1] == [0] && g[2] == [0];
    assert Closed(g);
    StarNeighbours();
    BfsStep(g, [0], {0});
    assert [0][1..] == [];
    BfsStep(g, [1, 2], all);
    assert [1, 2][1..] == [2];
    BfsStep(g, [2], all);
    assert [2][1..] == [];
  }

  /** The neighbour loops of the star with centre 0 and leaves 1 and 2. */
  lemma StarNeighbours()
    ensures EnqueueUnseen([1, 2], {0}, []) == ({0, 1, 2}, [1, 2])
    ensures EnqueueUnseen([0], {0, 1, 2}, [2]) == ({0, 1, 2}, [2])
    ensures EnqueueUnseen([0], {0, 1, 2}, []) == ({0, 1, 2}, [])
  {
    var ns: seq<Node> := [1, 2];
    assert ns[..0] == [] && ns[..2] == ns;
    var empty: seq<Node> := [];
    EnqueueUnseenNext(ns, 0, {0}, empty);
    assert empty + [1] == [1];
    assert forall x :: x in {0} + {1} <==> x == 0 || x == 1;
    assert {0} + {1} == {0, 1};
    EnqueueUnseenNext(ns, 1, {0}, empty);
    assert [1] + [2] == [1, 2];
    assert {0, 1} + {2} == {0, 1, 2};
    var leaf: seq<Node> := [0];
    assert leaf[..0] == [] && leaf[..1] == leaf;
    EnqueueUnseenNext(leaf, 0, {0, 1, 2}, [2]);
    EnqueueUnseenNext(leaf, 0, {0, 1, 2}, []);
  }

  /** Looking at one more neighbour, as `EnqueueUnseen` unfolds it. */
  lemma EnqueueUnseenNext(ns: seq<Node>, i: nat, visited: set<Node>, queue: seq<Node>)
    requires i < |ns|
    ensures ns[i] in EnqueueUnseen(ns[..i], visited, queue).0 ==>
      EnqueueUnseen(ns[..i + 1], visited, queue) == EnqueueUnseen(ns[..i], visited, queue)
    ensures ns[i] !in EnqueueUnseen(ns[..i], visited, queue).0 ==>
      EnqueueUnseen(ns[..i + 1], visited, queue)
        == (EnqueueUnseen(ns[..i], visited, queue).0 + {ns[i]}, EnqueueUnseen(ns[..i], visited, queue).1 + [ns[i]])
  {
    assert ns[..i + 1][..i] == ns[..i];
  }

  /**
   * `GraphSearch.level_order`: a FIFO queue seeded with `start`,
   * nodes marked visited when they are enqueued. The ghost map `level`
   * records the distance at which each node was discovered and `d` the
   * distance of the node dequeued last.
   */
  method LevelOrder(graph: Adjacency, start: Node) returns (t: Traversal)
    requires Closed(graph)
    ensures start !in graph ==> t == KeyError(start)
    ensures start in graph ==> t.Order?
    ensures t.Order? ==> VisitsComponentOnce(graph, start, t.nodes)
    ensures t.Order? ==> NonDecreasingDistance(graph, start, t.nodes)
    ensures start in graph ==> t == Order(Bfs(graph, [start], {start}))
  {
    if start !in graph {
      return KeyError(start);
    }
    var visited := {start};
    var queue := [start];
    var result := [];
    ghost var level: map<Node, nat> := map[start := 0];
    ghost var d: nat := 0;
    LevelOrderStart(graph, start);
    while queue != []
      invariant QueueState(graph, start, visited, result, queue, level, d)
      invariant NeighboursSeen(graph, result, visited)
      invariant Frontier(graph, queue, visited)
      invariant result + Bfs(graph, queue, visited) == Bfs(graph, [start], {start})
      decreases |graph.Keys - visited|, |queue|
    {
      ghost var finished, visitedBefore, queueAtStart := result, visited, queue;
      var current := queue[0];
      Dequeue(graph, start, visited, result, queue, level, d);
      queue := queue[1..];
      result := result + [current];
      d := level[current];
      visited, queue, level := ScanNeighbours(graph, start, current, visited, queue, finished, level, d);
      BfsAdvance(graph, start, finished, queueAtStart, visitedBefore, queue, visited);
      BfsMeasure(graph, queueAtStart, visitedBefore);
    }
    LevelOrderDone(graph, start, result, visited, level, d);
    assert result + Bfs(graph, queue, visited) == result + [];
    return Order(result);
  }

  /**
   * The `for neighbor in self.graph[current]` loop of `level_order`: each
   * neighbour of `current` not yet visited is marked visited and queued
   * at distance `d + 1`, in list order.
   */
  method ScanNeighbours(graph: Adjacency, ghost start: Node, current: Node, visitedIn: set<Node>,
    queueIn: seq<Node>, ghost finished: seq<Node>, ghost levelIn: map<Node, nat>, ghost d: nat)
    returns (visited: set<Node>, queue: seq<Node>, ghost level: map<Node, nat>)
    requires Closed(graph)
    requires ScanState(graph, start, visitedIn, finished, current, queueIn, levelIn, d, 0)
    ensures visited == EnqueueUnseen(graph[current], visitedIn, queueIn).0
    ensures queue == EnqueueUnseen(graph[current], visitedIn, queueIn).1
    ensures QueueState(graph, start, visited, finished + [current], queue, level, d)
    ensures NeighboursSeen(graph, finished + [current], visited)
  {
    visited, queue, level := visitedIn, queueIn, levelIn;
    for i := 0 to |graph[current]|
      invariant ScanState(graph, start, visited, finished, current, queue, level, d, i)
      invariant EnqueueUnseen(graph[current][..i], visitedIn, queueIn) == (visited, queue)
    {
      var neighbor := graph[current][i];
      EnqueueUnseenNext(graph[current], i, visitedIn, queueIn);
      if neighbor !in visited {
        Enqueue(graph, start, visited, finished, current, queue, level, d, i, neighbor);
        visited := visited + {neighbor};
        queue := queue + [neighbor];
        level := level[neighbor := d + 1];
      } else {
        ScanSkip(graph, start, visited, finished, current, queue, level, d, i);
      }
    }
    assert graph[current][..|graph[current]|] == graph[current];
    ScanDone(graph, start, visited, finished, current, queue, level, d);
  }

  /** The start: only `start` visited and queued, nothing listed. */
  lemma LevelOrderStart(graph: Adjacency, start: Node)
    requires start in graph
    ensures QueueState(graph, start, {start}, [], [start], map[start := 0], 0)
    ensures NeighboursSeen(graph, [], {start})
  {
    assert start in WithinHops(graph, start, 0);
    assert [] + [start] == [start];
  }

  /** Taking the head of the queue and appending it to the result. */
  lemma Dequeue(graph: Adjacency, start: Node, visited: set<Node>, result: seq<Node>,
    queue: seq<Node>, level: map<Node, nat>, d: nat)
    requires QueueState(graph, start, visited, result, queue, level, d)
    requires NeighboursSeen(graph, result, visited)
    requires queue != []
    ensures queue[0] in level
    ensures ScanState(graph, start, visited, result, queue[0], queue[1..], level, level[queue[0]], 0)
  {
    var current := queue[0];
    assert current in visited;
    DequeueListed(start, visited, result, queue);
    DequeueLayered(visited, level, result, queue, d);
  }

  lemma DequeueListed(start: Node, visited: set<Node>, result: seq<Node>, queue: seq<Node>)
    requires Listed(start, visited, result, queue) && queue != []
    ensures Listed(start, visited, result + [queue[0]], queue[1..])
  {
    var current := queue[0];
    var result', queue' := result + [current], queue[1..];
    assert result' + queue' == result + queue;
    forall x | x in visited ensures x in result' || x in queue' {
      if x in queue && x != current {
        TailMembers(queue);
      }
    }
    forall x | x in result' || x in queue' ensures x in visited {
      if x in queue' {
        assert x in queue;
      }
    }
  }

  lemma DequeueLayered(visited: set<Node>, level: map<Node, nat>, result: seq<Node>,
    queue: seq<Node>, d: nat)
    requires Layered(level, result, queue, d) && queue != []
    requires forall x :: x in visited && x in level ==> x in result || x in queue
    ensures queue[0] in level
    ensures Layered(level, result + [queue[0]], queue[1..], level[queue[0]])
    ensures CloserFinished(visited, result, level, level[queue[0]])
  {
    var current, d' := queue[0], level[queue[0]];
    SortedTail(level, queue);
    SortedSnoc(level, result, current);
    forall x | x in queue[1..] ensures d' <= level[x] <= d' + 1 {
      TailMembers(queue);
    }
    forall x | x in visited && x in level && level[x] < d' ensures x in result {
      if x in queue && x != current {
        TailMembers(queue);
      }
    }
  }

  /** Marking a neighbour not yet seen as visited and appending it to the queue. */
  lemma Enqueue(graph: Adjacency, start: Node, visited: set<Node>, finished: seq<Node>,
    current: Node, queue: seq<Node>, level: map<Node, nat>, d: nat, i: nat, n: Node)
    requires Closed(graph)
    requires ScanState(graph, start, visited, finished, current, queue, level, d, i)
    requires i < |graph[current]| && graph[current][i] == n && n !in visited
    ensures ScanState(graph, start, visited + {n}, finished, current, queue + [n], level[n := d + 1], d, i + 1)
  {
    var result := finished + [current];
    NewNodeDistance(graph, start, visited, finished, level, d, current, n);
    DiscoveredGrows(graph, start, visited, level, n, d + 1);
    ListedGrows(start, visited, result, queue, n);
    LayeredGrows(level, result, queue, d, n);
    assert CloserFinished(visited + {n}, finished, level[n := d + 1], d) by {
      forall x | x in visited + {n} && x in level[n := d + 1] && level[n := d + 1][x] < d
        ensures x in finished
      {
        assert x != n && level[n := d + 1][x] == level[x];
      }
    }
  }

  /** A neighbour that is already visited changes nothing. */
  lemma ScanSkip(graph: Adjacency, start: Node, visited: set<Node>, finished: seq<Node>,
    current: Node, queue: seq<Node>, level: map<Node, nat>, d: nat, i: nat)
    requires ScanState(graph, start, visited, finished, current, queue, level, d, i)
    requires i < |graph[current]| && graph[current][i] in visited
    ensures ScanState(graph, start, visited, finished, current, queue, level, d, i + 1)
  {
  }

  lemma DiscoveredGrows(graph: Adjacency, start: Node, visited: set<Node>, level: map<Node, nat>,
    n: Node, l: nat)
    requires Discovered(graph, start, visited, level)
    requires n in graph && IsDistance(graph, start, n, l)
    ensures Discovered(graph, start, visited + {n}, level[n := l])
  {
    forall x | x in visited + {n} ensures IsDistance(graph, start, x, level[n := l][x]) {
      if x != n { assert level[n := l][x] == level[x]; }
    }
  }

  lemma ListedGrows(start: Node, visited: set<Node>, result: seq<Node>, queue: seq<Node>, n: Node)
    requires Listed(start, visited, result, queue) && n !in visited
    ensures Listed(start, visited + {n}, result, queue + [n])
  {
    assert result + (queue + [n]) == (result + queue) + [n];
    NoDuplicatesSnoc(result + queue, n);
  }

  lemma LayeredGrows(level: map<Node, nat>, result: seq<Node>, queue: seq<Node>, d: nat, n: Node)
    requires Layered(level, result, queue, d) && n !in result && n !in queue
    ensures Layered(level[n := d + 1], result, queue + [n], d)
  {
    var level' := level[n := d + 1];
    SortedUpdate(level, result, n, d + 1);
    SortedUpdate(level, queue, n, d + 1);
    forall x | x in queue ensures level'[x] <= level'[n] {
      assert x != n;
    }
    SortedSnoc(level', queue, n);
    forall x | x in result ensures level'[x] <= d {
      assert x != n;
    }
    forall x | x in queue + [n] ensures d <= level'[x] <= d + 1 {
      if x != n { assert x in queue; }
    }
  }

  /** After the neighbour loop every neighbour of `current` is visited. */
  lemma ScanDone(graph: Adjacency, start: Node, visited: set<Node>, finished: seq<Node>,
    current: Node, queue: seq<Node>, level: map<Node, nat>, d: nat)
    requires current in graph
    requires ScanState(graph, start, visited, finished, current, queue, level, d, |graph[current]|)
    ensures QueueState(graph, start, visited, finished + [current], queue, level, d)
    ensures NeighboursSeen(graph, finished + [current], visited)
  {
    forall x, n | x in finished + [current] && x in graph && n in graph[x] ensures n in visited {
      if x == current {
        var j :| 0 <= j < |graph[current]| && graph[current][j] == n;
      } else {
        assert x in finished;
      }
    }
  }

  lemma SortedSnoc(level: map<Node, nat>, s: seq<Node>, x: Node)
    requires LevelsSorted(level, s) && x in level
    requires forall y :: y in s ==> level[y] <= level[x]
    ensures LevelsSorted(level, s + [x])
  {
    var t := s + [x];
    assert forall x :: x in s ==> x in level;
    assert forall k :: 0 <= k < |s| ==> s[k] in level;
    forall i, j | 0 <= i < j < |t| ensures t[i] in level && t[j] in level && level[t[i]] <= level[t[j]] {
      assert t[i] == s[i];
      if j < |s| { assert t[j] == s[j]; }
    }
  }

  lemma SortedTail(level: map<Node, nat>, s: seq<Node>)
    requires LevelsSorted(level, s) && s != []
    ensures LevelsSorted(level, s[1..])
    ensures s[0] in level && forall y :: y in s[1..] ==> level[s[0]] <= level[y]
  {
    assert forall x :: x in s ==> x in level;
    assert forall k :: 0 <= k < |s| ==> s[k] in level;
    TailMembers(s);
    forall i, j | 0 <= i < j < |s[1..]|
      ensures s[1..][i] in level && s[1..][j] in level && level[s[1..][i]] <= level[s[1..][j]]
    {
      assert s[1..][i] == s[i + 1] && s[1..][j] == s[j + 1];
    }
    forall y | y in s[1..] ensures level[s[0]] <= level[y] {
      var j :| 0 <= j < |s[1..]| && s[1..][j] == y;
      assert s[j + 1] == y;
    }
  }

  /** Giving a level to a node not in `s` keeps `s` sorted. */
  lemma SortedUpdate(level: map<Node, nat>, s: seq<Node>, n: Node, l: nat)
    requires LevelsSorted(level, s) && n !in s
    ensures LevelsSorted(level[n := l], s)
  {
    assert forall x :: x in s ==> x in level;
    assert forall k :: 0 <= k < |s| ==> s[k] in level;
    forall i, j | 0 <= i < j < |s|
      ensures s[i] in level[n := l] && s[j] in level[n := l] && level[n := l][s[i]] <= level[n := l][s[j]]
    {
      assert s[i] != n && s[j] != n;
    }
  }

  /**
   * When the node at distance `d` is dequeued, every node at most `d` hops
   * away has already been enqueued: nodes closer than `d` were dequeued
   * before, and each of their neighbours was then marked visited.
   */
  lemma {:induction false} AllNearNodesVisited(graph: Adjacency, start: Node, visited: set<Node>,
    finished: seq<Node>, level: map<Node, nat>, d: nat, k: nat)
    requires start in visited && visited <= level.Keys
    requires forall x :: x in visited ==> IsDistance(graph, start, x, level[x])
    requires CloserFinished(visited, finished, level, d)
    requires NeighboursSeen(graph, finished, visited)
    requires k <= d
    ensures WithinHops(graph, start, k) <= visited
    decreases k
  {
    if k > 0 {
      AllNearNodesVisited(graph, start, visited, finished, level, d, k - 1);
      var inner := WithinHops(graph, start, k - 1);
      forall y | y in WithinHops(graph, start, k) ensures y in visited {
        if y !in inner {
          var z :| z in inner && z in graph && y in graph[z];
          DistanceIsLeast(graph, start, z, level[z], k - 1);
        }
      }
    }
  }

  /** A neighbour first seen from a node at distance `d` is at distance `d + 1`. */
  lemma NewNodeDistance(graph: Adjacency, start: Node, visited: set<Node>, finished: seq<Node>,
    level: map<Node, nat>, d: nat, current: Node, n: Node)
    requires start in visited && visited <= level.Keys
    requires forall x :: x in visited ==> IsDistance(graph, start, x, level[x])
    requires CloserFinished(visited, finished, level, d)
    requires NeighboursSeen(graph, finished, visited)
    requires current in visited && level[current] == d
    requires current in graph && n in graph[current] && n !in visited
    ensures IsDistance(graph, start, n, d + 1)
  {
    AllNearNodesVisited(graph, start, visited, finished, level, d, d);
    NextHop(graph, start, d, current, n);
  }

  /** What the loop invariants give once the queue is empty. */
  lemma LevelOrderDone(graph: Adjacency, start: Node, result: seq<Node>, visited: set<Node>,
    level: map<Node, nat>, d: nat)
    requires QueueState(graph, start, visited, result, [], level, d)
    requires NeighboursSeen(graph, result, visited)
    ensures VisitsComponentOnce(graph, start, result)
    ensures NonDecreasingDistance(graph, start, result)
  {
    assert result + [] == result;
    forall u, n | u in Elems(result) && u in graph && n in graph[u] ensures n in Elems(result) {
    }
    ClosedSetHoldsReachable(graph, start, Elems(result));
    forall v | v in result ensures Reachable(graph, start, v) {
      assert IsDistance(graph, start, v, level[v]);
    }
    forall i, j, k: nat | 0 <= i < j < |result| && result[j] in WithinHops(graph, start, k)
      ensures result[i] in WithinHops(graph, start, k)
    {
      DistanceIsLeast(graph, start, result[j], level[result[j]], k);
      WithinHopsMonotone(graph, start, level[result[i]], k);
    }
  }

  // ---------------------------------------------------------------------
  // Lines 69-74: both traversals from the same start node

  /**
   * Lines 69-74, both traversals from one start node: both
   * fail together, and otherwise list the same nodes, each once.
   */
  method RunSearches(graph: Adjacency, start: Node) returns (dfsResult: Traversal, bfsResult: Traversal)
    requires Closed(graph)
    ensures dfsResult.Order? <==> bfsResult.Order?
    ensures dfsResult.Order? && bfsResult.Order? ==>
      && Elems(dfsResult.nodes) == Elems(bfsResult.nodes)
      && |dfsResult.nodes| == |bfsResult.nodes| > 0
      && dfsResult.nodes[0] == bfsResult.nodes[0] == start
  {
    dfsResult := Dfs(graph, start);
    bfsResult := LevelOrder(graph, start);
    if dfsResult.Order? {
      SameElementsSameLength(dfsResult.nodes, bfsResult.nodes);
    }
  }

  // ---------------------------------------------------------------------
  // Cardinality helpers for the termination measures

  lemma SetFrontierShrinks(keys: set<Node>, a: set<Node>, b: set<Node>)
    requires a < b <= keys
    ensures |keys - b| < |keys - a|
  {
    assert keys - a == (keys - b) + (b - a);
    assert (keys - b) * (b - a) == {};
  }

  /** Visiting a new node shrinks the set of unvisited nodes. */
  lemma FrontierShrinks(graph: Adjacency, done: seq<Node>, v: Node)
    requires v in graph && v !in done
    ensures |graph.Keys - Elems(done + [v])| < |graph.Keys - Elems(done)|
  {
    assert Elems(done + [v]) == Elems(done) + {v};
    SubsetNotLarger(graph.Keys - Elems(done + [v]), graph.Keys - Elems(done) - {v});
  }

  lemma FrontierNotGrowing(graph: Adjacency, done: seq<Node>, r: seq<Node>)
    requires |done| <= |r| && r[..|done|] == done
    ensures |graph.Keys - Elems(r)| <= |graph.Keys - Elems(done)|
  {
    assert Elems(done) <= Elems(r) by {
      forall x | x in done ensures x in r {
        var i :| 0 <= i < |done| && done[i] == x;
        assert r[i] == x;
      }
    }
    SubsetNotLarger(graph.Keys - Elems(r), graph.Keys - Elems(done));
  }

  lemma TailMembers(ns: seq<Node>)
    requires ns != []
    ensures forall n :: n in ns ==> n == ns[0] || n in ns[1..]
  {
    forall n | n in ns && n != ns[0] ensures n in ns[1..] {
      var j :| 0 <= j < |ns| && ns[j] == n;
      assert ns[1..][j - 1] == n;
    }
  }

  lemma PrefixOfPrefix(done: seq<Node>, v: Node, r: seq<Node>)
    requires |done + [v]| <= |r| && r[..|done + [v]|] == done + [v]
    ensures r[..|done|] == done && r[|done|] == v
  {
    assert r[..|done|] == (done + [v])[..|done|];
    assert r[|done|] == (done + [v])[|done|];
  }

  lemma SameElementsSameLength(s: seq<Node>, t: seq<Node>)
    requires NoDuplicates(s) && NoDuplicates(t) && Elems(s) == Elems(t)
    ensures |s| == |t|
  {
    DistinctCount(s);
    DistinctCount(t);
  }
}
