# Random graph, traversals and budget allocation

A Dafny model of the script `flaskapp/Question2.py`. The script:

1. builds a random simple graph on the nodes 0 to 9 by adding edges until a drawn target count of 10 to 14 is reached;
2. reads its adjacency dictionary;
3. runs a recursive pre-order depth-first search and a level-order (breadth-first) traversal from node 0;
4. computes each node's degree and a closed-form budget allocation `x_i = 1/lambda - 1/d_i`, where `lambda = n / (Bt + sum of 1/d_i)`.

The model has five modules.

- `SimpleGraph` (simple_graph.dfy) holds the adjacency value: each node maps to its neighbour list, in insertion order. It has `WithEdge`, the effect of networkx's `add_edge`, and `Edges`, the set of distinct undirected edges.
- `GraphBuilder` (graph_builder.dfy) holds the networkx graph object.
  - It is a class whose adjacency field `AddEdge` updates in place.
  - The edge-adding loop is a `while` loop.
  - The random draws are inputs: the target count, and a finite sequence of sampled node pairs.
- `Reachability` (reachability.dfy) is the reference the traversals are proved against.
  - `WithinHops(k)` is the set of nodes at most `k` hops from the start.
  - `Reachable` means within some number of hops.
  - `IsDistance` is the exact shortest-path distance.
- `GraphSearch` (graph_search.dfy) holds the two traversals of the `GraphSearch` class.
  - Depth-first search is a recursive method `DfsVisit` with a `for` loop over the neighbours, as in the nested `_dfs`. It is proved equal to the pure function `Preorder`.
  - Level-order is a `while queue` loop. Its inner `for` loop over the neighbours is the method `ScanNeighbours`. A ghost map records the distance of every discovered node.
  - The ghost function `Bfs` unfolds the same queue discipline one dequeue at a time. The method is proved to return exactly the order it gives.
- `BudgetAllocation` (budget_allocation.dfy) holds the degree map and the allocation, computed over exact reals.

In these places the code does less than one might expect, and the model follows the code:

- **Allocation errors.** The code fails only with a `ZeroDivisionError`, when `Bt` plus the reciprocal sum is exactly zero. It does not reject an empty degree map, which gives `lambda_val == 0` and an empty allocation. It also does not reject a negative denominator.
- **Depth-first search.** The nested `_dfs` recurses and updates the enclosing `visited` and `result`; it keeps no stack of its own. The model is recursive too, and threads `visited` and `result` through the calls.
- **Unreachable edge target.** The code has no check for a target it can never reach; it would loop forever. Here the draws are a finite input, so the loop ends when they run out.
- **Unknown start node.** Looking up a start node that is not a key raises Python's `KeyError`. It is modelled as `Traversal.KeyError`.

## Model

| member | source | states |
|---|---|---|
| `SimpleGraph.EmptyGraph` | flaskapp/Question2.py:6-8 | The graph on the listed nodes has exactly those nodes, no edge, and is simple. |
| `SimpleGraph.WithEdgeProperties` | flaskapp/Question2.py:13 | `add_edge` keeps the graph symmetric and repeat-free. It adds the ends as nodes and the one edge `{u, v}` to the edge set, and nothing else. It only appends to neighbour lists, and an existing edge leaves the graph unchanged. It keeps a graph without self-loops free of them when `u != v`. |
| `SimpleGraph.AddAllProperties` | flaskapp/Question2.py:11-13 | Adding a sequence of pairs one by one gives the old edge set plus the distinct pairs. The graph stays symmetric and repeat-free, and stays loop-free when no pair repeats a node. |
| `GraphBuilder.Graph.constructor` | flaskapp/Question2.py:6-8 | A new graph has exactly the given nodes, each with an empty neighbour list. |
| `GraphBuilder.Graph.AddEdge` | flaskapp/Question2.py:13 | The graph after the call is `WithEdge` of the graph before it. The edge set grows by exactly `Norm(u, v)`. The node set grows by `u` and `v`. Re-adding an existing edge changes nothing. Being well formed is preserved. |
| `GraphBuilder.Graph.AdjacencyDict` | flaskapp/Question2.py:16 | The dictionary has every node as a key and maps it to its neighbour list. It is symmetric (`v` in `d[u]` iff `u` in `d[v]`), free of repeats, every neighbour is a key, and it holds as many edges as the graph. |
| `GraphBuilder.BuildRandomGraph` | flaskapp/Question2.py:10-13 | The loop leaves a simple graph (symmetric, no repeated edge, no self-loop) whose nodes are exactly 0 to 9. Its edges are the distinct pairs among the draws consumed. The edge count never exceeds the target, and equals it unless the draws ran out with fewer distinct pairs. Before every consumed draw the count was still below the target. |
| `GraphBuilder.DrawsDone` | flaskapp/Question2.py:11 | When the loop condition fails, either the edge count equals the target or every draw is used and the draws hold fewer distinct pairs than the target. |
| `GraphSearch.Preorder` | flaskapp/Question2.py:40-45 | The visit from `v` keeps the earlier result as a prefix, appends `v` right after it, lists only graph nodes and lists none twice. |
| `GraphSearch.PreorderAll` | flaskapp/Question2.py:43-45 | The neighbour loop keeps the earlier result as a prefix, lists only graph nodes and lists none twice. |
| `GraphSearch.PreorderFacts` | flaskapp/Question2.py:40-45 | Every node the visit from a reachable `v` appends is reachable. Every neighbour of a node it appends is in the result when it returns. |
| `GraphSearch.PreorderAllFacts` | flaskapp/Question2.py:43-45 | After the loop over reachable neighbours `ns`, every node of `ns` is in the result. Every appended node is reachable, and every neighbour of an appended node is in the result. |
| `GraphSearch.PreorderVisitsComponent` | flaskapp/Question2.py:40-47 | The depth-first order from `start` begins with `start`, has no repeats, and lists a node iff it is reachable from `start`. |
| `GraphSearch.DfsVisit` | flaskapp/Question2.py:40-45 | The nested visit returns exactly the result `Preorder` specifies. Its visited set is exactly the set of listed nodes. |
| `GraphSearch.Dfs` | flaskapp/Question2.py:35-48 | An unknown start gives `KeyError`. Otherwise the result is `Preorder` from `start`: it starts at `start`, has no repeats, and holds exactly the reachable nodes. |
| `GraphSearch.LevelOrder` | flaskapp/Question2.py:50-67 | An unknown start gives `KeyError`. Otherwise the result is exactly `Bfs` from the queue `[start]` with only `start` visited: nodes leave the queue in the order they entered it, and each node's unseen neighbours enter in neighbour-list order. The result starts at `start`, has no repeats, and holds exactly the reachable nodes. Shortest-path distance from `start` never decreases along it. |
| `GraphSearch.ScanNeighbours` | flaskapp/Question2.py:62-65 | The neighbour loop leaves the visited set and queue that `EnqueueUnseen` gives. The traversal invariant holds again and every neighbour of the dequeued node is visited. |
| `GraphSearch.EnqueueUnseen` | flaskapp/Question2.py:62-65 | Looking at a neighbour list marks every listed node visited and adds nothing else. The old queue stays a prefix, and each node appended after it is a listed neighbour that was not visited before. When nothing new is marked, the queue is unchanged. |
| `GraphSearch.Bfs` | flaskapp/Question2.py:58-65 | The order lists the nodes waiting in the queue first, in queue order. |
| `GraphSearch.BfsFollowsListOrder` | flaskapp/Question2.py:58-65 | On the star with centre 0 whose neighbour list is `[1, 2]`, the order from 0 is `0, 1, 2`, and not `0, 2, 1`. |
| `GraphSearch.LevelOrderDone` | flaskapp/Question2.py:58-67 | When the queue is empty, the result holds each reachable node once, starting at `start`, in non-decreasing distance. |
| `GraphSearch.RunSearches` | flaskapp/Question2.py:69-74 | Both traversals fail together. Otherwise they list the same set of nodes, are equally long and both start at `start`. |
| `GraphSearch.BfsAdvance` | flaskapp/Question2.py:58-65 | What is already listed plus what `Bfs` still lists is the whole order, before and after one turn of the loop. |
| `GraphSearch.LevelOrderStart` | flaskapp/Question2.py:52-56 | The initial visited set, queue and empty result satisfy the loop invariant. |
| `GraphSearch.Dequeue` | flaskapp/Question2.py:59-60 | Moving the queue's head to the result keeps the invariant. Every visited node closer than the head is already listed. |
| `GraphSearch.Enqueue` | flaskapp/Question2.py:63-65 | Marking an unseen neighbour visited and queueing it at distance `d + 1` keeps the scan invariant. |
| `GraphSearch.ScanSkip` | flaskapp/Question2.py:63 | A neighbour already visited leaves the state unchanged and the scan invariant holds for the next neighbour. |
| `GraphSearch.ScanDone` | flaskapp/Question2.py:62-65 | After the neighbour loop every neighbour of the dequeued node is visited, and the outer loop invariant holds again. |
| `GraphSearch.AllNearNodesVisited` | flaskapp/Question2.py:58-65 | When the node at distance `d` is dequeued, every node within `d` hops has already been marked visited. |
| `GraphSearch.NewNodeDistance` | flaskapp/Question2.py:62-65 | A neighbour first seen from a node at distance `d` is at shortest-path distance exactly `d + 1`. |
| `BudgetAllocation.Degrees` | flaskapp/Question2.py:88 | The degree map's keys are graph nodes and every degree is positive. |
| `BudgetAllocation.DegreesCountNeighbours` | flaskapp/Question2.py:88 | In a well-formed graph, a node is in the degree map iff it is an end of some edge. Its degree is its number of distinct neighbours. |
| `BudgetAllocation.Reciprocals` | flaskapp/Question2.py:93 | Each reciprocal degree lies in `(0, 1]`, one per node of the degree map. |
| `BudgetAllocation.ReciprocalSum` | flaskapp/Question2.py:93 | The reciprocal sum lies between 0 and the number of nodes, and is positive when there is a node. |
| `BudgetAllocation.Allocate` | flaskapp/Question2.py:92-97 | The computation fails iff `Bt` plus the reciprocal sum is zero. Otherwise there is one allocation per node, `lambda_val` is zero iff there is no node, and every `x_i + 1/d_i` equals `1/lambda_val`. |
| `BudgetAllocation.AllocationConservesBudget` | flaskapp/Question2.py:92-97 | The allocations add up to exactly `Bt`. |
| `BudgetAllocation.AllocationIsUniqueStationaryPoint` | flaskapp/Question2.py:94-97 | Any assignment that spends exactly `Bt` and makes every `x_i + 1/d_i` equal is the computed allocation. |
| `BudgetAllocation.AllocationFollowsDegree` | flaskapp/Question2.py:97 | A node of larger degree never receives less, and receives strictly more when its degree is strictly larger. |
| `BudgetAllocation.AllocationPositiveWhenBudgetCoversNodes` | flaskapp/Question2.py:92-97 | With at least one unit of budget per node, the computation succeeds and every allocation is positive. |
| `BudgetAllocation.AllocationCanBeNegative` | flaskapp/Question2.py:97 | Nothing clamps the result. Degrees 1 and 3 with budget 0 give `lambda_val = 3/2` and the allocation `-1/3`, `1/3`. |
| `BudgetAllocation.ScriptAllocation` | flaskapp/Question2.py:88-97 | For any graph on the script's ten nodes with at least one edge, a budget of 10 never divides by zero. It spends exactly 10 and gives every node that has a neighbour a positive share. |

## Left out

- Printing and plotting (lines 17-18, 20-28, 76-83 and 99 onwards) are output only and are not modelled.
- flaskapp/routes.py is not part of this model. It holds web handlers, database writes and charts.
- Randomness is not modelled.
  - The target count and the sampled pairs are parameters of `GraphBuilder.BuildRandomGraph`.
  - The sampled pairs form a finite sequence, so the loop also stops when they run out. The unbounded rejection loop, which never ends on an unreachable target, is therefore not modelled.
- networkx is modelled only through the behaviour the script uses:
  - insertion-ordered neighbour lists;
  - an `add_edge` that ignores an existing edge;
  - the edge count.
  Its internal storage is not modelled.
- Floating-point rounding is not modelled: the allocation is computed over exact reals. With Python floats the budget is conserved only approximately.
- Dictionary iteration order plays no part in the allocation. The reciprocal sum of line 93 is taken over the key set, so it is ghost and not computed step by step. The sum of the allocations is the model's own: the script never forms it, and the model uses it only to state that the budget is conserved.
- The `GraphSearch` object only stores the dictionary and never changes it. Each traversal therefore takes the dictionary as a parameter instead of reading it from an object.
- `start_node = 0` (line 70) is the `start` parameter of `GraphSearch.RunSearches`; its script value appears nowhere in the model.
- `Bt = 10` (line 91) is a parameter. Its script value appears in `BudgetAllocation.ScriptAllocation` and `BudgetAllocation.ScriptBudget`.
- `GraphSearch.Dfs`: requires every listed neighbour to be a key of the dictionary. The dictionary of line 16 always satisfies this. The `KeyError` that a dangling neighbour would raise inside the traversal is not modelled.
- `GraphSearch.LevelOrder`: same requirement and reason as `GraphSearch.Dfs`.
- `GraphSearch.DfsVisit`: the closure's in-place updates of `visited` and `result` become values passed in and returned.
- `GraphSearch.DfsVisit`: does not model Python's recursion limit, which raises `RecursionError` after about 1000 nested calls. On the script's ten-node graph the recursion is at most ten calls deep.
