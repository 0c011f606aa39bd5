# Graph search visualiser: graph store and uninformed searches

This is a Dafny model of the algorithmic core of a single browser script. The
script lets a user build a weighted directed graph one edge at a time. It then
runs breadth-first, depth-first or uniform-cost search between two labelled
nodes and reports three things: the path found, its cost (uniform-cost only),
and the number of steps taken.

The model has six parts:

- `graph.dfy` (module `Graph`): the graph store, a map from label to the ordered
  list of `(neighbour, cost)` edges. It holds the guarded insertion `AddEdge`,
  the graph that a log of insertions builds, and edge counting.
- `paths.dfy` (module `Paths`): walks, reachability, and weighted walks. A
  weighted walk carries an edge choice per hop, because parallel edges are kept
  and can differ in cost.
- `result.dfy` (module `Results`): the search result, which replaces the page's
  DOM output. It is `Invalid` (unknown start or goal), `Found(path, cost, steps)`
  or `NotFound(steps)`.
- `bfs.dfy` (module `BreadthFirst`): the FIFO search. A node is marked visited
  when it is dequeued, and one step is counted per dequeue.
- `dfs.dfy` (module `DepthFirst`): the recursive search. It tests for the goal
  before marking the node, tries neighbours in insertion order, and returns on
  the first success.
- `costsort.dfy` (module `CostSort`) and `ucs.dfy` (module `UniformCost`): the
  uniform-cost search. Each iteration re-sorts the whole queue stably by
  accumulated cost and then removes the head.

Every search is a terminating method, and its result is tied to independent
definitions:

- BFS and UCS: the step count of a run is at most one more than the total
  number of edges.
- DFS: the step count is bounded by the number of nodes, and a `NotFound` step
  count equals the number of nodes reachable from the start.
- BFS: a found path has the fewest edges of any walk to the goal.
- UCS: the reported cost is what some choice of the path's edges adds up to.
  When no edge cost is negative, no walk to the goal costs less.

## Model

| member | source | states |
|---|---|---|
| Graph.AddEdge | script.js:58-62 | An accepted insertion (non-empty labels, non-zero cost) makes both endpoints keys, appends `(to, cost)` to the old `from` list, keeps an existing `to` list, and leaves every other key's list as it was; a rejected insertion leaves the graph unchanged |
| Graph.AddEdgePreservesClosed | script.js:59-62 | Because the target of an inserted edge always becomes a key, every edge target of the store is itself a node |
| Graph.BuildNeighborOrder | script.js:58-60 | After any sequence of insertion attempts, a node's neighbour list is exactly its accepted outgoing insertions, in the order they were made |
| Graph.BuildNodes | script.js:58-62 | After any sequence of insertion attempts, a label is a node exactly when it is an endpoint of some accepted insertion, and every edge target is a node |
| Paths.ClosedSetSeparates | script.js:85-102 | A set containing the start that no edge leaves, and that misses the goal, proves the goal unreachable (the argument behind every "Path not found") |
| BreadthFirst.RunBfs | script.js:71-103 | Unknown start or goal gives Invalid; otherwise Found exactly when the goal is reachable; the path is a walk from start to goal with no fewer edges than any other such walk; start = goal gives `[start]` after one step; steps lie between 1 and 1 + the edge count |
| BreadthFirst.GoalDequeued | script.js:87-91 | Whenever the goal is dequeued, its path is a walk from the start with the fewest edges, and the step count is within the edge bound |
| BreadthFirst.QueueExhausted | script.js:85-102 | When the queue runs empty the visited set has no edge leaving it, so the goal is unreachable, and the step count is within the edge bound |
| BreadthFirst.SuccessorsSpec | script.js:95-99 | Which nodes get appended entries: every entry is for an unvisited neighbour and carries the node's path extended by that neighbour, every unvisited neighbour gets at least one entry, and there are no more entries than edges (multiplicity and order are stated by `BreadthFirst.SuccessorsInEdgeOrder`) |
| BreadthFirst.SuccessorsInEdgeOrder | script.js:95-99 | The appended entries are one per edge to an unvisited neighbour, parallel edges included, in edge order: entry `j` is for the `j`-th such edge position and extends the node's path by its target |
| BreadthFirst.EnqueueNeighbors | script.js:95-99 | The neighbour loop keeps the existing queue as a prefix and appends, in edge order, exactly one entry per edge to an unvisited neighbour (parallel edges included), each extending the node's path by that neighbour |
| DepthFirst.RunDfs | script.js:105-137 | Unknown start or goal gives Invalid; otherwise Found exactly when the goal is reachable, with a walk from start to goal that repeats no node; start = goal gives `[start]` after one step; NotFound reports exactly as many steps as nodes reachable from the start; steps lie between 1 and the node count |
| DepthFirst.Explore | script.js:118-132 | One call counts itself and every newly visited node; on success the result extends the current path to the goal without repeating a node; on failure the node and everything it newly visited have all their neighbours visited |
| CostSort.SortByCost | script.js:165 | The re-sort is a permutation of the queue, ascending by cost, and stable: the entries of each cost keep their relative order |
| CostSort.ReorderFacts | script.js:165-167 | After any sorted permutation the removed head costs no more than any entry of the queue |
| UniformCost.RunUcs | script.js:139-186 | Unknown start or goal gives Invalid; otherwise Found exactly when the goal is reachable; the path is a walk from start to goal and the reported cost is the sum of some choice of its edges; with no negative edge no walk to the goal costs less; start = goal gives `[start]` at cost 0 after one step; steps lie between 1 and 1 + the edge count |
| UniformCost.OffersSpec | script.js:177-181 | Which nodes get pushed entries: every entry is for an unvisited neighbour, extends the node's full path, and costs the node's cost plus the cost of some edge to it; every edge to an unvisited neighbour has an entry for that neighbour at no more than its cost (multiplicity and order are stated by `UniformCost.OffersInEdgeOrder`) |
| UniformCost.OffersInEdgeOrder | script.js:177-181 | The pushed entries are one per edge to an unvisited neighbour, parallel edges included, in edge order: entry `j` is for the `j`-th such edge position, at the node's cost plus that edge's cost |
| UniformCost.PushNeighbors | script.js:177-181 | The neighbour loop keeps the remaining queue as a prefix and pushes, in edge order, exactly one entry per edge to an unvisited neighbour (parallel edges included), each at the node's cost plus that edge's cost with the node's full path |
| UniformCost.OffersAccounted | script.js:177-180 | If the expanded entry's cost is the cost of its path, so is every pushed entry's: each queue entry's cost is what its path's edges add up to |
| UniformCost.Frontier | script.js:163-183 | With no negative edge, any walk from the start to a node not yet visited costs at least as much as some entry still in the queue |
| UniformCost.GoalPopped | script.js:167-172 | When the goal is removed its full path is a walk from the start whose edges add up to the entry's cost, and with no negative edge no walk to the goal is cheaper |
| UniformCost.CheapestAfterExpansion | script.js:175-176 | With no negative edge, a node is marked visited at a cost that no walk to it undercuts |
| UniformCost.QueueExhausted | script.js:163-185 | When the queue runs empty the visited set has no edge leaving it, so the goal is unreachable, and the step count is within the edge bound |

## Left out

- Rendering through vis.js (`initializeGraph`, `resetNodeColors`, `highlightPath`, script.js:4-51) is left out. It only draws the graph and has no logic.
- DOM input and output are left out: the `prompt` and `alert` calls, the form reads, and the result strings. The model takes labels and costs as parameters and returns a `SearchResult`. Labels are taken as already trimmed.
- `updatePriorityQueueDisplay` (script.js:153-161) is left out. It only writes the sorted queue to the page.
- `parseInt` is not modelled. The cost reaches `AddEdge` as an already parsed integer, and 0 stands for both a zero and an unparsable (NaN) cost, since the guard treats them alike.
- JavaScript numbers are not modelled. Costs and sums are unbounded integers, so precision loss above 2^53 is not represented.
- JavaScript object-prototype keys are not modelled: `graph["constructor"]` and similar names are truthy without being inserted. The store is a plain map, and a node exists only when it is a key.
- Recursion depth is not modelled: the page's recursive `dfs` (script.js:118-132) runs on the JavaScript call stack and can fail with a stack overflow on a long enough chain of nodes, while `DepthFirst.Explore` has no depth limit.
- A cancelled prompt (`null`, which the page looks up as the key `"null"`) is not modelled separately from any other label.
- Determinism is left implicit: every operation is a function or a deterministic method.
- The insertion guard at script.js:58 accepts negative costs; only a zero or unparsable cost is rejected. The model follows that guard. Optimality of uniform-cost search is therefore stated only under `NonNegative(g)`, while cost accounting holds for every graph.
- When the goal is unreachable, only depth-first search reports exactly the number of nodes reachable from the start (`DepthFirst.RunDfs`). Breadth-first and uniform-cost search also count removed duplicate entries, so their step counts can be larger; for them the model proves only the bound of 1 + the edge count.
- Uniform-cost search terminates on every graph, zero-cost cycles included, because nodes are marked visited and only unvisited neighbours are pushed. `UniformCost.RunUcs` proves the bound of 1 + the edge count steps.
