# Weighted graph with observed searches, in Dafny

This project models `WeightedGraph<V>`. It is a generic directed graph whose edges carry
non-negative integer weights. The graph is stored as a map from each vertex to its adjacency map
(neighbour to weight), and it keeps a collection of observers. It supports these operations:

- `addVertex`, `addEdge`, `containsVertex` and `getWeight` build and query the graph. Each has a
  precise rule for when it throws `IllegalArgumentException`.
- `DoBFS`: a queue-based breadth-first search.
- `DoDFS` / `DFSHelper`: a recursive depth-first search.
- `DoDijsktra`: Dijkstra's algorithm with a finished set, cost and predecessor tables, and a walk
  back along the predecessors. The misspelling is the program's own.

While an algorithm runs, the graph notifies every registered observer. All observers receive the
same calls, so the model represents one run by the sequence of `Event`s it produces. Each
algorithm method returns that sequence.

Modules:

- `Wrappers`: `Option` (Java's `null`) and `Outcome` (a normal return, or `IllegalArgumentException`).
- `GraphTheory`: the graph type and the notions the proofs use. These are paths, reachability,
  path weight, least path weight (`IsShortest`) and "reachable below a bound" (`ReachableWithin`).
- `Notifications`: the `Event` datatype, and the shapes that runs of events take.
- `Searches`: the breadth-first neighbour loop, plus the loop states of both searches and the lemmas
  that keep them.
- `ShortestPaths`:
  - the sentinel cost `Unreached` (1000000);
  - the three inner loops of Dijkstra's algorithm (selection, relaxation, predecessor walk);
  - the main-loop invariant and the lemmas that keep it;
  - what a whole run reports.
- `Dijkstra`: the main loop of Dijkstra's algorithm. It is split into initialisation, one round,
  and the loop itself.
- `WeightedGraphs`: the class `WeightedGraph`, whose fields are `wGraph` and `observerList`, and
  its methods.

The behaviour the model keeps from the code:

- **Neighbour order.** The adjacency maps and the vertex set are iterated in hash order. This is
  unspecified, so every loop over them picks an arbitrary remaining key.
- **Dijkstra's ties.** Dijkstra's selection keeps the first strictly smaller cost in that order,
  so a tie may go to any unfinished vertex of least cost.
- **BFS queueing.** The breadth-first search may queue a vertex more than once, but it visits
  each vertex at most once.
- **DFS and `SearchOver`.** The documentation says that once `end` has been visited, observers are
  told the search is over. In the code, `notifySearchIsOver` is sent by a frame after a nested
  call returns with `end` visited. Every frame of a proper ancestor of `end` in the depth-first
  tree does this. The frame of `end` itself does it only when `end` still has an unvisited
  neighbour, because its first nested call then returns at once. So the number of `SearchOver`
  events is the depth of `end` in the tree, plus one in that case (`Searches.SearchOversDue`). It
  can be more than one, and it is zero when `start == end` and `start` has no unvisited neighbour.
  The model follows the code.
- **Null vertices.**
  - The searches dereference `wGraph.get(start)`, so they require `start` to be a vertex.
  - Dijkstra dereferences a null vertex whenever some vertex has no path from `start` lighter
    than the sentinel. So `DoDijsktra` requires every vertex to have such a path.

## Model

| member | source | states |
|---|---|---|
| WeightedGraphs.WeightedGraph.constructor | WeightedGraph.java:47-50 | A new graph has no vertices and no observers. |
| WeightedGraphs.WeightedGraph.AddObserver | WeightedGraph.java:58-60 | The observer joins the observer set; the graph is unchanged. |
| WeightedGraphs.WeightedGraph.AddVertex | WeightedGraph.java:69-75 | Succeeds exactly when the vertex is absent. It then adds the vertex with an empty adjacency map and leaves every other entry alone. Otherwise it throws and the graph is unchanged. No weight between other vertices changes. |
| WeightedGraphs.WeightedGraph.ContainsVertex | WeightedGraph.java:83-85 | True exactly when the vertex is in the graph. It only reads. |
| WeightedGraphs.WeightedGraph.AddEdge | WeightedGraph.java:116-126 | Succeeds exactly when both endpoints are present and the weight is non-negative. The vertex set never changes. On success `GetWeight(from, to)` returns the weight and every other ordered pair keeps its weight, so no reverse edge appears. On failure the graph is unchanged. |
| WeightedGraphs.WeightedGraph.GetWeight | WeightedGraph.java:146-152 | Throws exactly when either vertex is absent. Returns `null` exactly when both are present and there is no edge. Returns `w` exactly when the edge exists with weight `w`. |
| WeightedGraphs.WeightedGraph.DoBFS | WeightedGraph.java:181-215 | The events are `BFSBegun`, one `Visit` per visited vertex in visiting order, and one final `SearchOver` exactly when `end` was visited. `start` is visited first and no vertex twice. Every visited vertex is reachable from `start`, and `end` is the last visit when found. `end` is visited exactly when it is reachable; otherwise every reachable vertex is visited. |
| Searches.EnqueueUnvisited | WeightedGraph.java:201-205 | The queue keeps its old contents as a prefix. Exactly the unvisited neighbours of `val` are appended, each once, even when one is already queued, so a vertex can be queued twice. Everything queued stays reachable from `start`. |
| Searches.BreadthFirstStart | WeightedGraph.java:189 | With only `start` queued, the breadth-first loop state holds. |
| Searches.BreadthFirstPop | WeightedGraph.java:191-194 | Dequeuing an already visited vertex keeps the loop state: reachability, no repeated visit, and every edge out of a visited vertex leads to a visited or queued vertex. |
| Searches.BreadthFirstVisit | WeightedGraph.java:194-205 | Visiting the dequeued vertex and queuing its unvisited neighbours keeps the loop state. |
| Searches.BreadthFirstDone | WeightedGraph.java:191 | When the queue is empty, every vertex reachable from `start` has been visited. |
| Searches.BreadthFirstOutcome | WeightedGraph.java:191-214 | Whether the loop stopped at `end` or ran dry, the run satisfies all of `DoBFS`'s guarantees. |
| WeightedGraphs.WeightedGraph.DoDFS | WeightedGraph.java:244-252 | The events are `DFSBegun`, then one `Visit` per visited vertex in visiting order, then only `SearchOver`s. When `end` is visited there are exactly `SearchOversDue` of them: the depth of `end` in the depth-first tree, plus one when `end` still has an unvisited neighbour. There are at most as many `SearchOver`s as visits, and there are some exactly when `end` was visited and either `start != end` or `start` has another neighbour. Visits are not repeated and are reachable from `start`, which comes first. `end` is the last visit, and it is visited exactly when reachable; otherwise every reachable vertex is visited. The visits are in depth-first order (`Searches.DepthFirstOrder`): each visit after the first is a neighbour of the latest earlier visit that still had an unvisited neighbour. |
| WeightedGraphs.WeightedGraph.DFSHelper | WeightedGraph.java:254-275 | The shared visited list grows by exactly the vertices this frame visited, and the frame satisfies `Searches.Explored`. If `end` was already visited, it does nothing. Otherwise it visits `start` first and never repeats a visit, and every vertex it visits is reachable from the root. `end` is its last visit when found. When `end` is not found, the visited vertices are closed under edges. Its visits are in depth-first order: each one after `start` is a neighbour of the latest earlier visit of this frame that still had an unvisited neighbour. It notifies its visits, then only `SearchOver`s, at most one per visit. When it visits `end`, their number is exactly `SearchOversDue` for the frame: the depth of `end` below `start` in the depth-first tree, plus one when `end` still has an unvisited neighbour. |
| Searches.ExploredSkip | WeightedGraph.java:256 | A frame that finds `end` already visited visits nothing and notifies nothing. |
| Searches.StartExploring | WeightedGraph.java:256-263 | Visiting `start` sets up the neighbour loop's state. |
| Searches.ExploringSkipNeighbour | WeightedGraph.java:263-264 | Skipping a visited neighbour keeps the loop state. |
| Searches.ExploringAfterChild | WeightedGraph.java:264-266 | After a nested frame that did not visit `end`, the loop state holds with the child's visits appended, and so do the notified visits. |
| Searches.ExploredAfterBreak | WeightedGraph.java:266-270 | After a nested frame leaves `end` visited, the frame's events (its visits, the child's events and one more `SearchOver`) satisfy `Explored`, including the exact `SearchOver` count. |
| Searches.SearchOversAfterChild | WeightedGraph.java:265-268 | The frame that called the nested frame which visited `end` is owed one `SearchOver` more than that nested frame. |
| Searches.ExploredAtExit | WeightedGraph.java:263-274 | A frame whose neighbour loop ends without finding `end` notifies only its visits. Its visits are closed under edges: every neighbour of a visited vertex is visited. |
| Notifications.ChildRunNoOver | WeightedGraph.java:265 | A nested run with no `SearchOver` adds just its visits to the caller's visit sequence. |
| Notifications.ChildRunThenOver | WeightedGraph.java:265-270 | A nested run plus one `SearchOver` leaves visits followed only by `SearchOver`s, with exactly one more `SearchOver` than the child's. |
| WeightedGraphs.WeightedGraph.DoDijsktra | WeightedGraph.java:314-374 | Requires every vertex to have a path from `start` lighter than the sentinel. The events are `DijkstraBegun`, then exactly one `Finished(v, c)` per vertex, with `c` the least weight of any path from `start` to `v`, in non-decreasing order of cost, then `DijkstraOver(path)`. The first `Finished` is `Finished(start, 0)`. Every later vertex is finished after an in-neighbour whose cost plus the edge's weight is its own cost, even when edges weigh 0. If `end` is a vertex, `path` is a path from `start` to `end` of least weight with no repeated vertex, and that weight is the cost finished for `end`. Otherwise `path` is `[end]`. |
| Dijkstra.SettleAll | WeightedGraph.java:316-360 | After the main loop, the finishing order lists every vertex once, in non-decreasing order of cost, and every cost is the least path weight. Each vertex's predecessor is a vertex finished before it whose edge explains its cost. The events are `DijkstraBegun` and then one `Finished` per vertex in that order. |
| Dijkstra.StartTables | WeightedGraph.java:322-328 | The initial tables satisfy the loop invariant with nothing finished. This fixes them: cost 0 at `start`, the sentinel elsewhere, and no predecessor anywhere. |
| Dijkstra.FinishNext | WeightedGraph.java:330-360 | One round finishes an unfinished vertex `u`, notifies it with its final cost and relaxes its edges. The invariant holds again with `u` finished, and fewer vertices remain unfinished. |
| ShortestPaths.SelectMinimum | WeightedGraph.java:330-341 | Finds a vertex exactly when some unfinished vertex costs less than the sentinel. The vertex found is unfinished and costs no more than any other unfinished vertex. |
| ShortestPaths.RelaxEdges | WeightedGraph.java:350-359 | Each unfinished neighbour `v` of `u` with `cost[u] + w(u,v) < cost[v]` gets that cost and `u` as predecessor. Nothing else changes, and no cost rises. |
| ShortestPaths.TracePredecessors | WeightedGraph.java:362-368 | Once every vertex is finished, the walk back from `end` gives a path from `start` to `end` whose weight is `cost[end]`. Its vertices were finished in path order, so none repeats. For a non-vertex `end` it gives `[end]`. |
| ShortestPaths.TraceStep | WeightedGraph.java:364-367 | Prepending the predecessor keeps the traced path a path to `end` that accounts for `cost[end]`. The predecessor was finished earlier, so ranks rise along the path and the walk terminates. |
| ShortestPaths.TraceDone | WeightedGraph.java:364-368 | When the walk stops, the traced path starts at `start`, because every other vertex has a predecessor. So it is a path from `start` to `end` of weight `cost[end]`, without repeated vertices. |
| ShortestPaths.InitialInvariant | WeightedGraph.java:322-328 | The main-loop invariant holds before the first round. |
| ShortestPaths.SomeUnfinishedBelowSentinel | WeightedGraph.java:330-341 | While a vertex is unfinished, some unfinished vertex costs less than the sentinel, so the selection never yields `null`. |
| ShortestPaths.NewlySettledIsLowerBound | WeightedGraph.java:343 | The cost of the unfinished vertex of least cost is no larger than the weight of any path to it. |
| ShortestPaths.StepKeepsInvariant | WeightedGraph.java:330-360 | One round keeps the whole invariant: the tables, the finishing order and ranks, valid predecessors, settled lower bounds, attainable costs and sorted order. The notification for `u` carries its final cost. |
| ShortestPaths.StepKeepsTables | WeightedGraph.java:350-359 | Relaxation keeps the tables total and `cost[start] = 0`. With nothing finished, the vertex selected is `start`. |
| ShortestPaths.StepKeepsPredecessors | WeightedGraph.java:350-359 | After relaxation every predecessor is finished, has an edge that explains the cost, and was finished earlier. Exactly the reached vertices other than `start` have one. |
| ShortestPaths.StepKeepsSettled | WeightedGraph.java:343-359 | After finishing `u`, finished costs are lower bounds on path weight and no larger than unfinished costs, and every edge out of a finished vertex is relaxed. |
| ShortestPaths.StepKeepsAttainable | WeightedGraph.java:350-359 | Every cost below the sentinel is still the weight of some path. |
| ShortestPaths.StepKeepsOrder | WeightedGraph.java:343-359 | The finishing order stays sorted by cost. |
| ShortestPaths.RelaxBounds | WeightedGraph.java:350-359 | Relaxation raises no cost, and makes no cost smaller than `cost[u]` that was at least `cost[u]`. Each unfinished neighbour of `u` costs at most the way through `u`. |
| ShortestPaths.RelaxKeepsFinished | WeightedGraph.java:351 | Relaxation changes no finished cost, nor that of `u`. |
| ShortestPaths.StepExtendsFinishes | WeightedGraph.java:345-347 | Finishing `u` appends one `Finished(u, cost[u])`, and the earlier notifications are unaffected by relaxation. |
| ShortestPaths.FinishedCostsAreShortest | WeightedGraph.java:330 | When the loop exits, the finishing order covers every vertex once, in sorted order, with least path weights. |
| ShortestPaths.DijkstraReport | WeightedGraph.java:314-374 | From the finishing order, the costs and the traced path, the whole event sequence satisfies everything `DoDijsktra` promises. |
| ShortestPaths.ReportedShortest | WeightedGraph.java:345-347 | Every `Finished` event carries a vertex and its least path weight. |
| ShortestPaths.ReportedInOrder | WeightedGraph.java:345-347 | `Finished` events name distinct vertices in non-decreasing order of cost. |
| ShortestPaths.ReportedEveryVertex | WeightedGraph.java:345-347 | Every vertex has a `Finished` event. |
| ShortestPaths.ReportedCostsAgree | WeightedGraph.java:336-347 | Two runs from the same `start` report the same cost for the same vertex, whichever way the selection breaks ties. |
| ShortestPaths.ReportedFinishes | WeightedGraph.java:330-347 | The finishing order, the costs and the predecessors give all the `Finished` notifications of a correct run (`FinishNotices`). |
| ShortestPaths.ReportedStartFirst | WeightedGraph.java:322-347 | `start` is finished first, with cost 0: every other vertex has a predecessor finished before it. |
| ShortestPaths.ReportedPredecessors | WeightedGraph.java:350-359 | Every vertex finished after `start` follows an in-neighbour whose cost plus the edge's weight is its own cost. |
| ShortestPaths.PredecessorEvent | WeightedGraph.java:345-359 | A vertex finished after an in-neighbour that explains its cost has that in-neighbour's `Finished` event earlier in the run. |
| ShortestPaths.ReportedPath | WeightedGraph.java:370-372 | The reported path to `end` has least weight, and that weight is the cost `end` was finished with. |
| GraphTheory.ClosedSetHoldsReachable | WeightedGraph.java:191-214 | A set that holds `s` and is closed under out-edges holds every vertex reachable from `s`. Both searches use it to show they visit everything reachable when `end` is not found. |
| GraphTheory.ShortestIsUnique | WeightedGraph.java:345-347 | Two least path weights to the same vertex are equal, so a finished cost is determined by the graph. |
| Searches.DepthFirstAfterChild | WeightedGraph.java:263-266 | A nested frame started at a neighbour of the frame's vertex, after the earlier nested frames closed what they visited, keeps the frame's visits in depth-first order. |
| Searches.LevelOrderIsNotDepthFirst | WeightedGraph.java:254-275 | On the graph 1 -> 2, 1 -> 3, 2 -> 4, the visiting order 1, 2, 3, 4 is not depth-first, because 3 comes while 2 still has the unvisited neighbour 4. |
| Searches.DepthFirstParentUnique | WeightedGraph.java:263-265 | Without repeated visits, each visit has exactly one depth-first parent, so the depth-first tree is well defined. |
| Searches.TreeDepthThroughChild | WeightedGraph.java:263-266 | Every visit of a nested frame is one tree edge deeper when seen from the calling frame. |
| Searches.OneEdgeOneSearchOver | WeightedGraph.java:254-270 | On the graph 1 -> 2, a search from 1 that visits 2 is owed exactly one `SearchOver`. |
| GraphTheory.PrependEdge | WeightedGraph.java:365 | Prepending an edge to a path gives a path whose weight grows by that edge's weight. |

## Left out

- `MazeGraph.java` is not part of this model. It is a loop over an external maze API whose source
  is not available, and it only calls `addVertex` and `addEdge`.
- Observer objects and the `GraphAlgorithmObserver` interface are not modelled. Every observer
  receives the same calls, so one returned event sequence stands for all of them.
  `observerList` is a set of objects, and the hash order in which observers are called is not
  modelled.
- Concrete `HashMap`/`HashSet` iteration order is not modelled. Each loop picks any remaining key,
  so every proved property holds for every order.
- Java `Integer` boxing and 32-bit overflow of `cost + weight` are left out. Weights and costs are
  unbounded naturals, and a negative weight is representable only as the argument `AddEdge`
  rejects.
- WeightedGraphs.WeightedGraph.DoDijsktra: the null-vertex crash, when some vertex has no path
  from `start` lighter than 1000000, is excluded by a precondition. It is not reproduced as an
  error.
- WeightedGraphs.WeightedGraph.DoBFS: the breadth-first visiting order is not proved to be
  level by level. Only the visited set, its reachability, no repeats and the notifications are
  stated.
- WeightedGraphs.WeightedGraph.DFSHelper: the shared `visitedSet` list, which Java mutates
  through aliasing, is passed in and returned as a value. A ghost out-parameter names the vertices
  this frame appended.
- Dijkstra.FinishNext: the round's body is a method called from the main loop instead of being
  inline. `getWeight(sVertex, v)` inside relaxation reads the adjacency map directly, because
  both endpoints are vertices and the call cannot throw.
- The searches and Dijkstra's walk back do not change the graph. Their ghost parameters (`root`,
  `order`, `rank`, the visited trail) exist only for the proofs.
