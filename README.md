# Directed graph with reachability and shortest-path searches

A Dafny model of `DirectedGraph` and `Vertex` from `graph.py`, with proofs about the model.

`DirectedGraph` is a mutable directed graph:
- It maps string identifiers to vertices.
- Each vertex holds an opaque value and an adjacency map from neighbour identifier to an optional integer weight.
- The graph keeps a vertex count alongside the map.
- Its weighted flag is fixed at construction.

Its operations fall into three groups:
- vertex and edge edits, each with its own error cases;
- two existence queries and a neighbour listing;
- three searches: a depth-first reachability test driven by a stack, a breadth-first sweep driven by a queue, and a shortest-path search driven by a minimum-first priority queue with lazy deletion.

The project has five modules:
- `Wrappers` (`wrappers.dfy`) holds `Option`.
- `Walks` (`walks.dfy`) is graph theory over the abstract shape of a graph (`Adjacency`, identifier to adjacency map). It defines walks, reachability and walk weights. It proves that closed sets hold everything reachable, and that lazy-deletion finalization is sound.
- `Searches` (`searches.dfy`) holds the container operations the searches use, as small verified methods: pushing or enqueuing the keys of an adjacency map, and minimum-first dequeue. It also holds the loop invariants of the three searches (`Exploring`, `Finalizing`) and the lemmas that each search step preserves them.
- `DirectedGraphs` (`directed_graph.dfy`) holds the `Vertex` datatype, the error constructors and the class `DirectedGraph<V>`.
  - The class has fields `vertices`, `size` and `weighted`, and its object invariant is `Valid()`.
  - `Edges()` is the ghost view of the class as an `Adjacency`.
  - The loops of the three searches are module-level methods over a snapshot of the vertex map (`DepthFirstFrom`, `BreadthFirstFrom`, `ShortestFrom`), which the class methods call.
- `Scenarios` (`scenarios.dfy`) holds the worked examples, both stated as lemmas over small abstract graphs.
  - For shortest paths, a weighted triangle: any result that meets MinPath's contract on it is exactly the expected distances and order.
  - For reachability, an unweighted chain: the far end is reachable from the start and not the other way round. DepthFirstSearch's contract, which answers `Reachable`, turns these facts into the answers true and false.

Model choices:
- Raised exceptions become `Fail(e)` or `Err(e)` results. There is one `GraphError` constructor per distinct error message, so the order of each method's checks is part of its contract.
- The Python weight argument (`int` or `None`) is an `Option<int>`. A weight counts as absent when it is `None` or `0`, as Python's `not weight` decides (`IsFalsy`).
- A breadth-first target counts as given only when it is present and non-empty (`TargetGiven`), as Python's `target_id and ...` decides.

Where the doc comments and the code disagree, the model follows the code. A breadth-first search with the empty string as target behaves as if no target were given, and no missing-target error is raised for it.

## Model

| member | source | states |
|---|---|---|
| DirectedGraphs.DirectedGraph.constructor | graph.py:35-38 | a new graph has no vertices, size 0, the given weighted flag, and satisfies the object invariant |
| DirectedGraphs.DirectedGraph.AddVertex | graph.py:40-58 | a new identifier gets a vertex with no edges and the size grows by one; an existing identifier keeps its adjacency and only its value is replaced, with the size unchanged; the invariant is kept |
| DirectedGraphs.DirectedGraph.RemoveVertex | graph.py:60-80 | an absent identifier fails with the not-found error and leaves vertices and size unchanged; otherwise the vertex is gone, every other vertex loses exactly its edge to it and nothing else, the size drops by one, and no edge into it remains |
| DirectedGraphs.DirectedGraph.AddEdge | graph.py:82-108 | a missing source, then a missing destination, fail in that order; an existing edge is left as it is (idempotence); on a weighted graph, a new edge without a truthy weight fails; otherwise exactly that edge is added, with the weight on a weighted graph and none on an unweighted one; a failure changes nothing |
| DirectedGraphs.DirectedGraph.RemoveEdge | graph.py:110-126 | succeeds exactly when the edge existed and then removes only that edge; otherwise fails with the no-edge error and changes nothing |
| DirectedGraphs.DirectedGraph.EdgeExists | graph.py:128-143 | true exactly when the source is a vertex whose adjacency holds the destination; never fails |
| DirectedGraphs.DirectedGraph.VertexExists | graph.py:145-155 | true exactly when the identifier is a vertex; never fails |
| DirectedGraphs.DirectedGraph.GetAdjacentVertices | graph.py:157-173 | an absent identifier fails; no outbound edges gives the no-neighbours marker; otherwise a duplicate-free list holding exactly the neighbours |
| DirectedGraphs.DirectedGraph.DepthFirstSearch | graph.py:175-187 | a missing source, then a missing target, fail in that order; otherwise the answer is true exactly when the target is reachable from the source, which includes the source itself |
| DirectedGraphs.DepthFirstFrom | graph.py:189-207 | the stack loop, with the visited check at pop time and an early return on the target, answers true exactly when the target is reachable |
| DirectedGraphs.DirectedGraph.BreadthFirstSearch | graph.py:209-250 | a missing source, then a given target that is missing, fail; otherwise a duplicate-free list of exactly the vertices reachable from the source; when a target is given, the flag is true exactly when the target is reachable |
| DirectedGraphs.BreadthFirstFrom | graph.py:227-243 | the queue loop ends with a visited set closed under edges and reachable from the source; its flag is set exactly when a given target was visited |
| DirectedGraphs.DirectedGraph.MinPath | graph.py:252-284 | an unweighted graph, then a missing source, fail in that order; otherwise the source is at 0 and exactly the reachable vertices get a distance, each the weight of some walk to it; the order lists each of them once; with no negative weight, each distance is a lower bound on every walk and the order is non-decreasing in distance |
| DirectedGraphs.ShortestFrom | graph.py:269-284 | the priority-queue loop ends with an empty queue and the shortest-path invariant `Finalizing` holding |
| Searches.AppendKeys | graph.py:203-204 | keeps the given prefix and appends, each at most once, exactly the keys not in the skip set |
| Searches.DequeueMin | graph.py:276 | returns an entry of the queue with the smallest priority, and the queue without one copy of it |
| Searches.MinimumExists | graph.py:276 | a non-empty priority queue has an entry of smallest priority |
| Searches.EnqueueNeighbours | graph.py:280-284 | each entry's count grows by exactly one when it is (distance plus edge weight, neighbour) for a neighbour, and is unchanged otherwise; so exactly one entry per neighbour is added and nothing else |
| Searches.EnqueuedEntries | graph.py:280-284 | those per-entry counts mean the old queue is kept, every neighbour's entry is present and every new entry is a neighbour's |
| Searches.Settle | graph.py:278-284 | records the dequeued distance, appends the vertex to the finalization order, and changes the queue's per-entry counts by exactly one entry per outbound edge |
| Searches.StartExploring | graph.py:190-192 | a frontier holding only the source, with nothing visited, is a valid search state |
| Searches.Discard | graph.py:196-198 | dropping a frontier entry that is already visited keeps the search state |
| Searches.Expand | graph.py:198-204 | visiting a frontier entry and adding its unvisited neighbours keeps the search state |
| Searches.DropTop | graph.py:196-198 | popping an already visited vertex off the stack keeps the search state |
| Searches.VisitTop | graph.py:196-204 | popping an unvisited vertex, marking it and pushing all its neighbours keeps the search state, visits a reachable vertex and leaves fewer vertices unvisited |
| Searches.VisitFront | graph.py:234-243 | dequeuing, marking and enqueuing the unvisited neighbours keeps the search state; either a new vertex is visited, or fewer queued entries are already visited (termination) |
| Searches.FinishExploring | graph.py:206-207 | an empty frontier means the visited set is exactly the set of vertices reachable from the source |
| Searches.CountInExtend | graph.py:241-243 | appending only unvisited entries leaves the number of queued visited entries unchanged |
| Searches.FewerLeft | graph.py:198-199 | marking a vertex visited either changes nothing or leaves strictly fewer vertices unvisited |
| Searches.StartFinalizing | graph.py:270-272 | the queue holding only (0, source), with nothing finalized, satisfies the shortest-path invariant |
| Searches.DiscardStale | graph.py:276-278 | dropping a minimum entry whose vertex is already finalized keeps the invariant (lazy deletion) |
| Searches.FinalizeEntries | graph.py:280-284 | every entry of the new queue is the weight of a walk from the source to its vertex |
| Searches.FinalizeRelaxed | graph.py:279-284 | after finalizing, every edge leaving the finalized set still has its entry pending |
| Searches.FinalizeOrdered | graph.py:276-279 | with no negative weight, finalizing at the minimum keeps every distance a lower bound and keeps the order non-decreasing |
| Searches.Finalize | graph.py:278-284 | finalizing the vertex of a minimum entry and enqueuing its edges keeps the shortest-path invariant |
| Searches.AppendFinalized | graph.py:279 | the finalization order stays a duplicate-free list of exactly the finalized vertices |
| Searches.FinishFinalizing | graph.py:275-284 | with the queue empty, exactly the reachable vertices are finalized, each at the weight of a walk, the source at 0; with no negative weight, each at a lower bound and in non-decreasing order |
| Walks.ReachableFromItself | graph.py:190-201 | every vertex reaches itself by the zero-length walk |
| Walks.WalkExtend | graph.py:203-204 | a walk followed by an edge is a walk, heavier by that edge's weight |
| Walks.ReachableStep | graph.py:203-204 | reachability extends along an edge |
| Walks.WalkStaysInside | graph.py:206-207 | a walk that starts in a set closed under edges stays in it |
| Walks.ClosedHoldsReachable | graph.py:206-207 | a set closed under edges that holds the source holds everything reachable from it |
| Walks.PrefixWeightBound | graph.py:283 | with no negative weight, no prefix of a walk weighs more than the walk |
| Walks.WeightNonNegative | graph.py:272 | with no negative weight, every walk weighs at least 0, so the source's distance 0 is a lower bound |
| Walks.ExitStep | graph.py:278 | a walk from inside a set to outside it has a step that leaves the set |
| Walks.FinalizeIsShortest | graph.py:276-279 | with no negative weight, a vertex dequeued at the minimum priority, whose finalized predecessors are at lower bounds and whose outgoing edges are pending, is at a lower bound too |
| Walks.PotentialBound | graph.py:252-262 | under a feasible potential, no walk weighs less than the potential it gains, which certifies distances as minimal |
| Scenarios.TriangleWalks | graph.py:252-262 | on the triangle a→b (1), b→c (2), a→c (5), the walks [a], [a, b] and [a, b, c] weigh 0, 1 and 3 |
| Scenarios.TriangleBound | graph.py:252-262 | every walk of the triangle from a ends at a, b or c and weighs at least 0, 1 or 3 respectively |
| Scenarios.TriangleDistances | graph.py:252-262 | on the triangle, distances meeting the shortest-path contract from a are exactly a at 0, b at 1 and c at 3 |
| Scenarios.OrderedThree | graph.py:252-262 | a duplicate-free ordering of three vertices with strictly increasing distances, non-decreasing in distance, is the ordering by distance |
| Scenarios.TriangleShortestPaths | graph.py:252-284 | the triangle has no negative weight, so every result meeting MinPath's contract as written, with its lower-bound and ordering clauses conditional on that, is {a: 0, b: 1, c: 3} in the order [a, b, c] |
| Scenarios.ChainReachability | graph.py:175-207 | on the chain a→b→c, c is reachable from a and a is not reachable from c, so the depth-first search answers true and false |

## Left out

- The `Stack`, `Queue` and `PriorityQueue` of `ds_library` are not part of this model. They are modelled by their ordering contracts:
  - the stack is a sequence popped at its end;
  - the queue is a sequence dequeued at its front;
  - the priority queue is a multiset of (priority, identifier) entries, taken minimum first.
- DequeueMin: breaks ties between equal priorities arbitrarily. The library's own deterministic tie-breaking is not modelled, so the order among vertices at equal distance is not pinned down.
- Iteration order of Python dicts and sets is not modelled. Neighbours are pushed in an arbitrary order, and the lists returned by `get_adjacent_vertices` and `breadth_first_search` are proved for their contents and freedom from duplicates, not for their order.
- Exception message text is not modelled. Each distinct message is one `GraphError` constructor, and raise sites with the same message share it.
- `Vertex` is a value, and in-place `del` and assignment on a vertex's `adj_dict` are modelled as updates of the `vertices` map. The model therefore does not capture that `add_vertex` shares one adjacency dict between the old and the replacing vertex object, nor any outside alias of a vertex. Inside the class no such alias is observable.
- The three search loops run over a snapshot of the vertex map taken when the search starts. The Python loops read `self._vertices` live, but nothing changes it during a search.
- Python's default arguments are not modelled as defaults. `weighted=False` (constructor), `weight=None` (`add_edge`) and `target_id=None` (`breadth_first_search`) are explicit parameters. A caller passes `false` or `None` where Python would fill in the default.
- Weights are integers, as the type hints say. Floats or other truthy weight objects are not modelled.
- MinPath: states the lower-bound and non-decreasing-order clauses only when no edge weight is negative. `add_edge` accepts negative weights, and with them the lazy-deletion search can finalize a vertex above its true minimum. The clauses the model proves for every graph are these: each distance is the weight of some walk, and exactly the reachable vertices get one.
- The tail of `min_path` after line 284 is not in `graph.py`. The returned pair (finalization order, distances) follows the method's doc comment.
- The worked examples in `Scenarios` are stated about any result meeting the search contracts on the example graph. They do not build that graph through a sequence of calls on a `DirectedGraph` object.
