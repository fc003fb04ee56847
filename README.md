# DagConc graph topology in Dafny

This project models the graph core of DagConc, a Java library that runs a DAG
of work items on a thread pool. The modelled file is `Graph.java`:

- `Graph.Builder` gives each added node identity the next dense index, in a
  `HashMap`. It records edges by identity. `build()` resolves the edges into
  four things: a `nodes` array indexed by node index, an `inDegree` array,
  lazily created successor lists (`adjacencyList`) and the increasing list of
  zero-in-degree roots (`zeroDegreeIdx`).
- `Graph.isDAG()` is Kahn's algorithm. It runs on a private copy of the
  in-degrees, with a deque: `poll` takes from the front and `push` adds to the
  front.
- `Graph.copy()` shares the topology and copies only the in-degree array.

Layout:

- `wrappers.dfy` (module `Wrappers`): `Option`. It stands for a Java
  reference that may be null, such as an unassigned node slot or an adjacency
  list never created.
- `topology.dfy` (module `Topology`): graphs as successor tables
  `seq<seq<int>>`. It defines paths, cycles, the in-degree left once a set of
  nodes is processed (`Incoming`), and the lemmas behind both directions of
  Kahn's correctness: a topological order rules out a cycle, and a stuck
  worklist exposes one by pigeonhole. It also holds `ZeroIndices`, the root
  list.
- `graph_spec.dfy` (module `GraphSpec`): the builder's state as values. It
  holds `Edge`, the map that repeated `put`s leave (`PutAll`), the in-degree
  and successor list that `build()` derives for each index (`InDegreeOf`,
  `SuccessorsOf`) and the table they form (`Table`).
- `kahn.dfy` (module `Kahn`): the invariant of the `isDAG()` worklist loop
  (`KahnState`), with its initial, step and final lemmas. It also holds the
  effect of the inner loop over one successor list as two functions:
  `Decrement` for the counts and `Pushes` for the deque. The lemma `DrainRest`
  carries the invariant across that list.
- `graph.dfy` (module `DagGraph`): the classes.
  - `Graph` has `const` array fields and ghost fields for the builder state it
    came from. `Valid()` is everything `build()` establishes and `copy()`
    preserves.
  - `Builder` has mutable fields `idx`, `nodeMap` and `edges`.
- `scenarios.dfy` (module `Scenarios`): client code. It builds the graphs of
  `ConcExecuteTest.java` and the builder's edge cases, and states their
  outcomes.

Facts about `Graph.java` that shape the model:

- `Graph.java` has no `outDegree` array and no reverse adjacency list, so the
  model has neither.
- `idx` advances on every insertion, including a repeated identity. A repeated
  identity therefore leaves an empty slot in `nodes`, and `nodes.length`
  counts insertions rather than distinct identities.
- An edge whose endpoint was never added fails in `build()` through `assert`.
  With assertions disabled, it fails through unboxing a null `Integer`. The
  model returns `None` in both cases.
- `adjacencyList[u]` stays null until an edge leaves `u`, and the model does
  the same (`AsList`).

## Model

| member | source | states |
|---|---|---|
| DagGraph.Builder.constructor | core/src/main/java/com/github/dag/core/graph/Graph.java:117-123 | a new builder has idx 0, an empty map and no edges, and satisfies the builder invariant |
| DagGraph.Builder.AddNode | core/src/main/java/com/github/dag/core/graph/Graph.java:131-134 | the node maps to the old idx, a repeated node is remapped, idx grows by one, edges are unchanged, and the map stays an injective map into [0, idx) |
| DagGraph.Builder.AddNodes | core/src/main/java/com/github/dag/core/graph/Graph.java:142-147 | the map becomes PutAll of the old map from the old idx, idx grows by the number of elements even with duplicates, and the invariant is kept |
| DagGraph.Builder.AddEdge | core/src/main/java/com/github/dag/core/graph/Graph.java:156-162 | the edge is appended by identity and nothing else changes |
| DagGraph.Builder.Build | core/src/main/java/com/github/dag/core/graph/Graph.java:164-193 | fails exactly when some edge has an endpoint never added; otherwise returns fresh arrays of length idx that satisfy Graph.Valid for this builder's map and edges |
| DagGraph.Builder.NodesByIndex | core/src/main/java/com/github/dag/core/graph/Graph.java:165-166 | nodes[nodeMap[n]] == n for every mapped n, and every filled slot belongs to the identity that maps to it |
| DagGraph.Builder.ResolveEdges | core/src/main/java/com/github/dag/core/graph/Graph.java:167-183 | succeeds exactly when every edge resolves; then inDegree[v] is InDegreeOf v and adjacencyList[u] is the null-or-list form of u's successors in insertion order |
| DagGraph.Builder.ZeroDegreeIndices | core/src/main/java/com/github/dag/core/graph/Graph.java:186-191 | the roots are ZeroIndices of the in-degree array |
| DagGraph.Graph.constructor | core/src/main/java/com/github/dag/core/graph/Graph.java:33-38 | stores the four arrays and lists as given |
| DagGraph.Graph.GetNodeByIdx | core/src/main/java/com/github/dag/core/graph/Graph.java:40-42 | on a valid graph, a slot is non-null exactly when some identity owns that index, and then it holds that identity |
| DagGraph.Graph.GetAdjacencyListByIdx | core/src/main/java/com/github/dag/core/graph/Graph.java:44-46 | on a valid graph, the list is null exactly when no edge leaves idx, and otherwise it is idx's successors in insertion order |
| DagGraph.Graph.InDegreeCopy | core/src/main/java/com/github/dag/core/graph/Graph.java:102-106 | returns a fresh array whose elements equal inDegree's |
| DagGraph.Graph.Copy | core/src/main/java/com/github/dag/core/graph/Graph.java:53-56 | the copy shares nodes, adjacencyList and zeroDegreeIdx, has a fresh inDegree with equal contents, and is valid |
| DagGraph.Graph.KahnStart | core/src/main/java/com/github/dag/core/graph/Graph.java:64-66 | a valid graph's table is well formed, its adjacency lists are the table's rows, and its in-degree copy and roots satisfy the loop invariant |
| DagGraph.Graph.IsDAG | core/src/main/java/com/github/dag/core/graph/Graph.java:63-85 | returns true exactly when the successor table built from the recorded edges has no cycle |
| DagGraph.DrainQueue | core/src/main/java/com/github/dag/core/graph/Graph.java:66-78 | after the worklist loop, every in-degree copy is zero exactly when the table has no cycle |
| DagGraph.DrainSuccessors | core/src/main/java/com/github/dag/core/graph/Graph.java:70-77 | the copied counts end as Decrement of their old contents by the successor list, and the deque as Pushes: each successor in list order is decremented and pushed to the front when its count reaches zero |
| Kahn.InitialState | core/src/main/java/com/github/dag/core/graph/Graph.java:64-66 | the in-degrees with the increasing roots as the deque satisfy the loop invariant |
| Kahn.PopStep | core/src/main/java/com/github/dag/core/graph/Graph.java:68-69 | a polled node is unprocessed and may follow every processed node in a topological order; what remains of each in-degree loses that node's edges |
| Kahn.IncreasingDistinct | core/src/main/java/com/github/dag/core/graph/Graph.java:66 | the deque starts from zeroDegreeIdx, which is increasing and so holds no node twice |
| Kahn.PopFrontier | core/src/main/java/com/github/dag/core/graph/Graph.java:68-69 | the polled front is a node not yet processed, and after moving it to the processed set the zero counts are still exactly the queued and the processed nodes |
| Kahn.PopPending | core/src/main/java/com/github/dag/core/graph/Graph.java:68-71 | once the polled node is processed, each count owes exactly that node's outgoing edges |
| Kahn.PendingStep | core/src/main/java/com/github/dag/core/graph/Graph.java:72 | the count decremented for a successor was at least one, and afterwards owes one entry fewer of the list |
| Kahn.FrontierStep | core/src/main/java/com/github/dag/core/graph/Graph.java:72-75 | pushing a successor exactly when its count drops to zero keeps the zero counts those of queued or processed nodes, with no node queued twice |
| Kahn.DrainStep | core/src/main/java/com/github/dag/core/graph/Graph.java:71-75 | one decrement and conditional push carries the inner loop's invariant from position j to j + 1 |
| Kahn.DecrementCounts | core/src/main/java/com/github/dag/core/graph/Graph.java:71-72 | draining a list lowers each count by the number of times its node occurs in the list |
| Kahn.DrainFirst | core/src/main/java/com/github/dag/core/graph/Graph.java:71-75 | draining a list from position j is the decrement and push of entry j followed by draining the rest |
| Kahn.DrainRest | core/src/main/java/com/github/dag/core/graph/Graph.java:71-77 | draining the rest of the successor list from the invariant at position j reaches the invariant at the end of the list |
| Kahn.StuckState | core/src/main/java/com/github/dag/core/graph/Graph.java:79-82 | a count left nonzero when the deque empties implies a cycle |
| Kahn.DrainedState | core/src/main/java/com/github/dag/core/graph/Graph.java:84 | all counts zero when the deque empties implies no cycle |
| Topology.ZeroIndices | core/src/main/java/com/github/dag/core/graph/Graph.java:186-191 | holds exactly the indices whose in-degree is zero, in strictly increasing order |
| Topology.Count | core/src/main/java/com/github/dag/core/graph/Graph.java:72 | the number of occurrences is at most the length, and it is zero exactly when the value is absent |
| Topology.IncomingRemove | core/src/main/java/com/github/dag/core/graph/Graph.java:71-72 | processing one more node lowers each remaining in-degree by the number of edges from it |
| Topology.IncomingZero | core/src/main/java/com/github/dag/core/graph/Graph.java:73 | a remaining in-degree of zero means every unprocessed node has no edge into v |
| Topology.IncomingPositive | core/src/main/java/com/github/dag/core/graph/Graph.java:80-81 | a positive remaining in-degree names an unprocessed predecessor |
| Topology.IncomingAppend | core/src/main/java/com/github/dag/core/graph/Graph.java:175-182 | appending one successor raises one in-degree by one |
| Topology.PopKeepsOrdered | core/src/main/java/com/github/dag/core/graph/Graph.java:68 | a node whose remaining in-degree is zero may extend a topological order of the processed nodes |
| Topology.OrderedAcyclic | core/src/main/java/com/github/dag/core/graph/Graph.java:84 | a topological order of all nodes rules out a cycle |
| Topology.RankedAcyclic | core/src/main/java/com/github/dag/core/graph/Graph.java:84 | a rank that increases along every edge rules out a cycle |
| Topology.StuckHasCycle | core/src/main/java/com/github/dag/core/graph/Graph.java:79-81 | when every unprocessed node has a positive remaining in-degree, the graph has a cycle |
| Topology.ClosedSetHasCycle | core/src/main/java/com/github/dag/core/graph/Graph.java:80-81 | a nonempty node set in which every member has a predecessor in the set contains a cycle |
| Topology.Pigeonhole | core/src/main/java/com/github/dag/core/graph/Graph.java:80-81 | a sequence longer than n with entries below n repeats an entry |
| GraphSpec.PutAll | core/src/main/java/com/github/dag/core/graph/Graph.java:142-146 | the keys after the puts are the old keys and the inserted identities |
| GraphSpec.PutKeepsIndexMap | core/src/main/java/com/github/dag/core/graph/Graph.java:132 | putting the current idx keeps the map injective into [0, idx + 1) |
| GraphSpec.PutAllKeepsIndexMap | core/src/main/java/com/github/dag/core/graph/Graph.java:143-145 | k puts from start keep the map injective into [0, start + k) |
| GraphSpec.PutAllLastWrite | core/src/main/java/com/github/dag/core/graph/Graph.java:144 | an identity maps to the index of its last insertion |
| GraphSpec.PutAllKeepsOthers | core/src/main/java/com/github/dag/core/graph/Graph.java:144 | identities not inserted keep their index |
| GraphSpec.PutAllOwner | core/src/main/java/com/github/dag/core/graph/Graph.java:144 | only the identity inserted at position i can own index start + i |
| GraphSpec.DuplicateLeavesSlotEmpty | core/src/main/java/com/github/dag/core/graph/Graph.java:132-166 | a repeated identity leaves the index of its earlier insertion owned by nobody, so that nodes slot stays null |
| GraphSpec.ResolveStep | core/src/main/java/com/github/dag/core/graph/Graph.java:169-182 | resolving one more edge adds one to its target's in-degree and appends its target to its source's list, creating the list if it was null, and changes no other entry |
| GraphSpec.InDegreeIsEdgeCount | core/src/main/java/com/github/dag/core/graph/Graph.java:167-175 | the in-degree of v is the number of recorded edges whose target maps to v, repeats counted |
| GraphSpec.InDegreeOfConcat | core/src/main/java/com/github/dag/core/graph/Graph.java:169-175 | in-degrees add up over concatenated edge lists |
| GraphSpec.SuccessorsOfConcat | core/src/main/java/com/github/dag/core/graph/Graph.java:177-182 | successor lists follow edge insertion order: the list for a concatenation is the two lists concatenated |
| GraphSpec.SuccessorFromEdge | core/src/main/java/com/github/dag/core/graph/Graph.java:177-182 | every successor entry of u comes from a recorded edge from u |
| GraphSpec.EdgeGivesSuccessor | core/src/main/java/com/github/dag/core/graph/Graph.java:177-182 | every resolved recorded edge puts its target in its source's successor list |
| GraphSpec.NoSuccessorsIff | core/src/main/java/com/github/dag/core/graph/Graph.java:177-181 | u's list is empty, so it stays null, exactly when no recorded edge leaves u |
| GraphSpec.InDegreeZeroIff | core/src/main/java/com/github/dag/core/graph/Graph.java:186-191 | v's in-degree is zero, so v is a root, exactly when no recorded edge enters v |
| GraphSpec.SuccessorsInRange | core/src/main/java/com/github/dag/core/graph/Graph.java:170-182 | resolved successor indices lie below idx |
| GraphSpec.TableWellFormed | core/src/main/java/com/github/dag/core/graph/Graph.java:170-182 | every successor entry names a node |
| GraphSpec.InDegreeIsIncoming | core/src/main/java/com/github/dag/core/graph/Graph.java:167-182 | the in-degree table and the successor lists describe one edge set: inDegree[v] is the number of entries v has across all lists |
| GraphSpec.DistinctIndices | core/src/main/java/com/github/dag/core/graph/Graph.java:142-146 | distinct identities added to a fresh builder are numbered by position |
| GraphSpec.EdgeInTable | core/src/main/java/com/github/dag/core/graph/Graph.java:177-182 | a recorded resolved edge is an edge of the successor table |
| GraphSpec.ForwardEdgesAcyclic | core/src/main/java/com/github/dag/core/graph/Graph.java:63-85 | when every edge leads to a higher index, the table has no cycle |
| Scenarios.NumberingIsIdentity | core/src/test/java/com/github/dag/core/ConcExecuteTest.java:42-43 | addNodes(0, ..., n - 1) maps each i to itself and nothing else |
| Scenarios.Numbered | core/src/test/java/com/github/dag/core/ConcExecuteTest.java:42-43 | a fresh builder after addNodes(0, ..., n - 1) has idx n, the identity map and no edges |
| Scenarios.BuildAndCheck | core/src/test/java/com/github/dag/core/ConcExecuteTest.java:47-49 | build() then isDAG() on resolvable edges returns true exactly when the table has no cycle |
| Scenarios.ChainIsDag | core/src/test/java/com/github/dag/core/ConcExecuteTest.java:42-49 | the chain 0 -> 1 -> 2 -> 3 is a DAG |
| Scenarios.FanOutIsDag | core/src/test/java/com/github/dag/core/ConcExecuteTest.java:70-81 | the fan-out graph of test1 is a DAG |
| Scenarios.TriangleIsCycle | core/src/test/java/com/github/dag/core/ConcExecuteTest.java:104-110 | three resolved edges a -> b -> c -> a make the table cyclic |
| Scenarios.BackEdgeIsNotDag | core/src/test/java/com/github/dag/core/ConcExecuteTest.java:102-113 | the back edge 2 -> 0 makes isDAG() false |
| Scenarios.MissingEndpointFails | core/src/main/java/com/github/dag/core/graph/Graph.java:170-173 | an edge to an identity never added makes build() fail |
| Scenarios.DuplicateLeavesHole | core/src/main/java/com/github/dag/core/graph/Graph.java:131-134 | addNode(5) twice leaves slot 0 null and puts 5 in slot 1 |
| Scenarios.ClearCopy | core/src/main/java/com/github/dag/core/graph/Graph.java:53-56 | clearing a copy's in-degrees leaves the original graph valid, with its own in-degrees unchanged |

## Left out

- `Graph.chaining()`: it is an unimplemented TODO that returns null, so there is no behaviour to model.
- `ConcExecute.java`: it is concurrent dispatch over an executor, latches and atomic counters. It also calls accessors that `Graph.java` does not have.
- Lombok-generated accessors, setters, `toString`, `Graph.builder()`, and console output. The `Graph` fields are `const` because nothing in the core reassigns them.
- Builder method chaining: each `add*` call returns `this`. The methods here return nothing, and callers keep using the same object.
- Java `int` width. `idx` and the in-degrees are unbounded, so an index overflow after 2^31 insertions is not modelled.
- Aliasing of the lists that the getters return: a caller that mutates a returned list, or the shared `zeroDegreeIdx`, is not modelled. The successor lists and the roots are immutable `seq` values.
- Exceptions: a failed `build()` is `None`. The difference between an `AssertionError` and a `NullPointerException` is not kept.
- DagGraph.Graph.GetNodeByIdx: an index outside the array is a precondition here; Java would throw `ArrayIndexOutOfBoundsException`.
- DagGraph.Graph.GetAdjacencyListByIdx: an index outside the array is a precondition here, as for GetNodeByIdx.
- DagGraph.Graph.IsDAG: it requires `Valid()`, the invariant `build()` establishes, because Java only creates graphs through `build()` and `copy()`. It changes no state, because it has no `modifies` clause, so the graph's own `inDegree` is left as it was.
- DagGraph.Builder.NodesByIndex: `HashMap.forEach` visits entries in an unspecified order. The model's loop picks any remaining key, and the result does not depend on the order.
