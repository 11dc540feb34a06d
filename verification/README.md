# ts-project-references-graph, modelled in Dafny

The program reads the project references of a set of TypeScript projects,
builds a dependency graph over the projects, and reports the longest chains
of dependencies. This project models its algorithmic core, `index.ts`:

- the generic `DirectedGraph<T>`, an adjacency map from each node to the set of
  its successors. It covers `add`, `ensureAll`, `isCyclic`, `indegrees`,
  `topoSort` (Kahn's algorithm), `invert`, `walk` and `subgraph`;
- `Sets.addAll`;
- `LongestPathFinder`: the constructor's dynamic-programming pass,
  `longestPath()` and `longestPathEndingWith()`.

A graph is a `map<T, set<T>>`. Every graph the program builds is closed:
each edge target is also a key. That class invariant is the predicate
`Graphs.Closed`, and the operations take it as a precondition.

JavaScript `Map`/`Set` iteration order only decides ties. Examples are which
source `topoSort` pops first, or which of two equally long dependees the
finder follows. The model makes these choices arbitrarily (`:|`), and every
contract holds for every choice.

Where the source throws, the model returns an `Err` or `None` result:

- `topoSort` fails its first `assert` (index.ts:224-227) when no node has
  in-degree 0, the empty graph included. This becomes `Err(NoSource)`.
- `topoSort` fails its second `assert` (index.ts:243-246) when fewer nodes
  were emitted than the graph holds. This happens on a cyclic graph that
  still has a source, and becomes `Err(CycleFound)`.
- `walk` from a node that is not a key throws a `TypeError`. The cause is
  iterating over `this.edges.get(next)!`, which is `undefined`
  (index.ts:267). This becomes `None`.
- `longestPathEndingWith` fails its `assert` at index.ts:124 for a package
  that is not in the graph. This becomes `None`.
- `longestPath` fails its `assert` at index.ts:115 when no length is
  recorded. This becomes `None`.

Neither finder failure happens on a finder the constructor built, for
packages of its graph (`LongestPaths.BuiltFinderPaths`). `NewFinder`
succeeds only on a non-empty graph and records a length for every node.
So `LongestPath` on it returns `Some`, and so does
`LongestPathEndingWith` for every node.
The constructor's assertions (index.ts lines 84, 92 and 97) and the
assertions at 134 and 144 are proof obligations. The model proves that
they never fire.

Modules, one file each:

| file | module | contents |
|---|---|---|
| results.dfy | Results | `Option`, `Result` |
| sets.dfy | Sets | `Elems`, `NoDup`, `AddAll`, `Enumerate` (`[...s]`), cardinality lemmas |
| graphs.dfy | Graphs | `Graph`, `Closed`, `Preds`, `Reverse`, `Add`, `EnsureAll` |
| paths.dfy | Paths | paths, reachability, cycles, and the lemmas about them |
| kahn.dfy | Kahn | `indegrees`, `topoSort` |
| inversion.dfy | Inversion | `invert` |
| traversal.dfy | Traversal | `walk`, `subgraph` |
| cycles.dfy | Cycles | `isCyclic` as written and as evidently intended |
| longest.dfy | LongestPaths | `LongestPathFinder` |

## Model

| member | source | states |
|---|---|---|
| Sets.AddAll | index.ts:306-312 | Adding every element of `xs` to `s` gives exactly `s` united with the elements of `xs`. |
| Sets.Enumerate | index.ts:183 | `[...s]` lists exactly the elements of `s`, each once. |
| Graphs.EnsureAll | index.ts:167-173 | The keys become the old keys plus the listed nodes. Existing successor sets are untouched. Each newly added node has no successors. |
| Graphs.Empty | index.ts:252 | `new DirectedGraph()` starts with no nodes, and so is closed. |
| Graphs.Add | index.ts:157-165 | The successors of `from` become its old successors (none if it was absent) plus `to`. Every node of `to` becomes a key. Every other node keeps its successors. Closure is preserved. |
| Graphs.AddIdempotent | index.ts:157-165 | Repeating the same `add` call leaves the graph as the first call left it. |
| Graphs.ReverseInvolution | index.ts:251-260 | Inverting a closed graph twice gives the graph back. |
| Inversion.AddReversedEdges | index.ts:255-257 | Adding `dep -> e` for every successor `dep` of `e` adds exactly the reversals of `e`'s edges. |
| Inversion.InvertNode | index.ts:253-258 | One round of `invert()` extends the built graph to exactly the reversed edges out of the handled nodes plus `e`. Each of these nodes is a key. |
| Inversion.Invert | index.ts:251-260 | The result is the edge reversal of `g`. It has the same nodes and is closed, and `b -> a` is an edge of it exactly when `a -> b` is an edge of `g`. |
| Kahn.CountEdgesFrom | index.ts:203-210 | One round of `indegrees()` puts the visited node in the map and gives each of its successors one more in-edge. A successor not yet in the map counts from 0. Afterwards every mapped node's count is the number of edges into it from the nodes visited so far, and every unmapped node has no such edge. |
| Kahn.Indegrees | index.ts:200-213 | Every node is mapped to the number of nodes that list it as a successor, and nothing else is mapped. |
| Kahn.EdgesIntoCard | index.ts:207-210 | The increments a node receives from the nodes already handled equal the number of its predecessors among them. |
| Kahn.ZeroInDegree | index.ts:216-222 | The collected sources are exactly the nodes whose in-degree is 0. |
| Kahn.ReleaseSuccessors | index.ts:233-240 | Taking one off the in-degree of each successor of the emitted node removes exactly that node's edges. Afterwards each in-degree plus the edges into it from the emitted nodes equals its initial in-degree. Every unemitted node at 0 waits as a source, and every waiting source has all its predecessors emitted. |
| Kahn.Emit | index.ts:231-240 | Emitting a source and decrementing its successors keeps Kahn's invariant. Each remaining in-degree counts the unemitted predecessors, and the waiting sources are exactly the unemitted nodes with none left. Every emitted node follows its predecessors. |
| Kahn.EmitAll | index.ts:229-241 | Emitting waiting sources until none is left keeps Kahn's invariant throughout. On exit no source waits, every emitted node follows its predecessors, and each remaining in-degree counts the unemitted predecessors. |
| Kahn.StuckMeansCycle | index.ts:229-246 | If nodes remain when no node is waiting, each of them with an unemitted predecessor, then the graph has a cycle. |
| Kahn.TopoOrderNoCycle | index.ts:243-248 | A graph that has a topological order has no cycle. |
| Kahn.TopoSort | index.ts:215-249 | Succeeds exactly when the graph is non-empty and acyclic. The order is then a repeat-free listing of all nodes with every edge pointing forward. It fails with `NoSource` exactly when every node has a predecessor, which includes the empty graph; otherwise it fails with `CycleFound`. |
| Traversal.QueueSuccessors | index.ts:267-272 | Each successor of the dequeued node ends up seen or queued. Everything queued is reachable from `start`, and the queue only grows. |
| Traversal.Walk | index.ts:262-276 | `None` exactly when `start` is not a node. Otherwise the result is exactly the set of nodes reachable from `start`, `start` included. |
| Traversal.Filter | index.ts:284 | The kept elements are exactly the elements of `xs` that are in `keep`. |
| Traversal.Subgraph | index.ts:278-287 | The result holds exactly the nodes of `g` in `keep`. Each of them has exactly its successors in `keep`. The result is closed. |
| Traversal.RestrictPaths | index.ts:278-287 | A path of the subgraph is exactly a path of `g` whose every node is kept. |
| Cycles.WalkFrom | index.ts:182-192 | One walk reports exactly when `s` lies on a cycle or two different nodes reachable from `s` share a successor. Otherwise it has seen exactly the nodes at the end of a path of at least one edge from `s`. |
| Cycles.DupFound | index.ts:185-188 | A node dequeued a second time shows a cycle through `s` or two nodes below `s` sharing a successor. |
| Cycles.WalkDone | index.ts:184-192 | A walk that empties its queue shows that `s` is on no cycle and nothing converges below `s`. The nodes it saw are exactly those below `s`. |
| Cycles.CleanBelow | index.ts:177-180 | Skipping nodes seen on an earlier walk loses nothing: below a node that is on no cycle and has no convergence below it, every node is the same. |
| Cycles.IsCyclic | index.ts:175-198 | As written, the answer is true exactly when the graph has a cycle or some node has two different predecessors with a common ancestor. |
| Cycles.NoEdgesNotCyclic | index.ts:175-198 | A graph without edges has neither, so `isCyclic` answers false on it. |
| Cycles.IsCyclicOnDiamond | index.ts:184-188 | The acyclic diamond `0 -> 1, 0 -> 2, 1 -> 3, 2 -> 3` is reported cyclic. |
| Cycles.IsCyclicCorrected | index.ts:175-198 | As evidently intended, the answer is true exactly when the graph has a cycle. |
| Cycles.IsCyclicCorrectedOnDiamond | index.ts:175-198 | The corrected method reports the diamond acyclic. |
| LongestPaths.LongestViaDependees | index.ts:89-96 | Starting from -1, the result is the largest dependee length plus one: no dependee length plus one exceeds it, and one reaches it unless it stayed -1. |
| LongestPaths.DependeesBefore | index.ts:82-92 | In a topological order every dependee of a package comes before it, so its length is already recorded and the lookup never fails. |
| LongestPaths.LengthOf | index.ts:83-98 | The length recorded for a package is 1 without dependees, and otherwise one more than the largest dependee length. The -1 start never survives. |
| LongestPaths.RecordLengths | index.ts:82-99 | After the loop over a topological order, every package of the order has a recorded length, nothing else does, and each recorded length solves the recurrence. |
| LongestPaths.NewFinder | index.ts:79-100 | Construction succeeds exactly when the graph is non-empty and acyclic. The finder then holds the inverted graph, records a length for exactly the nodes of the graph, and its lengths solve the recurrence at every package. |
| LongestPaths.ChainBound | index.ts:79-100 | No chain of dependees from `n` has more packages than `n`'s recorded length. |
| LongestPaths.ChainWitness | index.ts:79-100 | Some chain of dependees from `n` has exactly `n`'s recorded length. It ends at a package without dependees. |
| LongestPaths.LongestUnique | index.ts:79-100 | The recurrence has one solution, so the lengths do not depend on iteration order. |
| LongestPaths.LengthsBoundChains | index.ts:79-100 | In the constructor's graph `g`, no path ending at `n` has more packages than `n`'s recorded length. |
| LongestPaths.LengthsReachedByChains | index.ts:79-100 | In the constructor's graph `g`, some path ending at `n` has exactly `n`'s recorded length. |
| LongestPaths.Chain3Finder | index.ts:79-100 | On the graph with edges `C -> B`, `C -> A` and `B -> A`, the recorded lengths are `C` 1, `B` 2 and `A` 3. |
| LongestPaths.ArgMax | index.ts:130-143 | The chosen candidate is one of them and no candidate has a greater length. |
| LongestPaths.ChainStep | index.ts:144-148 | Stepping to a dependee of greatest length extends the chain by a package whose length is one less. |
| LongestPaths.LongestPathEndingWith | index.ts:119-151 | `None` exactly when `n` is not a package. Otherwise the result is a chain of dependees from `n` whose i-th package has length `len(n) - i`. It ends at a package without dependees, has `len(n)` packages, and no chain from `n` is longer. |
| LongestPaths.LongestPath | index.ts:102-117 | `None` exactly when no length is recorded. Otherwise the result is a chain of dependees as long as the largest recorded length, from a package of that length, and no chain in the graph is longer. |
| LongestPaths.BuiltFinderPaths | index.ts:102-124 | On a finder the constructor built, `longestPath()` answers exactly when construction succeeded, and `longestPathEndingWith(n)` answers exactly when it succeeded and `n` is a node: the assertions at 115 and 124 never fire there. |

## Left out

- `main` (index.ts:7-73) is left out. It covers argument parsing, reading files, `ts.readConfigFile`, sorting the top ten and printing JSON. All of that is I/O or library calls.
- `printAsGraphVis`, `mustExist` and the final `main().catch` handler are left out. They format text or rethrow and state nothing about the graph.
- The closure invariant is taken as a precondition (`Closed`) of the graph operations and is not re-checked. The constructor and `add` preserve it.
- Concrete tie-breaking is not modelled. JavaScript iteration order decides which source `topoSort` pops, which nodes `isCyclic` walks from first, and which equally long candidate the finder keeps. All of these are arbitrary choices in the model.
- Traversal.Walk: `walk` may queue a node twice, while the model skips a node already seen when it is dequeued. The returned set is the same, and the skip gives the loop its termination measure.
- Kahn.TopoSort: the source pops sources from a stack. The model keeps them in a set and picks any one, and every property is proved for every pick.
- Cycles.IsCyclic: the result is proved for a walk order chosen arbitrarily over the nodes, which covers the JavaScript `Map` key order. Inside one walk the queue is first-in, first-out, as in the source.
- Numbers are unbounded integers. Path lengths stay far below 2^53, so JavaScript `number` rounding is not modelled.
- LongestPaths.LongestPathEndingWith, LongestPaths.LongestPath: these take the finder's class invariant (`Longest`) as a precondition. `NewFinder` establishes it.

## Findings

| source | as written | input that shows it | evidently intended | confidence | as-written member | corrected member |
|---|---|---|---|---|---|---|
| index.ts:184-188 | Each walk reports a cycle when any node is dequeued twice, which also happens when two different nodes of the walk share a successor | `0 -> 1, 0 -> 2, 1 -> 3, 2 -> 3`: no cycle, yet the walk from 0 dequeues 3 twice | report a cycle exactly when some node reaches itself | not executed | Cycles.IsCyclic, Cycles.IsCyclicOnDiamond | Cycles.IsCyclicCorrected, Cycles.IsCyclicCorrectedOnDiamond |
