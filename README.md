# Betweenness centrality engine, id map and predecessor buffers

This project models three classes of a graph-algorithms library for Neo4j:

- `BetweennessCentrality` computes unweighted betweenness centrality. It makes one pass per source node. Each pass starts with a traversal of the outgoing relationships. The traversal records shortest-path counts (`sigma`), distances (`d`) and predecessor lists (`paths`). Nodes are pushed on a stack as they are expanded. A backward phase then pops the stack and accumulates dependencies (`delta`) into `centrality`.
- `IdMap` gives external (long) node ids dense mapped (int) ids, in the order it first sees them. `buildMappedIds` inverts that assignment into an array.
- `Path` is the growable int buffer that holds one node's predecessors.

The model follows the code as written, not the paper it cites, with these exceptions: the predecessor buffers use the corrected growth of `Path.append` (see "Findings" and the `Relax` line under "Left out"), and a pass stops with `Outcome.ZeroSigma` where the Java code divides by a zero path count and carries on with infinite or NaN values (see the `Backward` line under "Left out"). Otherwise:

- **Deque order.** The deque is used at its back only (`addLast`/`removeLast`), so the "breadth-first" phase expands the most recently discovered node first. The model keeps that order: each engine method of that phase is proved to leave exactly the state that a value-level function (`BetweennessSpec.VisitStep`, `VisitSteps`, `ExpandStep`, `Explore`, `Traversed`) computes with that order written out. The invariant `BetweennessSpec.Frontier` records only what this order guarantees. Every recorded predecessor sits one level above its node. Each discovered node is held exactly once on the stack or in the deque. Path counts are never negative.
- **First discovery.** A node that is seen for the first time is queued and given a distance. It gets neither a path count nor a predecessor, because of the `else if` at BetweennessCentrality.java:83-89. Only later relationships one level down add to `sigma` and to `paths`.
- **Centrality accumulation.** The centrality of a popped node `w` grows by `delta[w]` once per predecessor, inside the predecessor loop (BetweennessCentrality.java:95-101).
- **Null buffers.** A popped node whose buffer was never created is dereferenced (`paths[w].forEch`). The model ends the pass there with `Outcome.NullPath(w)`. Nothing can ever be appended to a pass's own source. So on a fresh engine the source of the first pass has no buffer, and `compute()` cannot complete on a non-empty graph. This is proved as `Betweenness.FreshEngineNeverCompletes`.
- **Zero path counts.** A popped node with predecessors but a path count of zero would be divided by. The model ends the pass there with `Outcome.ZeroSigma(w)` (see "Left out").

State:

- The engine's arrays are Dafny arrays. The stack and the deque are sequences used at their last end.
- Each `paths` entry is a `PathStore.Path?` object.
- Ghost sequences mirror the buffers as values:
  - `Preds` holds what each buffer contains;
  - `Bufs` holds the buffer of each node;
  - `Stores` holds each buffer's storage array.
- `Valid()` ties the ghost sequences to the heap. It also requires that no two nodes share a buffer or a storage array.
- The methods are specified against value-level functions in `BetweennessSpec`:
  - `Scan` is the state of the breadth-first phase (stack, deque, buffers, counts, distances), and `Scanned()` reads it off the engine;
  - `VisitStep`, `ExpandStep` and `Explore` are one relationship, one round and the whole loop, and `Traversed` is the reset followed by the loop;
  - `Sweep` is one predecessor loop;
  - `Drain` is the backward phase, and `PassFrom` is a whole pass.

  The properties of those functions are proved as lemmas.

Modules:

- `Sequences` holds shared sequence vocabulary.
- `PathStore` models Path.java.
- `IdMapping` models IdMap.java.
- `BetweennessSpec` holds the value-level functions and lemmas for BetweennessCentrality.java.
- `Betweenness` holds the engine class.

## Model

| member | source | states |
|---|---|---|
| Sequences.TakeUntilFalse | core/src/main/java/org/neo4j/graphalgo/core/utils/container/Path.java:35-41 | what an early-stopping visitor is offered: a prefix of the input that ends right after the first rejected element |
| Sequences.TakeUntilFalseAllTrue | algo/src/main/java/org/neo4j/graphalgo/impl/BetweennessCentrality.java:47-59 | a visitor that accepts everything is offered every element |
| Sequences.TakeUntilFalseStops | algo/src/main/java/org/neo4j/graphalgo/impl/BetweennessCentrality.java:55-57 | the walk stops right after the first rejected element |
| Sequences.TakeUntilFalseAccepted | core/src/main/java/org/neo4j/graphalgo/core/utils/container/Path.java:36-40 | every offered element except possibly the last was accepted |
| Sequences.ReverseAt | algo/src/main/java/org/neo4j/graphalgo/impl/BetweennessCentrality.java:54 | position k of the reversal is position n-1-k of the input (the descending loop of `forEach`) |
| Sequences.ReverseMultiset | algo/src/main/java/org/neo4j/graphalgo/impl/BetweennessCentrality.java:54 | walking the ids downwards neither loses nor repeats a result |
| Sequences.Interval | core/src/main/java/org/neo4j/graphalgo/core/IdMap.java:84-89 | the ids lo..hi-1 in ascending order, one per position |
| Sequences.IntervalExactlyOnce | core/src/main/java/org/neo4j/graphalgo/core/IdMap.java:106-112 | an id range holds each id of [lo, hi) exactly once, strictly ascending |
| Sequences.ElementSetCount | algo/src/main/java/org/neo4j/graphalgo/impl/BetweennessCentrality.java:79-81 | a sequence has at least as many positions as distinct elements, and strictly more when one repeats |
| Sequences.CoverDistinct | algo/src/main/java/org/neo4j/graphalgo/impl/BetweennessCentrality.java:79-81 | a stack that lists a set of its own size lists each member once |
| Sequences.BoundedSetSize | algo/src/main/java/org/neo4j/graphalgo/impl/BetweennessCentrality.java:79-81 | at most n ids lie below n (the stack never outgrows the graph) |
| PathStore.GrownLength | core/src/main/java/org/neo4j/graphalgo/core/utils/container/Path.java:25-27 | the grown capacity is at least the requested size and strictly more than the old one |
| PathStore.Grow | core/src/main/java/org/neo4j/graphalgo/core/utils/container/Path.java:26 | growth returns a fresh, strictly longer array whose prefix copies the old one |
| PathStore.LibraryGrownLength | core/src/main/java/org/neo4j/graphalgo/core/utils/container/Path.java:26 | the array library's grow keeps an array that already holds minSize cells |
| PathStore.LibraryGrowAppendOutOfBounds | core/src/main/java/org/neo4j/graphalgo/core/utils/container/Path.java:24-29 | for a full buffer (`offset == nodes.length`), the library's grow asked for `offset` cells returns an array of the same length, so the write index `offset` is out of range |
| PathStore.Path.constructor | core/src/main/java/org/neo4j/graphalgo/core/utils/container/Path.java:20-22 | a new buffer of the given capacity holds no entries |
| PathStore.Path.Default | core/src/main/java/org/neo4j/graphalgo/core/utils/container/Path.java:16-18 | the no-argument buffer has capacity 1 and no entries |
| PathStore.Path.Append | core/src/main/java/org/neo4j/graphalgo/core/utils/container/Path.java:24-29 | the entries become the old entries followed by `nodeId`; the storage is either kept or replaced by a fresh array |
| PathStore.Path.Size | core/src/main/java/org/neo4j/graphalgo/core/utils/container/Path.java:31-33 | the size is the number of stored entries |
| PathStore.Path.ForEach | core/src/main/java/org/neo4j/graphalgo/core/utils/container/Path.java:35-41 | the entries are offered in insertion order, stopping right after the first rejection |
| PathStore.Path.Clear | core/src/main/java/org/neo4j/graphalgo/core/utils/container/Path.java:43-45 | no entries remain, and the storage array and its cells are untouched |
| IdMapping.InjectiveValuesCount | core/src/main/java/org/neo4j/graphalgo/core/IdMap.java:12-15 | distinct keys with distinct ids give as many ids as keys |
| IdMapping.DenseCoversIds | core/src/main/java/org/neo4j/graphalgo/core/IdMap.java:12-15 | when only fresh keys were assigned, the mapped ids are exactly 0..nextGraphId-1 |
| IdMapping.InsertKeepsDense | core/src/main/java/org/neo4j/graphalgo/core/IdMap.java:47-54 | giving an unseen key the next id keeps the assignment dense and one-to-one |
| IdMapping.DuplicateAddBreaksBuild | core/src/main/java/org/neo4j/graphalgo/core/IdMap.java:56-59 | `add` of a key that is already present leaves fewer keys than ids and an id outside the array `buildMappedIds` allocates |
| IdMapping.IdIterator.constructor | core/src/main/java/org/neo4j/graphalgo/core/IdMap.java:119-122 | a new iterator yields nothing |
| IdMapping.IdIterator.Reset | core/src/main/java/org/neo4j/graphalgo/core/IdMap.java:124-128 | after reset the iterator is itself and yields 0..limit-1 |
| IdMapping.IdIterator.HasNext | core/src/main/java/org/neo4j/graphalgo/core/IdMap.java:130-133 | there is a next id exactly when something remains |
| IdMapping.IdIterator.Next | core/src/main/java/org/neo4j/graphalgo/core/IdMap.java:135-138 | returns the first remaining id and leaves the rest |
| IdMapping.IdMap.constructor | core/src/main/java/org/neo4j/graphalgo/core/IdMap.java:26-29 | an empty, dense map whose counter starts at 0 |
| IdMapping.IdMap.Deserialized | core/src/main/java/org/neo4j/graphalgo/core/IdMap.java:34-41 | adopts both tables; the counter resumes at the array length |
| IdMapping.IdMap.Iterator | core/src/main/java/org/neo4j/graphalgo/core/IdMap.java:43-45 | the shared iterator, re-armed over 0..nextGraphId-1 |
| IdMapping.IdMap.MapOrGet | core/src/main/java/org/neo4j/graphalgo/core/IdMap.java:47-54 | a known key gets its id back and nothing changes; an unknown key gets the counter's value, which is then stored and incremented; density is preserved, and the counter moves exactly when the key is new |
| IdMapping.IdMap.Add | core/src/main/java/org/neo4j/graphalgo/core/IdMap.java:56-59 | binds the key to the counter's value without looking it up, and increments the counter; density is kept for a new key and broken for a present one |
| IdMapping.IdMap.Get | core/src/main/java/org/neo4j/graphalgo/core/IdMap.java:61-63 | the stored id or -1; on a dense map, -1 exactly for absent keys |
| IdMapping.IdMap.Unmap | core/src/main/java/org/neo4j/graphalgo/core/IdMap.java:65-67 | once the array inverts the map, the result is the key that carries the given id |
| IdMapping.IdMap.InverseIsOnto | core/src/main/java/org/neo4j/graphalgo/core/IdMap.java:65-74 | an inverted map whose ids fill the array accounts for every cell |
| IdMapping.IdMap.BuildMappedIds | core/src/main/java/org/neo4j/graphalgo/core/IdMap.java:69-74 | a fresh array of one cell per key; every cell holds the key carrying its index, or 0 when no key does; a one-to-one map is inverted exactly |
| IdMapping.IdMap.Size | core/src/main/java/org/neo4j/graphalgo/core/IdMap.java:76-78 | on a dense map, the counter equals the number of keys |
| IdMapping.IdMap.NodeCount | core/src/main/java/org/neo4j/graphalgo/core/IdMap.java:101-104 | after inversion, the node count equals the number of keys |
| IdMapping.IdMap.ForEach | core/src/main/java/org/neo4j/graphalgo/core/IdMap.java:84-89 | offers 0..nextGraphId-1 ascending |
| IdMapping.IdMap.ToMappedNodeId | core/src/main/java/org/neo4j/graphalgo/core/IdMap.java:91-94 | the same as `mapOrGet` |
| IdMapping.IdMap.ToOriginalNodeId | core/src/main/java/org/neo4j/graphalgo/core/IdMap.java:96-99 | once the array inverts the map, the external id that maps to the given id |
| IdMapping.IdMap.ForEachNode | core/src/main/java/org/neo4j/graphalgo/core/IdMap.java:106-112 | offers 0..nodeCount()-1 ascending |
| IdMapping.IdMap.NodeIterator | core/src/main/java/org/neo4j/graphalgo/core/IdMap.java:114-117 | a fresh iterator over 0..nodeCount()-1 |
| IdMapping.MapBuildUnmap | core/src/main/java/org/neo4j/graphalgo/core/IdMap.java:47-74 | mapping every id, building the inverse and unmapping gives back each id; two ids share a mapped id exactly when they are equal |
| BetweennessSpec.AcceptingConsumerSeesAll | algo/src/main/java/org/neo4j/graphalgo/impl/BetweennessCentrality.java:53-59 | a consumer that accepts everything is offered every result exactly once, highest id first |
| BetweennessSpec.StartFrontier | algo/src/main/java/org/neo4j/graphalgo/impl/BetweennessCentrality.java:70-78 | the reset state (only the source queued, at distance 0 with one path, no predecessors) satisfies the traversal invariant |
| BetweennessSpec.DiscoveredBound | algo/src/main/java/org/neo4j/graphalgo/impl/BetweennessCentrality.java:79-81 | the stack and the deque together hold at most one entry per node |
| BetweennessSpec.PopStep | algo/src/main/java/org/neo4j/graphalgo/impl/BetweennessCentrality.java:80-81 | moving the last queued node onto the stack keeps the invariant |
| BetweennessSpec.StackedOnce | algo/src/main/java/org/neo4j/graphalgo/impl/BetweennessCentrality.java:92-93 | when the deque is empty, the stack holds each discovered node exactly once and nothing else |
| BetweennessSpec.DiscoverStep | algo/src/main/java/org/neo4j/graphalgo/impl/BetweennessCentrality.java:83-85 | queueing an undiscovered target one level below the expanded node keeps the invariant |
| BetweennessSpec.StackedDiscovered | algo/src/main/java/org/neo4j/graphalgo/impl/BetweennessCentrality.java:81 | a stacked node is a discovered node of the graph |
| BetweennessSpec.DiscoverLayered | algo/src/main/java/org/neo4j/graphalgo/impl/BetweennessCentrality.java:85 | giving an undiscovered node a distance keeps the layering and the path counts |
| BetweennessSpec.DiscoverQueued | algo/src/main/java/org/neo4j/graphalgo/impl/BetweennessCentrality.java:84-85 | the newly discovered node is held exactly once, in the deque |
| BetweennessSpec.RelaxStep | algo/src/main/java/org/neo4j/graphalgo/impl/BetweennessCentrality.java:86-88 | a target one level down is never the source, and adding the expanded node's count and the node itself as a predecessor keeps the invariant |
| BetweennessSpec.LayeredWellFormed | algo/src/main/java/org/neo4j/graphalgo/impl/BetweennessCentrality.java:86-88 | layered predecessors are nodes of the graph, and no node is its own predecessor |
| BetweennessSpec.GrownTransitive | algo/src/main/java/org/neo4j/graphalgo/impl/BetweennessCentrality.java:83-85 | distances, once given, are kept across any number of steps |
| BetweennessSpec.ClosedGrows | algo/src/main/java/org/neo4j/graphalgo/impl/BetweennessCentrality.java:80-91 | pushing a node all of whose relationships lead to discovered nodes keeps every stacked node expanded, even as more nodes are discovered |
| BetweennessSpec.ClosedReach | algo/src/main/java/org/neo4j/graphalgo/impl/BetweennessCentrality.java:79-92 | with the deque empty and every stacked node expanded, the discovered set is closed under outgoing relationships |
| BetweennessSpec.WalkReached | algo/src/main/java/org/neo4j/graphalgo/impl/BetweennessCentrality.java:79-92 | in a discovered set closed under outgoing relationships, every walk from a discovered node ends at a discovered node |
| BetweennessSpec.TraversalDone | algo/src/main/java/org/neo4j/graphalgo/impl/BetweennessCentrality.java:79-92 | the end of the loop gives a complete traversal: the source first on the stack, each discovered node stacked once, the discovered set closed under outgoing relationships |
| BetweennessSpec.TraversalReaches | algo/src/main/java/org/neo4j/graphalgo/impl/BetweennessCentrality.java:79-92 | after a complete traversal, every node reachable from the source along outgoing relationships has a distance |
| BetweennessSpec.VisitStep | algo/src/main/java/org/neo4j/graphalgo/impl/BetweennessCentrality.java:82-91 | the relationship consumer on the phase state: an undiscovered target is queued at the back one level below `v`; a target exactly one level below gains the count of `v` and `v` at the end of its predecessors; any other target changes nothing; the stack is never touched |
| BetweennessSpec.VisitSteps | algo/src/main/java/org/neo4j/graphalgo/impl/BetweennessCentrality.java:82 | the relationships of `v` visited one after another in iteration order; sizes kept and the stack untouched |
| BetweennessSpec.ExpandStep | algo/src/main/java/org/neo4j/graphalgo/impl/BetweennessCentrality.java:80-91 | one round of the loop: the node at the back of the deque is removed from it, pushed on the stack, and its relationships visited in order |
| BetweennessSpec.Explore | algo/src/main/java/org/neo4j/graphalgo/impl/BetweennessCentrality.java:79-92 | rounds repeat until the deque is empty; it always ends, with the deque empty |
| BetweennessSpec.Cleared | algo/src/main/java/org/neo4j/graphalgo/impl/BetweennessCentrality.java:119-126 | the buffers after `clearPaths`: each existing buffer is empty and each null one stays null |
| BetweennessSpec.Traversed | algo/src/main/java/org/neo4j/graphalgo/impl/BetweennessCentrality.java:70-92 | the state the reset and the loop leave: the loop run from the deque holding only the source, at distance 0 with one path, every other node at distance -1 with no path, and the buffers cleared; the deque ends empty |
| BetweennessSpec.StartScanFrontier | algo/src/main/java/org/neo4j/graphalgo/impl/BetweennessCentrality.java:70-78 | the reset state satisfies the traversal invariant |
| BetweennessSpec.VisitStepKeeps | algo/src/main/java/org/neo4j/graphalgo/impl/BetweennessCentrality.java:82-91 | visiting one relationship of the node on top of the stack keeps the invariant |
| BetweennessSpec.VisitStepsKeeps | algo/src/main/java/org/neo4j/graphalgo/impl/BetweennessCentrality.java:82-91 | visiting any list of its relationships keeps the invariant |
| BetweennessSpec.VisitStepsGrow | algo/src/main/java/org/neo4j/graphalgo/impl/BetweennessCentrality.java:82-91 | visiting the relationships of a discovered node discovers every target, changes no earlier distance, leaves the source's buffer alone and drops no buffer |
| BetweennessSpec.ExpandKeeps | algo/src/main/java/org/neo4j/graphalgo/impl/BetweennessCentrality.java:80-91 | one round keeps the invariant, expands the pushed node, changes no earlier distance, leaves the source's buffer alone, drops no buffer, and keeps every stacked node expanded |
| BetweennessSpec.ExploreKeeps | algo/src/main/java/org/neo4j/graphalgo/impl/BetweennessCentrality.java:79-92 | the whole loop keeps the invariant and the expansion of every stacked node, leaves the source's buffer alone and drops no buffer |
| BetweennessSpec.TraversedFacts | algo/src/main/java/org/neo4j/graphalgo/impl/BetweennessCentrality.java:70-92 | after the reset and the loop: every predecessor one level up, counts non-negative, each discovered node stacked once with the source first, the discovered set closed under outgoing relationships; the source has a buffer exactly when it had one before, and no buffer is dropped |
| BetweennessSpec.TimesIsProduct | algo/src/main/java/org/neo4j/graphalgo/impl/BetweennessCentrality.java:98 | adding x n times is n·x |
| BetweennessSpec.TimesNonNegative | algo/src/main/java/org/neo4j/graphalgo/impl/BetweennessCentrality.java:98 | adding a non-negative amount n times is non-negative |
| BetweennessSpec.ShareNonNegative | algo/src/main/java/org/neo4j/graphalgo/impl/BetweennessCentrality.java:96 | sigma[v]/sigma[w]·(delta[w]+1) is non-negative for non-negative counts and dependency |
| BetweennessSpec.SweepOne | algo/src/main/java/org/neo4j/graphalgo/impl/BetweennessCentrality.java:95-101 | one call of the predecessor consumer keeps the sizes of both tallies |
| BetweennessSpec.Sweep | algo/src/main/java/org/neo4j/graphalgo/impl/BetweennessCentrality.java:95-101 | the predecessor loop keeps the sizes of both tallies |
| BetweennessSpec.SweepKeepsOwn | algo/src/main/java/org/neo4j/graphalgo/impl/BetweennessCentrality.java:96 | the loop for `w` never changes `delta[w]` when `w` is not its own predecessor |
| BetweennessSpec.SweepDelta | algo/src/main/java/org/neo4j/graphalgo/impl/BetweennessCentrality.java:95-96 | each dependency grows by its share once per occurrence among the predecessors, and no other dependency changes |
| BetweennessSpec.SweepCentrality | algo/src/main/java/org/neo4j/graphalgo/impl/BetweennessCentrality.java:97-99 | unless `w` is the source, its centrality grows by `delta[w]` once per predecessor; no other centrality changes |
| BetweennessSpec.SweepCentralityScaled | algo/src/main/java/org/neo4j/graphalgo/impl/BetweennessCentrality.java:97-99 | unless `w` is the source, its centrality grows by the number of its predecessors times `delta[w]` |
| BetweennessSpec.SweepNonDecreasing | algo/src/main/java/org/neo4j/graphalgo/impl/BetweennessCentrality.java:95-101 | with non-negative counts and dependencies, the loop lowers no tally |
| BetweennessSpec.Drain | algo/src/main/java/org/neo4j/graphalgo/impl/BetweennessCentrality.java:93-102 | the backward phase keeps the sizes of both tallies |
| BetweennessSpec.DrainCompletes | algo/src/main/java/org/neo4j/graphalgo/impl/BetweennessCentrality.java:93-102 | the backward phase completes exactly when every stacked node has a buffer, and a non-zero count where it has predecessors; otherwise it names a stacked node that fails, and why, and every node stacked above it is sound, so it is the topmost that fails |
| BetweennessSpec.DrainUntouched | algo/src/main/java/org/neo4j/graphalgo/impl/BetweennessCentrality.java:97-99 | the centrality of the source and of unstacked nodes is left as it was |
| BetweennessSpec.DrainNonDecreasing | algo/src/main/java/org/neo4j/graphalgo/impl/BetweennessCentrality.java:93-102 | with non-negative counts and dependencies, the backward phase lowers no centrality and keeps dependencies non-negative |
| BetweennessSpec.PassFacts | algo/src/main/java/org/neo4j/graphalgo/impl/BetweennessCentrality.java:69-103 | after the traversal: no centrality drops, and those of the source and of unreached nodes stay; the pass completes exactly when every reached node is sound; a source without a buffer never completes |
| BetweennessSpec.PassFromFacts | algo/src/main/java/org/neo4j/graphalgo/impl/BetweennessCentrality.java:69-103 | of the whole pass (`PassFrom`: `Traversed`, then `Drain` from zero dependencies and the held centralities): the loop leaves the invariant and a complete traversal; no centrality drops; the source's and every unreached node's stay; the pass completes exactly when every reached node is sound; a source without a buffer never completes and still has none; no buffer is dropped |
| Betweenness.BetweennessCentrality.constructor | algo/src/main/java/org/neo4j/graphalgo/impl/BetweennessCentrality.java:31-40 | fresh zeroed arrays of one cell per node, empty stack and deque, no buffers |
| Betweenness.BetweennessCentrality.EnsurePath | algo/src/main/java/org/neo4j/graphalgo/impl/BetweennessCentrality.java:112-114 | the buffer of `path` exists afterwards, holding what it held before (nothing, if it was just created) |
| Betweenness.BetweennessCentrality.AddToPath | algo/src/main/java/org/neo4j/graphalgo/impl/BetweennessCentrality.java:115 | `nodeId` is added at the end of that buffer and no other buffer changes |
| Betweenness.BetweennessCentrality.Append | algo/src/main/java/org/neo4j/graphalgo/impl/BetweennessCentrality.java:111-117 | the buffer of `path`, created if it was null, gains `nodeId` at its end; no other buffer changes |
| Betweenness.BetweennessCentrality.ClearPaths | algo/src/main/java/org/neo4j/graphalgo/impl/BetweennessCentrality.java:119-126 | the buffers become `Cleared` of the old ones: every existing buffer is emptied and every null entry stays null |
| Betweenness.BetweennessCentrality.ClearSlot | algo/src/main/java/org/neo4j/graphalgo/impl/BetweennessCentrality.java:120-124 | one entry of the loop: its buffer, if any, is emptied and the others are untouched |
| Betweenness.BetweennessCentrality.Reset | algo/src/main/java/org/neo4j/graphalgo/impl/BetweennessCentrality.java:70-78 | the phase state becomes exactly the starting state of `Traversed`: buffers cleared, stack empty, deque holding only the source, counts 0 except 1 at the source, distances -1 except 0 at the source; dependencies 0 |
| Betweenness.BetweennessCentrality.ResetCounters | algo/src/main/java/org/neo4j/graphalgo/impl/BetweennessCentrality.java:73-77 | the three `Arrays.fill`s and the two source cells |
| Betweenness.BetweennessCentrality.Discover | algo/src/main/java/org/neo4j/graphalgo/impl/BetweennessCentrality.java:83-85 | the target is queued at the back with distance d[v]+1 |
| Betweenness.BetweennessCentrality.Relax | algo/src/main/java/org/neo4j/graphalgo/impl/BetweennessCentrality.java:86-88 | the target's count grows by the count of `v`, and `v` is appended to its buffer |
| Betweenness.BetweennessCentrality.Visit | algo/src/main/java/org/neo4j/graphalgo/impl/BetweennessCentrality.java:82-91 | the new stack, deque, buffers, counts and distances are exactly `VisitStep` of the old ones (discover, relax, or leave alone) |
| Betweenness.BetweennessCentrality.VisitAll | algo/src/main/java/org/neo4j/graphalgo/impl/BetweennessCentrality.java:82-91 | the new phase state is exactly `VisitSteps` of the old one over the relationships of `v`, in iteration order |
| Betweenness.BetweennessCentrality.Expand | algo/src/main/java/org/neo4j/graphalgo/impl/BetweennessCentrality.java:80-91 | the new phase state is exactly `ExpandStep` of the old one: the last queued node is removed from the deque, pushed, and expanded |
| Betweenness.BetweennessCentrality.Forward | algo/src/main/java/org/neo4j/graphalgo/impl/BetweennessCentrality.java:79-92 | from a state satisfying the invariant, the new phase state is exactly `Explore` of the old one |
| Betweenness.BetweennessCentrality.Traverse | algo/src/main/java/org/neo4j/graphalgo/impl/BetweennessCentrality.java:70-92 | reset plus loop: the phase state is exactly `Traversed` of the buffers left by earlier passes (whose properties `TraversedFacts` proves), and all dependencies are zero |
| Betweenness.BetweennessCentrality.AccumulateOne | algo/src/main/java/org/neo4j/graphalgo/impl/BetweennessCentrality.java:95-101 | the consumer body, equal to `SweepOne` on the tallies |
| Betweenness.BetweennessCentrality.Accumulate | algo/src/main/java/org/neo4j/graphalgo/impl/BetweennessCentrality.java:95-101 | the buffer's loop, equal to `Sweep` over the recorded predecessors |
| Betweenness.BetweennessCentrality.Backward | algo/src/main/java/org/neo4j/graphalgo/impl/BetweennessCentrality.java:93-102 | outcome and tallies equal `Drain` of the stack |
| Betweenness.BetweennessCentrality.ComputeNode | algo/src/main/java/org/neo4j/graphalgo/impl/BetweennessCentrality.java:69-103 | one pass: the buffers, counts, distances and stack it leaves are exactly `Traversed` of the old buffers, and the outcome and tallies exactly `PassFrom` of the old buffers and centralities; every predecessor is one level up and the stack is a complete traversal from the source; centralities never drop, those of the source and of unreached nodes stay; it completes exactly when every reached node is sound; a source without a buffer never completes and still has none; no buffer is dropped |
| Betweenness.BetweennessCentrality.Settle | algo/src/main/java/org/neo4j/graphalgo/impl/BetweennessCentrality.java:93-102 | the backward phase after `Traversed`: the outcome and tallies are exactly `PassFrom`; centralities never drop, those of the source and of unreached nodes stay; it completes exactly when every reached node is sound |
| Betweenness.BetweennessCentrality.Consume | algo/src/main/java/org/neo4j/graphalgo/impl/BetweennessCentrality.java:43 | the pass as `compute()` hands it to the node iteration: the outcome and tallies are exactly `PassFrom` of the old buffers and centralities, and the buffers exactly those of `Traversed`; no centrality drops, no buffer is dropped, and a source without a buffer fails and still has none |
| Betweenness.BetweennessCentrality.Compute | algo/src/main/java/org/neo4j/graphalgo/impl/BetweennessCentrality.java:42-45 | at most one pass per node, every pass before the last completed, the result is the last pass's outcome, and it completes exactly when all passes ran and completed; no centrality drops; when node 0 starts without a buffer, exactly one pass runs, it fails, node 0 still has no buffer, and the centralities are exactly those `PassFrom` gives for that one pass from node 0 |
| Betweenness.BetweennessCentrality.ResultStream | algo/src/main/java/org/neo4j/graphalgo/impl/BetweennessCentrality.java:61-67 | one result per node, ascending, pairing the original id with the centrality |
| Betweenness.BetweennessCentrality.ForEach | algo/src/main/java/org/neo4j/graphalgo/impl/BetweennessCentrality.java:53-59 | the results, highest id first, up to and including the first one the consumer rejects |
| Betweenness.FreshEngineNeverCompletes | algo/src/main/java/org/neo4j/graphalgo/impl/BetweennessCentrality.java:31-45 | on a non-empty graph, a freshly constructed engine completes neither a first nor a second `compute()` |

## Left out

- The graph is a value, `BetweennessSpec.Graph`. It holds each mapped node's outgoing targets, in iteration order, and the original ids. `forEachRelationship` is a loop over that list. `forEachNode` is the ascending loop of `IdMap.forEachNode`. The loaders and graph views that build a graph are outside this model.
- Doubles are real numbers: no rounding and no infinities or NaN. Java ints and longs are unbounded integers: there is no 32-bit overflow of `sigma`, `nextGraphId` or the ids.
- Betweenness.BetweennessCentrality.Backward: a popped node with predecessors and a path count of zero ends the pass as `ZeroSigma`. The Java code instead divides by 0.0 and carries on with an infinite or NaN dependency, which reals cannot represent.
- Betweenness.BetweennessCentrality.Compute: the exception (a null buffer) that ends `compute()` in the Java code is modelled as a returned outcome, and the loop stops at the first failing pass. `compute()`'s `return this` is not modelled. The ghost record of outcomes lists one entry per pass that ran, but the contract does not name the source of each entry; that the passes run from node 0 upwards is stated by the loop alone. The contract gives the centralities exactly only when node 0 starts without a buffer (one pass); after several passes it states only that no centrality drops, not the fold of `PassFrom` over the passes. Each single pass is given exactly by `Consume`.
- Consumers (`ResultConsumer`, `IntConsumer`, `IntPredicate`) are pure Dafny functions. A traversal returns the sequence it offered. Consumers with side effects are not modelled, except the two inside the engine, which are written out as methods.
- The Java `Stream` returned by `resultStream` is a sequence.
- The HPPC hash map behind `IdMap` is a Dafny `map`. Its capacity hint and load factor (IdMap.java:27) size storage only and are not modelled.
- IdMapping.IdMap.BuildMappedIds: requires every stored id to be below the number of keys. Without that the Java code writes out of bounds. Two routes break it: `add` of a key that is already present (`IdMapping.DuplicateAddBreaksBuild`), and the deserializing constructor (IdMap.java:34-41), which adopts any map and array without checking them. For example, an array of three ids with a one-key map resumes the counter at 3; `mapOrGet` of a new key then stores id 3 in a two-key map, and `buildMappedIds` writes cell 3 of a two-cell array.
- IdMapping.IdMap.Unmap: only states what the result means once `graphIds` inverts the forward map.
- IdMapping.IdMap.ToOriginalNodeId: the same limit as `Unmap`.
- IdMapping.IdMap.Unmap, IdMapping.IdMap.NodeCount, IdMapping.IdMap.ToOriginalNodeId, IdMapping.IdMap.ForEachNode and IdMapping.IdMap.NodeIterator require `graphIds` to exist, and `Unmap` and `ToOriginalNodeId` also require an id inside the array. In the Java code, calling them before `buildMappedIds` throws `NullPointerException` (IdMap.java:65-66, 97-98, 102-103, 107-115), and an id outside the array throws `ArrayIndexOutOfBoundsException`. Both faults are modelled as preconditions, not as error results.
- The class comment of IdMap.java says ids are "sorted". The code does not sort; ids follow first-seen order, and the model does that.
- `mappedIds()` (IdMap.java:80-82) is a field read and is not modelled.
- PathStore.Path.constructor: takes a `nat` capacity. The Java constructor (Path.java:20-22) accepts any `int` and throws `NegativeArraySizeException` for a negative size; the model excludes that case by the type.
- Lucene's `ArrayUtil.grow` and the HPPC stack and deque are not part of this model. The library's documented growth rule is written out as `PathStore.LibraryGrownLength`, which only the as-written half of the finding uses. `PathStore.Path.Append` instead grows through `PathStore.Grow`/`PathStore.GrownLength`, an assumed rule that returns a strictly longer array; the library provides no such rule.
- Betweenness.BetweennessCentrality.Relax: the engine is built on the corrected buffer. In the Java code every buffer is a `new Path()` of one cell, so the first time a node gets a second predecessor in a pass, `append` (BetweennessCentrality.java:88, via Path.java:28) throws `ArrayIndexOutOfBoundsException` during the forward phase. That exception is not modelled, and nodes with several predecessors, and so the repeated accumulation at BetweennessCentrality.java:95-101, exist only under the correction.
- The `Result` class (BetweennessCentrality.java:132-142) is the datatype `BetweennessSpec.Result`. Its boxed `Long` and `Double` fields become `int` and `real`.

## Findings

| source | as written | input that shows it | evidently intended | confidence | as-written member | corrected member |
|---|---|---|---|---|---|---|
| core/src/main/java/org/neo4j/graphalgo/core/utils/container/Path.java:24-29 | `append` grows with `grow(nodes, offset)` when `offset >= nodes.length`. The array library returns the array unchanged when it already holds `minSize` cells, so the write `nodes[offset]` is one past the end. | a second `append` on `new Path()`: capacity 1, offset 1; in the engine, a node with two predecessors on shortest paths | grow to at least `offset + 1` cells so that the write fits | not executed | PathStore.LibraryGrowAppendOutOfBounds | PathStore.Path.Append |
