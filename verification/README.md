# Dial's algorithm: graph, instrumented trace engine, reference engine

This project models the core of a small shortest-path visualiser built around
Dial's algorithm, which finds single-source shortest paths over non-negative
integer weights with an array of FIFO buckets indexed by tentative distance.
Three pieces are modelled:

- **The graph** (`graph_utils.py`, module `Graphs`). It has a set of
  string nodes, an append-only adjacency map from a node to its ordered
  `(neighbor, weight)` entries, and the largest weight added so far.
  `get_nodes` returns the nodes sorted the way Python sorts strings; module
  `Lex` gives that order and a sort.
- **The instrumented engine** (`dials_logic.py`, modules `DialsLogic`,
  `DialsLogicTrace`, `DialsLogicCorrect`). It runs Dial's algorithm over a
  `Graph` and records one snapshot per observable action: initialisation,
  processing a node, examining an edge, relaxing an edge, and the final
  table. When a label improves, the old bucket entry is left in place.
  A popped entry whose label is already below the bucket index is stale and
  is dropped silently. The source's generator becomes a function returning
  the whole snapshot sequence. Python's `float("inf")` becomes the `Inf` case
  of `Dist = Fin(n) | Inf`.
- **The reference engine** (`dials.py`, modules `Dials` and `DialsCorrect`).
  It works over node ids `0..V-1` with the integer sentinel
  `INF = 999999999`. When a distance improves, the node's first entry in its
  old bucket is removed before the node is appended to the new bucket.

The two engines are kept separate, as in the source. Both are written as a
`Step` function over an explicit state: the distance table, the buckets, the
scan index, and a phase that is either scanning or relaxing the `k`-th edge of
node `u`. `Run` iterates `Step` and terminates by a lexicographic measure.

Both engines index the bucket array with a computed distance without checking
it, so Python would raise `IndexError`. The model turns that into the outcome
`Err(BucketIndexOutOfRange(i))`. For the instrumented engine it is proved
never to happen on a graph built through the graph operations. For the
reference engine it cannot happen when every weight is at most `max_weight`.
`DialsDemo.OverweightFails` shows that it does happen otherwise.

Walks, their weights and shortest distances are defined once, generically, in
`Paths`. They are the independent reference against which both engines'
results are proved. The demonstration graph of `dials.py` and a four-node
example graph built with `add_edge` are worked through as instances.

Behaviour worth noting:

- The instrumented engine does not remove a node's old bucket entry when its
  label improves (`dials_logic.py:79-89`). Stale entries stay and are skipped
  at pop time.
- A start node that is not in the graph is not an error. It is added to the
  distance table at 0 (`dials_logic.py:19`). The trace then ends with every
  other node at `Inf`.
- No weight check exists in the core. Weights are `nat`, so a negative
  weight cannot be expressed (see "Left out").

## Model

| member | source | states |
|---|---|---|
| Graphs.NewGraph | graph_utils.py:11-17 | A new graph has no nodes, no adjacency entries and maximum weight 0, and is well formed. |
| Graphs.AddNode | graph_utils.py:19-22 | A non-empty name is added to the node set and the empty name leaves the graph unchanged; adjacency and maximum weight are untouched; well-formedness is kept. |
| Graphs.AddNodeIdempotent | graph_utils.py:19-22 | Adding the same node twice gives the same graph as adding it once. |
| Graphs.AddEdge | graph_utils.py:24-36 | With both names non-empty, both endpoints join the node set. `(v, w)` is appended at the end of `u`'s entries and every other node's entries are unchanged. The maximum weight becomes the larger of the old maximum and `w`. With an empty name the graph is unchanged. Well-formedness is kept. |
| Graphs.GetNodes | graph_utils.py:38-40 | The result is strictly increasing in string order and holds exactly the graph's nodes, each once. |
| Lex.Sort | graph_utils.py:40 | Sorting a set of strings gives a strictly increasing sequence with exactly the set's elements. |
| Lex.LessTotal | graph_utils.py:40 | The string order used for sorting is total on distinct strings (with `LessIrreflexive` and `LessTransitive`, a strict total order). |
| BucketQueue.RemoveFirst | dials.py:46-51 | Python's `list.remove`: an absent value leaves the list unchanged (the caught `ValueError`); otherwise exactly the first occurrence is cut out, so the multiset loses one copy. |
| Dials.MoveEntry | dials.py:46-53 | Moving `v` from bucket `before` to bucket `after` leaves bucket `before` as `list.remove` leaves it: only the first occurrence of `v` is cut out, unless `before` is `INF`. Then `v` is appended after the remaining entries of `after`, which keep their order. Every other bucket is unchanged, and no value other than `v` appears anywhere new. |
| Dials.StepProgress | dials.py:20-56 | Every action of the scan loop strictly lowers the termination measure. The measure is lexicographic over: pairs a distance may still drop to, bucket entries, buckets left to scan, edges left to relax. |
| DialsCorrect.StepLowers | dials.py:20-53 | A step never moves the scan index back and never raises a distance. It changes at most the target of the edge being relaxed, and only to the current node's distance plus the weight when that is strictly lower. |
| DialsCorrect.StepExact | dials.py:41-53 | On every graph, each step keeps every bucket entry at its node's current distance, and each node at most once in that bucket: the buckets never hold a stale entry. |
| DialsCorrect.InitInv | dials.py:13-18 | The initial state has `V` distances with the source at 0 and every other node at `INF`. It has `max_weight * V + 1` buckets with only the source, in bucket 0, and scanning starts at index 0. It satisfies the label-setting invariant with nothing yet taken. |
| DialsCorrect.DialCorrect | dials.py:11-64 | When every shortest distance plus an out-edge weight fits in the bucket array, and the array is shorter than `INF`, the run never fails. It returns `V` distances, each the shortest-path distance from `src`, `INF` exactly for nodes `src` cannot reach. |
| DialsCorrect.WeightsFit | dials.py:16-17 | With every weight at most `max_weight`, a shortest distance plus one more edge is at most `max_weight * V`, so it indexes a bucket. |
| DialsCorrect.DialCorrectBounded | dials.py:11-64 | The same result under the source's own sizing premise: every weight at most `max_weight`. |
| DialsCorrect.DialResultUnique | dials.py:64 | When every node is reachable, the returned list is the shortest-distance listing itself: any listing of shortest distances equals it. |
| DialsDemo.DemoRun | dials.py:67-83 | The demonstration run (six nodes, source 0, `max_weight` 5) returns `[0, 2, 3, 6, 4, 5]`. |
| DialsDemo.DemoFits | dials.py:70-81 | The demonstration graph has edges of weight 7 above its `max_weight` of 5, yet its 31 buckets still hold every distance the run reaches. |
| DialsDemo.OverweightFails | dials.py:53 | With `max_weight` 1, the edge of weight 3 in a two-node graph indexes past the three buckets, and the run fails on bucket 3. |
| DialsLogic.Step | dials_logic.py:40-99 | One action keeps the state's shape: buckets and labels over the same keys, scan index within range. The snapshots it records are not final, keep the bucket count, and report labels over the same keys. |
| DialsLogic.StepProgress | dials_logic.py:40-99 | Every action strictly lowers the termination measure of the scan loop, stale entries included. |
| DialsLogicTrace.InitialShape | dials_logic.py:16-38 | The initial snapshot reports the start at 0 and every other node at `Inf`. It reports `len(nodes) * max_weight + 1` buckets with only the start, in bucket 0. Its current node is the start and it has no neighbor and is not final. |
| DialsLogicTrace.PopEffect | dials_logic.py:49-65 | Taking from a non-empty bucket always succeeds and removes exactly its front entry (FIFO). Labels, scan index and the other buckets are unchanged. At most one snapshot is recorded, and none exactly when the entry is stale, that is, its label is below the bucket index. Otherwise the snapshot is a processing snapshot naming the node, with no neighbor, and the node's adjacency list is examined next from its start. |
| DialsLogicTrace.ExamineEffect | dials_logic.py:67-99 | Examining an adjacency entry `(v, w)` of `u` fails exactly when it improves `v` to a value past the last bucket. Otherwise it records the examination first and moves to the next entry. On improvement, only `v`'s label changes, to exactly `u`'s label plus `w`. `v` is appended at the end of that bucket, every other bucket is unchanged, and one relaxation snapshot follows. Without improvement, labels and buckets are unchanged and only the examination is recorded. |
| DialsLogicTrace.StepDistances | dials_logic.py:40-99 | A step never raises a label and never moves the scan index back, and the snapshots it records descend from the labels before it. |
| DialsLogicTrace.StepEvents | dials_logic.py:57-99 | Within one step, a relaxation follows the examination of the same edge. An examination is followed by a relaxation exactly when the edge improves its target. Processing happens only at the current bucket index and never for a stale entry. |
| DialsLogicTrace.TraceShape | dials_logic.py:16-110 | For every completed trace: it opens with the initial snapshot, and every snapshot has the same bucket count and label keys. Exactly the last snapshot is final, with no current node or neighbor and every key of the table as its path. Labels never increase along the trace. Relaxations come exactly after the examinations that improve. Processed nodes come in non-decreasing bucket order. After each processing snapshot, the node's adjacency entries are examined in order. |
| DialsLogicCorrect.WellFormedFits | dials_logic.py:21-24 | On a graph built by the graph operations, every shortest distance plus the weight of an edge leaving that node is below `len(nodes) * max_weight + 1`. This is the sizing argument of the source's comment. |
| DialsLogicCorrect.InitInv | dials_logic.py:16-27 | The initial state satisfies the label-setting invariant with no node processed. |
| DialsLogicCorrect.TraceCorrect | dials_logic.py:16-110 | On every graph built by the graph operations, the trace never indexes past the bucket array. Every processed node is taken from the bucket of its shortest-path distance. The final snapshot holds every node's shortest-path distance, `Inf` exactly for the unreachable ones. |
| DialsLogicCorrect.TraceResult | dials_logic.py:101-110 | The final snapshot's table is the one table that is correct for every node, so it is fully determined by the shortest-path distances. |
| DialsLogicDemo.ExampleBuilt | graph_utils.py:24-36 | Five `add_edge` calls build the four-node example graph, which is well formed. |
| DialsLogicDemo.ExampleFinal | dials_logic.py:101-110 | On that example, started at `A`, the final snapshot holds `A = 0`, `B = 2`, `C = 3` (through `B`) and `D = 6` (through `B` and `C`). |
| Paths.ShortestBound | dials_logic.py:21-23 | A shortest distance on a graph whose weights are at most `m` is at most `(n - 1) * m` for `n` nodes, because a shortest walk can be cut down to one that visits no node twice. |
| Paths.FeasibleIsCorrect | dials_logic.py:79-89 | A table that gives the start 0, cannot be lowered across any edge, and has every finite label realised by a walk holds the shortest-path distance of every node. This is the fact both engines' final tables are shown to meet. |

## Left out

- `app.py` and `visualizer.py` (the web front end and drawing) are not part of this model. Their only bearing on the core is that the front end offers weights of at least 0 (`app.py:55`) and refuses an edge from a node to itself (`app.py:58`). The graph model does not need the second guard, and self-loops are allowed.
- Negative weights: weights are `nat`, so the front end's guard is built into the types rather than modelled as an error.
- Printing in `dials.py` (`print_buckets_state`, the step messages, the final listing) and the `step` counter are left out: they are output only.
- The `__main__` block of `dials.py` appears only as the instance proved in `DialsDemo`.
- The snapshots' `description` text is replaced by the structured `Event` it describes.
- The generator's laziness is left out: the model returns the whole snapshot sequence at once.
- The unused `heapq` import (`dials_logic.py:2`) has nothing to model.
- Python's mixing of `int` and `float("inf")` in the distance table is modelled as `Dist`. `Add(Inf, w)` is `Inf`, and comparisons follow Python's on these values.
- The first `while` test of `dials_logic.py:41` and the inner scan of lines 43-47 are one scanning phase that moves one bucket per step. The loop over one bucket (line 50) is the return to the same index after each node. Together these visit the same buckets in the same order.
- DialsCorrect.DialCorrect: the correctness result assumes `max_weight * V < INF` and that every shortest distance plus an out-edge weight fits in the bucket array. Without the first, a real distance could equal the sentinel. Without the second the source raises `IndexError`, shown by `DialsDemo.OverweightFails`.
- DialsCorrect.DialCorrectBounded: it assumes `max_weight * V < INF` for the same sentinel reason.
- Dials.ValidInput: the reference engine's callers must pass `src < V`, at least `V` adjacency lists and edge targets below `V`. `dials.py:14-45` indexes `dist` and `graph` with these values and would raise `IndexError` otherwise. The model excludes those inputs by this precondition and does not model that error.
- Graphs.AddEdge: the weight is a `nat`, so the no-op branch for a missing weight (`weight is not None` at `graph_utils.py:26`) is not modelled. An edge with empty endpoint names is still the modelled no-op.
- DialsCorrect.DialResultUnique: it is stated for graphs where every node is reachable. With unreachable nodes, `DialCorrect` already fixes each entry as the shortest distance or `INF`.
