# libtcod-path in Dafny

A model of the core of libtcod-path, a header-only C library. It computes
multi-source shortest-distance fields over N-dimensional integer grids. The
grid storage is pluggable and the adjacency and cost model is configurable.

The model has one Dafny module per header, plus two supporting modules:

- `Common` (common.dfy): C's 32-bit `int`, `Option`, the symbolic result codes, and the
  dimension limit.
- `Maps` (map_tools.dfy): the map view over `map_tools.h`.
  - A `GridMap` is a NULL map, an undefined map, a callback map, a contiguous buffer map or a
    strided buffer map.
  - Buffers are sequences or arrays of cells, addressed by byte offset.
  - Each cell holds a raw value, which a read converts through the element width (`uint8_t` …
    `int64_t`) with the wrap-around of C's integer conversions written out.
  - Covers dimensions, shape, bounds, address (`map_at`), `get`, `is_max` and `set`.
- `Heapq` (heapq.dfy): the array-backed binary min-heap of `heapq_tools.h`, as the class
  `MinHeap`.
  - Its fields are those of the C struct; its nodes are `Node(priority, payload)` in an
    `array`.
  - Methods: init, uninit, clear, swap, set, copy, compare (`Less`), sift up, sift down,
    heapify, pop and push with reallocation.
- `Indexes` (indexes.dfy): the `begin`/`step` odometer of `indexes.h`. It updates a
  caller-owned index array in place.
- `Graphs` (graph_tools.dfy): the edge enumeration of `graph_tools.h`.
  - The basic 2D graph hands out, in order, the up to eight neighbours in the last two
    coordinates.
  - Each edge costs a cardinal or diagonal multiplier times the terrain there.
- `Relaxation` (relaxation.dfy): uniform-cost search on values.
  - Distances are a function from index to distance. The frontier is a multiset of nodes.
  - It states what relaxing one edge and one whole search step do, and proves the invariant the
    search keeps.
- `Search` (uniform_cost_search.dfy): the search state of `uniform_cost_search.h`, as the class
  `UniformCostSearch`.
  - Members: `SetEdge` (`ucs_set_edge`), `Expand` and `Step` (`ucs_step`), `Dijkstra`
    (`dijkstra`) and its two loops (`Seed`, `Drain`).
  - Each is proved against the value-level search in `Relaxation`.
  - The result is proved: when the frontier empties, no distance has gone up. Every cell has all
    of its edges relaxed, unless it held the sentinel and was never reached. Only passable cells
    changed. Every reached distance is at or above every lower bound on path lengths from the
    sources.
  - Termination of the main loop is proved with a potential: the sum of the heights of all cells
    plus the frontier's size.
- `SearchExample` (search_example.dfy): a worked search on a 2×2 grid with terrain 1, cardinal
  moves at 2 and diagonal ones at 3, seeded at `[0, 0]`. The outcome of any finished search
  pins every distance down exactly: 0, 2, 2 and 3.

`ucs_heuristic_at` is `Search.HeuristicAt`, the identity on the distance. The comparison
`minheap_compare_` is `Heapq.MinHeap.Less`.

**Contiguous maps vary axis 0 fastest.** `map_at` (map_tools.h:50-58) starts the running stride
at `|int_size|` and multiplies it by each extent after using it. This is the opposite of the
row-major order in which the index iterator walks (indexes.h:3). The model follows the code
(`Maps.Linear`, `Maps.ContiguousOffset`).

## Model

| member | source | states |
|---|---|---|
| Maps.Truncate | include/libtcod-path/map_tools.h:149-176 | the conversion of any value to an element width lands in that width's range |
| Maps.TruncateCongruence | include/libtcod-path/map_tools.h:149-176 | the conversion differs from the converted value by a multiple of 2^(bits of the width) |
| Maps.TruncateCongruent | include/libtcod-path/map_tools.h:149-176 | two values congruent modulo 2^(bits) convert to the same element |
| Maps.TruncateFits | include/libtcod-path/map_tools.h:149-176 | a value already in the width's range is stored unchanged |
| Maps.TruncateWideThenInt | include/libtcod-path/map_tools.h:83-94 | reading a 32- or 64-bit element as `int` is the conversion of the raw value to `int` |
| Maps.DecodeStored | include/libtcod-path/map_tools.h:78-97 | a value written at a width reads back as itself when it fits the width, and always at 32 bits or more |
| Maps.DecodeRange | include/libtcod-path/map_tools.h:78-97 | reads of an 8- or 16-bit or `int32_t` element stay in the width's range; no read is below the width's lowest readable value |
| Maps.DecodeStoredBelow | include/libtcod-path/map_tools.h:78-97 | any value between the lowest readable value and a value read is stored and read back exactly |
| Maps.Dimensions | include/libtcod-path/map_tools.h:8-20 | a NULL or undefined map has 0 dimensions |
| Maps.Shape | include/libtcod-path/map_tools.h:22-34 | a buffer map's bounds are its shape |
| Maps.Address | include/libtcod-path/map_tools.h:46-67 | an element address exists exactly for an in-bounds index of a buffer map (NULL otherwise, per `map_in_bounds` 36-44) |
| Maps.InBounds | include/libtcod-path/map_tools.h:36-44 | a NULL map is never in bounds and a map without bounds always is; with bounds, an index with a coordinate below 0 or at or past its extent is out of bounds, and one with every coordinate inside is in bounds |
| Maps.At | include/libtcod-path/map_tools.h:46-67 | walking the axes computes exactly that address |
| Maps.ContiguousOffset | include/libtcod-path/map_tools.h:50-58 | the loop with the growing running stride computes `|int_size|` times the first-axis-fastest position |
| Maps.StridedOffset | include/libtcod-path/map_tools.h:59-63 | the loop computes the sum of `ij[i] * strides[i]` |
| Maps.Get | include/libtcod-path/map_tools.h:69-102 | reads are 0 for a NULL or undefined map, out of bounds, and for an unknown width; narrow reads stay in range |
| Maps.IsMax | include/libtcod-path/map_tools.h:104-138 | false for a NULL or undefined map; a callback map is at its maximum exactly when its `get` returns `INT_MAX`; a buffer element counts only when it is in bounds and of a known width |
| Maps.Set | include/libtcod-path/map_tools.h:140-181 | the buffer afterwards has only the addressed element replaced by the value converted to the width; nothing else changes, and out of bounds or at an unknown width nothing does |
| Maps.LinearBounds | include/libtcod-path/map_tools.h:50-58 | an in-range index has a contiguous position in `[0, product of extents)` |
| Maps.LinearInjective | include/libtcod-path/map_tools.h:50-58 | two in-range indices at the same contiguous position are equal |
| Maps.ContiguousOffsets | include/libtcod-path/map_tools.h:50-58 | contiguous offsets of in-bounds indices are distinct multiples of the element size inside the buffer |
| Maps.ContiguousValid | include/libtcod-path/map_tools.h:50-58 | a contiguous map addresses only inside any buffer holding all its cells |
| Maps.ContiguousInjective | include/libtcod-path/map_tools.h:50-58 | no two in-bounds indices of a contiguous map share an element |
| Maps.SetThenGet | include/libtcod-path/map_tools.h:140-181 | `get` after `set` at an in-bounds index returns the value written whenever it fits the width |
| Maps.SetKeepsOthers | include/libtcod-path/map_tools.h:140-181 | `set` leaves `get` and `is_max` of every index at a different address as they were |
| Maps.ContiguousSetKeepsOthers | include/libtcod-path/map_tools.h:140-181 | in a contiguous map `set` leaves every other index's value |
| Maps.DecodeMax | include/libtcod-path/map_tools.h:114-133 | at a narrow width the element is the width's maximum exactly when it reads as that maximum; the 32- and 64-bit unsigned maxima read as -1 |
| Maps.IsMaxReads | include/libtcod-path/map_tools.h:104-138 | `is_max` at a narrow width holds exactly for an in-bounds index reading the width's maximum; at 32 or 64 unsigned bits the sentinel reads as -1 |
| Graphs.EdgesBefore | include/libtcod-path/graph_tools.h:16-27 | the first `k` neighbour positions emit at most `k` edges (the centre none), all with `n`-coordinate leaves |
| Graphs.Edges | include/libtcod-path/graph_tools.h:6-34 | at most eight edges per root, none for a static or undefined graph |
| Graphs.CollectEdges | include/libtcod-path/graph_tools.h:6-34 | the nested `y`/`x` loops emit exactly the graph's edge sequence, in order |
| Graphs.CollectRow | include/libtcod-path/graph_tools.h:17-26 | the inner loop appends exactly the edges of the three positions of row `y` |
| Graphs.Neighbour | include/libtcod-path/graph_tools.h:18-25 | one position: skip the centre, skip a non-positive multiplier, skip a non-positive cost, else emit the edge |
| Graphs.EdgesSound | include/libtcod-path/graph_tools.h:16-27 | every emitted edge is a grid move from the root at a positive multiplier times the terrain |
| Graphs.EdgeAt | include/libtcod-path/graph_tools.h:18-25 | the centre position never yields an edge, nor does a move whose multiplier is not positive; an emitted edge runs from the root to the root moved by the position's offsets, at a positive cost equal to the multiplier times the terrain at the leaf |
| Graphs.SoundBefore | include/libtcod-path/graph_tools.h:16-27 | the same for the edges of the first `k` positions |
| Graphs.EdgesComplete | include/libtcod-path/graph_tools.h:16-27 | every neighbour whose multiplier and cost are positive is emitted |
| Graphs.Emitted | include/libtcod-path/graph_tools.h:25 | the edge a position yields is among the emitted edges |
| Graphs.EmittedStays | include/libtcod-path/graph_tools.h:16-27 | later positions only append to the emitted edges |
| Graphs.EdgesDistinct | include/libtcod-path/graph_tools.h:16-27 | no leaf is emitted twice |
| Graphs.DistinctBefore | include/libtcod-path/graph_tools.h:16-27 | the edges of the first `k` positions come from those positions and have distinct leaves |
| Graphs.LeavesApart | include/libtcod-path/graph_tools.h:19-20 | different positions move the root to different leaves |
| Graphs.EdgesInBounds | include/libtcod-path/graph_tools.h:23-24 | with a buffer terrain every emitted leaf is in the terrain's bounds and has positive terrain |
| Graphs.EdgesMove | include/libtcod-path/graph_tools.h:18-25 | every edge starts at the root, ends elsewhere and has a positive cost |
| Graphs.ClassSuppressed | include/libtcod-path/graph_tools.h:21-22 | a non-positive diagonal multiplier removes every diagonal move, a non-positive cardinal one every cardinal move |
| Heapq.RootIsMinimal | include/libtcod-path/heapq_tools.h:133-139 | in a heap-ordered array the root's priority is the least |
| Heapq.RootIsMinimalInContents | include/libtcod-path/heapq_tools.h:133-139 | the root's priority is at most that of every node held |
| Heapq.MinHeap.Less | include/libtcod-path/heapq_tools.h:90-95 | true exactly when the left node's priority is strictly below the right one's; never true of a node and itself; in a heap-ordered array no node is less than the root |
| Heapq.SwapDownKeepsOrder | include/libtcod-path/heapq_tools.h:98-108 | swapping a node with its least smaller child moves the order defect down to the child |
| Heapq.StopDownKeepsOrder | include/libtcod-path/heapq_tools.h:98-108 | when no child is smaller, the defect is gone |
| Heapq.SwapUpKeepsOrder | include/libtcod-path/heapq_tools.h:111-118 | swapping a node with a larger parent moves the defect up to the parent |
| Heapq.LastToRootKeepsOrder | include/libtcod-path/heapq_tools.h:136-138 | moving the last node to the root leaves a defect only at the root |
| Heapq.LastToRootContents | include/libtcod-path/heapq_tools.h:136-137 | moving the last node to the root loses exactly the old root |
| Heapq.LastToRoot | include/libtcod-path/heapq_tools.h:136-138 | copying the last node over the root and shrinking by one: defect only at the root, contents minus the old root |
| Heapq.AppendKeepsOrder | include/libtcod-path/heapq_tools.h:159-161 | appending a node to a heap leaves a defect only at the new node |
| Heapq.MinHeap.constructor | include/libtcod-path/uniform_cost_search.h:50 | a zeroed heap structure: empty, no storage, every field 0 |
| Heapq.MinHeap.Uninit | include/libtcod-path/heapq_tools.h:19-27 | the storage is released and size, capacity, node size, data size and data offset are 0 |
| Heapq.MinHeap.Init | include/libtcod-path/heapq_tools.h:35-47 | fails with -1 exactly when a node would exceed 256 bytes and then changes nothing; otherwise an empty heap with the node layout and priority type -4 |
| Heapq.MinHeap.Clear | include/libtcod-path/heapq_tools.h:54 | the heap is empty and keeps its storage and layout |
| Heapq.MinHeap.Swap | include/libtcod-path/heapq_tools.h:67-72 | exactly the two nodes trade places; the contents are unchanged |
| Heapq.MinHeap.SetNode | include/libtcod-path/heapq_tools.h:75-82 | exactly the node at `index` becomes the given priority and payload |
| Heapq.MinHeap.CopyNode | include/libtcod-path/heapq_tools.h:85-87 | exactly the node at `dest` becomes the node at `src` |
| Heapq.MinHeap.SiftUp | include/libtcod-path/heapq_tools.h:111-118 | from a defect at `index` the heap is restored, same contents |
| Heapq.MinHeap.SiftDown | include/libtcod-path/heapq_tools.h:98-108 | from a defect at `index` the order from `lo` on is restored, same contents |
| Heapq.MinHeap.Heapify | include/libtcod-path/heapq_tools.h:124-126 | arbitrary contents become a heap, same contents |
| Heapq.MinHeap.Pop | include/libtcod-path/heapq_tools.h:133-139 | an empty heap stays empty and yields nothing; otherwise the payload of a node of least priority is returned, that node is removed, and the heap stays a heap |
| Heapq.MinHeap.MoveLastToRoot | include/libtcod-path/heapq_tools.h:136-137 | the last node overwrites the root and the size shrinks by one, losing exactly the old root |
| Heapq.MinHeap.Push | include/libtcod-path/heapq_tools.h:148-163 | a full heap grows to 256 or double the capacity; a failed reallocation returns the out-of-memory code and changes nothing; otherwise the node is added and the heap stays a heap |
| Heapq.MinHeap.Grow | include/libtcod-path/heapq_tools.h:149-158 | the reallocation keeps the nodes, the order and the layout in a larger array |
| Heapq.MinHeap.Append | include/libtcod-path/heapq_tools.h:159-160 | the node is written after the last one, leaving a defect only there |
| Indexes.BeginState | include/libtcod-path/indexes.h:17-22 | after `begin` every coordinate is 0 except the last, which is -1 |
| Indexes.Advance | include/libtcod-path/indexes.h:29-38 | a step over the first `k` coordinates touches no later coordinate |
| Indexes.IterBegin | include/libtcod-path/indexes.h:17-22 | a missing array or a rejected length changes nothing; otherwise the first `n` coordinates become the begin state and the rest stay |
| Indexes.IterStep | include/libtcod-path/indexes.h:29-38 | a missing shape or array or an invalid length yields false and changes nothing; otherwise the array and the result are one odometer step |
| Indexes.RankBounds | include/libtcod-path/indexes.h:29-38 | an in-range index has a row-major rank in `[0, product of extents)` |
| Indexes.RankInjective | include/libtcod-path/indexes.h:29-38 | in-range indices of equal rank are equal |
| Indexes.AdvanceStep | include/libtcod-path/indexes.h:29-38 | a valid step yields an in-range index of rank one more; the final step comes exactly after the last rank and zeroes the index |
| Indexes.BeginRank | include/libtcod-path/indexes.h:17-22 | the begin state has rank -1, one before the first index |
| Indexes.WalkRank | include/libtcod-path/indexes.h:29-38 | the `t`-th step from `begin`, for `t` up to the product of the extents, is valid and yields the in-range index of rank `t - 1` |
| Indexes.WalkEnds | include/libtcod-path/indexes.h:36-37 | the step after the last index returns false and leaves the index all zeros |
| Indexes.WalkValidBound | include/libtcod-path/indexes.h:29-38 | no step beyond the product of the extents is valid |
| Indexes.WalkVisitsOnce | include/libtcod-path/indexes.h:29-38 | every in-range index is produced by exactly one valid step, the one numbered its rank plus one |
| Indexes.BeginGuardZero | include/libtcod-path/indexes.h:19-21 | the guard as written accepts length 0, whose final store is to coordinate -1; the corrected guard rejects it, and every length it accepts has a last coordinate |
| Indexes.ZeroExtentYields | include/libtcod-path/indexes.h:29-38 | with an extent of 0 the walk still yields an out-of-range index before it ends |
| Relaxation.RelaxLowers | include/libtcod-path/uniform_cost_search.h:23-24 | relaxing an edge raises no distance |
| Relaxation.RelaxChanges | include/libtcod-path/uniform_cost_search.h:20-24 | relaxing an edge changes at most the leaf, to the root's distance plus the cost |
| Relaxation.RelaxPushes | include/libtcod-path/uniform_cost_search.h:24-26 | a pushed node holds the leaf, whose distance went strictly down to the node's priority |
| Relaxation.PrefixLowers | include/libtcod-path/uniform_cost_search.h:44 | relaxing a root's edges in order raises no distance |
| Relaxation.PrefixKeeps | include/libtcod-path/uniform_cost_search.h:44 | an index that is no leaf of the edges keeps its distance |
| Relaxation.PrefixRelaxes | include/libtcod-path/uniform_cost_search.h:44 | after the edges, none of them can lower its leaf any more |
| Relaxation.PrefixQueues | include/libtcod-path/uniform_cost_search.h:44 | every index whose distance changed was pushed |
| Relaxation.PrefixPushed | include/libtcod-path/uniform_cost_search.h:44 | every pushed node holds one of the edges' leaves |
| Relaxation.PrefixPushedLower | include/libtcod-path/uniform_cost_search.h:44 | every pushed index's distance went strictly down |
| Relaxation.PrefixAbove | include/libtcod-path/uniform_cost_search.h:44 | with the root above a consistent lower bound, every changed distance is above it too |
| Relaxation.StepPushed | include/libtcod-path/uniform_cost_search.h:38-46 | a node a step pushed holds a passable cell whose distance went down |
| Relaxation.StepFrontier | include/libtcod-path/uniform_cost_search.h:38-46 | a step keeps the frontier to reached cells |
| Relaxation.StepSettled | include/libtcod-path/uniform_cost_search.h:38-46 | a step keeps every cell queued, unreached, or with all edges relaxed |
| Relaxation.StepAbove | include/libtcod-path/uniform_cost_search.h:38-46 | a step keeps every reached distance above every consistent lower bound |
| Relaxation.StepPassable | include/libtcod-path/uniform_cost_search.h:38-46 | a step changes only passable cells |
| Relaxation.StepKeeps | include/libtcod-path/uniform_cost_search.h:38-46 | one search step keeps the whole invariant |
| Relaxation.StartInv | include/libtcod-path/uniform_cost_search.h:59-64 | a frontier holding exactly the non-sentinel cells starts inside the invariant |
| Relaxation.Finished | include/libtcod-path/uniform_cost_search.h:65-68 | with an empty frontier every cell is unreached or has all of its edges relaxed |
| Search.StoreLower | include/libtcod-path/uniform_cost_search.h:24 | writing a lower readable distance: the cell reads it back, no other cell changes, nothing rises, the potential drops |
| Search.RelaxCases | include/libtcod-path/uniform_cost_search.h:20-26 | relaxing an edge either does nothing, when the leaf is at most the root plus the cost, or stores that sum at the leaf and pushes it |
| Search.RelaxOne | include/libtcod-path/uniform_cost_search.h:20-24 | the leaf ends up with the lesser of its distance and the root's plus the cost; no other cell changes |
| Search.RelaxOnePotential | include/libtcod-path/uniform_cost_search.h:23-26 | relaxing an edge lowers the potential by at least the number of nodes it pushes |
| Search.EdgeFromRoot | include/libtcod-path/graph_tools.h:16-27 | each edge of a cell goes to another passable cell of the distance map at a positive cost |
| Search.EdgesFromRoot | include/libtcod-path/graph_tools.h:16-27 | the same for the whole edge sequence of a cell |
| Search.NetSound | include/libtcod-path/graph_tools.h:16-27 | the grid graph is a sound graph of the distance map's cells |
| Search.ReadsStep | include/libtcod-path/uniform_cost_search.h:15-30 | relaxing an edge in the buffer follows relaxing it on the values the buffer reads as: the same distances and the same pushed nodes |
| Search.ReadsRun | include/libtcod-path/uniform_cost_search.h:44 | the same for a cell's whole edge sequence |
| Search.PotentialRun | include/libtcod-path/uniform_cost_search.h:65-68 | relaxing a cell's edges lowers the potential by at least the number of nodes pushed |
| Search.WalkCell | include/libtcod-path/uniform_cost_search.h:59-60 | each index the seeding walk yields is a cell, and the next step yields an index exactly while the walk has not passed the last cell |
| Search.WalkAt | include/libtcod-path/uniform_cost_search.h:59-60 | the `t`-th step of the seeding walk is a cell, and it is the cell `r` exactly when `r` has rank `t - 1` |
| Search.SeedsCount | include/libtcod-path/uniform_cost_search.h:59-64 | the first `t` steps push every cell of rank below `t` that does not hold the sentinel exactly once, at its distance, and nothing else |
| Search.SeedsStart | include/libtcod-path/uniform_cost_search.h:59-64 | the seeded frontier starts the search inside its invariant |
| Search.SearchingStep | include/libtcod-path/uniform_cost_search.h:38-46 | expanding any frontier node keeps the search invariant |
| Search.SearchingDone | include/libtcod-path/uniform_cost_search.h:65-68 | a search whose frontier is empty has reached the outcome described above |
| Search.HeuristicAt | include/libtcod-path/uniform_cost_search.h:10-13 | the priority a node is pushed with is its distance: the heuristic term is zero, which makes the search uniform-cost |
| Search.RelaxEdge | include/libtcod-path/uniform_cost_search.h:20-26 | the buffer keeps its length; a node is pushed exactly when the root's distance plus the cost is strictly below the leaf's distance, and it is then the leaf at that sum; when nothing is pushed the buffer is unchanged |
| Search.UniformCostSearch.constructor | include/libtcod-path/uniform_cost_search.h:50-55 | a search over the given graph and distance map with a zeroed frontier |
| Search.UniformCostSearch.Seed | include/libtcod-path/uniform_cost_search.h:59-64 | the first loop leaves the frontier holding exactly the seeds of every index of the shape |
| Search.UniformCostSearch.SeedFirst | include/libtcod-path/uniform_cost_search.h:59 | the loop header starts the walk at its first step |
| Search.UniformCostSearch.SeedNext | include/libtcod-path/uniform_cost_search.h:59-63 | one turn pushes the seed of the current index and steps the walk, leaving the buffer alone |
| Search.UniformCostSearch.SeedAt | include/libtcod-path/uniform_cost_search.h:61-63 | an index is pushed at its distance exactly when it does not hold the sentinel |
| Search.UniformCostSearch.SetEdge | include/libtcod-path/uniform_cost_search.h:15-30 | the buffer and the frontier become exactly what relaxing the edge gives |
| Search.UniformCostSearch.Expand | include/libtcod-path/uniform_cost_search.h:43-45 | pops a node of least priority and relaxes its cell's edges, which is one value-level step; the potential plus the frontier size drops |
| Search.UniformCostSearch.RelaxEdges | include/libtcod-path/uniform_cost_search.h:44 | relaxing the edges one callback at a time gives the buffer and the pushes of relaxing them all in order |
| Search.UniformCostSearch.Lower | include/libtcod-path/uniform_cost_search.h:24-26 | writes the new distance at the leaf and pushes the leaf with the heuristic's priority |
| Search.UniformCostSearch.Enqueue | include/libtcod-path/uniform_cost_search.h:25-26 | the frontier gains exactly the node |
| Search.RunExpands | include/libtcod-path/uniform_cost_search.h:43-44 | relaxing, in the buffer, the edges of a popped cell is the value-level step, and lowers the potential plus the frontier size |
| Search.Step | include/libtcod-path/uniform_cost_search.h:38-46 | a missing search is an invalid argument; an empty frontier returns 1 and changes nothing; otherwise returns 0 after expanding a node of least priority |
| Search.Dijkstra | include/libtcod-path/uniform_cost_search.h:48-70 | the search ends, and leaves the buffer in the outcome: nothing rose, every cell relaxed or an unreached sentinel, only passable cells changed, reached distances above every lower bound |
| Search.Drain | include/libtcod-path/uniform_cost_search.h:65-68 | stepping until the step does not succeed ends in the outcome |
| Search.Turn | include/libtcod-path/uniform_cost_search.h:66-67 | one step keeps the search invariant; a successful one lowers the potential plus the frontier size; an unsuccessful one means the frontier is empty and nothing changed |
| SearchExample.OutcomeEdge | include/libtcod-path/uniform_cost_search.h:20-26 | after a finished search, no edge out of a source cell can lower its leaf any further |
| SearchExample.EdgeMove | include/libtcod-path/graph_tools.h:16-27 | on a 2D graph over two coordinates every edge moves each coordinate by at most one, stays in the terrain's bounds and costs the multiplier times the terrain at the leaf |
| SearchExample.MoveEdge | include/libtcod-path/graph_tools.h:16-27 | with multipliers 2 and 3 and terrain 1 at the neighbour, the move to it is emitted at 3 when diagonal and 2 otherwise |
| SearchExample.UnitEdge | include/libtcod-path/graph_tools.h:21-24 | with multipliers 2 and 3, an edge to a leaf of terrain 1 costs 3 when diagonal and 2 otherwise |
| SearchExample.SquareEdge | include/libtcod-path/graph_tools.h:16-27 | on a unit-terrain grid every edge joins a cell to a neighbouring cell at 2, or 3 when diagonal |
| SearchExample.SquareMove | include/libtcod-path/graph_tools.h:16-27 | on a unit-terrain grid every move between two neighbouring cells is an edge at 2, or 3 when diagonal |
| SearchExample.ShortestBound | include/libtcod-path/uniform_cost_search.h:57-64 | on the 2×2 unit square seeded at `[0, 0]`, the path lengths 0, 2, 2, 3 are a lower bound for the search |
| SearchExample.SquareUpper | include/libtcod-path/uniform_cost_search.h:48-70 | a finished search on the square leaves at most 0, 2, 2 and 3 at `[0, 0]`, `[1, 0]`, `[0, 1]` and `[1, 1]` |
| SearchExample.SquareOutcome | include/libtcod-path/uniform_cost_search.h:48-70 | a finished search on the square leaves exactly 0, 2, 2 and 3: the cheapest path lengths, with the diagonal beating two cardinal moves |
| SearchExample.StartCell | include/libtcod-path/map_tools.h:104-138 | in the example's `int32_t` buffer only `[0, 0]` reads below `INT_MAX`, and exactly the other cells are at the maximum |
| SearchExample.ExampleSquare | include/libtcod-path/uniform_cost_search.h:57-64 | the concrete 2×2 grid, terrain and starting buffer form a unit-terrain square whose only source is `[0, 0]` |
| SearchExample.ExampleOutcome | include/libtcod-path/uniform_cost_search.h:48-70 | on the concrete grid, every finished search leaves 0 at `[0, 0]`, 2 at `[1, 0]` and `[0, 1]`, and 3 at `[1, 1]` |

## Left out

- Callback maps:
  - The `get` of a callback map is a function parameter of the map value.
  - Its `set` and its `userdata` are not modelled.
  - A `set` on a callback map leaves the buffer alone.
  - The search requires a buffer distance map (see `Search.Dijkstra` below).
- A NULL index pointer (`!ij`) in the map functions is not modelled. Indices are sequences.
  Only the NULL map is modelled (`Absent`).
- Byte-level memory:
  - Each element lives in one cell of the buffer, at its byte offset.
  - Misaligned strided elements that partly overlap are not modelled.
  - A node payload is a sequence of `int`s, not bytes. `memcpy` is assignment.
- Maps.Valid: every in-bounds element must lie inside the buffer, at or after its start.
  - A strided map with negative strides (a reversed view, whose data pointer is not its lowest
    address) is therefore not modelled, though `map_at` (map_tools.h:59-63) allows it.
  - Maps.Get, Maps.IsMax, Maps.Set and Search.Dijkstra inherit this.
- The `flow` map of `dijkstra` and `ucs_set_edge` (uniform_cost_search.h:27-29) has no effect
  in the source. It is not modelled.
- The static graph and undefined graph types emit no edges. This is modelled as an empty edge
  sequence.
- The error enumeration header is not part of this model. The result codes are symbolic (`Ok`,
  `Done`, `Error`, `InvalidArgument`, `OutOfMemory`). `Error` is the -1 of
  `TCODPATH_set_errorvf`.
- `MaxDimensions`: its value comes from a configuration header that is not part of this model.
  It is only assumed to lie between 2 and 63.
- Heapq.MinHeap.Push: whether `realloc` succeeds is a parameter. The search always passes
  success (`Search.UniformCostSearch.Enqueue`), so an allocation failure during a search is not
  modelled.
- Heapq.MinHeap.Push: doubling the capacity is exact. The overflow of `capacity * 2` past `int`
  is not modelled.
- Search.Dijkstra: the return value of `heap_init` is ignored, as in the source. `Init` cannot
  fail for the dimensions allowed.
- Search.Dijkstra: requires the distance map to be a contiguous or strided buffer map with
  `dimensions` axes, valid for its buffer, whose in-bounds indices never share an element.
  - For the 2D graph it also requires the terrain map to be a buffer map over the same first
    axes.
  - Callback and overlapping strided distance maps are not modelled.
- Search.Dijkstra: requires every extent of the distance map to be positive.
  - With an extent of 0 the source's walk still yields an out-of-range index
    (`Indexes.ZeroExtentYields`).
  - `dijkstra` would then push it with distance 0.
  - That case is not modelled.
- Search.Step: the index buffer is `int[TCODPATH_MAX_DIMENSIONS]` in the source. The model uses
  the popped payload of exactly `dimensions` coordinates.
- Search.Step: requires the frontier to hold cells (`HoldsCells`). `Dijkstra` establishes and
  keeps this.
- Search.Step: takes the value-level view `d` of the buffer as a ghost parameter, so that its
  contract can name the value-level step.
- Search.UniformCostSearch.Expand: collects the edges of the popped cell first and then relaxes
  them in order.
  - The source relaxes each edge inside the enumeration's callback.
  - The two agree because relaxing writes only the distance buffer, and the enumeration reads
    only the terrain buffer. A terrain buffer that aliases the distance buffer is not modelled.
- Search.UniformCostSearch.SetEdge: requires the leaf to be a cell of the distance map and the
  cost to be positive, which holds for every edge the 2D graph hands out under `Fits`.
- Search.UniformCostSearch.SetEdge: the sum of the root's distance and the cost is exact.
  - In C, `distance_at_root + edge_cost` can overflow `int`, which is undefined behaviour.
  - In the model an overflowing sum is above every `int`, so the edge is not taken.
- Graphs.Edges: the cost is the exact product of the multiplier and the terrain value. The
  overflow of `base_cost * map_get(...)` past `int` (undefined behaviour in C) is not modelled.
- The terrain buffer is a `seq<int>`: nothing in the core writes it.
- Termination of `heapify_down_` and `heapify_up_` is by the index moving down or up. The
  recursion depth is not modelled.

## Findings

| source | as written | input that shows it | evidently intended | confidence | as-written member | corrected member |
|---|---|---|---|---|---|---|
| include/libtcod-path/indexes.h:19-21 | the guard rejects only `n < 0` and `n > MAX_DIMENSIONS`, then stores `index_out[n - 1] = -1` | `n == 0` passes the guard, and the store writes `index_out[-1]`, before the array | a length with no coordinates is rejected like the other invalid lengths | not executed | Indexes.BeginGuardZero | Indexes.IterBegin |
