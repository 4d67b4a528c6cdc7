# Branch-and-bound TSP, graph searches and two sorts, in Dafny

This project models four small programs from an object-oriented programming course and proves properties of the models.

- **Travelling salesman (`TSP/TSP.cpp`).** A branch-and-bound (Little's algorithm) solver over a cost matrix whose cells are costs or INF.
  - Reduction: subtract each row's minimum, then each column's minimum, and add the minima to a lower bound.
  - Branching: pick the zero cell that costs most to leave out, and fix it as an edge in the left branch. Push a right branch with that cell forbidden onto a stack.
  - Stitching: at the last level, stitch the fixed edges into a tour.
  - Result: keep only the tours of minimal cost.
- **Graphs (`Graphs1/graphs_1.py`).**
  - Conversion of a multiplicity adjacency matrix into 1-based adjacency lists.
  - Recursive and iterative depth-first search.
  - Path-based cycle detection and an acyclicity test.
- **Neighbours within a distance (`Graphs2/graphs_2.py`).** A breadth-first search that collects every vertex reachable from a start vertex by a walk of `1 .. max_distance` edges.
- **Sorting (`Sort/sort.py`).**
  - An in-place quicksort with a Hoare-style partition around the middle element.
  - A bubblesort on a copy, which shrinks the range to the last swap and counts comparisons.

## How the model is built

- **Files.**
  - `tsp_costs.dfy` holds costs (`Cost = Inf | Fin(int)`) and running minima.
  - `tsp_cost_matrix.dfy` holds the `CostMatrix` class and the row/column reductions.
  - `tsp_stage_state.dfy` holds the `StageState` class: the edge choice, the matrix update and the path construction.
  - `tsp_solver.dfy` holds the search.
  - `adj_lists.dfy` holds adjacency lists, walks and reachability.
  - `graphs_1.dfy`, `graphs_2.dfy` and `sort.dfy` hold the three Python files.
- **Classes.**
  - The C++ classes whose fields are rewritten in place are Dafny classes: `CostMatrix.cells` and `StageState`'s matrix, edge list and bound.
  - Their methods carry `modifies` clauses.
  - Every method with loops is proved against a specification function that is written the way the loop runs. Examples: `RowMins`, `ReducedRows`, `ChosenVertex`, `Constrained`, `FiniteCells`, `RowList`, `Within`, `Pairs`.
  - Lemmas then state what those functions mean: minima, at least one zero per row, edge choice by maximal exclusion cost, reachability, and so on.
- **Python lists.**
  - A list the Python code mutates and also returns is threaded through as a value.
  - The quicksort keeps its array and works in place.
- **INF.** It is a datatype constructor, so `INF != x` and `x < INF` mean exactly what the C++ code intends. Sums with INF are INF.
- **Termination of the TSP search.** The search has a step budget (`fuel`). The stitching loop of `get_path` returns `None` where the C++ loop would never stop.

## Model

| member | source | states |
|---|---|---|
| TspCosts.MinSkippingIsMinimum | TSP/TSP.cpp:133-151 | The running minimum that skips one index is at most every other entry, is attained when finite, and is INF exactly when every other entry is INF. |
| TspCostMatrix.CostMatrix.GetMinValuesInRows | TSP/TSP.cpp:53-68 | Returns the row minima (`RowMins`): the running minimum per row, with 0 for a row that is all INF. |
| TspCostMatrix.RowMinsAreMinima | TSP/TSP.cpp:53-68 | Each row minimum is at most every finite cell of its row and equals one of them, and it is 0 when the row has no finite cell. |
| TspCostMatrix.CostMatrix.SubtractFromRow | TSP/TSP.cpp:78-82 | Subtracts the given value from the finite cells of one row. Every other cell is unchanged. |
| TspCostMatrix.CostMatrix.ReduceRows | TSP/TSP.cpp:74-86 | The matrix becomes `ReducedRows` of the old one, and the result is the sum of the old row minima. |
| TspCostMatrix.ReducedRowsProperties | TSP/TSP.cpp:70-86 | Row reduction keeps the matrix square and keeps INF cells INF (and only those). It lowers each finite cell by its row minimum and keeps costs non-negative. Every row with a finite cell then has a zero. |
| TspCostMatrix.CostMatrix.GetMinValuesInCols | TSP/TSP.cpp:92-107 | Returns the column minima (`ColMins`), with 0 for a column that is all INF. |
| TspCostMatrix.ColMinsAreMinima | TSP/TSP.cpp:92-107 | Each column minimum is at most every finite cell of its column and equals one of them, and it is 0 when the column has no finite cell. |
| TspCostMatrix.CostMatrix.SubtractFromCol | TSP/TSP.cpp:117-121 | Subtracts the given value from the finite cells of one column. Every other cell is unchanged. |
| TspCostMatrix.CostMatrix.ReduceCols | TSP/TSP.cpp:113-125 | The matrix becomes `ReducedCols` of the old one, and the result is the sum of the old column minima. |
| TspCostMatrix.ReducedColsProperties | TSP/TSP.cpp:109-125 | Column reduction keeps the matrix square and keeps INF cells INF (and only those). It lowers each finite cell by its column minimum and keeps costs non-negative. Every column with a finite cell then has a zero. |
| TspCostMatrix.ZeroSurvivesColumnReduction | TSP/TSP.cpp:201-205 | On a non-negative matrix, a zero made by the row reduction survives the column reduction. |
| TspCostMatrix.ReducedMatrixProperties | TSP/TSP.cpp:201-205 | After both reductions a non-negative matrix is still non-negative, has the same INF cells, and has a zero in every row and every column that had a finite cell. |
| TspCostMatrix.CostMatrix.GetVertexCost | TSP/TSP.cpp:133-151 | Returns `VertexCost`: the minimum of the cell's column without its row, plus the minimum of its row without its column. |
| TspCostMatrix.VertexCostIsExclusionMinimum | TSP/TSP.cpp:127-151 | The vertex cost is the sum of the two minima that exclude the cell itself. Each minimum is at most every other cell of its line and is attained, and it is INF exactly when the rest of the line is INF. |
| TspCostMatrix.VertexCostIgnoresCell | TSP/TSP.cpp:131-151 | The value of the cell itself does not affect its vertex cost. |
| TspStageState.ScanZerosProperties | TSP/TSP.cpp:163-179 | Up to any scan position, the choice is a zero cell of maximal vertex cost among the zeros scanned. A strictly larger cost is needed to replace it, so the first maximal zero in row-major order wins. A cost of 0 leaves the default vertex. |
| TspStageState.ChosenVertexProperties | TSP/TSP.cpp:155-179 | Over the whole matrix, the chosen cost is non-negative. It is 0 exactly when no zero has positive cost, and then the vertex is the default. Otherwise the vertex is a zero of maximal cost and every zero before it has a smaller cost. |
| TspStageState.StageState.ChooseNewVertex | TSP/TSP.cpp:163-179 | Returns `ChosenVertex` of the current matrix: a non-negative cost and an in-range vertex. |
| TspStageState.ConstrainedProperties | TSP/TSP.cpp:185-195 | Fixing edge (r, c) makes row r and column c all INF, as well as the reverse cell (c, r). It keeps INF cells INF and keeps the matrix square, non-negative and INF on the diagonal. |
| TspStageState.StageState.UpdateCostMatrix | TSP/TSP.cpp:185-195 | The matrix becomes `Constrained` of the old one for that vertex. |
| TspStageState.StageState.ReduceCostMatrix | TSP/TSP.cpp:201-205 | Row reduction followed by column reduction. The result is the sum of both sets of minima. |
| TspStageState.FiniteCellsUpToMembers | TSP/TSP.cpp:29-35 | The cells the scan collects are exactly the finite cells scanned so far. |
| TspStageState.FiniteCellsUpToOrdered | TSP/TSP.cpp:29-35 | The collected cells come in row-major order, so none occurs twice. |
| TspStageState.StageState.AppendFiniteRow | TSP/TSP.cpp:30-34 | Appends the finite cells of one row, in column order, to the fixed edges. |
| TspStageState.CycleOrderUnique | TSP/TSP.cpp:36-46 | Fixed edges that form a single cycle determine their tour. |
| TspStageState.PassFrom | TSP/TSP.cpp:39-43 | A pass of the stitching loop only appends to the sequence it starts from. |
| TspStageState.PassFromChained | TSP/TSP.cpp:39-43 | A pass extends the stitched sequence only along edges other than the first. On a single cycle it stays a prefix of the tour. |
| TspStageState.PassFromAdvances | TSP/TSP.cpp:39-43 | When some edge other than the first leaves the last stitched city at or after the pass position, the pass appends at least one city. |
| TspStageState.StitchPass | TSP/TSP.cpp:39-43 | The loop over the edges, with the first edge's row overwritten by INF, computes `PassFrom` from the start of the edge list. |
| TspStageState.StitchFromProperties | TSP/TSP.cpp:36-46 | Repeated passes from a chained sequence that starts at the first edge's column either give a stitching, or give None. From a prefix of a single cycle they give that whole tour. |
| TspStageState.StitchProperties | TSP/TSP.cpp:36-46 | `Stitch` of the edges, when it gives a sequence, gives a stitching: one city per edge, starting at the first edge's column, each step along another edge. Edges forming a single cycle always give exactly that tour. |
| TspStageState.SortPath | TSP/TSP.cpp:36-46 | The stitching loop computes `Stitch` of the edges. So a returned sequence is a stitching of the edges, and on a single cycle the result is exactly that tour. |
| TspStageState.StageState.GetPath | TSP/TSP.cpp:25-47 | Fixes the chosen edge, constrains the matrix at it, and appends every finite cell left in row-major order; the bound and the matrix object stay. The result is `Stitch` of all fixed edges: a stitching of them when present, and exactly the tour when they form one cycle. |
| TspStageState.StageState.ResetLowerBound | TSP/TSP.cpp:290-292 | Sets the bound to 0 and leaves the matrix and the edges as they are. |
| TspStageState.StageState.UpdateLowerBound | TSP/TSP.cpp:300 | Adds the reduction to the bound. |
| TspStageState.StageState.AppendToPath | TSP/TSP.cpp:310 | Adds one fixed edge at the end. |
| TspSolver.GetOptimalCost | TSP/TSP.cpp:213-224 | Returns `TourCost`: the costs of consecutive cities plus the cost of going from the last city back to the first. |
| TspSolver.PathCostPrepend | TSP/TSP.cpp:216-218 | The cost of a path with a city put in front is that step's cost plus the cost of the rest. |
| TspSolver.TourCostRotate | TSP/TSP.cpp:213-224 | A tour costs the same whichever of its cities it starts from. |
| TspSolver.CreateRightBranchMatrix | TSP/TSP.cpp:233-237 | The right branch is the original matrix with the chosen cell forbidden (INF), no fixed edges and the given bound. Every other cell is unchanged. |
| TspSolver.RightBranchIsRestart | TSP/TSP.cpp:317-318 | Every pushed right branch is a restart node: the original matrix with one cell changed, and no edges. |
| TspSolver.MinLowerBound | TSP/TSP.cpp:245-249 | The minimal bound of a non-empty list belongs to one of its solutions and is at most every solution's bound. |
| TspSolver.KeepBound | TSP/TSP.cpp:252-256 | Keeps exactly the solutions with the given bound, in order. |
| TspSolver.KeepBoundConcat | TSP/TSP.cpp:252-256 | Filtering a concatenation is the concatenation of the filtered parts. |
| TspSolver.FilterSolutions | TSP/TSP.cpp:244-259 | Exactly the solutions whose bound is minimal are kept, all with the same bound. A non-empty input keeps at least one. |
| TspSolver.BoundNode | TSP/TSP.cpp:290-300 | The node's new matrix, edges and bound are `BoundStage` of the old ones: the matrix reduced in rows and then columns, the edges unchanged, and the bound (reset to 0 at level 0) increased by the sum of all the minima subtracted. |
| TspSolver.BoundStageGrows | TSP/TSP.cpp:290-300 | On a matrix without negative costs, bounding keeps every cost non-negative and never lowers the bound it starts from. |
| TspSolver.ReductionNonNegative | TSP/TSP.cpp:201-205 | On a matrix without negative costs, the row minima and the column minima subtracted add up to non-negative amounts. |
| TspSolver.BranchNode | TSP/TSP.cpp:305-318 | The node becomes `BranchStage` of the old one. The fixed edge is `ChosenVertex` of the matrix and is appended to the edges. The matrix becomes `Constrained` at that edge. The bound is kept. Exactly one node is pushed: the restart node with that cell forbidden, whose bound is the old bound plus the cost of leaving the edge out. |
| TspSolver.BranchStageKeeps | TSP/TSP.cpp:305-314 | Branching keeps costs non-negative and keeps the bound, and appends exactly one edge to the fixed edges. |
| TspSolver.ExpandNode | TSP/TSP.cpp:290-318 | The new node, the stack and the flag are `ExpandStage` of the old node: bound it, then report exactly when the new bound exceeds the best bound (nothing pushed), and otherwise branch. |
| TspSolver.ExpandBoundGrows | TSP/TSP.cpp:290-318 | On a matrix without negative costs, one round keeps costs non-negative and keeps the old edges as a prefix. It never lowers a bound below level 0, and it leaves a bound of at least 0 when it starts at level 0 or from a bound of at least 0. |
| TspSolver.Descend | TSP/TSP.cpp:287-319 | The node and the stack on exit are `DescendStage` of the node on entry: rounds run until the last level, or until the bound exceeds the best. A node whose bound does not exceed the best is at the last level. The stack only grows, and only by restart nodes. |
| TspSolver.DescendBoundGrows | TSP/TSP.cpp:287-319 | Down a branch over a matrix without negative costs, the fixed edges only grow, and the bound never decreases below level 0 and never goes below 0. |
| TspSolver.PopAndDescend | TSP/TSP.cpp:284-319 | The fresh node and the stack are `DescendStage` of the top of the stack over the rest of it, so the top is what is popped. A node that ends within the best bound is at the last level, and the stack holds only restart nodes. |
| TspSolver.BranchStageFacts | TSP/TSP.cpp:305-318 | Branching keeps the bound, appends one edge, keeps the edges in range, and pushes a restart node. |
| TspSolver.ExpandStageFacts | TSP/TSP.cpp:290-318 | One round reports exactly when the new bound exceeds the best bound, keeps the edges in range, and pushes only restart-shaped nodes. |
| TspSolver.DescendStageExit | TSP/TSP.cpp:287-319 | The inner loop ends at the last level whenever it ends with a bound no larger than the best. |
| TspSolver.DescendStageFits | TSP/TSP.cpp:287-319 | The inner loop keeps the fixed edges in range and pushes only restart-shaped nodes. |
| TspSolver.TourStageFacts | TSP/TSP.cpp:323-326 | A tour of a node at the last level is a stitching of its edges (old edges, then the chosen edge, then the finite cells left), costed as a tour on the original matrix. When those edges form a single cycle, that cycle is always the tour. |
| TspSolver.TourOf | TSP/TSP.cpp:323-326 | The node and the result are `TourStage` of the node: its edges become the old edges, then the chosen edge, then every finite cell left, and the matrix is constrained at that edge. The path is a stitching of those edges and visits only cities of the matrix, stored with its tour cost; when the edges form a single cycle the result is always that tour. |
| TspSolver.RoundStageKeeps | TSP/TSP.cpp:282-328 | One round keeps the record: old tours, levels and bounds stay as prefixes, at most one tour is added, the best bound never increases and remains the last recorded bound; a stitched round from an empty record records a tour. |
| TspSolver.SearchRound | TSP/TSP.cpp:282-328 | The new stack, best bound, record and flag are `RoundStage` of the old ones. The old tours, levels and bounds are prefixes of the new, at most one tour is added, and a new tour's bound is at most the old best, which never increases. The stack holds only restart nodes. When the record invariant held before the round it holds after it, and a completed round from an empty record has recorded a tour. |
| TspSolver.SearchStep | TSP/TSP.cpp:282-328 | One round advances `Search` by one round: with the round completed, the search from the old state with `fuel` rounds equals the search from the new state with one round fewer; otherwise the search stops there as Unfinished. The stack keeps only restart nodes. |
| TspSolver.StitchingInRange | TSP/TSP.cpp:325 | A stitching of in-range edges visits only cities of the matrix. |
| TspSolver.RecordStep | TSP/TSP.cpp:321-327 | Recording a tour found at the last level, with a bound no larger than the previous best, keeps the record invariant. |
| TspSolver.SearchAdvance | TSP/TSP.cpp:282-328 | One round unfolds the search: it goes on from the round's state, or stops there as unfinished when the edges did not stitch. |
| TspSolver.InitialSearch | TSP/TSP.cpp:268-280 | The search starts with the original matrix as the only node, a restart node, with no best bound and an empty record, which satisfies the record invariant. |
| TspSolver.SearchKeeps | TSP/TSP.cpp:282-330 | The whole search keeps the record invariant and loses no recorded tour; a Solved outcome holds the least-cost tours of a non-empty record. |
| TspSolver.FilteredTours | TSP/TSP.cpp:244-259 | Every tour kept by the final filter is a recorded one, so it is a path over cities of the matrix stored with its tour cost. |
| TspSolver.SolveFacts | TSP/TSP.cpp:266-331 | From the start, a Solved search holds at least one tour, all of one cost, each a path over cities of the matrix with its tour cost, and exactly the least-cost recorded tours. |
| TspSolver.SearchFrom | TSP/TSP.cpp:282-328 | The outer loop, from any state whose stack holds only restart nodes, computes `Search` from that state: it finishes exactly when the search is Solved, and returns the search's recorded tours, levels and bounds. |
| TspSolver.SearchLoop | TSP/TSP.cpp:268-328 | The outer loop started from the root node computes `Search` from `InitialSearch`, with the same outcome and record. |
| TspSolver.SolveTsp | TSP/TSP.cpp:266-331 | The outcome and the record are those of `Search` from the start. A finished search returns at least one tour. Every returned path visits only cities of the matrix and is stored with its own tour cost, and all share the same cost. They are `FilterSolutions` of the recorded tours; every recorded tour was found at the last level, and the recorded bounds never increase. |
| Graphs1.RepeatProperties | Graphs1/graphs_1.py:14-15 | Repeating a vertex `c` times gives max(c, 0) copies. |
| Graphs1.RowListCounts | Graphs1/graphs_1.py:9-16 | The list for a row holds vertex j+1 exactly max(row[j], 0) times for each column j, and nothing else. |
| Graphs1.RowListOrdered | Graphs1/graphs_1.py:12-15 | The list for a row holds vertices 1 .. n in non-decreasing order. |
| Graphs1.RowListLength | Graphs1/graphs_1.py:12-15 | The list's length is the sum of the row's positive entries. |
| Graphs1.AdjmatToAdjlist | Graphs1/graphs_1.py:5-18 | The keys are exactly 1 .. n, and key i+1 maps to the list built from row i. |
| Graphs1.DfsVisit | Graphs1/graphs_1.py:21-27 | The new part of the visited list starts with `v`. Each of its vertices was new when added, has all its neighbours in the list, and (after `v`) is a neighbour of an earlier vertex of the new part. |
| Graphs1.DfsRecursive | Graphs1/graphs_1.py:29-30 | The list starts at `s`, has no duplicates, is closed under the edges, and holds exactly the vertices reachable from `s`. |
| Graphs1.PushUnvisited | Graphs1/graphs_1.py:42-45 | Pushing the unvisited neighbours of the vertex just visited restores the search invariant. |
| Graphs1.FinishSearch | Graphs1/graphs_1.py:37-47 | With an empty stack, the visited list holds exactly the reachable vertices, with no duplicates and starting at `s`. |
| Graphs1.DfsIterative | Graphs1/graphs_1.py:33-47 | The list starts at `s`, has no duplicates, is closed under the edges, and holds exactly the vertices reachable from `s`. |
| AdjLists.TraversalIsReachableSet | Graphs1/graphs_1.py:21-47 | A list that starts at `s`, in which every later vertex has an earlier parent and which is closed under the edges, is exactly the set of vertices reachable from `s`. |
| Graphs1.RevisitingWalkUnfold | Graphs1/graphs_1.py:50-60 | There is a walk from `v` back onto `path + [v]` exactly when `v` has a neighbour on it, or a neighbour from which such a walk continues with `v` added. |
| Graphs1.SelfLoopIsCyclic | Graphs1/graphs_1.py:53-56 | A self-loop is found as a cycle whatever the path. |
| Graphs1.Cyclic | Graphs1/graphs_1.py:50-60 | The result is true exactly when some walk from `v` returns to a vertex on the path or to one it has already passed. |
| Graphs1.CyclicFromSomeKeyIffClosedWalk | Graphs1/graphs_1.py:63-67 | Some key starts a walk that revisits a vertex exactly when the graph has a closed walk. |
| Graphs1.IsAcyclic | Graphs1/graphs_1.py:63-67 | True exactly when no key starts a revisiting walk, or equivalently when the graph has no closed walk. |
| Graphs2.WithinIsWalks | Graphs2/graphs_2.py:20-32 | A vertex is in `Within(G, s, m)` exactly when a walk of 1 .. m edges leads to it from `s`. |
| Graphs2.WithinFacts | Graphs2/graphs_2.py:20-32 | The vertices within distance m are exactly those at the end of a walk of 1 .. m edges. There are none for m <= 0, and all are neighbours of some vertex. |
| Graphs2.StopEarly | Graphs2/graphs_2.py:25-26 | When the front of the queue is at distance `max_distance` or more, the visited set is already exactly the vertices within that distance. |
| Graphs2.QueueExhausted | Graphs2/graphs_2.py:23-32 | When the queue runs empty, the visited set is exactly the vertices within the distance. |
| Graphs2.ExpandVertex | Graphs2/graphs_2.py:28-31 | Adds the neighbours of `u` to the visited set. The entries appended behind the old queue are at distance d+1, are neighbours of `u`, and have distinct vertices, which are exactly the newly visited ones. So each is queued once and none was visited before. |
| Graphs2.ExpandFront | Graphs2/graphs_2.py:24-31 | Popping and expanding the front vertex keeps the breadth-first invariant, with that vertex now expanded. The rest of the queue stays in front, and the entries behind it are exactly the newly visited vertices, each once. Either the visited set grows or the queue shrinks. |
| Graphs2.LogStep | Graphs2/graphs_2.py:22-31 | The queue stays the tail of the log of every entry ever queued, and over the log each visited vertex is queued exactly once. |
| Graphs2.Neighbors | Graphs2/graphs_2.py:20-32 | Returns exactly the vertices reachable from the start by a walk of 1 .. `max_distance` edges, and none for a distance <= 0. That each vertex is queued only once is the per-step fact of `ExpandVertex`. |
| Sorting.Partition | Sort/sort.py:5-19 | After the scans and swaps, everything before `i` is at most the pivot and everything after `j` is at least the pivot, with `j <= i` and both ranges strictly smaller. Only `[start, stop]` is permuted. |
| Sorting.SwapStep | Sort/sort.py:16-19 | Swapping the two elements where the scans stopped, and stepping past them, keeps the partition invariant. |
| Sorting.SortedAfterPartition | Sort/sort.py:21-24 | Sorting `[start, j]` and then `[i, stop]` after a partition sorts `[start, stop]`, whether the ranges are disjoint or share one element. |
| Sorting.SortSide | Sort/sort.py:21-24 | A side with two or more elements is sorted by the recursive call, and a shorter side is left alone. Either way only that side is permuted. |
| Sorting.Quicksort | Sort/sort.py:4-25 | `a[start..stop]` ends sorted, the array is a permutation of the old one, and nothing outside `[start, stop]` moves. |
| Sorting.PairsClosedForm | Sort/sort.py:32-39 | The largest possible comparison count for n elements is n(n-1)/2. |
| Sorting.CompareAdjacent | Sort/sort.py:35-38 | Compares `C[i-1]` with `C[i]` and swaps them when out of order, keeping the pass invariant. A sorted array is left unchanged. |
| Sorting.BubblePass | Sort/sort.py:33-39 | One pass makes n-1 comparisons and permutes the array. Afterwards everything from the last swap on is sorted, with nothing before it larger. On sorted input nothing moves and the boundary becomes 0. |
| Sorting.Bubblesort | Sort/sort.py:27-41 | The copy is sorted and is a permutation of the input. At most n(n-1)/2 comparisons are made, and exactly n-1 on sorted input with n >= 2 elements. |

## Left out

- The `TSP.hpp` header is not part of this model. Its classes, `INF`, `NewVertex`, `vertex_t`, `get_level`, `reset_lower_bound`, `update_lower_bound` and `append_to_path` are modelled from how `TSP.cpp` uses them.
- `vertex_t`'s default value is taken to be (0, 0). This is the vertex `choose_new_vertex` returns when no zero has a positive cost.
- The `operator<<` printing functions are left out, because they are printing only.
- `INF` is a sentinel constructor, not a large number. The C++ overflow of `INF + x` is not modelled.
- TspSolver.SolveTsp: the returned paths are not shown to visit every city exactly once, nor to be optimal among all tours. `update_cost_matrix` forbids only the reverse of the fixed edge (TSP/TSP.cpp:193), so nothing in the code excludes a subtour of three or more edges. Such edges either make the model answer `Unfinished` or stitch into the path returned.
- TspSolver.SolveTsp: the search carries a step budget (`fuel`) and may answer `Unfinished`, because termination of the branch and bound is not proved.
  - It also answers `Unfinished` when `get_path` meets fixed edges that do not form one cycle. The C++ loop never ends in that case.
  - It requires at least 2 cities. With fewer, `cm.size() - 2` wraps around in the C++ code.
- TspStageState.SortPath: `get_path` writes INF into the first fixed edge's row. The model does this on a local copy of the rows, since the node is discarded right after.
- The C++ `std::stack` of `StageState` objects is a sequence of node values. A popped node is loaded into a fresh `StageState` object.
- Graphs1.IsAcyclic: it tries the keys in an unspecified order rather than the dictionary's insertion order. The answer does not depend on the order.
- Graphs1.AdjmatToAdjlist: requires each row to be at least as long as the number of rows. The Python code raises an `IndexError` on a shorter row, and the model does not model that error.
- Graphs1.DfsVisit and Graphs1.Cyclic: the `visited` lists the Python code appends to in place are passed and returned as values. There is no aliasing between callers.
- Graphs2.Neighbors: the ghost `queued` log of queue entries exists only in the model. The Python code keeps nothing beyond its queue. The returned contract does not tie the log to the queues of the run; the once-only queueing is stated per step by `ExpandVertex`.
- `load_multigraph_from_file`, `find_min_trail` and `trail_to_str` in `Graphs2/graphs_2.py` are left out, because they are file input, a call into the networkx library, and string formatting.
- `Sort/time_test.py` is left out, because it is random input and timing.
- Sorting.Quicksort: requires `start <= stop`. Called on an empty list, the Python code reads `B[-1]` and then raises an `IndexError`, which the model does not model. It returns nothing, where the Python code also returns the list it sorted in place.
- Sorting.Bubblesort: takes and returns arrays of unbounded integers in place of Python lists.
