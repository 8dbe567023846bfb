# Maze pathfinding engine and algorithm comparison, in Dafny

This project models the search engine of a 3D maze visualiser and the store
that compares its algorithms.

The engine (`client/src/lib/pathfinding.ts`) runs one of five searches on a
rectangular grid of wall and open cells. The searches are A*, breadth-first,
depth-first, uniform-cost and iterative deepening. Each one goes from a start
cell to an end cell, stepping one cell at a time along the z and x axes, and
returns three things:

- the path found, from the start to the end (empty when there is none);
- the trace of the cells it visited, in order;
- its statistics: solve time, nodes explored and path length.

The comparison store (`client/src/lib/stores/useComparison.tsx`) keeps a
selection of algorithms. It runs each selected algorithm on the same maze and
ranks the results by solve time.

The model is split by module as follows.

- `Grid` (grid.dfy): the maze as rows of wall flags, positions, the Manhattan
  heuristic, and `getNeighbors`. Position keys (`posKey`) are modelled as
  equality of positions.
- `Reach` (reach.dfy): walks, reachability, and a lower bound on walk
  length (`AtLeast`), together with the graph facts the searches need.
- `Search` (search.dfy): search nodes and the result record. The `parent`
  pointers become indices into the arena of expanded nodes. Also here:
  `reconstructPath`, and the predicates that state what a search reports
  (`Reported`, `Complete`, `Shortest`).
- `Sorting` (sorting.dfy): `Array.prototype.sort`, which is stable. It is
  modelled as a stable insertion sort by a numeric key.
- `BestFirst` (bestfirst.dfy): what A* and uniform-cost search share. This
  covers the open list, `findIndex`, the relaxation loop over the
  neighbours, and Dijkstra's argument that a popped node with the least key
  has a shortest path.
- `Astar`, `Ucs`, `Bfs`, `Dfs`, `Ids`: each search is an imperative loop
  proved against the predicates of `Search`.
  - `Ids` also defines the depth-limited descent as a function (`Limited`,
    `Children`, `Deepening`). The recursive method `Dls` is proved equal to
    it.
- `Pathfinding` (pathfinding.dfy): `runAlgorithm`, and `Guarantees`, the
  contract each algorithm meets.
- `Comparison` (comparison.dfy): the store, as a class whose methods update
  its three fields.

The clock (`performance.now()`) is not modelled. Each run is instead given
its measured duration as a parameter: `time` for one search, and
`timeOf: Algorithm -> real` for a comparison. The algorithm names "astar",
"bfs", "dfs", "ucs" and "ids" are the constructors of `Pathfinding.Algorithm`.

## Model

| member | source | states |
|---|---|---|
| Grid.Heuristic | client/src/lib/pathfinding.ts:17-19 | the Manhattan distance is a natural number, and it is zero exactly when the two cells coincide |
| Grid.HeuristicSymmetric | client/src/lib/pathfinding.ts:17-19 | the distance from a to b equals the distance from b to a |
| Grid.AdjacentIsUnitHeuristic | client/src/lib/pathfinding.ts:17-19 | two cells are one axis step apart exactly when their distance is 1 |
| Grid.HeuristicConsistent | client/src/lib/pathfinding.ts:17-19 | one step changes the distance to the goal by at most one (the heuristic is consistent) |
| Grid.HeuristicTriangle | client/src/lib/pathfinding.ts:17-19 | the distance obeys the triangle inequality |
| Grid.HeuristicAdmissible | client/src/lib/pathfinding.ts:17-19 | no walk from s to e has fewer steps than the distance from s to e (the heuristic never overestimates) |
| Grid.GetNeighbors | client/src/lib/pathfinding.ts:21-44 | the loop over the four directions returns the reference neighbour list: at most four cells, each open, in bounds and one step away |
| Grid.NeighborsSound | client/src/lib/pathfinding.ts:21-44 | every listed neighbour is in bounds, not a wall and one step away, and there are at most four |
| Grid.NeighborsOrder | client/src/lib/pathfinding.ts:22-27 | the neighbours come in the direction order z-1, z+1, x-1, x+1, each present exactly when that cell is open |
| Grid.NeighborsComplete | client/src/lib/pathfinding.ts:34-40 | every open in-bounds cell one step away is listed |
| Reach.WithinStep | client/src/lib/pathfinding.ts:153-159 | a cell reachable in k steps makes each open neighbour reachable in k+1 |
| Reach.ClosedRegion | client/src/lib/pathfinding.ts:136-160 | a set of cells that holds the start and all open neighbours of its cells holds every reachable cell |
| Reach.PrefixWalk | client/src/lib/pathfinding.ts:46-54 | every prefix of a walk is a walk to its last cell |
| Reach.SimpleWalk | client/src/lib/pathfinding.ts:309 | every walk can be shortened to a walk without repeated cells between the same ends |
| Reach.SimpleWalkBound | client/src/lib/pathfinding.ts:309 | a walk without repeats has at most rows × columns steps (one cell besides the open cells it enters), so depth limits up to `maze.length * maze[0].length` suffice |
| Search.ValidArenaParented | client/src/lib/pathfinding.ts:3-9 | in an arena whose nodes link to earlier nodes, every parent index points strictly backwards |
| Search.ChainIsPath | client/src/lib/pathfinding.ts:46-54 | the parent chain of an arena node is a walk from the start to that node's cell, with g+1 cells |
| Search.ChainDistinct | client/src/lib/pathfinding.ts:46-54 | when no cell is expanded twice, the parent chain of a node has no repeated cell, and each of its cells is that of the node or an earlier one |
| Search.ReconstructPath | client/src/lib/pathfinding.ts:46-54 | following the parent links and prepending each cell yields the chain of the node, root first |
| Search.Enclosed | client/src/lib/pathfinding.ts:114-124 | when the expanded cells hold the start, every open neighbour of every expanded cell, but not the goal, the goal is unreachable |
| Search.Sweep | client/src/lib/pathfinding.ts:114-124 | when the expanded cells hold the start and every open neighbour of every expanded cell, they hold every cell reachable from the start |
| Search.ArenaTraced | client/src/lib/pathfinding.ts:80 | the cells of the expanded nodes, in expansion order, start with the start and are all reachable from it |
| Search.ArenaSwept | client/src/lib/pathfinding.ts:114-124 | expanded cells that hold every reachable cell are exactly the reachable cells |
| Search.Found | client/src/lib/pathfinding.ts:82-93 | the result of reaching the goal: the path is the reconstructed chain, a walk from start to goal of g+1 cells, repeat-free when the trace is; the trace starts at the start and holds only reachable cells; nodesExplored is the trace length; pathLength is the path length |
| Sorting.SortByPermutes | client/src/lib/stores/useComparison.tsx:57 | the sort is a permutation of its input |
| Sorting.SortBySorted | client/src/lib/stores/useComparison.tsx:57 | the sort orders its input by ascending key |
| Sorting.SortByStable | client/src/lib/stores/useComparison.tsx:57 | the sort is stable: elements with equal keys keep their input order |
| Sorting.SortByHeadMinimal | client/src/lib/pathfinding.ts:77-78 | after sorting, the head of the list has the least key, which is what `shift` takes |
| Sorting.SortByMembers | client/src/lib/stores/useComparison.tsx:57 | the sort keeps exactly the elements of its input |
| Sorting.SortByDistinctBy | client/src/lib/stores/useComparison.tsx:57 | sorting keeps elements pairwise distinct under a projection |
| BestFirst.IndexOf | client/src/lib/pathfinding.ts:105 | `findIndex` returns the first entry for the cell, or -1 exactly when there is none |
| BestFirst.StepOffers | client/src/lib/pathfinding.ts:97-113 | relaxing one neighbour keeps every open offer, and afterwards offers the neighbour at cost g or less unless it is closed |
| BestFirst.RelaxOffers | client/src/lib/pathfinding.ts:97-113 | the whole neighbour loop keeps every offer and offers each unclosed neighbour at cost g or less |
| BestFirst.SortKeeps | client/src/lib/pathfinding.ts:77 | sorting the open list keeps the search invariant and puts an entry with the least key at the head |
| BestFirst.Settled | client/src/lib/pathfinding.ts:76-80 | an unclosed open node with the least f has no walk to its cell shorter than its g (Dijkstra's argument, using the consistent heuristic) |
| BestFirst.OfferedAt | client/src/lib/pathfinding.ts:95-113 | where a walk from the start first leaves the closed cells, the open list offers that cell at a cost no greater than the walk's prefix |
| BestFirst.PopFresh | client/src/lib/pathfinding.ts:76-80 | expanding an unclosed head with the least key keeps every node's cost exact |
| BestFirst.Expand | client/src/lib/pathfinding.ts:95-113 | closing the popped cell and relaxing its neighbours restores the search invariant |
| BestFirst.Finish | client/src/lib/pathfinding.ts:82-93 | on reaching the goal, the path is a shortest walk from start to goal without repeats, and the trace has no repeats, starts at the start and holds only reachable cells |
| BestFirst.Exhaust | client/src/lib/pathfinding.ts:114-124 | when the open list runs out without reaching the goal, the goal is unreachable and the trace has no repeats, starts at the start and holds exactly the reachable cells |
| BestFirst.Progress | client/src/lib/pathfinding.ts:95 | closing a new cell shrinks the set of cells not yet closed, so the search terminates |
| BestFirst.RelaxNeighbors | client/src/lib/pathfinding.ts:97-113 | the loop over the neighbours builds the reference relaxation: it skips closed cells, appends new ones, and replaces an entry only when the new g is smaller |
| Astar.Visit | client/src/lib/pathfinding.ts:77-113 | one turn of the A* loop either returns a shortest result or keeps the invariant while closing one more cell |
| Astar.Astar | client/src/lib/pathfinding.ts:60-125 | A* reports consistent stats, finds a path exactly when the goal is reachable, returns a shortest walk with no cell twice, never visits a cell twice, and returns `[start]` alone when start is the goal; the trace starts at the start and holds only reachable cells, and every one of them when no path is found |
| Ucs.LeastCost | client/src/lib/pathfinding.ts:229 | without a heuristic, the open entry with the least g also has the least f |
| Ucs.Visit | client/src/lib/pathfinding.ts:229-263 | one turn of the UCS loop returns a shortest result, or skips a stale closed entry, or closes one more cell, keeping the invariant |
| Ucs.Ucs | client/src/lib/pathfinding.ts:220-275 | uniform-cost search reports consistent stats, finds a path exactly when one exists, returns a shortest walk with no cell twice, never visits a cell twice, and returns `[start]` when start is the goal; the trace starts at the start and holds only reachable cells, and every one of them when no path is found |
| Bfs.LevelUp | client/src/lib/pathfinding.ts:136-137 | when every queued node costs level+1, every cell within level+1 steps of the start has already been seen |
| Bfs.PopOptimal | client/src/lib/pathfinding.ts:137-138 | the node taken from the front of the queue has the least cost of all unexpanded nodes, and that cost is the length of a shortest walk to its cell |
| Bfs.ExpandAll | client/src/lib/pathfinding.ts:153-159 | queuing the unseen neighbours of the expanded node keeps the queue ordered, exact and covering |
| Bfs.EnqueueFresh | client/src/lib/pathfinding.ts:153-159 | the loop appends one node per neighbour not yet seen, in neighbour order, and marks every neighbour seen |
| Bfs.Arrived | client/src/lib/pathfinding.ts:140-141 | when the goal is dequeued, no walk to it is shorter than its node's g+1 |
| Bfs.Finish | client/src/lib/pathfinding.ts:140-151 | on reaching the goal, the path is a shortest walk without repeats, and the trace has no repeats, starts at the start and holds only reachable cells |
| Bfs.Exhaust | client/src/lib/pathfinding.ts:160-170 | an empty queue without reaching the goal means the goal is unreachable, and the trace has no repeats, starts at the start and holds exactly the reachable cells |
| Bfs.Visit | client/src/lib/pathfinding.ts:136-159 | one turn of the BFS loop returns a shortest result, or keeps the invariant while seeing more cells or shortening the queue |
| Bfs.Bfs | client/src/lib/pathfinding.ts:127-171 | BFS reports consistent stats, finds a path exactly when one exists, returns a shortest walk with no cell twice, never visits a cell twice, and returns `[start]` when start is the goal; the trace starts at the start and holds only reachable cells, and every one of them when no path is found |
| Dfs.PushUnclosed | client/src/lib/pathfinding.ts:202-206 | the loop pushes one node per neighbour not yet visited, in neighbour order |
| Dfs.RegionGrows | client/src/lib/pathfinding.ts:202-206 | pushing the unvisited neighbours keeps every cell that was visited or stacked, and makes every neighbour visited or stacked |
| Dfs.Finish | client/src/lib/pathfinding.ts:189-200 | on reaching the goal, the path is a walk from start to goal with no cell twice, and the trace has no repeats, starts at the start and holds only reachable cells |
| Dfs.Exhaust | client/src/lib/pathfinding.ts:207-217 | an empty stack without reaching the goal means the goal is unreachable, and the trace starts at the start and holds exactly the reachable cells |
| Dfs.Visit | client/src/lib/pathfinding.ts:181-206 | one turn of the DFS loop returns a result, or skips a visited entry, or visits one more cell, keeping the invariant |
| Dfs.Dfs | client/src/lib/pathfinding.ts:173-218 | DFS reports consistent stats, finds a path exactly when one exists, with no cell twice on it, never visits a cell twice, and returns `[start]` when start is the goal (with no claim of shortness); the trace starts at the start and holds only reachable cells, and every one of them when no path is found |
| Ids.LimitedSound | client/src/lib/pathfinding.ts:281-307 | a descent only appends to the trace and ends it with the goal when found; the branch it returns extends the given branch by at most `depth` cells, ends at the goal, and stays a repeat-free walk |
| Ids.ChildrenSound | client/src/lib/pathfinding.ts:292-304 | the loop over the children keeps the soundness of every descent it makes |
| Ids.LimitedFinds | client/src/lib/pathfinding.ts:281-307 | when a repeat-free walk of at most `depth` steps leads to the goal avoiding the branch, the descent finds the goal |
| Ids.ChildrenFinds | client/src/lib/pathfinding.ts:292-304 | the descents into the children find the goal when such a walk starts at one of them |
| Ids.LimitedReaches | client/src/lib/pathfinding.ts:281-307 | a descent along a walk from the start appends only cells reachable from the start to the trace |
| Ids.ChildrenReaches | client/src/lib/pathfinding.ts:292-304 | the descents into the children of such a branch append only reachable cells |
| Ids.DeepeningReaches | client/src/lib/pathfinding.ts:311-315 | the rounds keep the trace they are given and append only reachable cells |
| Ids.DeepeningTraced | client/src/lib/pathfinding.ts:279-315 | the whole IDS trace starts at the start and holds only cells reachable from it |
| Ids.LimitedEnters | client/src/lib/pathfinding.ts:281-307 | a descent that misses the goal enters every cell that a repeat-free walk of at most `depth` steps, avoiding the branch, reaches |
| Ids.ChildrenEnters | client/src/lib/pathfinding.ts:292-304 | descents into the children that miss the goal enter every cell such a walk through one of them reaches |
| Ids.DeepeningEnters | client/src/lib/pathfinding.ts:309-315 | when no round reaches the goal, the trace holds every cell a repeat-free walk of at most rows × columns steps reaches |
| Ids.DeepeningSwept | client/src/lib/pathfinding.ts:309-336 | when IDS finds no path, its trace holds exactly the cells reachable from the start |
| Ids.Missed | client/src/lib/pathfinding.ts:311-313 | a round with limit d that misses the goal proves every walk to it has more than d+1 cells |
| Ids.ChildrenDescend | client/src/lib/pathfinding.ts:301-302 | the descent into a child stops the loop when it finds the goal, and otherwise the loop continues with the trace it left |
| Ids.Dls | client/src/lib/pathfinding.ts:281-307 | the recursive depth-limited search returns exactly the reference descent: found branch and trace |
| Ids.Descend | client/src/lib/pathfinding.ts:293-303 | one turn of the `dls` loop skips a cell on the branch or descends into it, matching the reference descent |
| Ids.Ids | client/src/lib/pathfinding.ts:277-337 | IDS returns the result of the reference deepening: consistent stats, a repeat-free walk of at most rows × columns + 1 cells found exactly when the goal is reachable, no walk shorter than it, and `[start]` when start is the goal; the trace starts at the start and holds only reachable cells, and every one of them when no path is found |
| Pathfinding.RunAlgorithm | client/src/lib/pathfinding.ts:339-347 | dispatching on the name gives that algorithm's guarantees: all give consistent stats, a path exactly when one exists and with no cell twice, and a trace that starts at the start, holds only reachable cells and all of them when no path is found; all but DFS give shortest paths; all but IDS give repeat-free traces |
| Pathfinding.SamePathLength | client/src/lib/pathfinding.ts:339-347 | any two algorithms other than DFS report the same path length on the same maze |
| Comparison.Without | client/src/lib/stores/useComparison.tsx:32 | the filter keeps exactly the entries other than the algorithm removed |
| Comparison.WithoutAt | client/src/lib/stores/useComparison.tsx:32 | in a selection without repeats, the filter cuts out the one entry and keeps the other entries in order |
| Comparison.ToggledMembers | client/src/lib/stores/useComparison.tsx:29-36 | toggling flips the membership of the toggled algorithm and no other |
| Comparison.ToggledDistinct | client/src/lib/stores/useComparison.tsx:29-36 | toggling never selects an algorithm twice |
| Comparison.ToggleTwiceAbsent | client/src/lib/stores/useComparison.tsx:29-36 | toggling an unselected algorithm twice restores the selection |
| Comparison.ToggleTwicePresent | client/src/lib/stores/useComparison.tsx:29-36 | toggling a selected algorithm twice moves it to the end of the selection |
| Comparison.ComparisonStore.constructor | client/src/lib/stores/useComparison.tsx:25-27 | the store starts with nothing compared, nothing selected and no results |
| Comparison.ComparisonStore.ToggleAlgorithm | client/src/lib/stores/useComparison.tsx:29-36 | the selection becomes its toggle, the other fields are unchanged, and the selection stays repeat-free |
| Comparison.ComparisonStore.StartComparison | client/src/lib/stores/useComparison.tsx:38-60 | with fewer than two selected, nothing changes; otherwise each selected algorithm runs in selection order with its guarantees, the store is comparing, and the results are those runs ranked by solve time |
| Comparison.ComparisonStore.ClearComparison | client/src/lib/stores/useComparison.tsx:62-68 | clearing resets all three fields to the initial state |
| Comparison.RankingCovers | client/src/lib/stores/useComparison.tsx:44-57 | the ranking holds one result per selected algorithm, no algorithm twice, and each result satisfies its algorithm's guarantees |
| Comparison.RankingOrder | client/src/lib/stores/useComparison.tsx:57 | the ranking is in ascending solve time, and results with equal solve times keep the selection order |

## Left out

- The clock is not modelled. Each solve time is a parameter of the run, a
  `real` that the model does not relate to the work done.
- Position keys are not modelled as strings. `posKey(p)` builds the string
  "x,z". Two in-grid cells have equal keys exactly when they are the same
  cell, so sets of keys are modelled as sets of positions.
- The mazes in the model are values, not objects. The comparison's
  per-algorithm deep copy of the maze, and the engine not mutating its maze,
  therefore hold trivially. Cell objects are reduced to their `isWall` flag.
- Search nodes are not modelled as parent pointers. Each search keeps them as
  an arena of expanded nodes with parent indices; the pointer graph has the
  same shape. For IDS, the node chain is the branch of cells itself, so
  reconstructing the found node's path is the branch.
- The zustand store plumbing is left out: `create`, `subscribeWithSelector`,
  `get`, and the subscriptions. Subscribers can observe the intermediate state
  after `set({ isComparing: true })`; the model gives only the state after
  each action.
- In-place sorting is left out. `Array.prototype.sort` with a subtracting
  comparator is modelled by the stable function `Sorting.SortBy` on values.
  NaN times are left out, because a `real` has none.
- Number overflow is left out: JavaScript numbers are doubles, and the model
  uses unbounded integers for costs, coordinates and counts.
- Walls in the start cell are not modelled specially. The source enters the
  start even when it is a wall, and so does the model, because a walk
  requires only the cells after the first to be open.
- The `useMaze` store, the UI components and the rest of the client and
  server are not part of this model. The maze is assumed rectangular and
  non-empty (`Grid.WellFormed`): every maze the application builds is a
  non-empty grid whose rows have equal length. Every search relies on the
  rows being equal in length, because `getNeighbors` takes `maze[0].length`
  as the width of every row (client/src/lib/pathfinding.ts:36-37). Only
  `ids` relies on the maze being non-empty, because it reads
  `maze[0].length` before any bounds check (client/src/lib/pathfinding.ts:309).
- Dfs.Dfs: makes no claim that the path is shortest, because depth-first
  order does not give one.
- Ids.Ids: does not claim a repeat-free trace, because each round, and each
  branch within a round, revisits cells by design.
- Astar.Astar, Ucs.Ucs, Bfs.Bfs, Dfs.Dfs: the results are not pinned to a
  reference function of the inputs, so that the same maze gives the same
  path and trace on every run is stated for IDS alone (`Ids.Ids` returns
  `Deepening` of its inputs).
