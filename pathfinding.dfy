/** `runAlgorithm`: the single entry point that runs the search an algorithm
    name selects, and what each of the five searches guarantees. */
module Pathfinding {
  import opened Grid
  import opened Reach
  import opened Search
  import Astar
  import Bfs
  import Dfs
  import Ucs
  import Ids

  /** The algorithm names "astar", "bfs", "dfs", "ucs" and "ids". */
  datatype Algorithm = AStar | BreadthFirst | DepthFirst | UniformCost | IterativeDeepening

  /** What a run of `a` reports: consistent statistics, a walk from the start
      to the goal exactly when one exists, with no cell on it twice, the goal
      as the last visited cell, a shortest walk from every search but
      depth-first, a trace that starts at the start, holds only cells
      reachable from it and, when no path is found, every one of them, no
      cell visited twice by every search but iterative deepening, and
      `[start]` alone when the start is the goal. */
  ghost predicate Guarantees(a: Algorithm, m: Maze, start: Pos, end: Pos, time: real,
                             r: SearchResult)
    requires WellFormed(m)
  {
    Reported(m, start, end, time, r) &&
    (r.path == [] <==> !Reachable(m, start, end)) && Distinct(r.path) &&
    (a != DepthFirst ==> forall q :: IsPath(m, q, start, end) ==> |r.path| <= |q|) &&
    Traced(m, start, r.visited) && (r.path == [] ==> Swept(m, start, r.visited)) &&
    (a != IterativeDeepening ==> Distinct(r.visited)) &&
    (start == end ==> r.path == [start] && r.visited == [start])
  }

  /** Dispatches on the algorithm name; `time` is the duration the run
      measures. */
  method RunAlgorithm(a: Algorithm, m: Maze, start: Pos, end: Pos, time: real)
    returns (r: SearchResult)
    requires WellFormed(m)
    ensures Guarantees(a, m, start, end, time, r)
  {
    match a {
      case AStar => r := Astar.Astar(m, start, end, time);
      case BreadthFirst => r := Bfs.Bfs(m, start, end, time);
      case DepthFirst => r := Dfs.Dfs(m, start, end, time);
      case UniformCost => r := Ucs.Ucs(m, start, end, time);
      case IterativeDeepening => r := Ids.Ids(m, start, end, time);
    }
  }

  /** Every search but depth-first reports the same path length on the same
      maze: the length of a shortest walk, or 0 when there is none. */
  lemma SamePathLength(a: Algorithm, b: Algorithm, m: Maze, start: Pos, end: Pos,
                       time: real, time': real, r: SearchResult, r': SearchResult)
    requires WellFormed(m)
    requires a != DepthFirst && b != DepthFirst
    requires Guarantees(a, m, start, end, time, r) && Guarantees(b, m, start, end, time', r')
    ensures r.stats.pathLength == r'.stats.pathLength
  {
    if r.path != [] {
      assert IsPath(m, r.path, start, end) && IsPath(m, r'.path, start, end);
    }
  }
}
