/** What the five searches share: search nodes, the arena of expanded nodes
    their parent links point into, path reconstruction and the result record. */
module Search {
  import opened Grid
  import opened Reach

  /** A search node. `parent` is the arena index of the node it was reached
      from, or -1 for the start node. */
  datatype Node = Node(pos: Pos, g: int, h: int, f: int, parent: int)

  datatype Stats = Stats(solveTimeMs: real, nodesExplored: int, pathLength: int)

  datatype SearchResult = SearchResult(path: seq<Pos>, visited: seq<Pos>, stats: Stats)

  /** Parent links point strictly backwards, so following them terminates. */
  predicate Parented(arena: seq<Node>) {
    forall i :: 0 <= i < |arena| ==> -1 <= arena[i].parent < i
  }

  /** `n` is the start node with cost 0, or a node one open step away from
      an arena node below `bound`, with one more unit of cost. */
  predicate Linked(m: Maze, start: Pos, arena: seq<Node>, n: Node, bound: int)
    requires WellFormed(m)
  {
    (n.parent == -1 && n.pos == start && n.g == 0) ||
    (0 <= n.parent < bound <= |arena| &&
     n.g == arena[n.parent].g + 1 &&
     Adjacent(arena[n.parent].pos, n.pos) && Open(m, n.pos))
  }

  /** Every arena node is linked to an earlier one. The trigger keeps the
      solver from following parent links on its own, which never ends. */
  predicate ValidArena(m: Maze, start: Pos, arena: seq<Node>)
    requires WellFormed(m)
  {
    forall i {:trigger Linked(m, start, arena, arena[i], i)} ::
      0 <= i < |arena| ==> Linked(m, start, arena, arena[i], i)
  }

  lemma ValidArenaParented(m: Maze, start: Pos, arena: seq<Node>)
    requires WellFormed(m)
    requires ValidArena(m, start, arena)
    ensures Parented(arena)
  {
    forall i | 0 <= i < |arena| ensures -1 <= arena[i].parent < i {
      assert Linked(m, start, arena, arena[i], i);
    }
  }

  /** Growing the arena keeps the links of nodes that point into it. */
  lemma LinkedGrow(m: Maze, start: Pos, arena: seq<Node>, n: Node, x: Node)
    requires WellFormed(m)
    requires Linked(m, start, arena, n, |arena|)
    ensures Linked(m, start, arena + [x], n, |arena|)
    ensures Linked(m, start, arena + [x], n, |arena| + 1)
  {
  }

  lemma ValidArenaGrow(m: Maze, start: Pos, arena: seq<Node>, n: Node)
    requires WellFormed(m)
    requires ValidArena(m, start, arena)
    requires Linked(m, start, arena, n, |arena|)
    ensures ValidArena(m, start, arena + [n])
  {
    var a := arena + [n];
    forall i | 0 <= i < |a| ensures Linked(m, start, a, a[i], i) {
      if i < |arena| {
        assert a[i] == arena[i];
        assert Linked(m, start, arena, arena[i], i);
      }
    }
  }

  /** The positions on the parent chain of arena node `i`, root first. */
  function Chain(arena: seq<Node>, i: int): seq<Pos>
    requires Parented(arena)
    requires 0 <= i < |arena|
    decreases i
  {
    if arena[i].parent == -1 then [arena[i].pos]
    else Chain(arena, arena[i].parent) + [arena[i].pos]
  }

  /** The chain of a node of a valid arena is a walk from the start to the
      node, one cell longer than the node's cost. */
  lemma {:induction false} ChainIsPath(m: Maze, start: Pos, arena: seq<Node>, i: int)
    requires WellFormed(m)
    requires ValidArena(m, start, arena)
    requires 0 <= i < |arena|
    ensures Parented(arena)
    ensures IsPath(m, Chain(arena, i), start, arena[i].pos)
    ensures |Chain(arena, i)| == arena[i].g + 1
    decreases i
  {
    ValidArenaParented(m, start, arena);
    var n := arena[i];
    assert Linked(m, start, arena, n, i);
    if n.parent != -1 {
      ChainIsPath(m, start, arena, n.parent);
      var c := Chain(arena, n.parent);
      var q := c + [n.pos];
      forall k | 0 < k < |q| ensures Adjacent(q[k - 1], q[k]) && Open(m, q[k]) {
        if k < |c| {
          assert q[k - 1] == c[k - 1] && q[k] == c[k];
        }
      }
    }
  }

  /** The chain of node `i` holds only cells of nodes up to `i`, and when
      no two arena nodes share a cell it has no repeats: parent indices
      strictly decrease along it. */
  lemma {:induction false} ChainDistinct(arena: seq<Node>, i: int)
    requires Parented(arena) && Distinct(Positions(arena))
    requires 0 <= i < |arena|
    ensures Distinct(Chain(arena, i))
    ensures forall x :: x in Chain(arena, i) ==> exists j :: 0 <= j <= i && arena[j].pos == x
    decreases i
  {
    var n := arena[i];
    if n.parent != -1 {
      ChainDistinct(arena, n.parent);
      var c := Chain(arena, n.parent);
      forall j | 0 <= j <= n.parent ensures arena[j].pos != n.pos {
        assert Positions(arena)[j] == arena[j].pos && Positions(arena)[i] == n.pos;
      }
      DistinctAppend(c, n.pos);
    }
  }

  /** `reconstructPath`: follows parent links back to the root, putting each
      position in front of those already collected. */
  method ReconstructPath(arena: seq<Node>, i: int) returns (path: seq<Pos>)
    requires Parented(arena)
    requires 0 <= i < |arena|
    ensures path == Chain(arena, i)
  {
    path := [];
    var current := i;
    while current != -1
      invariant -1 <= current < |arena|
      invariant Chain(arena, i) == Above(arena, current) + path
      decreases current + 1
    {
      var n := arena[current];
      assert Above(arena, current) == Above(arena, n.parent) + [n.pos];
      assert (Above(arena, n.parent) + [n.pos]) + path == Above(arena, n.parent) + ([n.pos] + path);
      path := [n.pos] + path;
      current := n.parent;
    }
  }

  /** The chain of the node at `c`, or nothing past the root (`c == -1`). */
  function Above(arena: seq<Node>, c: int): seq<Pos>
    requires Parented(arena)
    requires -1 <= c < |arena|
  {
    if c == -1 then [] else Chain(arena, c)
  }

  /** The bookkeeping every search reports: the explored count is the length
      of the trace, the path length is the length of the path (0 when there
      is none), and a found path is a walk from `start` to `end` whose
      discovery is the last entry of the trace. */
  predicate Reported(m: Maze, start: Pos, end: Pos, time: real, r: SearchResult)
    requires WellFormed(m)
  {
    r.stats == Stats(time, |r.visited|, |r.path|) &&
    (r.path != [] ==> IsPath(m, r.path, start, end) &&
                      r.visited != [] && r.visited[|r.visited| - 1] == end)
  }

  /** Every open cell next to one of the first `n` arena nodes is in `region`. */
  ghost predicate ClosedUpTo(m: Maze, arena: seq<Node>, n: int, region: set<Pos>)
    requires WellFormed(m)
    requires 0 <= n <= |arena|
  {
    forall i, r {:trigger Adjacent(arena[i].pos, r)} ::
      0 <= i < n && Open(m, r) && Adjacent(arena[i].pos, r) ==> r in region
  }

  lemma {:induction false} ClosedGrow(m: Maze, arena: seq<Node>, n: Node, region: set<Pos>)
    requires WellFormed(m)
    requires ClosedUpTo(m, arena, |arena|, region)
    ensures ClosedUpTo(m, arena + [n], |arena|, region)
  {
    var a := arena + [n];
    forall i, r | 0 <= i < |arena| && Open(m, r) && Adjacent(a[i].pos, r) ensures r in region {
      assert a[i] == arena[i];
    }
  }

  /** Once every open cell next to the last arena node is in a larger
      region, the whole arena is closed in it. */
  lemma {:induction false} ClosedExtend(m: Maze, arena: seq<Node>, before: set<Pos>, after: set<Pos>)
    requires WellFormed(m)
    requires arena != [] && ClosedUpTo(m, arena, |arena| - 1, before) && before <= after
    requires forall r :: Open(m, r) && Adjacent(arena[|arena| - 1].pos, r) ==> r in after
    ensures ClosedUpTo(m, arena, |arena|, after)
  {
    forall i, r | 0 <= i < |arena| && Open(m, r) && Adjacent(arena[i].pos, r) ensures r in after {
      if i < |arena| - 1 {
        assert r in before;
      }
    }
  }

  /** When the cells of the arena hold the start and every open cell next
      to them, they hold every cell a walk from the start reaches. */
  lemma {:induction false} Sweep(m: Maze, start: Pos, arena: seq<Node>, region: set<Pos>)
    requires WellFormed(m)
    requires ClosedUpTo(m, arena, |arena|, region)
    requires region == Elems(Positions(arena))
    requires start in region
    ensures forall p :: Reachable(m, start, p) ==> p in region
  {
    forall p, n | p in region && Open(m, n) && Adjacent(p, n) ensures n in region {
      var i :| 0 <= i < |arena| && Positions(arena)[i] == p;
      assert arena[i].pos == p;
    }
    forall p | Reachable(m, start, p) ensures p in region {
      var q :| IsPath(m, q, start, p);
      ClosedRegion(m, start, region, q, p);
    }
  }

  /** When the cells of the arena hold the start but not the goal, and
      every open cell next to them is among them, no walk reaches the goal. */
  lemma Enclosed(m: Maze, start: Pos, end: Pos, arena: seq<Node>, region: set<Pos>)
    requires WellFormed(m)
    requires ClosedUpTo(m, arena, |arena|, region)
    requires region == Elems(Positions(arena))
    requires start in region && end !in region
    ensures !Reachable(m, start, end)
  {
    Sweep(m, start, arena, region);
  }

  /** The cells of a valid arena: the first is the start and every one is
      reachable from it. */
  lemma ArenaTraced(m: Maze, start: Pos, arena: seq<Node>)
    requires WellFormed(m)
    requires ValidArena(m, start, arena) && arena != []
    ensures Traced(m, start, Positions(arena))
  {
    assert Linked(m, start, arena, arena[0], 0);
    forall i | 0 <= i < |arena| ensures Reachable(m, start, Positions(arena)[i]) {
      ChainIsPath(m, start, arena, i);
    }
  }

  /** A valid arena that holds every cell reachable from the start traced
      exactly the reachable cells. */
  lemma ArenaSwept(m: Maze, start: Pos, arena: seq<Node>)
    requires WellFormed(m)
    requires ValidArena(m, start, arena) && arena != []
    requires forall p :: Reachable(m, start, p) ==> p in Positions(arena)
    ensures Traced(m, start, Positions(arena))
    ensures Swept(m, start, Positions(arena))
  {
    ArenaTraced(m, start, arena);
    var ps := Positions(arena);
    forall p | p in ps ensures Reachable(m, start, p) {
      var i :| 0 <= i < |ps| && ps[i] == p;
    }
  }

  /** Every node's cost is the length of a shortest walk to its cell. */
  ghost predicate Exact(m: Maze, start: Pos, ns: seq<Node>)
    requires WellFormed(m)
  {
    forall i :: 0 <= i < |ns| ==> AtLeast(m, start, ns[i].pos, ns[i].g)
  }

  /** The trace starts at the start, and every cell in it is reachable
      from the start. */
  ghost predicate Traced(m: Maze, start: Pos, visited: seq<Pos>)
    requires WellFormed(m)
  {
    visited != [] && visited[0] == start &&
    forall i :: 0 <= i < |visited| ==> Reachable(m, start, visited[i])
  }

  /** The trace holds exactly the cells reachable from the start. */
  ghost predicate Swept(m: Maze, start: Pos, visited: seq<Pos>)
    requires WellFormed(m)
  {
    forall p :: p in visited <==> Reachable(m, start, p)
  }

  /** What a complete search promises: neither the trace nor the path has
      repeats; a path is found exactly when some walk leads from the start to
      the goal; the trace starts at the start and holds only reachable
      cells; and when no path is found, it holds every reachable cell. */
  ghost predicate Complete(m: Maze, start: Pos, end: Pos, r: SearchResult)
    requires WellFormed(m)
  {
    Distinct(r.visited) && Distinct(r.path) &&
    (r.path == [] <==> !Reachable(m, start, end)) &&
    Traced(m, start, r.visited) &&
    (r.path == [] ==> Swept(m, start, r.visited))
  }

  /** What a complete search with shortest paths promises besides: no walk
      is shorter than the path found. */
  ghost predicate Shortest(m: Maze, start: Pos, end: Pos, r: SearchResult)
    requires WellFormed(m)
  {
    Complete(m, start, end, r) && forall q :: IsPath(m, q, start, end) ==> |r.path| <= |q|
  }

  /** Marking new cells shrinks the part of a finite universe not yet marked. */
  lemma Shrink(universe: set<Pos>, seen0: set<Pos>, seen: set<Pos>)
    requires seen0 <= seen <= universe && seen != seen0
    ensures |universe - seen| < |universe - seen0|
  {
    var gained := seen - seen0;
    assert universe - seen0 == (universe - seen) + gained;
    assert (universe - seen) * gained == {};
    assert gained != {};
  }

  /** The positions of a sequence of nodes. */
  function Positions(ns: seq<Node>): (ps: seq<Pos>)
    ensures |ps| == |ns|
    ensures forall i {:trigger ps[i]} :: 0 <= i < |ns| ==> ps[i] == ns[i].pos
  {
    if ns == [] then [] else [ns[0].pos] + Positions(ns[1..])
  }

  /** The costs of a sequence of nodes, in order. */
  function Costs(ns: seq<Node>): (cs: seq<int>)
    ensures |cs| == |ns|
    ensures forall i {:trigger cs[i]} :: 0 <= i < |ns| ==> cs[i] == ns[i].g
  {
    if ns == [] then [] else [ns[0].g] + Costs(ns[1..])
  }

  lemma PositionsAppend(ns: seq<Node>, n: Node)
    ensures Positions(ns + [n]) == Positions(ns) + [n.pos]
  {
    assert Positions(ns + [n])[|ns|] == n.pos;
  }

  lemma PositionsTail(ns: seq<Node>)
    requires ns != []
    ensures Positions(ns) == [ns[0].pos] + Positions(ns[1..])
  {
  }

  /** The cells of a sequence, as a set. */
  function Elems(s: seq<Pos>): (e: set<Pos>)
    ensures forall p :: p in e <==> p in s
  {
    if s == [] then {} else Elems(s[..|s| - 1]) + {s[|s| - 1]}
  }

  /** A list has no repeats exactly when its set of cells is as large as
      the list; the set is never larger. */
  lemma {:induction false} ElemsCard(s: seq<Pos>)
    ensures |Elems(s)| <= |s|
    ensures |Elems(s)| == |s| ==> Distinct(s)
    decreases |s|
  {
    if s != [] {
      var pre, last := s[..|s| - 1], s[|s| - 1];
      ElemsCard(pre);
      assert s == pre + [last];
      if |Elems(s)| == |s| {
        assert last !in Elems(pre);
        DistinctAppend(pre, last);
      }
    }
  }

  /** The result of a search that reached `end` at arena node `i`. */
  method Found(m: Maze, start: Pos, end: Pos, time: real, arena: seq<Node>, visited: seq<Pos>)
    returns (r: SearchResult)
    requires WellFormed(m)
    requires ValidArena(m, start, arena)
    requires |arena| > 0 && arena[|arena| - 1].pos == end
    requires visited == Positions(arena)
    ensures Reported(m, start, end, time, r)
    ensures r.visited == visited
    ensures Parented(arena)
    ensures r.path == Chain(arena, |arena| - 1) && |r.path| == arena[|arena| - 1].g + 1
    ensures Traced(m, start, r.visited)
    ensures Distinct(visited) ==> Distinct(r.path)
  {
    ChainIsPath(m, start, arena, |arena| - 1);
    ArenaTraced(m, start, arena);
    if Distinct(visited) {
      ChainDistinct(arena, |arena| - 1);
    }
    var path := ReconstructPath(arena, |arena| - 1);
    r := SearchResult(path, visited, Stats(time, |visited|, |path|));
  }

  /** The result of a search whose frontier ran out: no path, length 0. */
  function Exhausted(time: real, visited: seq<Pos>): SearchResult
  {
    SearchResult([], visited, Stats(time, |visited|, 0))
  }
}
