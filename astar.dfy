/** A*: the open list sorted by `f = g + h` before each pop, with the
    Manhattan heuristic as `h`. A closed cell never gets an open entry and
    no cell has two, so every pop expands a new cell. */
module Astar {
  import opened Grid
  import opened Reach
  import opened Search
  import opened Sorting
  import opened BestFirst

  /** No cell has two open entries and no closed cell has one. */
  predicate Apart(open: seq<Node>, closed: set<Pos>) {
    DistinctBy(open, PosOf) && forall i :: 0 <= i < |open| ==> open[i].pos !in closed
  }

  lemma {:induction false} SortApart(open: seq<Node>, closed: set<Pos>, key: Node -> real)
    requires Apart(open, closed)
    ensures Apart(SortBy(open, key), closed)
  {
    SortByDistinctBy(open, key, PosOf);
    SortByMembers(open, key);
    var s := SortBy(open, key);
    forall i | 0 <= i < |s| ensures s[i].pos !in closed {
      assert s[i] in open;
    }
  }

  /** Closing the cell of the head leaves no entry for it. */
  lemma PopApart(open: seq<Node>, closed: set<Pos>)
    requires Apart(open, closed) && open != []
    ensures Apart(open[1..], closed + {open[0].pos})
  {
    var t := open[1..];
    forall i | 0 <= i < |t| ensures t[i].pos !in closed + {open[0].pos} {
      assert t[i] == open[i + 1];
      assert PosOf(open[0]) != PosOf(open[i + 1]);
    }
    forall i, j | 0 <= i < j < |t| ensures PosOf(t[i]) != PosOf(t[j]) {
      assert t[i] == open[i + 1] && t[j] == open[j + 1];
    }
  }

  lemma StepApart(end: Pos, open: seq<Node>, closed: set<Pos>, p: Pos, g: int, parent: int)
    requires Apart(open, closed)
    ensures Apart(Step(true, end, open, closed, p, g, parent), closed)
  {
    var s := Step(true, end, open, closed, p, g, parent);
    if p !in closed {
      var i := IndexOf(open, p);
      forall j, k | 0 <= j < k < |s| ensures PosOf(s[j]) != PosOf(s[k]) {
        if i == -1 && k == |open| {
          assert s[j] == open[j];
        } else {
          assert PosOf(s[j]) == PosOf(open[j]) && PosOf(s[k]) == PosOf(open[k]);
        }
      }
      forall j | 0 <= j < |s| ensures s[j].pos !in closed {
        if j < |open| {
          assert s[j].pos == open[j].pos;
        }
      }
    }
  }

  lemma {:induction false} RelaxApart(end: Pos, open: seq<Node>, closed: set<Pos>,
                                      ns: seq<Pos>, g: int, parent: int)
    requires Apart(open, closed)
    ensures Apart(Relax(true, end, open, closed, ns, g, parent), closed)
    decreases |ns|
  {
    if ns != [] {
      var pre := ns[..|ns| - 1];
      RelaxApart(end, open, closed, pre, g, parent);
      StepApart(end, Relax(true, end, open, closed, pre, g, parent), closed, ns[|ns| - 1], g, parent);
    }
  }

  /** The invariant of the loop of `astar`, with what termination and the
      case `start == end` need. */
  ghost predicate Loop(m: Maze, start: Pos, end: Pos, visited: seq<Pos>, arena: seq<Node>,
                       open: seq<Node>, closed: set<Pos>, universe: set<Pos>)
    requires WellFormed(m)
  {
    Inv(m, start, end, true, visited, arena, open, closed) && Apart(open, closed) &&
    closed <= universe && Cells(m) + {start} <= universe && end !in visited &&
    (start == end ==> visited == [] && open == [MakeNode(true, end, start, 0, -1)])
  }

  /** The head of the sorted open list is expanded with its cost settled,
      its cell closed, and the closed part of the universe grows. */
  lemma {:induction false} PopRound(m: Maze, start: Pos, end: Pos, visited: seq<Pos>,
                                    arena: seq<Node>, open: seq<Node>, closed: set<Pos>,
                                    universe: set<Pos>)
    requires WellFormed(m)
    requires Loop(m, start, end, visited, arena, open, closed, universe) && open != []
    ensures var s := SortBy(open, ByF);
      Expanding(m, start, end, true, visited + [s[0].pos], arena + [s[0]], s[1..], closed + {s[0].pos}) &&
      Apart(s[1..], closed + {s[0].pos})
    ensures var c := SortBy(open, ByF)[0];
      closed + {c.pos} <= universe && |universe - (closed + {c.pos})| < |universe - closed| &&
      (start == end ==> arena == [] && c.pos == start)
  {
    var s := SortBy(open, ByF);
    SortKeeps(m, start, end, true, visited, arena, open, closed, ByF);
    SortApart(open, closed, ByF);
    PopFresh(m, start, end, true, visited, arena, s, closed);
    PopApart(s, closed);
    assert Linked(m, start, arena, s[0], |arena|);
    Progress(m, start, arena, s[0], closed, universe);
  }

  /** One round of the loop of `astar`: sort the open list by `f`, take
      its head, stop if it is the goal, otherwise close it and relax its
      neighbours. */
  method Visit(m: Maze, start: Pos, end: Pos, time: real, visited: seq<Pos>, arena: seq<Node>,
               open: seq<Node>, closed: set<Pos>, ghost universe: set<Pos>)
    returns (done: bool, r: SearchResult, visited': seq<Pos>, arena': seq<Node>,
             open': seq<Node>, closed': set<Pos>)
    requires WellFormed(m)
    requires Loop(m, start, end, visited, arena, open, closed, universe) && open != []
    ensures done ==> Reported(m, start, end, time, r) && Shortest(m, start, end, r)
    ensures done && start == end ==> r.path == [start] && r.visited == [start]
    ensures !done ==> Loop(m, start, end, visited', arena', open', closed', universe)
    ensures !done ==> |universe - closed'| < |universe - closed|
  {
    var sorted := SortBy(open, ByF);
    var current := sorted[0];
    open' := sorted[1..];
    done, r := false, Exhausted(time, []);
    PopRound(m, start, end, visited, arena, open, closed, universe);
    visited' := visited + [current.pos];
    arena' := arena + [current];

    closed' := closed;
    if current.pos.x == end.x && current.pos.z == end.z {
      done := true;
      r := Finish(m, start, end, true, time, visited', arena', open', closed + {current.pos});
      return;
    }

    closed' := closed + {current.pos};
    var ns := GetNeighbors(current.pos, m);
    Expand(m, start, end, true, visited', arena', open', closed', current.pos, current.g + 1, |arena|, ns);
    RelaxApart(end, open', closed', ns, current.g + 1, |arena|);
    open' := RelaxNeighbors(true, end, open', closed', ns, current.g + 1, |arena|);
  }

  /** `astar`. */
  method Astar(m: Maze, start: Pos, end: Pos, time: real) returns (r: SearchResult)
    requires WellFormed(m)
    ensures Reported(m, start, end, time, r) && Shortest(m, start, end, r)
    ensures start == end ==> r.path == [start] && r.visited == [start]
  {
    var visited: seq<Pos> := [];
    var arena: seq<Node> := [];
    var open: seq<Node> := [];
    var closed: set<Pos> := {};
    var startNode := Node(start, 0, Heuristic(start, end), Heuristic(start, end), -1);
    open := open + [startNode];
    assert open == [MakeNode(true, end, start, 0, -1)];
    ghost var universe := Cells(m) + {start};
    Init(m, start, end, true);

    while open != []
      invariant Loop(m, start, end, visited, arena, open, closed, universe)
      decreases |universe - closed|
    {
      var done;
      done, r, visited, arena, open, closed :=
        Visit(m, start, end, time, visited, arena, open, closed, universe);
      if done {
        return;
      }
    }
    Exhaust(m, start, end, true, visited, arena, closed);
    r := Exhausted(time, visited);
  }
}
