/** Uniform-cost search: the open list sorted by cost `g` before each pop,
    entries for closed cells skipped when popped. */
module Ucs {
  import opened Grid
  import opened Reach
  import opened Search
  import opened Sorting
  import opened BestFirst

  /** With no estimate, `f` is `g`, so the least `g` is the least `f`. */
  lemma LeastCost(m: Maze, start: Pos, end: Pos, arena: seq<Node>, open: seq<Node>)
    requires WellFormed(m)
    requires OpenLinked(m, start, end, false, arena, open) && open != []
    requires forall j :: 0 <= j < |open| ==> ByG(open[0]) <= ByG(open[j])
    ensures forall j :: 0 <= j < |open| ==> open[0].f <= open[j].f
  {
    assert Scored(false, end, open[0]);
    forall j | 0 <= j < |open| ensures open[0].f <= open[j].f {
      assert Scored(false, end, open[j]);
    }
  }

  /** The invariant of the loop of `ucs`, with what termination and the
      case `start == end` need. */
  ghost predicate Loop(m: Maze, start: Pos, end: Pos, visited: seq<Pos>, arena: seq<Node>,
                       open: seq<Node>, closed: set<Pos>, universe: set<Pos>)
    requires WellFormed(m)
  {
    Inv(m, start, end, false, visited, arena, open, closed) &&
    closed <= universe && Cells(m) + {start} <= universe && end !in visited &&
    (start == end ==> visited == [] && open == [Node(start, 0, 0, 0, -1)])
  }

  /** The head of the sorted open list is for a closed cell: dropping it
      keeps the invariant. */
  lemma {:induction false} SkipRound(m: Maze, start: Pos, end: Pos, visited: seq<Pos>,
                                     arena: seq<Node>, open: seq<Node>, closed: set<Pos>,
                                     universe: set<Pos>)
    requires WellFormed(m)
    requires Loop(m, start, end, visited, arena, open, closed, universe) && open != []
    requires SortBy(open, ByG)[0].pos in closed
    ensures Loop(m, start, end, visited, arena, SortBy(open, ByG)[1..], closed, universe)
  {
    SortKeeps(m, start, end, false, visited, arena, open, closed, ByG);
    PopSkip(m, start, end, false, visited, arena, SortBy(open, ByG), closed);
  }

  /** The head of the sorted open list is for an unclosed cell: it is
      expanded with its cost settled, and the closed part of the universe
      grows. */
  lemma {:induction false} PopRound(m: Maze, start: Pos, end: Pos, visited: seq<Pos>,
                                    arena: seq<Node>, open: seq<Node>, closed: set<Pos>,
                                    universe: set<Pos>)
    requires WellFormed(m)
    requires Loop(m, start, end, visited, arena, open, closed, universe) && open != []
    requires SortBy(open, ByG)[0].pos !in closed
    ensures var s := SortBy(open, ByG);
      Expanding(m, start, end, false, visited + [s[0].pos], arena + [s[0]], s[1..], closed + {s[0].pos})
    ensures var c := SortBy(open, ByG)[0];
      closed + {c.pos} <= universe && |universe - (closed + {c.pos})| < |universe - closed| &&
      (start == end ==> arena == [] && c.pos == start)
  {
    var s := SortBy(open, ByG);
    SortKeeps(m, start, end, false, visited, arena, open, closed, ByG);
    LeastCost(m, start, end, arena, s);
    PopFresh(m, start, end, false, visited, arena, s, closed);
    assert Linked(m, start, arena, s[0], |arena|);
    Progress(m, start, arena, s[0], closed, universe);
  }

  /** One round of the loop of `ucs`: sort the open list by `g`, take its
      head, skip it if its cell is closed, otherwise close it and stop if
      it is the goal, else relax its neighbours. */
  method Visit(m: Maze, start: Pos, end: Pos, time: real, visited: seq<Pos>, arena: seq<Node>,
               open: seq<Node>, closed: set<Pos>, ghost universe: set<Pos>)
    returns (done: bool, r: SearchResult, visited': seq<Pos>, arena': seq<Node>,
             open': seq<Node>, closed': set<Pos>)
    requires WellFormed(m)
    requires Loop(m, start, end, visited, arena, open, closed, universe) && open != []
    ensures done ==> Reported(m, start, end, time, r) && Shortest(m, start, end, r)
    ensures done && start == end ==> r.path == [start] && r.visited == [start]
    ensures !done ==> Loop(m, start, end, visited', arena', open', closed', universe)
    ensures !done ==> |universe - closed'| < |universe - closed| ||
                      (closed' == closed && |open'| < |open|)
  {
    var sorted := SortBy(open, ByG);
    var current := sorted[0];
    open' := sorted[1..];
    done, r := false, Exhausted(time, []);
    if current.pos in closed {
      SkipRound(m, start, end, visited, arena, open, closed, universe);
      visited', arena', closed' := visited, arena, closed;
      return;
    }
    PopRound(m, start, end, visited, arena, open, closed, universe);
    closed' := closed + {current.pos};
    visited' := visited + [current.pos];
    arena' := arena + [current];

    if current.pos.x == end.x && current.pos.z == end.z {
      done := true;
      r := Finish(m, start, end, false, time, visited', arena', open', closed');
      return;
    }

    var ns := GetNeighbors(current.pos, m);
    Expand(m, start, end, false, visited', arena', open', closed', current.pos, current.g + 1, |arena|, ns);
    open' := RelaxNeighbors(false, end, open', closed', ns, current.g + 1, |arena|);
  }

  /** `ucs`. */
  method Ucs(m: Maze, start: Pos, end: Pos, time: real) returns (r: SearchResult)
    requires WellFormed(m)
    ensures Reported(m, start, end, time, r) && Shortest(m, start, end, r)
    ensures start == end ==> r.path == [start] && r.visited == [start]
  {
    var visited: seq<Pos> := [];
    var arena: seq<Node> := [];
    var open: seq<Node> := [Node(start, 0, 0, 0, -1)];
    var closed: set<Pos> := {};
    ghost var universe := Cells(m) + {start};
    Init(m, start, end, false);

    while open != []
      invariant Loop(m, start, end, visited, arena, open, closed, universe)
      decreases |universe - closed|, |open|
    {
      var done;
      done, r, visited, arena, open, closed :=
        Visit(m, start, end, time, visited, arena, open, closed, universe);
      if done {
        return;
      }
    }
    Exhaust(m, start, end, false, visited, arena, closed);
    r := Exhausted(time, visited);
  }
}
