/** Depth-first search: a LIFO stack, cells marked visited when popped. */
module Dfs {
  import opened Grid
  import opened Search
  import opened Reach

  /** Every stacked node hangs off the start or off an expanded node. */
  predicate StackLinked(m: Maze, start: Pos, arena: seq<Node>, stack: seq<Node>)
    requires WellFormed(m)
  {
    forall i :: 0 <= i < |stack| ==> Linked(m, start, arena, stack[i], |arena|)
  }

  /** The cells expanded or waiting on the stack. */
  function Region(closed: set<Pos>, stack: seq<Node>): set<Pos> {
    closed + Elems(Positions(stack))
  }

  /** The bookkeeping of the search: `visited` lists the expanded nodes
      without repeats and the closed set holds their cells. */
  predicate Books(m: Maze, start: Pos, visited: seq<Pos>, arena: seq<Node>,
                  stack: seq<Node>, closed: set<Pos>)
    requires WellFormed(m)
  {
    ValidArena(m, start, arena) && visited == Positions(arena) && Distinct(visited) &&
    closed == Elems(visited) && StackLinked(m, start, arena, stack)
  }

  /** The invariant of the outer loop: besides the bookkeeping, the start
      and every open cell next to an expanded cell is closed or stacked. */
  ghost predicate Inv(m: Maze, start: Pos, visited: seq<Pos>, arena: seq<Node>,
                      stack: seq<Node>, closed: set<Pos>)
    requires WellFormed(m)
  {
    Books(m, start, visited, arena, stack, closed) &&
    start in Region(closed, stack) &&
    ClosedUpTo(m, arena, |arena|, Region(closed, stack))
  }

  /** The invariant while the neighbours of the last expanded node are stacked. */
  ghost predicate Expanding(m: Maze, start: Pos, visited: seq<Pos>, arena: seq<Node>,
                            stack: seq<Node>, closed: set<Pos>)
    requires WellFormed(m)
  {
    Books(m, start, visited, arena, stack, closed) && arena != [] &&
    start in Region(closed, stack) &&
    ClosedUpTo(m, arena, |arena| - 1, Region(closed, stack))
  }

  lemma Init(m: Maze, start: Pos)
    requires WellFormed(m)
    ensures Inv(m, start, [], [], [Node(start, 0, 0, 0, -1)], {})
  {
    assert Positions([Node(start, 0, 0, 0, -1)]) == [start];
  }

  /** Popping the top of the stack takes its cell out of the stacked part
      and nothing else. */
  lemma PopRegion(closed: set<Pos>, stack: seq<Node>)
    requires stack != []
    ensures Region(closed, stack) ==
            Region(closed, stack[..|stack| - 1]) + {stack[|stack| - 1].pos}
  {
    var rest := stack[..|stack| - 1];
    assert stack == rest + [stack[|stack| - 1]];
    PositionsAppend(rest, stack[|stack| - 1]);
  }

  lemma {:induction false} PopLinked(m: Maze, start: Pos, arena: seq<Node>, stack: seq<Node>, n: Node)
    requires WellFormed(m)
    requires StackLinked(m, start, arena, stack) && stack != []
    ensures StackLinked(m, start, arena, stack[..|stack| - 1])
    ensures StackLinked(m, start, arena + [n], stack[..|stack| - 1])
    ensures Linked(m, start, arena, stack[|stack| - 1], |arena|)
  {
    var rest := stack[..|stack| - 1];
    forall i | 0 <= i < |rest| ensures Linked(m, start, arena + [n], rest[i], |arena| + 1) {
      assert rest[i] == stack[i];
      LinkedGrow(m, start, arena, stack[i], n);
    }
  }

  /** Discarding a stacked node whose cell is already closed. */
  lemma {:induction false} PopSkip(m: Maze, start: Pos, visited: seq<Pos>, arena: seq<Node>,
                                   stack: seq<Node>, closed: set<Pos>)
    requires WellFormed(m)
    requires Inv(m, start, visited, arena, stack, closed) && stack != []
    requires stack[|stack| - 1].pos in closed
    ensures Inv(m, start, visited, arena, stack[..|stack| - 1], closed)
  {
    PopRegion(closed, stack);
    PopLinked(m, start, arena, stack, stack[0]);
  }

  /** Taking a stacked node whose cell is not closed yet, closing its cell
      and appending it to the trace and the arena. */
  lemma {:induction false} PopFresh(m: Maze, start: Pos, visited: seq<Pos>, arena: seq<Node>,
                                    stack: seq<Node>, closed: set<Pos>)
    requires WellFormed(m)
    requires Inv(m, start, visited, arena, stack, closed) && stack != []
    requires stack[|stack| - 1].pos !in closed
    ensures var c := stack[|stack| - 1];
      Expanding(m, start, visited + [c.pos], arena + [c], stack[..|stack| - 1], closed + {c.pos})
  {
    var c := stack[|stack| - 1];
    PopRegion(closed, stack);
    PopLinked(m, start, arena, stack, c);
    ValidArenaGrow(m, start, arena, c);
    PositionsAppend(arena, c);
    ClosedGrow(m, arena, c, Region(closed, stack));
    DistinctAppend(visited, c.pos);
    assert Region(closed + {c.pos}, stack[..|stack| - 1]) == Region(closed, stack);
  }

  /** The nodes the loop over `ns` stacks: each cell not closed, in order,
      with cost `g` and parent `parent`. */
  function Unclosed(ns: seq<Pos>, closed: set<Pos>, g: int, parent: int): seq<Node>
  {
    if ns == [] then []
    else
      var pre, last := ns[..|ns| - 1], ns[|ns| - 1];
      Unclosed(pre, closed, g, parent) +
        (if last in closed then [] else [Node(last, g, 0, 0, parent)])
  }

  /** The stacked nodes are exactly the cells of `ns` not closed, each with
      cost `g` and parent `parent`. */
  lemma {:induction false} UnclosedCells(ns: seq<Pos>, closed: set<Pos>, g: int, parent: int)
    ensures forall i :: 0 <= i < |Unclosed(ns, closed, g, parent)| ==>
      var n := Unclosed(ns, closed, g, parent)[i];
      n.pos in ns && n.pos !in closed && n.g == g && n.parent == parent
    ensures forall p :: p in ns && p !in closed ==> p in Positions(Unclosed(ns, closed, g, parent))
  {
    if ns != [] {
      var pre, last := ns[..|ns| - 1], ns[|ns| - 1];
      UnclosedCells(pre, closed, g, parent);
      assert ns == pre + [last];
      var u, v := Unclosed(pre, closed, g, parent), Unclosed(ns, closed, g, parent);
      if last !in closed {
        PositionsAppend(u, Node(last, g, 0, 0, parent));
        assert v == u + [Node(last, g, 0, 0, parent)];
        forall i | 0 <= i < |v| ensures v[i].pos in ns {
          if i < |u| {
            assert v[i] == u[i];
          }
        }
      } else {
        assert v == u + [];
        assert v == u;
      }
      forall p | p in ns && p !in closed ensures p in Positions(v) {
        if p != last {
          assert p in pre;
          assert p in Positions(u);
        }
      }
    }
  }

  /** Stacking the unclosed neighbours of the node just expanded restores
      the outer invariant. */
  lemma {:induction false} Push(m: Maze, start: Pos, visited: seq<Pos>, arena: seq<Node>,
                                stack: seq<Node>, closed: set<Pos>, p: Pos, g: int, ns: seq<Pos>)
    requires WellFormed(m)
    requires Expanding(m, start, visited, arena, stack, closed)
    requires p == arena[|arena| - 1].pos && g == arena[|arena| - 1].g + 1
    requires ns == Neighbors(m, p)
    ensures Inv(m, start, visited, arena, stack + Unclosed(ns, closed, g, |arena| - 1), closed)
  {
    var u := Unclosed(ns, closed, g, |arena| - 1);
    PushLinked(m, start, arena, stack, closed, ns);
    PushRegion(m, arena, stack, closed, ns);
  }

  lemma {:induction false} PushLinked(m: Maze, start: Pos, arena: seq<Node>, stack: seq<Node>,
                                      closed: set<Pos>, ns: seq<Pos>)
    requires WellFormed(m)
    requires StackLinked(m, start, arena, stack) && arena != []
    requires ns == Neighbors(m, arena[|arena| - 1].pos)
    ensures StackLinked(m, start, arena,
                        stack + Unclosed(ns, closed, arena[|arena| - 1].g + 1, |arena| - 1))
  {
    var c := arena[|arena| - 1];
    var u := Unclosed(ns, closed, c.g + 1, |arena| - 1);
    UnclosedCells(ns, closed, c.g + 1, |arena| - 1);
    NeighborsSound(m, c.pos);
    var s := stack + u;
    forall i | 0 <= i < |s| ensures Linked(m, start, arena, s[i], |arena|) {
      if i < |stack| {
        assert s[i] == stack[i];
      } else {
        assert s[i] == u[i - |stack|];
      }
    }
  }

  lemma {:induction false} PushRegion(m: Maze, arena: seq<Node>, stack: seq<Node>,
                                      closed: set<Pos>, ns: seq<Pos>)
    requires WellFormed(m)
    requires arena != [] && ns == Neighbors(m, arena[|arena| - 1].pos)
    requires ClosedUpTo(m, arena, |arena| - 1, Region(closed, stack))
    ensures Region(closed, stack) <=
            Region(closed, stack + Unclosed(ns, closed, arena[|arena| - 1].g + 1, |arena| - 1))
    ensures ClosedUpTo(m, arena, |arena|,
                       Region(closed, stack + Unclosed(ns, closed, arena[|arena| - 1].g + 1, |arena| - 1)))
  {
    var u := Unclosed(ns, closed, arena[|arena| - 1].g + 1, |arena| - 1);
    UnclosedCells(ns, closed, arena[|arena| - 1].g + 1, |arena| - 1);
    RegionGrows(closed, stack, u, ns);
    NeighborsListed(m, arena[|arena| - 1].pos, Region(closed, stack + u));
    ClosedExtend(m, arena, Region(closed, stack), Region(closed, stack + u));
  }

  /** A set holding every neighbour of `p` holds every open cell next to `p`. */
  lemma NeighborsListed(m: Maze, p: Pos, region: set<Pos>)
    requires WellFormed(m)
    requires forall q :: q in Neighbors(m, p) ==> q in region
    ensures forall r :: Open(m, r) && Adjacent(p, r) ==> r in region
  {
    forall r | Open(m, r) && Adjacent(p, r) ensures r in region {
      NeighborsComplete(m, p, r);
    }
  }

  /** Stacking the unclosed cells of `ns` adds them to the region and
      keeps what was there. */
  lemma {:induction false} RegionGrows(closed: set<Pos>, stack: seq<Node>, u: seq<Node>, ns: seq<Pos>)
    requires forall p :: p in ns && p !in closed ==> p in Positions(u)
    ensures Region(closed, stack) <= Region(closed, stack + u)
    ensures forall p :: p in ns ==> p in Region(closed, stack + u)
  {
    PositionsConcat(stack, u);
  }

  /** The positions of two sequences of nodes one after the other. */
  lemma PositionsConcat(a: seq<Node>, b: seq<Node>)
    ensures Positions(a + b) == Positions(a) + Positions(b)
  {
    var l, r := Positions(a + b), Positions(a) + Positions(b);
    forall i | 0 <= i < |l| ensures l[i] == r[i] {
      if i < |a| {
        assert (a + b)[i] == a[i];
      } else {
        assert (a + b)[i] == b[i - |a|];
      }
    }
  }

  /** The node just expanded is the goal. */
  method Finish(m: Maze, start: Pos, end: Pos, time: real, visited: seq<Pos>, arena: seq<Node>,
                stack: seq<Node>, closed: set<Pos>)
    returns (r: SearchResult)
    requires WellFormed(m)
    requires Expanding(m, start, visited, arena, stack, closed)
    requires arena[|arena| - 1].pos == end
    ensures Reported(m, start, end, time, r) && Complete(m, start, end, r)
    ensures r.visited == visited
    ensures arena == [Node(start, 0, 0, 0, -1)] ==> r.path == [start]
  {
    r := Found(m, start, end, time, arena, visited);
    ChainIsPath(m, start, arena, |arena| - 1);
  }

  /** The stack ran out: nothing walkable from the start was missed, so
      the goal cannot be reached. */
  lemma {:induction false} Exhaust(m: Maze, start: Pos, end: Pos, visited: seq<Pos>,
                                   arena: seq<Node>, closed: set<Pos>)
    requires WellFormed(m)
    requires Inv(m, start, visited, arena, [], closed)
    requires end !in visited
    ensures !Reachable(m, start, end)
    ensures Traced(m, start, visited) && Swept(m, start, visited)
  {
    assert Region(closed, []) == closed;
    Enclosed(m, start, end, arena, closed);
    Sweep(m, start, arena, closed);
    ArenaSwept(m, start, arena);
  }

  /** The loop of `dfs` over the neighbours of the node being expanded. */
  method PushUnclosed(ns: seq<Pos>, stack: seq<Node>, closed: set<Pos>, g: int, parent: int)
    returns (stack': seq<Node>)
    ensures stack' == stack + Unclosed(ns, closed, g, parent)
  {
    stack' := stack;
    for k := 0 to |ns|
      invariant stack' == stack + Unclosed(ns[..k], closed, g, parent)
    {
      assert ns[..k + 1][..k] == ns[..k];
      if ns[k] !in closed {
        stack' := stack' + [Node(ns[k], g, 0, 0, parent)];
      }
    }
    assert ns[..|ns|] == ns;
  }

  /** The invariant of the loop of `dfs`, with what termination and the
      case `start == end` need. */
  ghost predicate Loop(m: Maze, start: Pos, end: Pos, visited: seq<Pos>, arena: seq<Node>,
                       stack: seq<Node>, closed: set<Pos>, universe: set<Pos>)
    requires WellFormed(m)
  {
    Inv(m, start, visited, arena, stack, closed) &&
    closed <= universe && Cells(m) + {start} <= universe && end !in visited &&
    (start == end ==> visited == [] && stack == [Node(start, 0, 0, 0, -1)])
  }

  /** One round of the loop of `dfs`: pop the top of the stack, skip it if
      its cell is closed, stop if it is the goal, otherwise stack its
      unclosed neighbours. */
  method Visit(m: Maze, start: Pos, end: Pos, time: real, visited: seq<Pos>, arena: seq<Node>,
               stack: seq<Node>, closed: set<Pos>, ghost universe: set<Pos>)
    returns (done: bool, r: SearchResult, visited': seq<Pos>, arena': seq<Node>,
             stack': seq<Node>, closed': set<Pos>)
    requires WellFormed(m)
    requires Loop(m, start, end, visited, arena, stack, closed, universe) && stack != []
    ensures done ==> Reported(m, start, end, time, r) && Complete(m, start, end, r)
    ensures done && start == end ==> r.path == [start] && r.visited == [start]
    ensures !done ==> Loop(m, start, end, visited', arena', stack', closed', universe)
    ensures !done ==> |universe - closed'| < |universe - closed| ||
                      (closed' == closed && |stack'| < |stack|)
  {
    var current := stack[|stack| - 1];
    stack' := stack[..|stack| - 1];
    done, r := false, Exhausted(time, []);
    if current.pos in closed {
      PopSkip(m, start, visited, arena, stack, closed);
      visited', arena', closed' := visited, arena, closed;
      return;
    }
    PopFresh(m, start, visited, arena, stack, closed);
    closed' := closed + {current.pos};
    visited' := visited + [current.pos];
    arena' := arena + [current];
    Progress(m, start, arena, stack, closed, universe);

    if current.pos.x == end.x && current.pos.z == end.z {
      done := true;
      r := Finish(m, start, end, time, visited', arena', stack', closed');
      return;
    }

    var ns := GetNeighbors(current.pos, m);
    Push(m, start, visited', arena', stack', closed', current.pos, current.g + 1, ns);
    stack' := PushUnclosed(ns, stack', closed', current.g + 1, |arena'| - 1);
  }

  /** Closing the cell of a stacked node shrinks the part of the universe
      not yet closed. */
  lemma Progress(m: Maze, start: Pos, arena: seq<Node>, stack: seq<Node>, closed: set<Pos>,
                 universe: set<Pos>)
    requires WellFormed(m)
    requires StackLinked(m, start, arena, stack) && stack != []
    requires closed <= universe && Cells(m) + {start} <= universe
    requires stack[|stack| - 1].pos !in closed
    ensures closed + {stack[|stack| - 1].pos} <= universe
    ensures |universe - (closed + {stack[|stack| - 1].pos})| < |universe - closed|
  {
    var c := stack[|stack| - 1];
    assert Linked(m, start, arena, c, |arena|);
    assert c.pos in universe;
    Shrink(universe, closed, closed + {c.pos});
  }

  /** `dfs`. */
  method Dfs(m: Maze, start: Pos, end: Pos, time: real) returns (r: SearchResult)
    requires WellFormed(m)
    ensures Reported(m, start, end, time, r) && Complete(m, start, end, r)
    ensures start == end ==> r.path == [start] && r.visited == [start]
  {
    var visited: seq<Pos> := [];
    var arena: seq<Node> := [];
    var stack: seq<Node> := [Node(start, 0, 0, 0, -1)];
    var closed: set<Pos> := {};
    ghost var universe := Cells(m) + {start};
    Init(m, start);

    while stack != []
      invariant Loop(m, start, end, visited, arena, stack, closed, universe)
      decreases |universe - closed|, |stack|
    {
      var done;
      done, r, visited, arena, stack, closed :=
        Visit(m, start, end, time, visited, arena, stack, closed, universe);
      if done {
        return;
      }
    }
    Exhaust(m, start, end, visited, arena, closed);
    r := Exhausted(time, visited);
  }
}
