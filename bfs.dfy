/** Breadth-first search: a FIFO queue, cells marked seen when enqueued. */
module Bfs {
  import opened Grid
  import opened Search
  import opened Reach

  /** Every queued node hangs off the start or off an expanded node. */
  predicate QueueLinked(m: Maze, start: Pos, arena: seq<Node>, queue: seq<Node>)
    requires WellFormed(m)
  {
    forall i :: 0 <= i < |queue| ==> Linked(m, start, arena, queue[i], |arena|)
  }

  /** The bookkeeping of the search: `visited` lists the expanded nodes, the
      seen set is what was expanded or is queued, and no cell is in both or
      twice in either. */
  predicate Books(m: Maze, start: Pos, visited: seq<Pos>, arena: seq<Node>,
                  queue: seq<Node>, seen: set<Pos>)
    requires WellFormed(m)
  {
    ValidArena(m, start, arena) && visited == Positions(arena) &&
    QueueLinked(m, start, arena, queue) &&
    seen == Elems(visited) + Elems(Positions(queue)) &&
    Distinct(visited + Positions(queue))
  }

  /** The queue holds the cells of cost `level` before those of cost
      `level + 1`, and nothing else; expanded cells cost at most `level`. */
  predicate Layered(arena: seq<Node>, queue: seq<Node>, level: int) {
    (forall i :: 0 <= i < |arena| ==> arena[i].g <= level) &&
    (forall i :: 0 <= i < |queue| ==> level <= queue[i].g <= level + 1) &&
    (forall i, j :: 0 <= i < j < |queue| ==> Costs(queue)[i] <= Costs(queue)[j])
  }

  /** Every cell within `level` steps has been seen. */
  ghost predicate Covers(m: Maze, start: Pos, seen: set<Pos>, level: int)
    requires WellFormed(m)
  {
    forall p :: Within(m, start, p, level) ==> p in seen
  }

  /** What makes the search breadth-first: the layers, exact costs and
      the cells already seen. */
  ghost predicate Optimal(m: Maze, start: Pos, arena: seq<Node>, queue: seq<Node>,
                          seen: set<Pos>, level: int)
    requires WellFormed(m)
  {
    Layered(arena, queue, level) && Covers(m, start, seen, level) &&
    Exact(m, start, arena) && Exact(m, start, queue)
  }

  /** The invariant of the outer loop. */
  ghost predicate Inv(m: Maze, start: Pos, visited: seq<Pos>, arena: seq<Node>,
                      queue: seq<Node>, seen: set<Pos>, level: int)
    requires WellFormed(m)
  {
    Books(m, start, visited, arena, queue, seen) &&
    Optimal(m, start, arena, queue, seen, level) &&
    ClosedUpTo(m, arena, |arena|, seen)
  }

  /** The invariant while the neighbours of the last expanded node are queued. */
  ghost predicate Expanding(m: Maze, start: Pos, visited: seq<Pos>, arena: seq<Node>,
                            queue: seq<Node>, seen: set<Pos>, level: int)
    requires WellFormed(m)
  {
    Books(m, start, visited, arena, queue, seen) &&
    Optimal(m, start, arena, queue, seen, level) &&
    arena != [] && arena[|arena| - 1].g == level &&
    ClosedUpTo(m, arena, |arena| - 1, seen)
  }

  lemma Init(m: Maze, start: Pos)
    requires WellFormed(m)
    ensures Inv(m, start, [], [], [Node(start, 0, 0, 0, -1)], {start}, 0)
  {
    var queue := [Node(start, 0, 0, 0, -1)];
    assert Positions(queue) == [start];
    forall p | Within(m, start, p, 0) ensures p in {start} {
      WithinZero(m, start, p);
    }
    assert AtLeast(m, start, start, 0);
  }

  /** When the queue's front moves to the next layer, every cell within
      that many steps has already been seen. */
  lemma {:induction false} LevelUp(m: Maze, start: Pos, arena: seq<Node>, queue: seq<Node>,
                                   seen: set<Pos>, level: nat)
    requires WellFormed(m)
    requires seen == Elems(Positions(arena)) + Elems(Positions(queue))
    requires forall i :: 0 <= i < |queue| ==> queue[i].g == level + 1
    requires Exact(m, start, queue)
    requires ClosedUpTo(m, arena, |arena|, seen)
    requires Covers(m, start, seen, level)
    ensures Covers(m, start, seen, level + 1)
  {
    forall p | Within(m, start, p, level + 1) ensures p in seen {
      WithinBack(m, start, p, level);
      if !Within(m, start, p, level) {
        var r :| Within(m, start, r, level) && Adjacent(r, p) && Open(m, p);
        forall i | 0 <= i < |queue| ensures queue[i].pos != r {
          AtLeastNotWithin(m, start, queue[i].pos, level + 1);
        }
        assert r !in Positions(queue);
        var i :| 0 <= i < |arena| && Positions(arena)[i] == r;
        assert arena[i].pos == r;
      }
    }
  }

  /** Taking the front of the queue and expanding it keeps the bookkeeping. */
  lemma PopBooks(m: Maze, start: Pos, visited: seq<Pos>, arena: seq<Node>,
                 queue: seq<Node>, seen: set<Pos>)
    requires WellFormed(m)
    requires Books(m, start, visited, arena, queue, seen) && queue != []
    ensures Books(m, start, visited + [queue[0].pos], arena + [queue[0]], queue[1..], seen)
  {
    PopLinks(m, start, arena, queue);
    PopSeen(visited, arena, queue, seen);
  }

  lemma PopLinks(m: Maze, start: Pos, arena: seq<Node>, queue: seq<Node>)
    requires WellFormed(m)
    requires ValidArena(m, start, arena) && QueueLinked(m, start, arena, queue) && queue != []
    ensures ValidArena(m, start, arena + [queue[0]])
    ensures QueueLinked(m, start, arena + [queue[0]], queue[1..])
  {
    var c, rest := queue[0], queue[1..];
    ValidArenaGrow(m, start, arena, c);
    forall i | 0 <= i < |rest| ensures Linked(m, start, arena + [c], rest[i], |arena| + 1) {
      LinkedGrow(m, start, arena, queue[i + 1], c);
    }
  }

  lemma PopSeen(visited: seq<Pos>, arena: seq<Node>, queue: seq<Node>, seen: set<Pos>)
    requires visited == Positions(arena) && queue != []
    requires seen == Elems(visited) + Elems(Positions(queue))
    requires Distinct(visited + Positions(queue))
    ensures visited + [queue[0].pos] == Positions(arena + [queue[0]])
    ensures seen == Elems(visited + [queue[0].pos]) + Elems(Positions(queue[1..]))
    ensures Distinct(visited + [queue[0].pos] + Positions(queue[1..]))
  {
    PositionsAppend(arena, queue[0]);
    PositionsTail(queue);
    Regroup(visited, queue[0].pos, Positions(queue[1..]));
  }

  /** Moving the front of the queue to the end of the trace changes neither
      the cells covered nor the order of the whole. */
  lemma Regroup(v: seq<Pos>, c: Pos, rest: seq<Pos>)
    ensures (v + [c]) + rest == v + ([c] + rest)
    ensures Elems(v + [c]) + Elems(rest) == Elems(v) + Elems([c] + rest)
  {
  }

  /** Taking the front of the queue keeps the layers, and lifts the level
      when the front is of the next layer. */
  lemma PopOptimal(m: Maze, start: Pos, arena: seq<Node>, queue: seq<Node>,
                   seen: set<Pos>, level: nat)
    returns (level': nat)
    requires WellFormed(m)
    requires seen == Elems(Positions(arena)) + Elems(Positions(queue))
    requires Optimal(m, start, arena, queue, seen, level) && queue != []
    requires ClosedUpTo(m, arena, |arena|, seen)
    ensures level' == if queue[0].g == level + 1 then level + 1 else level
    ensures Optimal(m, start, arena + [queue[0]], queue[1..], seen, level')
    ensures queue[0].g == level'
  {
    level' := level;
    if queue[0].g == level + 1 {
      assert forall i :: 0 <= i < |queue| ==> queue[i].g == level + 1 by {
        forall i | 0 <= i < |queue| ensures queue[i].g == level + 1 {
          if i > 0 {
            assert Costs(queue)[0] <= Costs(queue)[i];
          }
        }
      }
      LevelUp(m, start, arena, queue, seen, level);
      level' := level + 1;
    }
    PopLayers(m, start, arena, queue, level, level');
  }

  lemma PopLayers(m: Maze, start: Pos, arena: seq<Node>, queue: seq<Node>, level: int, level': int)
    requires WellFormed(m)
    requires Layered(arena, queue, level) && queue != []
    requires Exact(m, start, arena) && Exact(m, start, queue)
    requires level' == if queue[0].g == level + 1 then level + 1 else level
    ensures Layered(arena + [queue[0]], queue[1..], level')
    ensures Exact(m, start, arena + [queue[0]]) && Exact(m, start, queue[1..])
    ensures queue[0].g == level'
  {
    var c, rest := queue[0], queue[1..];
    var a := arena + [c];
    forall i | 0 <= i < |a| ensures AtLeast(m, start, a[i].pos, a[i].g) && a[i].g <= level' {
      if i < |arena| {
        assert a[i] == arena[i];
      }
    }
    forall i | 0 <= i < |rest|
      ensures AtLeast(m, start, rest[i].pos, rest[i].g) && level' <= rest[i].g <= level' + 1
    {
      assert rest[i] == queue[i + 1];
      assert Costs(queue)[0] <= Costs(queue)[i + 1];
    }
    forall i, j | 0 <= i < j < |rest| ensures Costs(rest)[i] <= Costs(rest)[j] {
      assert rest[i] == queue[i + 1] && rest[j] == queue[j + 1];
      assert Costs(queue)[i + 1] <= Costs(queue)[j + 1];
    }
  }

  /** Queuing an unseen open neighbour of the node being expanded keeps
      the bookkeeping. */
  lemma {:induction false} PushBooks(m: Maze, start: Pos, visited: seq<Pos>, arena: seq<Node>,
                                     queue: seq<Node>, seen: set<Pos>, np: Pos)
    requires WellFormed(m)
    requires Books(m, start, visited, arena, queue, seen) && arena != []
    requires Open(m, np) && Adjacent(arena[|arena| - 1].pos, np) && np !in seen
    ensures Books(m, start, visited, arena,
                  queue + [Node(np, arena[|arena| - 1].g + 1, 0, 0, |arena| - 1)], seen + {np})
  {
    var child := Node(np, arena[|arena| - 1].g + 1, 0, 0, |arena| - 1);
    var q := queue + [child];
    PositionsAppend(queue, child);
    forall i | 0 <= i < |q| ensures Linked(m, start, arena, q[i], |arena|) {
      if i < |queue| {
        assert q[i] == queue[i];
      }
    }
    var all := visited + Positions(queue);
    assert visited + Positions(q) == all + [np];
    assert np !in all;
    forall i, j | 0 <= i < j < |all + [np]| ensures (all + [np])[i] != (all + [np])[j] {
      if j < |all| {
        assert (all + [np])[i] == all[i] && (all + [np])[j] == all[j];
      }
    }
  }

  lemma {:induction false} PushOptimal(m: Maze, start: Pos, arena: seq<Node>, queue: seq<Node>,
                                       seen: set<Pos>, level: int, np: Pos)
    requires WellFormed(m)
    requires Optimal(m, start, arena, queue, seen, level)
    requires arena != [] && arena[|arena| - 1].g == level
    requires np !in seen
    ensures Optimal(m, start, arena,
                    queue + [Node(np, arena[|arena| - 1].g + 1, 0, 0, |arena| - 1)], seen + {np}, level)
  {
    var child := Node(np, arena[|arena| - 1].g + 1, 0, 0, |arena| - 1);
    var q := queue + [child];
    AtLeastNotWithin(m, start, np, level + 1);
    forall i | 0 <= i < |q| ensures AtLeast(m, start, q[i].pos, q[i].g) && level <= q[i].g <= level + 1 {
      if i < |queue| {
        assert q[i] == queue[i];
      }
    }
    forall i, j | 0 <= i < j < |q| ensures Costs(q)[i] <= Costs(q)[j] {
      if j < |queue| {
        assert q[i] == queue[i] && q[j] == queue[j];
        assert Costs(queue)[i] <= Costs(queue)[j];
      } else {
        assert q[i] == queue[i];
      }
    }
  }

  /** Taking the front of the queue and appending it to the trace and the
      arena starts its expansion. */
  lemma Pop(m: Maze, start: Pos, visited: seq<Pos>, arena: seq<Node>,
            queue: seq<Node>, seen: set<Pos>, level: nat)
    returns (level': nat)
    requires WellFormed(m)
    requires Inv(m, start, visited, arena, queue, seen, level) && queue != []
    ensures level' == if queue[0].g == level + 1 then level + 1 else level
    ensures Expanding(m, start, visited + [queue[0].pos], arena + [queue[0]], queue[1..], seen, level')
  {
    PopBooks(m, start, visited, arena, queue, seen);
    level' := PopOptimal(m, start, arena, queue, seen, level);
    ClosedGrow(m, arena, queue[0], seen);
  }

  /** Queuing an unseen open neighbour of the node being expanded. */
  lemma Push(m: Maze, start: Pos, visited: seq<Pos>, arena: seq<Node>,
             queue: seq<Node>, seen: set<Pos>, level: nat, np: Pos, child: Node)
    requires WellFormed(m)
    requires Expanding(m, start, visited, arena, queue, seen, level)
    requires Open(m, np) && Adjacent(arena[|arena| - 1].pos, np) && np !in seen
    requires child == Node(np, arena[|arena| - 1].g + 1, 0, 0, |arena| - 1)
    ensures Expanding(m, start, visited, arena, queue + [child], seen + {np}, level)
  {
    PushBooks(m, start, visited, arena, queue, seen, np);
    PushOptimal(m, start, arena, queue, seen, level, np);
  }

  /** Once every open neighbour of the node being expanded is seen, the
      outer invariant holds again. */
  lemma Close(m: Maze, start: Pos, visited: seq<Pos>, arena: seq<Node>,
              queue: seq<Node>, seen: set<Pos>, level: nat)
    requires WellFormed(m)
    requires Expanding(m, start, visited, arena, queue, seen, level)
    requires forall r :: Open(m, r) && Adjacent(arena[|arena| - 1].pos, r) ==> r in seen
    ensures Inv(m, start, visited, arena, queue, seen, level)
  {
  }

  /** The node just expanded is the goal: the trace has no repeats and the
      path is as short as any walk. */
  lemma Arrived(m: Maze, start: Pos, end: Pos, visited: seq<Pos>, arena: seq<Node>,
                queue: seq<Node>, seen: set<Pos>, level: nat)
    requires WellFormed(m)
    requires Expanding(m, start, visited, arena, queue, seen, level)
    requires arena[|arena| - 1].pos == end
    ensures Distinct(visited)
    ensures forall q :: IsPath(m, q, start, end) ==> arena[|arena| - 1].g + 1 <= |q|
  {
    forall i, j | 0 <= i < j < |visited| ensures visited[i] != visited[j] {
      assert (visited + Positions(queue))[i] == visited[i];
      assert (visited + Positions(queue))[j] == visited[j];
    }
    assert AtLeast(m, start, arena[|arena| - 1].pos, arena[|arena| - 1].g);
  }

  /** The result of `bfs` when the node just expanded is the goal. */
  method Finish(m: Maze, start: Pos, end: Pos, time: real, visited: seq<Pos>, arena: seq<Node>,
                queue: seq<Node>, seen: set<Pos>, ghost level: nat)
    returns (r: SearchResult)
    requires WellFormed(m)
    requires Expanding(m, start, visited, arena, queue, seen, level)
    requires arena[|arena| - 1].pos == end
    ensures Reported(m, start, end, time, r) && Shortest(m, start, end, r)
    ensures r.visited == visited
    ensures arena == [Node(start, 0, 0, 0, -1)] ==> r.path == [start]
  {
    Arrived(m, start, end, visited, arena, queue, seen, level);
    r := Found(m, start, end, time, arena, visited);
    ChainIsPath(m, start, arena, |arena| - 1);
  }

  /** The queue ran out: the trace has no repeats and nothing walkable from
      the start was missed, so the goal cannot be reached. */
  lemma Exhaust(m: Maze, start: Pos, end: Pos, visited: seq<Pos>, arena: seq<Node>,
                seen: set<Pos>, level: nat)
    requires WellFormed(m)
    requires Inv(m, start, visited, arena, [], seen, level)
    requires end !in visited
    ensures Distinct(visited)
    ensures !Reachable(m, start, end)
    ensures Traced(m, start, visited) && Swept(m, start, visited)
  {
    assert visited + Positions([]) == visited;
    assert start in seen by {
      WithinStart(m, start);
    }
    Enclosed(m, start, end, arena, seen);
    Sweep(m, start, arena, seen);
    ArenaSwept(m, start, arena);
  }

  /** The nodes the loop over `ns` queues: each cell not seen before and
      not listed earlier in `ns`, in order, with cost `g` and parent `parent`. */
  function Fresh(ns: seq<Pos>, seen: set<Pos>, g: int, parent: int): seq<Node>
  {
    if ns == [] then []
    else
      var pre, last := ns[..|ns| - 1], ns[|ns| - 1];
      Fresh(pre, seen, g, parent) +
        (if last in seen || last in pre then [] else [Node(last, g, 0, 0, parent)])
  }

  /** Queuing the fresh cells among the first `k` neighbours keeps the
      invariant of the expansion. */
  lemma {:induction false} ExpandPrefix(m: Maze, start: Pos, visited: seq<Pos>, arena: seq<Node>,
                                        queue: seq<Node>, seen: set<Pos>, level: nat,
                                        ns: seq<Pos>, g: int, parent: int, k: nat)
    requires WellFormed(m)
    requires Expanding(m, start, visited, arena, queue, seen, level)
    requires parent == |arena| - 1 && g == arena[parent].g + 1
    requires forall i :: 0 <= i < |ns| ==> Open(m, ns[i]) && Adjacent(arena[parent].pos, ns[i])
    requires k <= |ns|
    ensures Expanding(m, start, visited, arena, queue + Fresh(ns[..k], seen, g, parent),
                      seen + Elems(ns[..k]), level)
  {
    if k == 0 {
      FreshStart(queue, ns, seen, g, parent);
    } else {
      ExpandPrefix(m, start, visited, arena, queue, seen, level, ns, g, parent, k - 1);
      ExpandOne(m, start, visited, arena, queue, seen, level, ns, g, parent, k);
    }
  }

  /** Handling the `k`-th neighbour keeps the invariant of the expansion. */
  lemma ExpandOne(m: Maze, start: Pos, visited: seq<Pos>, arena: seq<Node>,
                  queue: seq<Node>, seen: set<Pos>, level: nat,
                  ns: seq<Pos>, g: int, parent: int, k: nat)
    requires WellFormed(m)
    requires 0 < k <= |ns|
    requires Expanding(m, start, visited, arena, queue + Fresh(ns[..k - 1], seen, g, parent),
                       seen + Elems(ns[..k - 1]), level)
    requires parent == |arena| - 1 && g == arena[parent].g + 1
    requires Open(m, ns[k - 1]) && Adjacent(arena[parent].pos, ns[k - 1])
    ensures Expanding(m, start, visited, arena, queue + Fresh(ns[..k], seen, g, parent),
                      seen + Elems(ns[..k]), level)
  {
    var np := ns[k - 1];
    var q0, s0 := queue + Fresh(ns[..k - 1], seen, g, parent), seen + Elems(ns[..k - 1]);
    var q1, s1 := queue + Fresh(ns[..k], seen, g, parent), seen + Elems(ns[..k]);
    FreshStep(queue, ns, k, seen, g, parent);
    if np in s0 {
      assert q1 == q0 && s1 == s0;
    } else {
      var child := Node(np, g, 0, 0, parent);
      Push(m, start, visited, arena, q0, s0, level, np, child);
      assert q1 == q0 + [child] && s1 == s0 + {np};
    }
  }

  lemma FreshStart(queue: seq<Node>, ns: seq<Pos>, seen: set<Pos>, g: int, parent: int)
    ensures queue + Fresh(ns[..0], seen, g, parent) == queue
    ensures seen + Elems(ns[..0]) == seen
  {
    assert ns[..0] == [];
  }

  /** One more neighbour queues one more node exactly when it is fresh. */
  lemma FreshStep(queue: seq<Node>, ns: seq<Pos>, k: nat, seen: set<Pos>, g: int, parent: int)
    requires 0 < k <= |ns|
    ensures var np, q0, s0 := ns[k - 1], queue + Fresh(ns[..k - 1], seen, g, parent), seen + Elems(ns[..k - 1]);
      && seen + Elems(ns[..k]) == s0 + {ns[k - 1]}
      && queue + Fresh(ns[..k], seen, g, parent) ==
         (if np in s0 then q0 else q0 + [Node(np, g, 0, 0, parent)])
  {
    var pre, np := ns[..k - 1], ns[k - 1];
    assert ns[..k][..k - 1] == pre;
    assert ns[..k] == pre + [np];
    assert Elems(ns[..k]) == Elems(pre) + {np};
  }

  /** Nothing is queued exactly when nothing new was seen. */
  lemma {:induction false} FreshEmpty(ns: seq<Pos>, seen: set<Pos>, g: int, parent: int)
    ensures Fresh(ns, seen, g, parent) == [] <==> seen + Elems(ns) == seen
  {
    if ns != [] {
      var pre, last := ns[..|ns| - 1], ns[|ns| - 1];
      FreshEmpty(pre, seen, g, parent);
      assert ns == pre + [last];
      assert Elems(ns) == Elems(pre) + {last};
    }
  }

  /** Queuing the fresh open neighbours of the node just expanded restores
      the outer invariant. */
  lemma Expand(m: Maze, start: Pos, visited: seq<Pos>, arena: seq<Node>,
               queue: seq<Node>, seen: set<Pos>, level: nat, p: Pos, g: int, ns: seq<Pos>)
    requires WellFormed(m)
    requires Expanding(m, start, visited, arena, queue, seen, level)
    requires p == arena[|arena| - 1].pos && g == arena[|arena| - 1].g + 1
    requires ns == Neighbors(m, p)
    ensures Inv(m, start, visited, arena, queue + Fresh(ns, seen, g, |arena| - 1),
                seen + Elems(ns), level)
  {
    ExpandAll(m, start, visited, arena, queue, seen, level, ns);
    NeighborsSeen(m, p, seen);
    Close(m, start, visited, arena, queue + Fresh(ns, seen, g, |arena| - 1), seen + Elems(ns), level);
  }

  lemma ExpandAll(m: Maze, start: Pos, visited: seq<Pos>, arena: seq<Node>,
                  queue: seq<Node>, seen: set<Pos>, level: nat, ns: seq<Pos>)
    requires WellFormed(m)
    requires Expanding(m, start, visited, arena, queue, seen, level)
    requires ns == Neighbors(m, arena[|arena| - 1].pos)
    ensures Expanding(m, start, visited, arena,
                      queue + Fresh(ns, seen, arena[|arena| - 1].g + 1, |arena| - 1),
                      seen + Elems(ns), level)
  {
    NeighborsSound(m, arena[|arena| - 1].pos);
    ExpandPrefix(m, start, visited, arena, queue, seen, level, ns, arena[|arena| - 1].g + 1, |arena| - 1, |ns|);
    assert ns[..|ns|] == ns;
  }

  /** After its neighbours are added, every open cell next to `p` is seen. */
  lemma NeighborsSeen(m: Maze, p: Pos, seen: set<Pos>)
    requires WellFormed(m)
    ensures forall r :: Open(m, r) && Adjacent(p, r) ==> r in seen + Elems(Neighbors(m, p))
  {
    forall r | Open(m, r) && Adjacent(p, r) ensures r in seen + Elems(Neighbors(m, p)) {
      NeighborsComplete(m, p, r);
    }
  }

  /** The neighbours of a cell lie in the grid. */
  lemma NeighborsInside(m: Maze, p: Pos)
    requires WellFormed(m)
    ensures Elems(Neighbors(m, p)) <= Cells(m)
  {
    var ns := Neighbors(m, p);
    NeighborsSound(m, p);
    forall r | r in Elems(ns) ensures r in Cells(m) {
      var i :| 0 <= i < |ns| && ns[i] == r;
    }
  }

  /** Expanding a node either marks a new cell seen or leaves both the seen
      set and the queue as they were. */
  lemma Progress(m: Maze, universe: set<Pos>, p: Pos, queue: seq<Node>, seen: set<Pos>,
                 g: int, parent: int)
    requires WellFormed(m)
    requires seen <= universe && Cells(m) <= universe
    ensures var ns := Neighbors(m, p);
      && seen + Elems(ns) <= universe
      && (|universe - (seen + Elems(ns))| < |universe - seen| ||
          queue + Fresh(ns, seen, g, parent) == queue)
  {
    var ns := Neighbors(m, p);
    NeighborsInside(m, p);
    FreshEmpty(ns, seen, g, parent);
    if seen + Elems(ns) != seen {
      Shrink(universe, seen, seen + Elems(ns));
    } else {
      assert queue + [] == queue;
    }
  }

  /** The loop of `bfs` over the neighbours of the node being expanded. */
  method EnqueueFresh(ns: seq<Pos>, queue: seq<Node>, seen: set<Pos>, g: int, parent: int)
    returns (queue': seq<Node>, seen': set<Pos>)
    ensures queue' == queue + Fresh(ns, seen, g, parent)
    ensures seen' == seen + Elems(ns)
  {
    queue', seen' := queue, seen;
    for k := 0 to |ns|
      invariant queue' == queue + Fresh(ns[..k], seen, g, parent)
      invariant seen' == seen + Elems(ns[..k])
    {
      FreshStep(queue, ns, k + 1, seen, g, parent);
      if ns[k] !in seen' {
        seen' := seen' + {ns[k]};
        queue' := queue' + [Node(ns[k], g, 0, 0, parent)];
      }
    }
    assert ns[..|ns|] == ns;
  }

  /** The invariant of the loop of `bfs`, with what termination and the
      case `start == end` need. */
  ghost predicate Loop(m: Maze, start: Pos, end: Pos, visited: seq<Pos>, arena: seq<Node>,
                       queue: seq<Node>, seen: set<Pos>, level: int, universe: set<Pos>)
    requires WellFormed(m)
  {
    Inv(m, start, visited, arena, queue, seen, level) &&
    seen <= universe && Cells(m) <= universe && end !in visited &&
    (start == end ==> visited == [] && queue == [Node(start, 0, 0, 0, -1)])
  }

  /** One round of the loop of `bfs`: take the front of the queue, stop if
      it is the goal, otherwise queue its unseen neighbours. */
  method Visit(m: Maze, start: Pos, end: Pos, time: real, visited: seq<Pos>, arena: seq<Node>,
               queue: seq<Node>, seen: set<Pos>, ghost level: nat, ghost universe: set<Pos>)
    returns (done: bool, r: SearchResult, visited': seq<Pos>, arena': seq<Node>,
             queue': seq<Node>, seen': set<Pos>, ghost level': nat)
    requires WellFormed(m)
    requires Loop(m, start, end, visited, arena, queue, seen, level, universe) && queue != []
    ensures done ==> Reported(m, start, end, time, r) && Shortest(m, start, end, r)
    ensures done && start == end ==> r.path == [start] && r.visited == [start]
    ensures !done ==> Loop(m, start, end, visited', arena', queue', seen', level', universe)
    ensures !done ==> |universe - seen'| < |universe - seen| ||
                      (seen' == seen && |queue'| < |queue|)
  {
    level' := Pop(m, start, visited, arena, queue, seen, level);
    var current := queue[0];
    queue' := queue[1..];
    arena' := arena + [current];
    visited' := visited + [current.pos];
    seen' := seen;

    if current.pos.x == end.x && current.pos.z == end.z {
      done := true;
      r := Finish(m, start, end, time, visited', arena', queue', seen', level');
      return;
    }
    done, r := false, Exhausted(time, []);
    var ns := GetNeighbors(current.pos, m);
    Expand(m, start, visited', arena', queue', seen', level', current.pos, current.g + 1, ns);
    Progress(m, universe, current.pos, queue', seen', current.g + 1, |arena'| - 1);
    queue', seen' := EnqueueFresh(ns, queue', seen', current.g + 1, |arena'| - 1);
  }

  /** `bfs`. */
  method Bfs(m: Maze, start: Pos, end: Pos, time: real) returns (r: SearchResult)
    requires WellFormed(m)
    ensures Reported(m, start, end, time, r) && Shortest(m, start, end, r)
    ensures start == end ==> r.path == [start] && r.visited == [start]
  {
    var visited: seq<Pos> := [];
    var arena: seq<Node> := [];
    var queue: seq<Node> := [Node(start, 0, 0, 0, -1)];
    var seen: set<Pos> := {start};
    ghost var level: nat := 0;
    ghost var universe := Cells(m) + {start};
    Init(m, start);

    while queue != []
      invariant Loop(m, start, end, visited, arena, queue, seen, level, universe)
      decreases |universe - seen|, |queue|
    {
      var done;
      done, r, visited, arena, queue, seen, level :=
        Visit(m, start, end, time, visited, arena, queue, seen, level, universe);
      if done {
        return;
      }
    }
    Exhaust(m, start, end, visited, arena, seen, level);
    r := Exhausted(time, visited);
  }
}
