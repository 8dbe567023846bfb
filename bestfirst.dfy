/** What uniform-cost search and A* share: an open list sorted by a cost
    key before each pop, a closed set of expanded cells, and the
    relaxation of the neighbours of each expanded node, which adds a cell
    to the open list or lowers the cost of its entry. The optimality
    argument is Dijkstra's: with unit steps and a consistent estimate, a
    node popped with the least key already has the least cost. */
module BestFirst {
  import opened Grid
  import opened Reach
  import opened Search
  import opened Sorting

  /** The estimate of the distance left: the Manhattan heuristic for A*
      (`informed`), nothing for uniform-cost search. */
  function Estimate(informed: bool, p: Pos, end: Pos): nat {
    if informed then Heuristic(p, end) else 0
  }

  /** A node as the searches build it, with `f = g + h`. */
  function MakeNode(informed: bool, end: Pos, p: Pos, g: int, parent: int): Node {
    Node(p, g, Estimate(informed, p, end), g + Estimate(informed, p, end), parent)
  }

  predicate Scored(informed: bool, end: Pos, n: Node) {
    n.h == Estimate(informed, n.pos, end) && n.f == n.g + n.h
  }

  /** The sort keys: `f` for A*, `g` for uniform-cost search. */
  function ByF(n: Node): real {
    n.f as real
  }

  function ByG(n: Node): real {
    n.g as real
  }

  function PosOf(n: Node): Pos {
    n.pos
  }

  /** `findIndex` on the open list: the first entry for `p`, or -1. */
  function IndexOf(open: seq<Node>, p: Pos): (i: int)
    ensures -1 <= i < |open|
    ensures 0 <= i ==> open[i].pos == p
    ensures forall j :: 0 <= j < |open| && (i == -1 || j < i) ==> open[j].pos != p
  {
    if open == [] then -1
    else if open[0].pos == p then 0
    else
      var i := IndexOf(open[1..], p);
      if i == -1 then -1 else i + 1
  }

  /** One round of the loop over the neighbours: a closed cell is
      skipped; a cell without an entry is appended; an entry is replaced
      by the new node when that costs less, and kept otherwise. */
  function Step(informed: bool, end: Pos, open: seq<Node>, closed: set<Pos>,
                p: Pos, g: int, parent: int): seq<Node>
  {
    if p in closed then open
    else
      var i := IndexOf(open, p);
      if i == -1 then open + [MakeNode(informed, end, p, g, parent)]
      else if g < open[i].g then open[i := MakeNode(informed, end, p, g, parent)]
      else open
  }

  /** The open list after the loop over the cells `ns`. */
  function Relax(informed: bool, end: Pos, open: seq<Node>, closed: set<Pos>,
                 ns: seq<Pos>, g: int, parent: int): seq<Node>
  {
    if ns == [] then open
    else Step(informed, end, Relax(informed, end, open, closed, ns[..|ns| - 1], g, parent),
              closed, ns[|ns| - 1], g, parent)
  }

  /** Some open entry for `r` costs at most `b`. */
  predicate Offers(open: seq<Node>, r: Pos, b: int) {
    exists j :: 0 <= j < |open| && open[j].pos == r && open[j].g <= b
  }

  /** Every open entry hangs off the start or off an expanded node and
      carries the estimate of its cell. */
  predicate OpenLinked(m: Maze, start: Pos, end: Pos, informed: bool, arena: seq<Node>,
                       open: seq<Node>)
    requires WellFormed(m)
  {
    forall i :: 0 <= i < |open| ==>
      Linked(m, start, arena, open[i], |arena|) && Scored(informed, end, open[i])
  }

  /** The bookkeeping: `visited` lists the expanded nodes, the closed set
      holds their cells, and there are as many cells as entries, so none
      repeats. */
  predicate Books(m: Maze, start: Pos, end: Pos, informed: bool, visited: seq<Pos>,
                  arena: seq<Node>, open: seq<Node>, closed: set<Pos>)
    requires WellFormed(m)
  {
    ValidArena(m, start, arena) && visited == Positions(arena) &&
    closed == Elems(visited) && |closed| == |visited| &&
    OpenLinked(m, start, end, informed, arena, open)
  }

  /** The start is closed or offered at cost 0, and every open cell next
      to one of the first `n` expanded nodes is closed or offered at one
      more than that node's cost. */
  ghost predicate Offered(m: Maze, start: Pos, arena: seq<Node>, n: int, open: seq<Node>,
                          closed: set<Pos>)
    requires WellFormed(m)
    requires 0 <= n <= |arena|
  {
    (start !in closed ==> Offers(open, start, 0)) &&
    forall i, r {:trigger Adjacent(arena[i].pos, r)} ::
      0 <= i < n && Open(m, r) && Adjacent(arena[i].pos, r) && r !in closed ==>
        Offers(open, r, arena[i].g + 1)
  }

  /** The invariant of the outer loop. */
  ghost predicate Inv(m: Maze, start: Pos, end: Pos, informed: bool, visited: seq<Pos>,
                      arena: seq<Node>, open: seq<Node>, closed: set<Pos>)
    requires WellFormed(m)
  {
    Books(m, start, end, informed, visited, arena, open, closed) &&
    Exact(m, start, arena) && Offered(m, start, arena, |arena|, open, closed)
  }

  /** The invariant while the neighbours of the last expanded node are relaxed. */
  ghost predicate Expanding(m: Maze, start: Pos, end: Pos, informed: bool, visited: seq<Pos>,
                            arena: seq<Node>, open: seq<Node>, closed: set<Pos>)
    requires WellFormed(m)
  {
    Books(m, start, end, informed, visited, arena, open, closed) && arena != [] &&
    Exact(m, start, arena) && Offered(m, start, arena, |arena| - 1, open, closed)
  }

  lemma Init(m: Maze, start: Pos, end: Pos, informed: bool)
    requires WellFormed(m)
    ensures Inv(m, start, end, informed, [], [], [MakeNode(informed, end, start, 0, -1)], {})
  {
    var open := [MakeNode(informed, end, start, 0, -1)];
    assert open[0].pos == start && open[0].g <= 0;
  }

  /** Offers carried from one open list to another holding its entries. */
  lemma OffersMove(from: seq<Node>, to: seq<Node>, r: Pos, b: int)
    requires forall i :: 0 <= i < |from| ==> from[i] in to
    requires Offers(from, r, b)
    ensures Offers(to, r, b)
  {
    var j :| 0 <= j < |from| && from[j].pos == r && from[j].g <= b;
    var k :| 0 <= k < |to| && to[k] == from[j];
  }

  /** An offer for a cell other than the head survives taking the head. */
  lemma OffersTail(open: seq<Node>, r: Pos, b: int)
    requires open != [] && open[0].pos != r
    requires Offers(open, r, b)
    ensures Offers(open[1..], r, b)
  {
    var j :| 0 <= j < |open| && open[j].pos == r && open[j].g <= b;
    assert open[1..][j - 1] == open[j];
  }

  /** Sorting the open list keeps the invariant and puts a least key first. */
  lemma {:induction false} SortKeeps(m: Maze, start: Pos, end: Pos, informed: bool,
                                     visited: seq<Pos>, arena: seq<Node>, open: seq<Node>,
                                     closed: set<Pos>, key: Node -> real)
    requires WellFormed(m)
    requires Inv(m, start, end, informed, visited, arena, open, closed)
    ensures Inv(m, start, end, informed, visited, arena, SortBy(open, key), closed)
    ensures forall j :: 0 <= j < |open| ==> key(SortBy(open, key)[0]) <= key(SortBy(open, key)[j])
  {
    var s := SortBy(open, key);
    SortByMembers(open, key);
    SortBySorted(open, key);
    forall i | 0 <= i < |s|
      ensures Linked(m, start, arena, s[i], |arena|) && Scored(informed, end, s[i])
    {
      assert s[i] in open;
      var j :| 0 <= j < |open| && open[j] == s[i];
    }
    assert forall i :: 0 <= i < |open| ==> open[i] in s;
    forall r, b | Offers(open, r, b) ensures Offers(s, r, b) {
      OffersMove(open, s, r, b);
    }
  }

  /** The first cell of a walk outside `s`, when its last cell is outside. */
  function FirstOutside(q: seq<Pos>, s: set<Pos>): (k: nat)
    requires q != [] && q[|q| - 1] !in s
    ensures k < |q| && q[k] !in s
    ensures forall i :: 0 <= i < k ==> q[i] in s
    decreases |q|
  {
    if q[0] !in s then 0
    else
      var k := FirstOutside(q[1..], s);
      assert forall i :: 0 < i <= k ==> q[i] == q[1..][i - 1];
      k + 1
  }

  /** Where a walk from the start first leaves the closed cells, an open
      entry for that cell costs at most the steps taken so far. */
  lemma {:induction false} OfferedAt(m: Maze, start: Pos, arena: seq<Node>, open: seq<Node>,
                                     closed: set<Pos>, q: seq<Pos>, e: Pos, k: nat)
    requires WellFormed(m)
    requires closed == Elems(Positions(arena))
    requires Exact(m, start, arena) && Offered(m, start, arena, |arena|, open, closed)
    requires IsPath(m, q, start, e)
    requires k < |q| && q[k] !in closed && forall i :: 0 <= i < k ==> q[i] in closed
    ensures Offers(open, q[k], k)
  {
    if k > 0 {
      var p := q[k - 1];
      assert p in Positions(arena);
      var i :| 0 <= i < |arena| && Positions(arena)[i] == p;
      PrefixWalk(m, q, start, e, k);
      OfferedNext(m, start, arena, open, closed, q[..k], i, q[k]);
    }
  }

  /** A cell next to an expanded node, reached from the start by `pre`, is
      offered with at most as many steps as `pre` has. */
  lemma OfferedNext(m: Maze, start: Pos, arena: seq<Node>, open: seq<Node>, closed: set<Pos>,
                    pre: seq<Pos>, i: int, r: Pos)
    requires WellFormed(m)
    requires Exact(m, start, arena) && Offered(m, start, arena, |arena|, open, closed)
    requires 0 <= i < |arena| && IsPath(m, pre, start, arena[i].pos)
    requires Open(m, r) && Adjacent(arena[i].pos, r) && r !in closed
    ensures Offers(open, r, |pre|)
  {
    assert AtLeast(m, start, arena[i].pos, arena[i].g);
    var j :| 0 <= j < |open| && open[j].pos == r && open[j].g <= arena[i].g + 1;
  }

  /** The estimate drops by at most one per step along a walk. */
  lemma EstimateAlong(m: Maze, informed: bool, end: Pos, q: seq<Pos>, s: Pos, e: Pos, k: nat)
    requires WellFormed(m)
    requires IsPath(m, q, s, e) && k < |q|
    ensures Estimate(informed, q[k], end) <= |q| - 1 - k + Estimate(informed, e, end)
  {
    if informed {
      var t := q[k..];
      assert IsPath(m, t, q[k], e) by {
        forall i | 0 < i < |t| ensures Adjacent(t[i - 1], t[i]) && Open(m, t[i]) {
          assert t[i - 1] == q[k + i - 1] && t[i] == q[k + i];
        }
      }
      HeuristicAdmissible(m, t, q[k], e);
      HeuristicTriangle(q[k], e, end);
    }
  }

  /** Dijkstra's argument: a node for an unclosed cell whose key `f` is
      least in the open list costs no more than any walk to its cell. */
  lemma {:induction false} Settled(m: Maze, start: Pos, end: Pos, informed: bool,
                                   arena: seq<Node>, open: seq<Node>, closed: set<Pos>, c: Node)
    requires WellFormed(m)
    requires closed == Elems(Positions(arena))
    requires Exact(m, start, arena) && Offered(m, start, arena, |arena|, open, closed)
    requires OpenLinked(m, start, end, informed, arena, open)
    requires Scored(informed, end, c) && c.pos !in closed
    requires forall j :: 0 <= j < |open| ==> c.f <= open[j].f
    ensures AtLeast(m, start, c.pos, c.g)
  {
    forall q | IsPath(m, q, start, c.pos) ensures |q| >= c.g + 1 {
      var k := FirstOutside(q, closed);
      OfferedAt(m, start, arena, open, closed, q, c.pos, k);
      var j :| 0 <= j < |open| && open[j].pos == q[k] && open[j].g <= k;
      assert Scored(informed, end, open[j]);
      EstimateAlong(m, informed, end, q, start, c.pos, k);
    }
  }

  /** Taking the head of the open list when its cell is closed already. */
  lemma {:induction false} PopSkip(m: Maze, start: Pos, end: Pos, informed: bool,
                                   visited: seq<Pos>, arena: seq<Node>, open: seq<Node>,
                                   closed: set<Pos>)
    requires WellFormed(m)
    requires Inv(m, start, end, informed, visited, arena, open, closed) && open != []
    requires open[0].pos in closed
    ensures Inv(m, start, end, informed, visited, arena, open[1..], closed)
  {
    forall i | 0 <= i < |open[1..]|
      ensures Linked(m, start, arena, open[1..][i], |arena|) && Scored(informed, end, open[1..][i])
    {
      assert open[1..][i] == open[i + 1];
    }
    forall r, b | Offers(open, r, b) && r !in closed ensures Offers(open[1..], r, b) {
      OffersTail(open, r, b);
    }
  }

  /** Taking the head of the open list for an unclosed cell with the least
      `f`: it joins the trace and the arena with its cost settled. */
  lemma {:induction false} PopFresh(m: Maze, start: Pos, end: Pos, informed: bool,
                                    visited: seq<Pos>, arena: seq<Node>, open: seq<Node>,
                                    closed: set<Pos>)
    requires WellFormed(m)
    requires Inv(m, start, end, informed, visited, arena, open, closed) && open != []
    requires open[0].pos !in closed
    requires forall j :: 0 <= j < |open| ==> open[0].f <= open[j].f
    ensures Expanding(m, start, end, informed, visited + [open[0].pos], arena + [open[0]],
                      open[1..], closed + {open[0].pos})
  {
    PopBooks(m, start, end, informed, visited, arena, open, closed);
    Settled(m, start, end, informed, arena, open, closed, open[0]);
    PopOffered(m, start, arena, open, closed);
  }

  lemma {:induction false} PopBooks(m: Maze, start: Pos, end: Pos, informed: bool,
                                    visited: seq<Pos>, arena: seq<Node>, open: seq<Node>,
                                    closed: set<Pos>)
    requires WellFormed(m)
    requires Books(m, start, end, informed, visited, arena, open, closed) && open != []
    requires open[0].pos !in closed
    ensures Books(m, start, end, informed, visited + [open[0].pos], arena + [open[0]],
                  open[1..], closed + {open[0].pos})
  {
    assert Linked(m, start, arena, open[0], |arena|);
    ValidArenaGrow(m, start, arena, open[0]);
    PositionsAppend(arena, open[0]);
    assert Elems(visited + [open[0].pos]) == closed + {open[0].pos};
    forall i | 0 <= i < |open[1..]|
      ensures Linked(m, start, arena + [open[0]], open[1..][i], |arena| + 1)
      ensures Scored(informed, end, open[1..][i])
    {
      assert open[1..][i] == open[i + 1];
      LinkedGrow(m, start, arena, open[i + 1], open[0]);
    }
  }

  lemma {:induction false} PopOffered(m: Maze, start: Pos, arena: seq<Node>, open: seq<Node>,
                                      closed: set<Pos>)
    requires WellFormed(m)
    requires open != [] && Offered(m, start, arena, |arena|, open, closed)
    ensures Offered(m, start, arena + [open[0]], |arena|, open[1..], closed + {open[0].pos})
  {
    var a := arena + [open[0]];
    if start !in closed + {open[0].pos} {
      OffersTail(open, start, 0);
    }
    forall i, r | 0 <= i < |arena| && Open(m, r) && Adjacent(a[i].pos, r) && r !in closed + {open[0].pos}
      ensures Offers(open[1..], r, a[i].g + 1)
    {
      assert a[i] == arena[i];
      OffersTail(open, r, arena[i].g + 1);
    }
  }

  /** A relaxation step keeps every offer and offers the cell it handles. */
  lemma StepOffers(informed: bool, end: Pos, open: seq<Node>, closed: set<Pos>,
                   p: Pos, g: int, parent: int)
    ensures forall r, b :: Offers(open, r, b) ==>
      Offers(Step(informed, end, open, closed, p, g, parent), r, b)
    ensures p !in closed ==> Offers(Step(informed, end, open, closed, p, g, parent), p, g)
  {
    var s := Step(informed, end, open, closed, p, g, parent);
    var i := IndexOf(open, p);
    forall r, b | Offers(open, r, b) ensures Offers(s, r, b) {
      var j :| 0 <= j < |open| && open[j].pos == r && open[j].g <= b;
      if p !in closed && i != -1 && g < open[i].g && j == i {
        assert s[j].pos == r && s[j].g <= b;
      } else {
        assert s[j] == open[j];
      }
    }
    if p !in closed {
      if i == -1 {
        assert s[|open|].pos == p && s[|open|].g == g;
      } else {
        assert s[i].pos == p && s[i].g <= g;
      }
    }
  }

  lemma {:induction false} RelaxOffers(informed: bool, end: Pos, open: seq<Node>, closed: set<Pos>,
                                       ns: seq<Pos>, g: int, parent: int)
    ensures forall r, b :: Offers(open, r, b) ==>
      Offers(Relax(informed, end, open, closed, ns, g, parent), r, b)
    ensures forall p :: p in ns && p !in closed ==>
      Offers(Relax(informed, end, open, closed, ns, g, parent), p, g)
    decreases |ns|
  {
    if ns != [] {
      var pre := ns[..|ns| - 1];
      RelaxOffers(informed, end, open, closed, pre, g, parent);
      StepOffers(informed, end, Relax(informed, end, open, closed, pre, g, parent), closed,
                 ns[|ns| - 1], g, parent);
      assert forall p :: p in ns ==> p in pre || p == ns[|ns| - 1];
    }
  }

  /** A relaxation step for an open neighbour of the last expanded node
      adds only entries that hang off that node. */
  lemma StepLinked(m: Maze, start: Pos, end: Pos, informed: bool, arena: seq<Node>,
                   open: seq<Node>, closed: set<Pos>, p: Pos, g: int)
    requires WellFormed(m)
    requires OpenLinked(m, start, end, informed, arena, open) && arena != []
    requires Open(m, p) && Adjacent(arena[|arena| - 1].pos, p) && g == arena[|arena| - 1].g + 1
    ensures OpenLinked(m, start, end, informed, arena,
                       Step(informed, end, open, closed, p, g, |arena| - 1))
  {
    var s := Step(informed, end, open, closed, p, g, |arena| - 1);
    var n := MakeNode(informed, end, p, g, |arena| - 1);
    assert Linked(m, start, arena, n, |arena|) && Scored(informed, end, n);
    forall i | 0 <= i < |s| ensures Linked(m, start, arena, s[i], |arena|) && Scored(informed, end, s[i]) {
      if i < |open| && s[i] != n {
        assert s[i] == open[i];
      }
    }
  }

  lemma {:induction false} RelaxLinked(m: Maze, start: Pos, end: Pos, informed: bool,
                                       arena: seq<Node>, open: seq<Node>, closed: set<Pos>,
                                       ns: seq<Pos>, g: int)
    requires WellFormed(m)
    requires OpenLinked(m, start, end, informed, arena, open) && arena != []
    requires forall p :: p in ns ==> Open(m, p) && Adjacent(arena[|arena| - 1].pos, p)
    requires g == arena[|arena| - 1].g + 1
    ensures OpenLinked(m, start, end, informed, arena,
                       Relax(informed, end, open, closed, ns, g, |arena| - 1))
    decreases |ns|
  {
    if ns != [] {
      var pre := ns[..|ns| - 1];
      assert forall p :: p in pre ==> p in ns;
      RelaxLinked(m, start, end, informed, arena, open, closed, pre, g);
      StepLinked(m, start, end, informed, arena,
                 Relax(informed, end, open, closed, pre, g, |arena| - 1), closed, ns[|ns| - 1], g);
    }
  }

  /** Relaxing every neighbour of the last expanded node restores the
      outer invariant. */
  lemma {:induction false} Expand(m: Maze, start: Pos, end: Pos, informed: bool,
                                  visited: seq<Pos>, arena: seq<Node>, open: seq<Node>,
                                  closed: set<Pos>, p: Pos, g: int, parent: int, ns: seq<Pos>)
    requires WellFormed(m)
    requires Expanding(m, start, end, informed, visited, arena, open, closed)
    requires parent == |arena| - 1
    requires p == arena[parent].pos && g == arena[parent].g + 1
    requires ns == Neighbors(m, p)
    ensures Inv(m, start, end, informed, visited, arena,
                Relax(informed, end, open, closed, ns, g, parent), closed)
  {
    var s := Relax(informed, end, open, closed, ns, g, parent);
    NeighborsSound(m, p);
    RelaxLinked(m, start, end, informed, arena, open, closed, ns, g);
    RelaxOffers(informed, end, open, closed, ns, g, |arena| - 1);
    forall i, r | 0 <= i < |arena| && Open(m, r) && Adjacent(arena[i].pos, r) && r !in closed
      ensures Offers(s, r, arena[i].g + 1)
    {
      if i == |arena| - 1 {
        NeighborsComplete(m, p, r);
      }
    }
  }

  /** The node just expanded is the goal. */
  method Finish(m: Maze, start: Pos, end: Pos, informed: bool, time: real, visited: seq<Pos>,
                arena: seq<Node>, open: seq<Node>, closed: set<Pos>)
    returns (r: SearchResult)
    requires WellFormed(m)
    requires Expanding(m, start, end, informed, visited, arena, open, closed)
    requires arena[|arena| - 1].pos == end
    ensures Reported(m, start, end, time, r) && Shortest(m, start, end, r)
    ensures r.visited == visited
    ensures |arena| == 1 ==> r.path == [start] && r.visited == [start]
  {
    assert AtLeast(m, start, arena[|arena| - 1].pos, arena[|arena| - 1].g);
    assert Linked(m, start, arena, arena[0], 0);
    ElemsCard(visited);
    r := Found(m, start, end, time, arena, visited);
    ChainIsPath(m, start, arena, |arena| - 1);
  }

  /** The open list ran out: nothing walkable from the start was missed,
      so the goal cannot be reached. */
  lemma {:induction false} Exhaust(m: Maze, start: Pos, end: Pos, informed: bool,
                                   visited: seq<Pos>, arena: seq<Node>, closed: set<Pos>)
    requires WellFormed(m)
    requires Inv(m, start, end, informed, visited, arena, [], closed)
    requires end !in visited
    ensures Distinct(visited)
    ensures !Reachable(m, start, end)
    ensures Traced(m, start, visited) && Swept(m, start, visited)
  {
    ElemsCard(visited);
    Enclosed(m, start, end, arena, closed);
    Sweep(m, start, arena, closed);
    ArenaSwept(m, start, arena);
  }

  /** Closing the cell of an open entry shrinks the part of the universe
      not yet closed. */
  lemma Progress(m: Maze, start: Pos, arena: seq<Node>, n: Node, closed: set<Pos>,
                 universe: set<Pos>)
    requires WellFormed(m)
    requires Linked(m, start, arena, n, |arena|)
    requires closed <= universe && Cells(m) + {start} <= universe
    requires n.pos !in closed
    ensures closed + {n.pos} <= universe
    ensures |universe - (closed + {n.pos})| < |universe - closed|
  {
    assert n.pos in universe;
    Shrink(universe, closed, closed + {n.pos});
  }

  /** The loop of `astar` and `ucs` over the neighbours of the node being
      expanded. */
  method RelaxNeighbors(informed: bool, end: Pos, open: seq<Node>, closed: set<Pos>,
                        ns: seq<Pos>, g: int, parent: int)
    returns (open': seq<Node>)
    ensures open' == Relax(informed, end, open, closed, ns, g, parent)
  {
    open' := open;
    for k := 0 to |ns|
      invariant open' == Relax(informed, end, open, closed, ns[..k], g, parent)
    {
      assert ns[..k + 1][..k] == ns[..k];
      var p := ns[k];
      if p in closed {
        continue;
      }
      var h := if informed then Heuristic(p, end) else 0;
      var i := IndexOf(open', p);
      if i != -1 {
        if g < open'[i].g {
          open' := open'[i := Node(p, g, h, g + h, parent)];
        }
      } else {
        open' := open' + [Node(p, g, h, g + h, parent)];
      }
    }
    assert ns[..|ns|] == ns;
  }
}
