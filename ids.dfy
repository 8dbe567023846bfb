/** Iterative deepening search: a depth-limited depth-first search from the
    start, repeated with limits 0, 1, ... up to the number of grid cells.
    Within one descent a cell is never revisited along the current branch,
    but different branches and different rounds revisit cells freely, and
    every node entered is appended to one trace shared by all rounds. */
module Ids {
  import opened Grid
  import opened Reach
  import opened Search

  datatype Option<T> = None | Some(value: T)

  /** What a descent leaves behind: the branch that reached the goal, if
      any, and the trace of cells entered so far. */
  datatype Outcome = Outcome(found: Option<seq<Pos>>, trace: seq<Pos>)

  /** The deepest limit tried: the number of cells of the grid. */
  function MaxDepth(m: Maze): nat
    requires WellFormed(m)
  {
    |m| * Width(m)
  }

  /** The descent from the last cell of `branch` (the node being entered,
      whose ancestors are the rest of `branch`) with `depth` steps left. */
  function Limited(m: Maze, end: Pos, branch: seq<Pos>, depth: nat, trace: seq<Pos>): Outcome
    requires WellFormed(m) && branch != []
    decreases depth, 1, 0
  {
    var p := branch[|branch| - 1];
    var t := trace + [p];
    if p == end then Outcome(Some(branch), t)
    else if depth == 0 then Outcome(None, t)
    else Children(m, end, branch, depth, Neighbors(m, p), t)
  }

  /** The descents into the cells of `ns` not on the branch, one after the
      other, stopping at the first that reaches the goal. */
  function Children(m: Maze, end: Pos, branch: seq<Pos>, depth: nat, ns: seq<Pos>, trace: seq<Pos>): Outcome
    requires WellFormed(m) && branch != [] && depth > 0
    decreases depth, 0, |ns|
  {
    if ns == [] then Outcome(None, trace)
    else if ns[0] in branch then Children(m, end, branch, depth, ns[1..], trace)
    else
      var o := Limited(m, end, branch + [ns[0]], depth - 1, trace);
      if o.found.Some? then o else Children(m, end, branch, depth, ns[1..], o.trace)
  }

  /** The rounds with limits `depth` to the maximum, stopping at the first
      that reaches the goal. */
  function Deepening(m: Maze, start: Pos, end: Pos, depth: nat, trace: seq<Pos>): Outcome
    requires WellFormed(m)
    decreases MaxDepth(m) + 1 - depth
  {
    if depth > MaxDepth(m) then Outcome(None, trace)
    else
      var o := Limited(m, end, [start], depth, trace);
      if o.found.Some? then o else Deepening(m, start, end, depth + 1, o.trace)
  }

  /** `t` continues the trace `trace`: nothing entered is ever dropped. */
  predicate Extends(trace: seq<Pos>, t: seq<Pos>) {
    |trace| <= |t| && t[..|trace|] == trace
  }

  lemma ExtendsTrans(t0: seq<Pos>, t1: seq<Pos>, t2: seq<Pos>)
    requires Extends(t0, t1) && Extends(t1, t2)
    ensures Extends(t0, t2)
  {
    assert t2[..|t0|] == t2[..|t1|][..|t0|];
  }

  /** Consecutive cells are one step apart and every cell after the first
      is open. */
  ghost predicate Steps(m: Maze, q: seq<Pos>)
    requires WellFormed(m)
  {
    forall i :: 0 < i < |q| ==> Adjacent(q[i - 1], q[i]) && Open(m, q[i])
  }

  /** What a descent returns: a branch extending the one it started from by
      at most `depth` cells, ending at the goal, still a walk and still free
      of repeats; and a trace that only grew and whose last entry is the
      goal when the goal was reached. */
  ghost predicate Sound(m: Maze, end: Pos, branch: seq<Pos>, depth: nat, trace: seq<Pos>, o: Outcome)
    requires WellFormed(m) && branch != []
  {
    Extends(trace, o.trace) &&
    (o.found.Some? ==>
      var p := o.found.value;
      |branch| <= |p| <= |branch| + depth && p[..|branch|] == branch &&
      p[|p| - 1] == end && |o.trace| > |trace| && o.trace[|o.trace| - 1] == end &&
      (Steps(m, branch) ==> Steps(m, p)) &&
      (Distinct(branch) ==> Distinct(p)))
  }

  lemma {:induction false} LimitedSound(m: Maze, end: Pos, branch: seq<Pos>, depth: nat, trace: seq<Pos>)
    requires WellFormed(m) && branch != []
    ensures Sound(m, end, branch, depth, trace, Limited(m, end, branch, depth, trace))
    ensures |Limited(m, end, branch, depth, trace).trace| > |trace|
    decreases depth, 1, 0
  {
    var p := branch[|branch| - 1];
    var t := trace + [p];
    assert Extends(trace, t) by {
      assert t[..|trace|] == trace;
    }
    if p == end {
      assert branch[..|branch|] == branch;
    } else if depth > 0 {
      var ns := Neighbors(m, p);
      NeighborsSound(m, p);
      ChildrenSound(m, end, branch, depth, ns, t);
      ExtendsTrans(trace, t, Children(m, end, branch, depth, ns, t).trace);
    }
  }

  lemma {:induction false} ChildrenSound(m: Maze, end: Pos, branch: seq<Pos>, depth: nat,
                                         ns: seq<Pos>, trace: seq<Pos>)
    requires WellFormed(m) && branch != [] && depth > 0
    requires forall i :: 0 <= i < |ns| ==> Open(m, ns[i]) && Adjacent(branch[|branch| - 1], ns[i])
    ensures Sound(m, end, branch, depth, trace, Children(m, end, branch, depth, ns, trace))
    decreases depth, 0, |ns|
  {
    if ns == [] {
      assert trace[..|trace|] == trace;
    } else if ns[0] in branch {
      ChildrenSound(m, end, branch, depth, ns[1..], trace);
    } else {
      var n := ns[0];
      var child := branch + [n];
      var o := Limited(m, end, child, depth - 1, trace);
      LimitedSound(m, end, child, depth - 1, trace);
      if o.found.Some? {
        SoundFound(m, end, branch, n, child, depth, trace, o);
      } else {
        ChildrenSound(m, end, branch, depth, ns[1..], o.trace);
        ExtendsTrans(trace, o.trace, Children(m, end, branch, depth, ns[1..], o.trace).trace);
      }
    }
  }

  /** A goal reached below `child`, one open step beyond `branch`, is
      reached from `branch` with one more step. */
  lemma SoundFound(m: Maze, end: Pos, branch: seq<Pos>, n: Pos, child: seq<Pos>, depth: nat,
                   trace: seq<Pos>, o: Outcome)
    requires WellFormed(m) && branch != [] && depth > 0
    requires Open(m, n) && Adjacent(branch[|branch| - 1], n) && n !in branch
    requires child == branch + [n] && o.found.Some?
    requires Sound(m, end, child, depth - 1, trace, o)
    ensures Sound(m, end, branch, depth, trace, o)
  {
    var p := o.found.value;
    assert p[..|branch|] == p[..|child|][..|branch|];
    if Steps(m, branch) {
      assert Steps(m, child);
    }
    if Distinct(branch) {
      DistinctAppend(branch, n);
    }
  }

  /** Every cell of the trace `t` is reachable from `start`. */
  ghost predicate Reaches(m: Maze, start: Pos, t: seq<Pos>)
    requires WellFormed(m)
  {
    forall i :: 0 <= i < |t| ==> Reachable(m, start, t[i])
  }

  /** A descent along a walk from the start enters only cells reachable
      from the start. */
  lemma {:induction false} LimitedReaches(m: Maze, start: Pos, end: Pos, branch: seq<Pos>,
                                          depth: nat, trace: seq<Pos>)
    requires WellFormed(m) && branch != [] && branch[0] == start && Steps(m, branch)
    requires Reaches(m, start, trace)
    ensures Reaches(m, start, Limited(m, end, branch, depth, trace).trace)
    decreases depth, 1, 0
  {
    var p := branch[|branch| - 1];
    var t := trace + [p];
    assert IsPath(m, branch, start, p);
    assert Reaches(m, start, t) by {
      forall i | 0 <= i < |t| ensures Reachable(m, start, t[i]) {
        if i < |trace| {
          assert t[i] == trace[i];
        }
      }
    }
    if p != end && depth > 0 {
      NeighborsSound(m, p);
      ChildrenReaches(m, start, end, branch, depth, Neighbors(m, p), t);
    }
  }

  lemma {:induction false} ChildrenReaches(m: Maze, start: Pos, end: Pos, branch: seq<Pos>,
                                           depth: nat, ns: seq<Pos>, trace: seq<Pos>)
    requires WellFormed(m) && branch != [] && branch[0] == start && Steps(m, branch) && depth > 0
    requires forall i :: 0 <= i < |ns| ==> Open(m, ns[i]) && Adjacent(branch[|branch| - 1], ns[i])
    requires Reaches(m, start, trace)
    ensures Reaches(m, start, Children(m, end, branch, depth, ns, trace).trace)
    decreases depth, 0, |ns|
  {
    if ns != [] {
      if ns[0] in branch {
        ChildrenReaches(m, start, end, branch, depth, ns[1..], trace);
      } else {
        var child := branch + [ns[0]];
        assert Steps(m, child);
        LimitedReaches(m, start, end, child, depth - 1, trace);
        var o := Limited(m, end, child, depth - 1, trace);
        if o.found.None? {
          ChildrenReaches(m, start, end, branch, depth, ns[1..], o.trace);
        }
      }
    }
  }

  /** The rounds from limit `depth` on keep the trace they are handed and
      add only cells reachable from the start. */
  lemma {:induction false} DeepeningReaches(m: Maze, start: Pos, end: Pos, depth: nat, trace: seq<Pos>)
    requires WellFormed(m)
    requires Reaches(m, start, trace)
    ensures var t := Deepening(m, start, end, depth, trace).trace;
      Extends(trace, t) && Reaches(m, start, t)
    decreases MaxDepth(m) + 1 - depth
  {
    if depth > MaxDepth(m) {
      assert trace[..|trace|] == trace;
    } else {
      var o := Limited(m, end, [start], depth, trace);
      LimitedReaches(m, start, end, [start], depth, trace);
      LimitedSound(m, end, [start], depth, trace);
      if o.found.None? {
        DeepeningReaches(m, start, end, depth + 1, o.trace);
        ExtendsTrans(trace, o.trace, Deepening(m, start, end, depth + 1, o.trace).trace);
      }
    }
  }

  /** The whole trace of `ids` starts at the start and holds only cells
      reachable from it. */
  lemma DeepeningTraced(m: Maze, start: Pos, end: Pos)
    requires WellFormed(m)
    ensures Traced(m, start, Deepening(m, start, end, 0, []).trace)
  {
    var o := Limited(m, end, [start], 0, []);
    assert o.trace == [start];
    assert Reaches(m, start, o.trace) by {
      assert IsPath(m, [start], start, start);
    }
    if o.found.None? {
      DeepeningReaches(m, start, end, 1, o.trace);
    }
  }

  /** `q` is a simple walk from the node being entered to the goal, of at
      most `depth` steps, that never returns to the branch. */
  ghost predicate Continues(m: Maze, end: Pos, branch: seq<Pos>, depth: nat, q: seq<Pos>)
    requires WellFormed(m) && branch != []
  {
    IsPath(m, q, branch[|branch| - 1], end) && |q| <= depth + 1 && Distinct(q) &&
    forall i :: 0 < i < |q| ==> q[i] !in branch
  }

  /** Only the branch prunes a descent, so it reaches the goal whenever some
      simple walk of at most `depth` steps avoids the branch. */
  lemma {:induction false} LimitedFinds(m: Maze, end: Pos, branch: seq<Pos>, depth: nat,
                                        trace: seq<Pos>, q: seq<Pos>)
    requires WellFormed(m) && branch != []
    requires Continues(m, end, branch, depth, q)
    ensures Limited(m, end, branch, depth, trace).found.Some?
    decreases depth, 1, 0
  {
    var p := branch[|branch| - 1];
    if p != end {
      assert |q| >= 2;
      NeighborsComplete(m, p, q[1]);
      ChildrenFinds(m, end, branch, depth, Neighbors(m, p), trace + [p], q);
    }
  }

  lemma {:induction false} ChildrenFinds(m: Maze, end: Pos, branch: seq<Pos>, depth: nat,
                                         ns: seq<Pos>, trace: seq<Pos>, q: seq<Pos>)
    requires WellFormed(m) && branch != [] && depth > 0
    requires Continues(m, end, branch, depth, q) && |q| >= 2 && q[1] in ns
    ensures Children(m, end, branch, depth, ns, trace).found.Some?
    decreases depth, 0, |ns|
  {
    var n := q[1];
    if ns[0] == n {
      var child := branch + [n];
      var q' := q[1..];
      assert IsPath(m, q', n, end) by {
        forall i | 0 < i < |q'| ensures Adjacent(q'[i - 1], q'[i]) && Open(m, q'[i]) {
          assert q'[i - 1] == q[i] && q'[i] == q[i + 1];
        }
      }
      forall i | 0 < i < |q'| ensures q'[i] !in child {
        assert q'[i] == q[i + 1];
        assert q[i + 1] != q[1];
      }
      forall i, j | 0 <= i < j < |q'| ensures q'[i] != q'[j] {
        assert q'[i] == q[i + 1] && q'[j] == q[j + 1];
      }
      assert n !in branch by {
        assert q[1] !in branch;
      }
      LimitedFinds(m, end, child, depth - 1, trace, q');
    } else {
      assert q[1] in ns[1..];
      if ns[0] in branch {
        ChildrenFinds(m, end, branch, depth, ns[1..], trace, q);
      } else {
        var o := Limited(m, end, branch + [ns[0]], depth - 1, trace);
        if o.found.None? {
          ChildrenFinds(m, end, branch, depth, ns[1..], o.trace, q);
        }
      }
    }
  }

  lemma ExtendsIn(t: seq<Pos>, t': seq<Pos>, x: Pos)
    requires Extends(t, t') && x in t
    ensures x in t'
  {
    var i :| 0 <= i < |t| && t[i] == x;
    assert t'[i] == t[i];
  }

  /** A descent that misses the goal enters every cell a simple walk of at
      most `depth` steps reaches while avoiding the branch. */
  lemma {:induction false} LimitedEnters(m: Maze, end: Pos, x: Pos, branch: seq<Pos>, depth: nat,
                                         trace: seq<Pos>, q: seq<Pos>)
    requires WellFormed(m) && branch != []
    requires Continues(m, x, branch, depth, q)
    requires Limited(m, end, branch, depth, trace).found.None?
    ensures x in Limited(m, end, branch, depth, trace).trace
    decreases depth, 1, 0
  {
    var p := branch[|branch| - 1];
    var t := trace + [p];
    var o := Limited(m, end, branch, depth, trace);
    if p == x {
      if depth > 0 {
        NeighborsSound(m, p);
        ChildrenSound(m, end, branch, depth, Neighbors(m, p), t);
      } else {
        assert t[..|t|] == t;
      }
      assert t[|t| - 1] == x;
      ExtendsIn(t, o.trace, x);
    } else {
      assert |q| >= 2;
      NeighborsSound(m, p);
      NeighborsComplete(m, p, q[1]);
      ChildrenEnters(m, end, x, branch, depth, Neighbors(m, p), t, q);
    }
  }

  lemma {:induction false} ChildrenEnters(m: Maze, end: Pos, x: Pos, branch: seq<Pos>, depth: nat,
                                          ns: seq<Pos>, trace: seq<Pos>, q: seq<Pos>)
    requires WellFormed(m) && branch != [] && depth > 0
    requires forall i :: 0 <= i < |ns| ==> Open(m, ns[i]) && Adjacent(branch[|branch| - 1], ns[i])
    requires Continues(m, x, branch, depth, q) && |q| >= 2 && q[1] in ns
    requires Children(m, end, branch, depth, ns, trace).found.None?
    ensures x in Children(m, end, branch, depth, ns, trace).trace
    decreases depth, 0, |ns|
  {
    var n := q[1];
    if ns[0] == n {
      var child := branch + [n];
      var q' := q[1..];
      assert IsPath(m, q', n, x) by {
        forall i | 0 < i < |q'| ensures Adjacent(q'[i - 1], q'[i]) && Open(m, q'[i]) {
          assert q'[i - 1] == q[i] && q'[i] == q[i + 1];
        }
      }
      forall i | 0 < i < |q'| ensures q'[i] !in child {
        assert q'[i] == q[i + 1];
        assert q[i + 1] != q[1];
      }
      forall i, j | 0 <= i < j < |q'| ensures q'[i] != q'[j] {
        assert q'[i] == q[i + 1] && q'[j] == q[j + 1];
      }
      assert n !in branch by {
        assert q[1] !in branch;
      }
      var o := Limited(m, end, child, depth - 1, trace);
      LimitedEnters(m, end, x, child, depth - 1, trace, q');
      ChildrenSound(m, end, branch, depth, ns[1..], o.trace);
      ExtendsIn(o.trace, Children(m, end, branch, depth, ns[1..], o.trace).trace, x);
    } else {
      assert q[1] in ns[1..];
      if ns[0] in branch {
        ChildrenEnters(m, end, x, branch, depth, ns[1..], trace, q);
      } else {
        var o := Limited(m, end, branch + [ns[0]], depth - 1, trace);
        ChildrenEnters(m, end, x, branch, depth, ns[1..], o.trace, q);
      }
    }
  }

  /** When no round from limit `depth` on reaches the goal, the trace ends up
      holding every cell a simple walk of at most the deepest limit reaches. */
  lemma {:induction false} DeepeningEnters(m: Maze, start: Pos, end: Pos, depth: nat,
                                           trace: seq<Pos>, x: Pos, c: seq<Pos>)
    requires WellFormed(m) && depth <= MaxDepth(m)
    requires IsPath(m, c, start, x) && Distinct(c) && |c| <= MaxDepth(m) + 1
    requires Deepening(m, start, end, depth, trace).found.None?
    ensures x in Deepening(m, start, end, depth, trace).trace
    decreases MaxDepth(m) - depth
  {
    var o := Limited(m, end, [start], depth, trace);
    if depth == MaxDepth(m) {
      forall i | 0 < i < |c| ensures c[i] !in [start] {
        assert c[i] != c[0];
      }
      LimitedEnters(m, end, x, [start], depth, trace, c);
    } else {
      DeepeningEnters(m, start, end, depth + 1, o.trace, x, c);
    }
  }

  /** When `ids` finds no path, its trace holds every cell reachable from
      the start. */
  lemma DeepeningSwept(m: Maze, start: Pos, end: Pos)
    requires WellFormed(m)
    requires Deepening(m, start, end, 0, []).found.None?
    ensures Swept(m, start, Deepening(m, start, end, 0, []).trace)
  {
    var t := Deepening(m, start, end, 0, []).trace;
    DeepeningTraced(m, start, end);
    forall x ensures x in t <==> Reachable(m, start, x) {
      if x in t {
        var i :| 0 <= i < |t| && t[i] == x;
      }
      if Reachable(m, start, x) {
        var q :| IsPath(m, q, start, x);
        var c := SimpleWalk(m, q, start, x);
        SimpleWalkBound(m, c, start, x);
        DeepeningEnters(m, start, end, 0, [], x, c);
      }
    }
  }

  /** A round with limit `depth` that misses the goal shows that every walk
      to the goal takes more than `depth` steps. */
  lemma Missed(m: Maze, start: Pos, end: Pos, depth: nat, trace: seq<Pos>)
    requires WellFormed(m)
    requires Limited(m, end, [start], depth, trace).found.None?
    ensures AtLeast(m, start, end, depth + 1)
  {
    forall q | IsPath(m, q, start, end) ensures |q| >= depth + 2 {
      var c := SimpleWalk(m, q, start, end);
      if |c| <= depth + 1 {
        forall i | 0 < i < |c| ensures c[i] !in [start] {
          assert c[i] != c[0];
        }
        LimitedFinds(m, end, [start], depth, trace, c);
      }
    }
  }

  /** A cell of `ns` on the branch is skipped: `goal`, the outcome of the
      descents from the `k`-th cell on, is that of the descents from the next. */
  lemma ChildrenSkip(m: Maze, end: Pos, branch: seq<Pos>, depth: nat, ns: seq<Pos>, k: nat,
                     trace: seq<Pos>, goal: Outcome)
    requires WellFormed(m) && branch != [] && depth > 0 && k < |ns| && ns[k] in branch
    requires goal == Children(m, end, branch, depth, ns[k..], trace)
    ensures goal == Children(m, end, branch, depth, ns[k + 1..], trace)
  {
    assert ns[k..][0] == ns[k] && ns[k..][1..] == ns[k + 1..];
  }

  /** A cell of `ns` off the branch is descended into, with outcome
      `found, trace'`; the descents stop there when that reached the goal
      and go on with the next cell otherwise. */
  lemma ChildrenDescend(m: Maze, end: Pos, branch: seq<Pos>, depth: nat, ns: seq<Pos>, k: nat,
                        child: seq<Pos>, trace: seq<Pos>, found: Option<seq<Pos>>, trace': seq<Pos>,
                        goal: Outcome)
    requires WellFormed(m) && branch != [] && depth > 0 && k < |ns| && ns[k] !in branch
    requires child == branch + [ns[k]]
    requires goal == Children(m, end, branch, depth, ns[k..], trace)
    requires Outcome(found, trace') == Limited(m, end, child, depth - 1, trace)
    ensures found.Some? ==> goal == Outcome(found, trace')
    ensures found.None? ==> goal == Children(m, end, branch, depth, ns[k + 1..], trace')
  {
    assert ns[k..][0] == ns[k] && ns[k..][1..] == ns[k + 1..];
  }

  /** `dls`: enters the last cell of `branch`, appending it to the trace;
      returns the branch at the goal, gives up when no steps are left, and
      otherwise descends into each neighbour not yet on the branch. `seen`
      holds the cells of the ancestors, as the set handed down by the
      caller. */
  method Dls(m: Maze, end: Pos, branch: seq<Pos>, depth: nat, seen: set<Pos>, trace: seq<Pos>)
    returns (found: Option<seq<Pos>>, trace': seq<Pos>)
    requires WellFormed(m) && branch != []
    requires seen == Elems(branch[..|branch| - 1])
    ensures Outcome(found, trace') == Limited(m, end, branch, depth, trace)
    decreases depth, 1
  {
    var p := branch[|branch| - 1];
    trace' := trace + [p];
    if p.x == end.x && p.z == end.z {
      return Some(branch), trace';
    }
    if depth == 0 {
      return None, trace';
    }
    var here := seen + {p};
    assert here == Elems(branch);
    var ns := GetNeighbors(p, m);
    ghost var goal := Limited(m, end, branch, depth, trace);
    assert goal == Children(m, end, branch, depth, ns[0..], trace');
    for k := 0 to |ns|
      invariant goal == Children(m, end, branch, depth, ns[k..], trace')
    {
      found, trace' := Descend(m, end, branch, depth, here, ns, k, trace', goal);
      if found.Some? {
        return;
      }
    }
    assert ns[|ns|..] == [];
    found := None;
  }

  /** One turn of the loop in `dls`: the `k`-th neighbour is descended into
      when it is not in `here`, the set of cells on the branch. The
      outcome is `goal` when the descent reached the goal; otherwise
      `goal` is the outcome of the descents from the next neighbour on. */
  method Descend(m: Maze, end: Pos, branch: seq<Pos>, depth: nat, here: set<Pos>, ns: seq<Pos>,
                 k: nat, trace: seq<Pos>, ghost goal: Outcome)
    returns (found: Option<seq<Pos>>, trace': seq<Pos>)
    requires WellFormed(m) && branch != [] && depth > 0 && k < |ns|
    requires here == Elems(branch)
    requires goal == Children(m, end, branch, depth, ns[k..], trace)
    ensures found.Some? ==> goal == Outcome(found, trace')
    ensures found.None? ==> goal == Children(m, end, branch, depth, ns[k + 1..], trace')
    decreases depth, 0
  {
    if ns[k] !in here {
      var child := branch + [ns[k]];
      assert child[..|child| - 1] == branch;
      found, trace' := Dls(m, end, child, depth - 1, here, trace);
      ChildrenDescend(m, end, branch, depth, ns, k, child, trace, found, trace', goal);
    } else {
      ChildrenSkip(m, end, branch, depth, ns, k, trace, goal);
      found, trace' := None, trace;
    }
  }

  /** `ids`: runs the descent from the start with limits 0 to the number of
      grid cells in order; the first branch to reach the goal is the path,
      and the trace of every round is reported. The result is the outcome
      of `Deepening`, its path is a simple walk of least length, and it is
      empty exactly when the goal cannot be reached. */
  method Ids(m: Maze, start: Pos, end: Pos, time: real) returns (r: SearchResult)
    requires WellFormed(m)
    ensures var o := Deepening(m, start, end, 0, []);
      r.visited == o.trace && r.path == (if o.found.Some? then o.found.value else [])
    ensures Reported(m, start, end, time, r)
    ensures Distinct(r.path) && |r.path| <= MaxDepth(m) + 1
    ensures Traced(m, start, r.visited)
    ensures r.path == [] ==> Swept(m, start, r.visited)
    ensures r.path == [] <==> !Reachable(m, start, end)
    ensures forall q :: IsPath(m, q, start, end) ==> |r.path| <= |q|
    ensures start == end ==> r.path == [start] && r.visited == [start]
  {
    DeepeningTraced(m, start, end);
    var allVisited: seq<Pos> := [];
    var maxDepth := |m| * |m[0]|;
    var depth := 0;
    while depth <= maxDepth
      invariant depth <= maxDepth + 1
      invariant Deepening(m, start, end, 0, []) == Deepening(m, start, end, depth, allVisited)
      invariant AtLeast(m, start, end, depth)
      invariant start == end ==> depth == 0 && allVisited == []
    {
      ghost var before := allVisited;
      var found;
      found, allVisited := Dls(m, end, [start], depth, {}, allVisited);
      if found.Some? {
        var path := found.value;
        LimitedSound(m, end, [start], depth, before);
        r := SearchResult(path, allVisited, Stats(time, |allVisited|, |path|));
        return;
      }
      Missed(m, start, end, depth, before);
      depth := depth + 1;
    }
    r := Exhausted(time, allVisited);
    DeepeningSwept(m, start, end);
    forall q | IsPath(m, q, start, end) ensures false {
      var c := SimpleWalk(m, q, start, end);
      SimpleWalkBound(m, c, start, end);
    }
  }
}
