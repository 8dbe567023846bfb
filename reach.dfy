/** Reachability in the maze: walks of bounded length, closed regions and
    simple walks. These state what "shortest path" and "unreachable" mean
    for the searches. */
module Reach {
  import opened Grid

  /** `p` can be reached from `s` in at most `k` steps. */
  ghost predicate Within(m: Maze, s: Pos, p: Pos, k: int)
    requires WellFormed(m)
  {
    exists q {:trigger IsPath(m, q, s, p)} :: IsPath(m, q, s, p) && |q| <= k + 1
  }

  /** Some walk leads from `s` to `e`. */
  ghost predicate Reachable(m: Maze, s: Pos, e: Pos)
    requires WellFormed(m)
  {
    exists q {:trigger IsPath(m, q, s, e)} :: IsPath(m, q, s, e)
  }

  /** No walk from `s` to `p` is shorter than `k` steps. */
  ghost predicate AtLeast(m: Maze, s: Pos, p: Pos, k: int)
    requires WellFormed(m)
  {
    forall q {:trigger IsPath(m, q, s, p)} :: IsPath(m, q, s, p) ==> |q| >= k + 1
  }

  lemma WithinStart(m: Maze, s: Pos)
    requires WellFormed(m)
    ensures Within(m, s, s, 0)
  {
    assert IsPath(m, [s], s, s);
  }

  /** A walk of length zero goes nowhere. */
  lemma WithinZero(m: Maze, s: Pos, p: Pos)
    requires WellFormed(m)
    requires Within(m, s, p, 0)
    ensures p == s
  {
  }

  /** One more open step extends a walk. */
  lemma WithinStep(m: Maze, s: Pos, r: Pos, p: Pos, k: int)
    requires WellFormed(m)
    requires Within(m, s, r, k)
    requires Adjacent(r, p) && Open(m, p)
    ensures Within(m, s, p, k + 1)
  {
    var q :| IsPath(m, q, s, r) && |q| <= k + 1;
    var q' := q + [p];
    assert IsPath(m, q', s, p) by {
      forall i | 0 < i < |q'| ensures Adjacent(q'[i - 1], q'[i]) && Open(m, q'[i]) {
        if i < |q| {
          assert q'[i - 1] == q[i - 1] && q'[i] == q[i];
        }
      }
    }
  }

  /** A walk of `k + 1` steps is a shorter walk or ends with a step from a
      cell `k` steps away. */
  lemma WithinBack(m: Maze, s: Pos, p: Pos, k: nat)
    requires WellFormed(m)
    requires Within(m, s, p, k + 1)
    ensures Within(m, s, p, k) ||
            exists r :: Within(m, s, r, k) && Adjacent(r, p) && Open(m, p)
  {
    var q :| IsPath(m, q, s, p) && |q| <= k + 2;
    if |q| == k + 2 {
      var r := q[|q| - 2];
      var q' := q[..|q| - 1];
      assert IsPath(m, q', s, r);
      assert Within(m, s, r, k);
    }
  }

  /** `AtLeast` is the negation of `Within` one step shorter. */
  lemma AtLeastNotWithin(m: Maze, s: Pos, p: Pos, k: int)
    requires WellFormed(m)
    ensures AtLeast(m, s, p, k) <==> !Within(m, s, p, k - 1)
  {
  }

  /** A set that holds `s` and every open cell next to one of its members
      holds every cell reachable from `s`. */
  lemma {:induction false} ClosedRegion(m: Maze, s: Pos, region: set<Pos>, q: seq<Pos>, e: Pos)
    requires WellFormed(m)
    requires s in region
    requires forall p, r :: p in region && Open(m, r) && Adjacent(p, r) ==> r in region
    requires IsPath(m, q, s, e)
    ensures e in region
    decreases |q|
  {
    if |q| > 1 {
      var q' := q[..|q| - 1];
      assert IsPath(m, q', s, q[|q| - 2]);
      ClosedRegion(m, s, region, q', q[|q| - 2]);
    }
  }

  /** Every non-empty prefix of a walk is a walk to its last cell. */
  lemma PrefixWalk(m: Maze, q: seq<Pos>, s: Pos, e: Pos, k: int)
    requires WellFormed(m)
    requires IsPath(m, q, s, e) && 0 < k <= |q|
    ensures IsPath(m, q[..k], s, q[k - 1])
  {
    var pre := q[..k];
    forall t | 0 < t < |pre| ensures Adjacent(pre[t - 1], pre[t]) && Open(m, pre[t]) {
      assert pre[t - 1] == q[t - 1] && pre[t] == q[t];
    }
  }

  /** Cutting out the loop between two visits of one cell leaves a walk. */
  lemma CutLoop(m: Maze, q: seq<Pos>, s: Pos, e: Pos, i: int, j: int)
    requires WellFormed(m)
    requires IsPath(m, q, s, e)
    requires 0 <= i < j < |q| && q[i] == q[j]
    ensures IsPath(m, q[..i] + q[j..], s, e)
    ensures |q[..i] + q[j..]| < |q|
  {
    var c := q[..i] + q[j..];
    assert c[|c| - 1] == q[|q| - 1];
    assert c[0] == q[0] by {
      if i == 0 {
        assert c[0] == q[j];
      }
    }
    forall k | 0 < k < |c| ensures Adjacent(c[k - 1], c[k]) && Open(m, c[k]) {
      if k < i {
        assert c[k - 1] == q[k - 1] && c[k] == q[k];
      } else if k == i {
        assert c[k - 1] == q[i - 1] && c[k] == q[j];
      } else {
        assert c[k - 1] == q[k - 1 - i + j] && c[k] == q[k - i + j];
      }
    }
  }

  /** Every walk can be shortened to one that visits no cell twice. */
  lemma {:induction false} SimpleWalk(m: Maze, q: seq<Pos>, s: Pos, e: Pos)
    returns (c: seq<Pos>)
    requires WellFormed(m)
    requires IsPath(m, q, s, e)
    ensures IsPath(m, c, s, e) && Distinct(c) && |c| <= |q|
    decreases |q|
  {
    if Distinct(q) {
      c := q;
    } else {
      var i, j :| 0 <= i < j < |q| && q[i] == q[j];
      CutLoop(m, q, s, e, i, j);
      c := SimpleWalk(m, q[..i] + q[j..], s, e);
    }
  }

  /** Distinct positions inside a finite set are no more than its size. */
  lemma {:induction false} DistinctInSet(c: seq<Pos>, cells: set<Pos>)
    requires Distinct(c)
    requires forall i :: 0 <= i < |c| ==> c[i] in cells
    ensures |c| <= |cells|
    decreases |c|
  {
    if c != [] {
      var last := c[|c| - 1];
      var c' := c[..|c| - 1];
      forall i | 0 <= i < |c'| ensures c'[i] in cells - {last} {
        assert c'[i] == c[i];
      }
      DistinctInSet(c', cells - {last});
    }
  }

  /** A simple walk enters each grid cell at most once, so it has at most
      as many steps as the grid has cells. */
  lemma SimpleWalkBound(m: Maze, c: seq<Pos>, s: Pos, e: Pos)
    requires WellFormed(m)
    requires IsPath(m, c, s, e) && Distinct(c)
    ensures |c| - 1 <= |m| * Width(m)
  {
    var tail := c[1..];
    forall i | 0 <= i < |tail| ensures tail[i] in Cells(m) {
      assert tail[i] == c[i + 1];
    }
    DistinctInSet(tail, Cells(m));
    CellsCount(m);
  }

  lemma CellsCount(m: Maze)
    requires WellFormed(m)
    ensures |Cells(m)| == |m| * Width(m)
  {
    RowsCount(|m|, Width(m));
    assert Rows(|m|, Width(m)) == Cells(m);
  }

  /** The cells of the first `n` rows of a grid `w` cells wide. */
  function Rows(n: nat, w: nat): set<Pos>
  {
    set z, x | 0 <= z < n && 0 <= x < w :: Pos(x, z)
  }

  /** The cells of row `z` of a grid `w` cells wide. */
  function Row(z: int, w: nat): set<Pos>
  {
    set x | 0 <= x < w :: Pos(x, z)
  }

  lemma {:induction false} RowCount(z: int, w: nat)
    ensures |Row(z, w)| == w
  {
    if w > 0 {
      assert Row(z, w) == Row(z, w - 1) + {Pos(w - 1, z)};
      RowCount(z, w - 1);
    }
  }

  lemma {:induction false} RowsCount(n: nat, w: nat)
    ensures |Rows(n, w)| == n * w
  {
    if n > 0 {
      RowsCount(n - 1, w);
      RowCount(n - 1, w);
      RowsSplit(n, w);
      assert (n - 1) * w + w == n * w;
    }
  }

  lemma RowsSplit(n: nat, w: nat)
    requires n > 0
    ensures Rows(n, w) == Rows(n - 1, w) + Row(n - 1, w)
    ensures |Rows(n, w)| == |Rows(n - 1, w)| + |Row(n - 1, w)|
  {
    assert Rows(n, w) == Rows(n - 1, w) + Row(n - 1, w);
    assert Rows(n - 1, w) !! Row(n - 1, w);
  }
}
