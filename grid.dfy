/** The maze grid: positions, walls, the 4-direction adjacency rule,
    the Manhattan heuristic and walks through the grid. */
module Grid {

  /** A cell coordinate; `z` selects the row and `x` the column (`maze[z][x]`). */
  datatype Pos = Pos(x: int, z: int)

  /** A maze is a grid of wall flags, `true` meaning the cell is a wall. */
  type Maze = seq<seq<bool>>

  /** Every maze is a non-empty grid whose rows all have the length of the
      first, which `getNeighbors` and `ids` read as the width. */
  predicate WellFormed(m: Maze) {
    |m| > 0 && forall z :: 0 <= z < |m| ==> |m[z]| == |m[0]|
  }

  function Width(m: Maze): nat
    requires WellFormed(m)
  {
    |m[0]|
  }

  predicate InBounds(m: Maze, p: Pos)
    requires WellFormed(m)
  {
    0 <= p.z < |m| && 0 <= p.x < Width(m)
  }

  /** A cell a search may step onto: inside the grid and not a wall. */
  predicate Open(m: Maze, p: Pos)
    requires WellFormed(m)
  {
    InBounds(m, p) && !m[p.z][p.x]
  }

  function Abs(n: int): nat {
    if n < 0 then -n else n
  }

  /** Manhattan distance, the heuristic of A*. */
  function Heuristic(a: Pos, b: Pos): (r: nat)
    ensures r == 0 <==> a == b
  {
    Abs(a.x - b.x) + Abs(a.z - b.z)
  }

  /** One axis-aligned unit step leads from `p` to `q`. */
  predicate Adjacent(p: Pos, q: Pos) {
    (p.x == q.x && (q.z == p.z - 1 || q.z == p.z + 1)) ||
    (p.z == q.z && (q.x == p.x - 1 || q.x == p.x + 1))
  }

  lemma HeuristicSymmetric(a: Pos, b: Pos)
    ensures Heuristic(a, b) == Heuristic(b, a)
  {
  }

  lemma AdjacentIsUnitHeuristic(p: Pos, q: Pos)
    ensures Adjacent(p, q) <==> Heuristic(p, q) == 1
  {
  }

  /** The heuristic is consistent: one step changes it by at most one. */
  lemma HeuristicConsistent(p: Pos, q: Pos, e: Pos)
    requires Adjacent(p, q)
    ensures Heuristic(p, e) <= Heuristic(q, e) + 1
    ensures Heuristic(q, e) <= Heuristic(p, e) + 1
  {
  }

  /** The triangle inequality of the Manhattan distance. */
  lemma HeuristicTriangle(a: Pos, b: Pos, c: Pos)
    ensures Heuristic(a, c) <= Heuristic(a, b) + Heuristic(b, c)
  {
  }

  /** The four candidate moves, in the order the engine tries them:
      z - 1, z + 1, x - 1, x + 1. */
  const Directions: seq<Pos> := [Pos(0, -1), Pos(0, 1), Pos(-1, 0), Pos(1, 0)]

  function Move(p: Pos, d: Pos): Pos {
    Pos(p.x + d.x, p.z + d.z)
  }

  function Keep(m: Maze, q: Pos): seq<Pos>
    requires WellFormed(m)
  {
    if Open(m, q) then [q] else []
  }

  /** The open cells among the first `k` moves from `p`, in move order. */
  function OpenMoves(m: Maze, p: Pos, k: nat): seq<Pos>
    requires WellFormed(m)
    requires k <= |Directions|
  {
    if k == 0 then [] else OpenMoves(m, p, k - 1) + Keep(m, Move(p, Directions[k - 1]))
  }

  /** The neighbours of `p` as the engine lists them. */
  function Neighbors(m: Maze, p: Pos): seq<Pos>
    requires WellFormed(m)
  {
    OpenMoves(m, p, |Directions|)
  }

  lemma {:induction false} OpenMovesSound(m: Maze, p: Pos, k: nat)
    requires WellFormed(m)
    requires k <= |Directions|
    ensures |OpenMoves(m, p, k)| <= k
    ensures forall q :: q in OpenMoves(m, p, k) ==> Open(m, q) && Adjacent(p, q)
  {
    if k > 0 {
      OpenMovesSound(m, p, k - 1);
    }
  }

  /** Every neighbour is in bounds, not a wall and one step away,
      and there are at most four. */
  lemma NeighborsSound(m: Maze, p: Pos)
    requires WellFormed(m)
    ensures |Neighbors(m, p)| <= 4
    ensures forall q :: q in Neighbors(m, p) ==> Open(m, q) && Adjacent(p, q)
  {
    OpenMovesSound(m, p, 4);
  }

  /** The neighbours come in the fixed move order z - 1, z + 1, x - 1, x + 1. */
  lemma NeighborsOrder(m: Maze, p: Pos)
    requires WellFormed(m)
    ensures Neighbors(m, p) ==
      Keep(m, Pos(p.x, p.z - 1)) + Keep(m, Pos(p.x, p.z + 1)) +
      Keep(m, Pos(p.x - 1, p.z)) + Keep(m, Pos(p.x + 1, p.z))
  {
    assert Move(p, Directions[0]) == Pos(p.x, p.z - 1);
    assert Move(p, Directions[1]) == Pos(p.x, p.z + 1);
    assert Move(p, Directions[2]) == Pos(p.x - 1, p.z);
    assert Move(p, Directions[3]) == Pos(p.x + 1, p.z);
    var a := Keep(m, Pos(p.x, p.z - 1));
    var b := Keep(m, Pos(p.x, p.z + 1));
    var c := Keep(m, Pos(p.x - 1, p.z));
    var d := Keep(m, Pos(p.x + 1, p.z));
    assert OpenMoves(m, p, 0) == [];
    assert OpenMoves(m, p, 1) == [] + a;
    assert OpenMoves(m, p, 2) == a + b;
    assert OpenMoves(m, p, 3) == a + b + c;
    assert OpenMoves(m, p, 4) == a + b + c + d;
  }

  /** Every open cell one step away is listed. */
  lemma NeighborsComplete(m: Maze, p: Pos, q: Pos)
    requires WellFormed(m)
    requires Open(m, q) && Adjacent(p, q)
    ensures q in Neighbors(m, p)
  {
    NeighborsOrder(m, p);
  }

  /** `getNeighbors`: tries the four moves in order and keeps the open ones. */
  method GetNeighbors(p: Pos, m: Maze) returns (ns: seq<Pos>)
    requires WellFormed(m)
    ensures ns == Neighbors(m, p)
    ensures |ns| <= 4
    ensures forall i :: 0 <= i < |ns| ==> Open(m, ns[i]) && Adjacent(p, ns[i])
  {
    ns := [];
    for i := 0 to |Directions|
      invariant ns == OpenMoves(m, p, i)
    {
      var q := Move(p, Directions[i]);
      assert OpenMoves(m, p, i + 1) == ns + Keep(m, q);
      if 0 <= q.z < |m| && 0 <= q.x < |m[0]| && !m[q.z][q.x] {
        ns := ns + [q];
      }
    }
    NeighborsSound(m, p);
  }

  /** A walk through the maze from `s` to `e`: consecutive cells are one
      step apart and every cell entered is open. */
  predicate IsPath(m: Maze, q: seq<Pos>, s: Pos, e: Pos)
    requires WellFormed(m)
  {
    |q| > 0 && q[0] == s && q[|q| - 1] == e &&
    forall i :: 0 < i < |q| ==> Adjacent(q[i - 1], q[i]) && Open(m, q[i])
  }

  /** No cell occurs twice. */
  predicate Distinct<T(==)>(s: seq<T>) {
    forall i, j :: 0 <= i < j < |s| ==> s[i] != s[j]
  }

  /** Appending a cell not yet listed keeps a list free of repeats. */
  lemma DistinctAppend<T>(s: seq<T>, p: T)
    requires Distinct(s) && p !in s
    ensures Distinct(s + [p])
  {
    var t := s + [p];
    forall i, j | 0 <= i < j < |t| ensures t[i] != t[j] {
      if j < |s| {
        assert t[i] == s[i] && t[j] == s[j];
      } else {
        assert t[i] == s[i];
      }
    }
  }

  /** The heuristic never overestimates: a walk of `n` steps from `p`
      reaches only cells within Manhattan distance `n`. */
  lemma {:induction false} HeuristicAdmissible(m: Maze, q: seq<Pos>, s: Pos, e: Pos)
    requires WellFormed(m)
    requires IsPath(m, q, s, e)
    ensures Heuristic(s, e) <= |q| - 1
  {
    if |q| > 1 {
      var q' := q[..|q| - 1];
      assert IsPath(m, q', s, q[|q| - 2]);
      HeuristicAdmissible(m, q', s, q[|q| - 2]);
      HeuristicConsistent(q[|q| - 2], e, s);
    }
  }

  /** All cells of the grid. */
  function Cells(m: Maze): (c: set<Pos>)
    requires WellFormed(m)
    ensures forall p :: p in c <==> InBounds(m, p)
  {
    set z, x | 0 <= z < |m| && 0 <= x < Width(m) :: Pos(x, z)
  }
}
