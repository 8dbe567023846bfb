/** The comparison store: the algorithms a user has picked, whether a
    comparison is showing, and the results of the last comparison, ranked by
    solve time. */
module Comparison {
  import opened Grid
  import opened Search
  import opened Sorting
  import opened Pathfinding

  /** One algorithm's run in a comparison. */
  datatype ComparisonResult = ComparisonResult(algorithm: Algorithm, stats: Stats,
                                               path: seq<Pos>, visited: seq<Pos>)

  function SolveTime(c: ComparisonResult): real {
    c.stats.solveTimeMs
  }

  function AlgorithmOf(c: ComparisonResult): Algorithm {
    c.algorithm
  }

  /** `s` without any occurrence of `a` (`filter(x => x !== a)`). */
  function Without(s: seq<Algorithm>, a: Algorithm): (r: seq<Algorithm>)
    ensures forall x :: x in r <==> x in s && x != a
    ensures |r| <= |s|
  {
    if s == [] then []
    else (if s[0] == a then [] else [s[0]]) + Without(s[1..], a)
  }

  /** The selection after toggling `a`: removed when selected, appended
      otherwise. */
  function Toggled(s: seq<Algorithm>, a: Algorithm): seq<Algorithm> {
    if a in s then Without(s, a) else s + [a]
  }

  /** Toggling flips the membership of `a` and of nothing else. */
  lemma ToggledMembers(s: seq<Algorithm>, a: Algorithm)
    ensures forall x :: x in Toggled(s, a) <==> (if x == a then a !in s else x in s)
  {
  }

  lemma {:induction false} WithoutAbsent(s: seq<Algorithm>, a: Algorithm)
    requires a !in s
    ensures Without(s, a) == s
  {
    if s != [] {
      WithoutAbsent(s[1..], a);
      assert s == [s[0]] + s[1..];
    }
  }

  lemma {:induction false} WithoutAppend(s: seq<Algorithm>, t: seq<Algorithm>, a: Algorithm)
    ensures Without(s + t, a) == Without(s, a) + Without(t, a)
  {
    if s != [] {
      WithoutAppend(s[1..], t, a);
      assert (s + t)[1..] == s[1..] + t;
    } else {
      assert s + t == t;
    }
  }

  lemma {:induction false} WithoutDistinct(s: seq<Algorithm>, a: Algorithm)
    requires Distinct(s)
    ensures Distinct(Without(s, a))
  {
    if s != [] {
      var t := s[1..];
      assert Distinct(t) by {
        forall i, j | 0 <= i < j < |t| ensures t[i] != t[j] {
          assert t[i] == s[i + 1] && t[j] == s[j + 1];
        }
      }
      WithoutDistinct(t, a);
      assert s[0] !in t by {
        forall i | 0 <= i < |t| ensures t[i] != s[0] {
          assert t[i] == s[i + 1];
        }
      }
    }
  }

  /** In a selection without repeats, removing `a` cuts out its one entry
      and keeps the others in their order. */
  lemma {:induction false} WithoutAt(s: seq<Algorithm>, a: Algorithm, i: int)
    requires Distinct(s) && 0 <= i < |s| && s[i] == a
    ensures Without(s, a) == s[..i] + s[i + 1..]
  {
    var t := s[1..];
    assert Distinct(t) by {
      forall j, k | 0 <= j < k < |t| ensures t[j] != t[k] {
        assert t[j] == s[j + 1] && t[k] == s[k + 1];
      }
    }
    if i == 0 {
      assert a !in t by {
        forall j | 0 <= j < |t| ensures t[j] != a {
          assert t[j] == s[j + 1];
        }
      }
      WithoutAbsent(t, a);
    } else {
      WithoutAt(t, a, i - 1);
      assert s[..i] == [s[0]] + t[..i - 1];
      assert s[i + 1..] == t[i..];
    }
  }

  /** Toggling never selects an algorithm twice. */
  lemma ToggledDistinct(s: seq<Algorithm>, a: Algorithm)
    requires Distinct(s)
    ensures Distinct(Toggled(s, a))
  {
    if a in s {
      WithoutDistinct(s, a);
    } else {
      DistinctAppend(s, a);
    }
  }

  /** Toggling an unselected algorithm twice restores the selection. */
  lemma ToggleTwiceAbsent(s: seq<Algorithm>, a: Algorithm)
    requires a !in s
    ensures Toggled(Toggled(s, a), a) == s
  {
    WithoutAppend(s, [a], a);
    WithoutAbsent(s, a);
    assert Without([a], a) == [];
  }

  /** Toggling a selected algorithm twice moves it to the end. */
  lemma ToggleTwicePresent(s: seq<Algorithm>, a: Algorithm)
    requires a in s
    ensures Toggled(Toggled(s, a), a) == Without(s, a) + [a]
  {
  }

  /** Every row of a comparison is what the run of its algorithm on the maze
      reports, with the duration `timeOf` gives that algorithm. */
  ghost predicate Ran(m: Maze, start: Pos, end: Pos, timeOf: Algorithm -> real, c: ComparisonResult)
    requires WellFormed(m)
  {
    Guarantees(c.algorithm, m, start, end, timeOf(c.algorithm),
               SearchResult(c.path, c.visited, c.stats))
  }

  class ComparisonStore {
    var isComparing: bool
    var selectedAlgorithms: seq<Algorithm>
    var results: seq<ComparisonResult>

    /** The store never holds an algorithm twice in its selection. */
    predicate Valid()
      reads this
    {
      Distinct(selectedAlgorithms)
    }

    /** The initial state: nothing selected, nothing compared. */
    constructor ()
      ensures !isComparing && selectedAlgorithms == [] && results == []
      ensures Valid()
    {
      isComparing := false;
      selectedAlgorithms := [];
      results := [];
    }

    method ToggleAlgorithm(algo: Algorithm)
      requires Valid()
      modifies this
      ensures selectedAlgorithms == Toggled(old(selectedAlgorithms), algo)
      ensures isComparing == old(isComparing) && results == old(results)
      ensures Valid()
    {
      ToggledDistinct(selectedAlgorithms, algo);
      if algo in selectedAlgorithms {
        selectedAlgorithms := Without(selectedAlgorithms, algo);
      } else {
        selectedAlgorithms := selectedAlgorithms + [algo];
      }
    }

    /** Runs every selected algorithm, in selection order, when at least two
        are selected, and ranks the results by solve time (the sort is
        stable, so equal times keep the selection order); with fewer than
        two selected nothing changes. `timeOf` stands for the clock: the
        duration each run measures. `runs` are the results in selection
        order. */
    method StartComparison(m: Maze, start: Pos, end: Pos, timeOf: Algorithm -> real)
      returns (ghost runs: seq<ComparisonResult>)
      requires WellFormed(m)
      requires Valid()
      modifies this
      ensures selectedAlgorithms == old(selectedAlgorithms) && Valid()
      ensures |selectedAlgorithms| < 2 ==> isComparing == old(isComparing) && results == old(results)
      ensures |selectedAlgorithms| >= 2 ==>
        && isComparing
        && |runs| == |selectedAlgorithms|
        && (forall i :: 0 <= i < |runs| ==>
              runs[i].algorithm == selectedAlgorithms[i] && Ran(m, start, end, timeOf, runs[i]))
        && results == SortBy(runs, SolveTime)
    {
      runs := [];
      var selected := selectedAlgorithms;
      if |selected| < 2 {
        return;
      }
      isComparing := true;
      var collected: seq<ComparisonResult> := [];
      for k := 0 to |selected|
        invariant isComparing && selectedAlgorithms == selected
        invariant |collected| == k
        invariant forall i :: 0 <= i < k ==>
          collected[i].algorithm == selected[i] && Ran(m, start, end, timeOf, collected[i])
      {
        var algo := selected[k];
        var r := RunAlgorithm(algo, m, start, end, timeOf(algo));
        collected := collected + [ComparisonResult(algo, r.stats, r.path, r.visited)];
      }
      runs := collected;
      results := SortBy(collected, SolveTime);
    }

    method ClearComparison()
      modifies this
      ensures !isComparing && selectedAlgorithms == [] && results == []
      ensures Valid()
    {
      isComparing := false;
      selectedAlgorithms := [];
      results := [];
    }
  }

  /** The ranking holds one result per selected algorithm, each what that
      algorithm's run reports, and no algorithm twice. */
  lemma RankingCovers(m: Maze, start: Pos, end: Pos, timeOf: Algorithm -> real,
                      selected: seq<Algorithm>, runs: seq<ComparisonResult>)
    requires WellFormed(m) && Distinct(selected) && |runs| == |selected|
    requires forall i :: 0 <= i < |runs| ==>
      runs[i].algorithm == selected[i] && Ran(m, start, end, timeOf, runs[i])
    ensures var results := SortBy(runs, SolveTime);
      && |results| == |selected|
      && (forall a :: a in selected <==> exists c :: c in results && c.algorithm == a)
      && (forall c :: c in results ==> Ran(m, start, end, timeOf, c))
      && DistinctBy(results, AlgorithmOf)
  {
    var results := SortBy(runs, SolveTime);
    SortByMembers(runs, SolveTime);
    forall a | a in selected ensures exists c :: c in results && c.algorithm == a {
      var i :| 0 <= i < |selected| && selected[i] == a;
      assert runs[i] in runs;
    }
    assert DistinctBy(runs, AlgorithmOf) by {
      forall i, j | 0 <= i < j < |runs| ensures AlgorithmOf(runs[i]) != AlgorithmOf(runs[j]) {
        assert selected[i] != selected[j];
      }
    }
    SortByDistinctBy(runs, SolveTime, AlgorithmOf);
  }

  /** The ranking is ordered by solve time, and results with the same solve
      time appear in the order their algorithms were selected. */
  lemma RankingOrder(runs: seq<ComparisonResult>, v: real)
    ensures SortedBy(SortBy(runs, SolveTime), SolveTime)
    ensures WithKey(SortBy(runs, SolveTime), SolveTime, v) == WithKey(runs, SolveTime, v)
  {
    SortBySorted(runs, SolveTime);
    SortByStable(runs, SolveTime, v);
  }
}
