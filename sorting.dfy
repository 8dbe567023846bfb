/** The stable sort both the open lists of the cost-ordered searches and the
    comparison ranking rely on (`Array.prototype.sort` is stable), written as
    an insertion sort by a numeric key. */
module Sorting {

  predicate SortedBy<T>(s: seq<T>, key: T -> real) {
    forall i, j :: 0 <= i < j < |s| ==> key(s[i]) <= key(s[j])
  }

  /** `x` placed before the first element whose key is not smaller. */
  function Insert<T>(x: T, s: seq<T>, key: T -> real): (r: seq<T>)
    ensures |r| == |s| + 1
  {
    if s == [] then [x]
    else if key(x) <= key(s[0]) then [x] + s
    else [s[0]] + Insert(x, s[1..], key)
  }

  function SortBy<T>(s: seq<T>, key: T -> real): (r: seq<T>)
    ensures |r| == |s|
  {
    if s == [] then [] else Insert(s[0], SortBy(s[1..], key), key)
  }

  /** The elements of `s` whose key is `v`, in their order in `s`. */
  function WithKey<T>(s: seq<T>, key: T -> real, v: real): seq<T> {
    if s == [] then []
    else (if key(s[0]) == v then [s[0]] else []) + WithKey(s[1..], key, v)
  }

  lemma {:induction false} InsertPermutes<T>(x: T, s: seq<T>, key: T -> real)
    ensures multiset(Insert(x, s, key)) == multiset(s) + multiset{x}
  {
    if s != [] && key(s[0]) < key(x) {
      InsertPermutes(x, s[1..], key);
      assert s == [s[0]] + s[1..];
    }
  }

  lemma {:induction false} InsertSorted<T>(x: T, s: seq<T>, key: T -> real)
    requires SortedBy(s, key)
    ensures SortedBy(Insert(x, s, key), key)
  {
    if s != [] && key(s[0]) < key(x) {
      InsertSorted(x, s[1..], key);
      InsertPermutes(x, s[1..], key);
      var r := Insert(x, s[1..], key);
      forall y | y in r ensures key(s[0]) <= key(y) {
        assert y in multiset(r);
        if y != x {
          assert y in multiset(s[1..]);
        }
      }
    }
  }

  lemma {:induction false} InsertWithKey<T>(x: T, s: seq<T>, key: T -> real, v: real)
    requires SortedBy(s, key)
    ensures WithKey(Insert(x, s, key), key, v) ==
            (if key(x) == v then [x] else []) + WithKey(s, key, v)
  {
    var kx := if key(x) == v then [x] else [];
    if s == [] {
      assert WithKey([x], key, v) == kx + WithKey([], key, v);
    } else if key(x) <= key(s[0]) {
      var r := [x] + s;
      assert r[0] == x && r[1..] == s;
      assert WithKey(r, key, v) == kx + WithKey(s, key, v);
    } else {
      var t := s[1..];
      assert SortedBy(t, key) by {
        forall i, j | 0 <= i < j < |t| ensures key(t[i]) <= key(t[j]) {
          assert t[i] == s[i + 1] && t[j] == s[j + 1];
        }
      }
      InsertWithKey(x, t, key, v);
      var k0 := if key(s[0]) == v then [s[0]] else [];
      var r := [s[0]] + Insert(x, t, key);
      assert r[0] == s[0] && r[1..] == Insert(x, t, key);
      assert WithKey(r, key, v) == k0 + (kx + WithKey(t, key, v));
      assert WithKey(s, key, v) == k0 + WithKey(t, key, v);
      // s[0] sorts strictly before x, so at most one of them has key v
      assert k0 == [] || kx == [];
    }
  }

  /** The sort is a permutation of its input. */
  lemma {:induction false} SortByPermutes<T>(s: seq<T>, key: T -> real)
    ensures multiset(SortBy(s, key)) == multiset(s)
  {
    if s != [] {
      SortByPermutes(s[1..], key);
      InsertPermutes(s[0], SortBy(s[1..], key), key);
      assert s == [s[0]] + s[1..];
    }
  }

  /** The sort orders its output by key. */
  lemma {:induction false} SortBySorted<T>(s: seq<T>, key: T -> real)
    ensures SortedBy(SortBy(s, key), key)
  {
    if s != [] {
      SortBySorted(s[1..], key);
      InsertSorted(s[0], SortBy(s[1..], key), key);
    }
  }

  /** The sort is stable: elements with equal keys keep their input order. */
  lemma {:induction false} SortByStable<T>(s: seq<T>, key: T -> real, v: real)
    ensures WithKey(SortBy(s, key), key, v) == WithKey(s, key, v)
  {
    if s != [] {
      SortByStable(s[1..], key, v);
      SortBySorted(s[1..], key);
      InsertWithKey(s[0], SortBy(s[1..], key), key, v);
    }
  }

  /** The first element of the sorted sequence has the smallest key. */
  lemma SortByHeadMinimal<T>(s: seq<T>, key: T -> real)
    requires s != []
    ensures forall x :: x in s ==> key(SortBy(s, key)[0]) <= key(x)
  {
    SortByPermutes(s, key);
    SortBySorted(s, key);
    var r := SortBy(s, key);
    forall x | x in s ensures key(r[0]) <= key(x) {
      assert x in multiset(r);
      var j :| 0 <= j < |r| && r[j] == x;
      if j > 0 {
        assert key(r[0]) <= key(r[j]);
      }
    }
  }

  /** The sort keeps exactly the elements of its input. */
  lemma SortByMembers<T>(s: seq<T>, key: T -> real)
    ensures forall x :: x in SortBy(s, key) <==> x in s
  {
    SortByPermutes(s, key);
    forall x ensures x in SortBy(s, key) <==> x in s {
      assert x in SortBy(s, key) <==> x in multiset(SortBy(s, key));
      assert x in s <==> x in multiset(s);
    }
  }

  /** No two elements at different places share their projection. */
  predicate DistinctBy<T, U(==)>(s: seq<T>, proj: T -> U) {
    forall i, j {:trigger proj(s[i]), proj(s[j])} :: 0 <= i < j < |s| ==> proj(s[i]) != proj(s[j])
  }

  lemma {:induction false} InsertDistinctBy<T, U>(x: T, s: seq<T>, key: T -> real, proj: T -> U)
    requires DistinctBy(s, proj)
    requires forall y :: y in s ==> proj(y) != proj(x)
    ensures DistinctBy(Insert(x, s, key), proj)
  {
    if s == [] {
    } else if key(x) <= key(s[0]) {
      var r := [x] + s;
      forall i, j | 0 <= i < j < |r| ensures proj(r[i]) != proj(r[j]) {
        assert r[j] == s[j - 1];
        if i > 0 {
          assert r[i] == s[i - 1];
        }
      }
    } else {
      var t := s[1..];
      assert DistinctBy(t, proj) by {
        forall i, j | 0 <= i < j < |t| ensures proj(t[i]) != proj(t[j]) {
          assert t[i] == s[i + 1] && t[j] == s[j + 1];
        }
      }
      InsertDistinctBy(x, t, key, proj);
      InsertPermutes(x, t, key);
      var u := Insert(x, t, key);
      var r := [s[0]] + u;
      forall i, j | 0 <= i < j < |r| ensures proj(r[i]) != proj(r[j]) {
        assert r[j] == u[j - 1];
        if i == 0 {
          assert u[j - 1] in multiset(u);
          if u[j - 1] != x {
            assert u[j - 1] in multiset(t);
            var k :| 0 <= k < |t| && t[k] == u[j - 1];
            assert s[k + 1] == t[k];
          }
        } else {
          assert r[i] == u[i - 1];
        }
      }
    }
  }

  /** The sort keeps distinct projections distinct. */
  lemma {:induction false} SortByDistinctBy<T, U>(s: seq<T>, key: T -> real, proj: T -> U)
    requires DistinctBy(s, proj)
    ensures DistinctBy(SortBy(s, key), proj)
  {
    if s != [] {
      var t := s[1..];
      assert DistinctBy(t, proj) by {
        forall i, j | 0 <= i < j < |t| ensures proj(t[i]) != proj(t[j]) {
          assert t[i] == s[i + 1] && t[j] == s[j + 1];
        }
      }
      SortByDistinctBy(t, key, proj);
      SortByMembers(t, key);
      forall y | y in SortBy(t, key) ensures proj(y) != proj(s[0]) {
        SortByPermutes(t, key);
        assert y in multiset(SortBy(t, key));
        assert y in multiset(t);
        var k :| 0 <= k < |t| && t[k] == y;
        assert s[k + 1] == y;
      }
      InsertDistinctBy(s[0], SortBy(t, key), key, proj);
    }
  }
}
