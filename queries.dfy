/**
 * The parts of SQL the scheduler's queries use, over sequences of rows:
 * WHERE keeps the rows satisfying a predicate in table order, and ORDER BY
 * is insertion into a sequence kept sorted by a total preorder.
 */
module Queries {

  /** WHERE `p`: the rows satisfying `p`, in their original order. */
  function Filter<T(!new)>(s: seq<T>, p: T -> bool): (r: seq<T>)
    ensures |r| <= |s|
    ensures forall x :: x in r <==> x in s && p(x)
    decreases |s|
  {
    if s == [] then []
    else (if p(s[0]) then [s[0]] else []) + Filter(s[1..], p)
  }

  /** Filtering twice by the same predicate is filtering once. */
  lemma {:induction false} FilterIdempotent<T(!new)>(s: seq<T>, p: T -> bool)
    ensures Filter(Filter(s, p), p) == Filter(s, p)
    decreases |s|
  {
    if s != [] {
      FilterIdempotent(s[1..], p);
      var t := Filter(s, p);
      if p(s[0]) {
        assert t == [s[0]] + Filter(s[1..], p);
        assert t[0] == s[0] && t[1..] == Filter(s[1..], p);
        assert Filter(t, p) == [t[0]] + Filter(t[1..], p);
      } else {
        assert t == Filter(s[1..], p);
      }
    }
  }

  ghost predicate StrictlyIncreasing<T>(s: seq<T>, key: T -> int) {
    forall i, j :: 0 <= i < j < |s| ==> key(s[i]) < key(s[j])
  }

  /** Deleting rows keeps the survivors in their order. */
  lemma {:induction false} FilterIncreasing<T(!new)>(s: seq<T>, p: T -> bool, key: T -> int)
    requires StrictlyIncreasing(s, key)
    ensures StrictlyIncreasing(Filter(s, p), key)
    decreases |s|
  {
    if s != [] {
      FilterIncreasing(s[1..], p, key);
      var rest := Filter(s[1..], p);
      forall x | x in rest ensures key(s[0]) < key(x) {
        var j :| 0 <= j < |s[1..]| && s[1..][j] == x;
        assert s[j + 1] == x;
      }
    }
  }

  ghost predicate SortedBy<T>(s: seq<T>, le: (T, T) -> bool) {
    forall i, j :: 0 <= i < j < |s| ==> le(s[i], s[j])
  }

  /** Every two elements compare, and comparison chains. */
  ghost predicate TotalPreorder<T(!new)>(le: (T, T) -> bool) {
    && (forall a, b :: le(a, b) || le(b, a))
    && (forall a, b, c :: le(a, b) && le(b, c) ==> le(a, c))
  }

  /** The index of the first element that `x` may precede. */
  function InsertPosition<T>(s: seq<T>, x: T, le: (T, T) -> bool): (k: nat)
    ensures k <= |s|
    ensures forall i :: 0 <= i < k ==> !le(x, s[i])
    ensures k < |s| ==> le(x, s[k])
    decreases |s|
  {
    if s == [] || le(x, s[0]) then 0 else 1 + InsertPosition(s[1..], x, le)
  }

  /** `s` with `x` inserted before the first element it may precede. */
  function InsertBy<T>(s: seq<T>, x: T, le: (T, T) -> bool): (r: seq<T>)
    ensures |r| == |s| + 1
    ensures multiset(r) == multiset(s) + multiset{x}
  {
    var k := InsertPosition(s, x, le);
    assert s == s[..k] + s[k..];
    s[..k] + [x] + s[k..]
  }

  /** Insertion keeps a sequence sorted. */
  lemma InsertBySorted<T(!new)>(s: seq<T>, x: T, le: (T, T) -> bool)
    requires TotalPreorder(le)
    requires SortedBy(s, le)
    ensures SortedBy(InsertBy(s, x, le), le)
  {
    var k := InsertPosition(s, x, le);
    var r := InsertBy(s, x, le);
    assert r == s[..k] + [x] + s[k..];
    assert forall i :: 0 <= i < k ==> r[i] == s[i];
    assert r[k] == x;
    assert forall i :: k < i < |r| ==> r[i] == s[i - 1];
    forall i, j | 0 <= i < j < |r| ensures le(r[i], r[j]) {
      if j < k {
      } else if j == k {
        assert !le(x, s[i]);
      } else if i < k {
        assert le(r[i], r[j]);
      } else if i == k {
        assert le(x, s[k]);
        if j - 1 > k {
          assert le(s[k], s[j - 1]);
        }
      } else {
        assert le(s[i - 1], s[j - 1]);
      }
    }
  }

  /** A prefix of a sorted sequence is sorted, and nothing after it precedes its last element. */
  lemma SortedPrefix<T>(s: seq<T>, n: nat, le: (T, T) -> bool)
    requires SortedBy(s, le)
    requires 0 < n <= |s|
    ensures SortedBy(s[..n], le)
    ensures forall j :: n <= j < |s| ==> le(s[n - 1], s[j])
  {
  }

  predicate Distinct<T(==)>(s: seq<T>) {
    forall i, j :: 0 <= i < j < |s| ==> s[i] != s[j]
  }

  /** Inserting a new element keeps the elements distinct. */
  lemma InsertByDistinct<T>(s: seq<T>, x: T, le: (T, T) -> bool)
    requires Distinct(s) && x !in s
    ensures Distinct(InsertBy(s, x, le))
  {
    var k := InsertPosition(s, x, le);
    var r := InsertBy(s, x, le);
    assert r == s[..k] + [x] + s[k..];
    forall i, j | 0 <= i < j < |r| ensures r[i] != r[j] {
      var a := if i < k then i else i - 1;
      var b := if j < k then j else j - 1;
      if i == k {
        assert r[j] == s[b];
      } else if j == k {
        assert r[i] == s[a];
      } else {
        assert r[i] == s[a] && r[j] == s[b] && a < b;
      }
    }
  }

  /** ORDER BY over a sequence: insertion sort by `le`. */
  function SortBy<T>(s: seq<T>, le: (T, T) -> bool): (r: seq<T>)
    ensures |r| == |s|
    ensures multiset(r) == multiset(s)
    decreases |s|
  {
    if s == [] then []
    else
      assert s == s[..|s| - 1] + [s[|s| - 1]];
      InsertBy(SortBy(s[..|s| - 1], le), s[|s| - 1], le)
  }

  lemma {:induction false} SortBySorted<T(!new)>(s: seq<T>, le: (T, T) -> bool)
    requires TotalPreorder(le)
    ensures SortedBy(SortBy(s, le), le)
    decreases |s|
  {
    if s != [] {
      SortBySorted(s[..|s| - 1], le);
      InsertBySorted(SortBy(s[..|s| - 1], le), s[|s| - 1], le);
    }
  }

  /** ORDER BY over the rows of a table: the elements of `s`, each once, sorted by `le`. */
  method SortSet<T(!new)>(s: set<T>, le: (T, T) -> bool) returns (r: seq<T>)
    requires TotalPreorder(le)
    ensures SortedBy(r, le)
    ensures Distinct(r)
    ensures |r| == |s|
    ensures forall x :: x in r <==> x in s
  {
    r := [];
    var rest := s;
    while rest != {}
      invariant SortedBy(r, le) && Distinct(r)
      invariant rest <= s
      invariant |r| + |rest| == |s|
      invariant forall x :: x in r <==> x in s && x !in rest
      decreases |rest|
    {
      var x :| x in rest;
      InsertBySorted(r, x, le);
      InsertByDistinct(r, x, le);
      assert multiset(InsertBy(r, x, le)) == multiset(r) + multiset{x};
      forall y ensures y in InsertBy(r, x, le) <==> y in r || y == x {
        assert y in InsertBy(r, x, le) <==> y in multiset(InsertBy(r, x, le));
        assert y in r <==> y in multiset(r);
      }
      r := InsertBy(r, x, le);
      rest := rest - {x};
    }
  }
}
