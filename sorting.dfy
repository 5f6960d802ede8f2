/**
 * The ordering machinery behind the SQL `ORDER BY` clauses: a stable
 * insertion sort by a comparator that is a total preorder, the ascending list
 * of a table's primary keys, and the lexicographic order on text that sorts
 * ISO dates chronologically.
 */
module Sorting {

  /** `le(a, b)` means that `a` may come before `b`. */
  ghost predicate TotalPreorder<T(!new)>(le: (T, T) -> bool) {
    && (forall a, b :: le(a, b) || le(b, a))
    && (forall a, b, c :: le(a, b) && le(b, c) ==> le(a, c))
  }

  predicate SortedBy<T>(s: seq<T>, le: (T, T) -> bool) {
    forall i, j :: 0 <= i < j < |s| ==> le(s[i], s[j])
  }

  function Insert<T(!new)>(x: T, s: seq<T>, le: (T, T) -> bool): (r: seq<T>)
    requires TotalPreorder(le) && SortedBy(s, le)
    ensures SortedBy(r, le)
    ensures multiset(r) == multiset(s) + multiset{x}
  {
    if s == [] then [x]
    else if le(x, s[0]) then
      PrependSorted(x, s, le);
      [x] + s
    else
      var rest := Insert(x, s[1..], le);
      InsertBehind(x, s, rest, le);
      [s[0]] + rest
  }

  /** A row that may precede the first row of a sorted sequence may precede all of it. */
  lemma PrependSorted<T(!new)>(x: T, s: seq<T>, le: (T, T) -> bool)
    requires TotalPreorder(le) && SortedBy(s, le) && s != [] && le(x, s[0])
    ensures SortedBy([x] + s, le)
  {
    var r := [x] + s;
    forall i, j | 0 <= i < j < |r| ensures le(r[i], r[j]) {
      assert r[j] == s[j - 1];
      if i == 0 {
        if j > 1 {
          assert le(s[0], s[j - 1]);
        }
      } else {
        assert r[i] == s[i - 1];
      }
    }
  }

  /** When `x` goes after the first row, the first row stays in front of the sorted rest. */
  lemma InsertBehind<T(!new)>(x: T, s: seq<T>, rest: seq<T>, le: (T, T) -> bool)
    requires TotalPreorder(le) && SortedBy(s, le) && s != [] && !le(x, s[0])
    requires SortedBy(rest, le) && multiset(rest) == multiset(s[1..]) + multiset{x}
    ensures SortedBy([s[0]] + rest, le)
    ensures multiset([s[0]] + rest) == multiset(s) + multiset{x}
  {
    assert s == [s[0]] + s[1..];
    assert le(s[0], x);
    var r := [s[0]] + rest;
    forall i, j | 0 <= i < j < |r| ensures le(r[i], r[j]) {
      var y := rest[j - 1];
      assert r[j] == y;
      if i == 0 {
        assert y in multiset(rest);
        if y != x {
          assert y in multiset(s[1..]);
          var k :| 0 <= k < |s[1..]| && s[1..][k] == y;
          assert s[k + 1] == y;
        }
      } else {
        assert r[i] == rest[i - 1];
      }
    }
  }

  /** The rows of `s` rearranged so that `le` holds between every earlier and later row. */
  function SortBy<T(!new)>(s: seq<T>, le: (T, T) -> bool): (r: seq<T>)
    requires TotalPreorder(le)
    ensures SortedBy(r, le)
    ensures multiset(r) == multiset(s)
    ensures |r| == |s|
    ensures forall x :: x in r <==> x in s
  {
    if s == [] then []
    else
      assert s == [s[0]] + s[1..];
      var r := Insert(s[0], SortBy(s[1..], le), le);
      assert forall x :: x in r <==> x in multiset(r);
      assert forall x :: x in s <==> x in multiset(s);
      r
  }

  ghost predicate Distinct<T>(s: seq<T>) {
    forall i, j :: 0 <= i < j < |s| ==> s[i] != s[j]
  }

  lemma {:induction false} DistinctOccursOnce<T>(s: seq<T>, x: T)
    requires Distinct(s)
    ensures multiset(s)[x] <= 1
  {
    if s != [] {
      var tail := s[1..];
      assert s == [s[0]] + tail;
      assert Distinct(tail);
      DistinctOccursOnce(tail, x);
      if x == s[0] {
        assert x !in tail;
      }
    }
  }

  /** A rearrangement of a sequence without repeats has no repeats. */
  lemma DistinctPermutation<T>(a: seq<T>, b: seq<T>)
    requires Distinct(a) && multiset(a) == multiset(b)
    ensures Distinct(b)
  {
    forall i, j | 0 <= i < j < |b| ensures b[i] != b[j] {
      if b[i] == b[j] {
        var x := b[i];
        assert b == b[..j] + b[j..];
        assert x in b[..j];
        assert x in b[j..];
        assert multiset(b)[x] >= 2 by {
          assert multiset(b) == multiset(b[..j]) + multiset(b[j..]);
        }
        DistinctOccursOnce(a, x);
        assert false;
      }
    }
  }

  /** The least primary key of a non-empty table. */
  function Least(s: set<nat>): (m: nat)
    requires s != {}
    ensures m in s && forall x :: x in s ==> m <= x
  {
    HasLeast(s);
    var m :| m in s && forall x :: x in s ==> m <= x;
    m
  }

  lemma HasLeast(s: set<nat>)
    requires s != {}
    ensures exists m :: m in s && forall x :: x in s ==> m <= x
  {
    var y :| y in s;
    LeastUpTo(s, y);
  }

  /** Below any key of a set, a least key of the set can be found. */
  lemma {:induction false} LeastUpTo(s: set<nat>, n: nat)
    requires n in s
    ensures exists m :: m in s && forall x :: x in s ==> m <= x
    decreases n
  {
    if exists x :: x in s && x < n {
      var x :| x in s && x < n;
      LeastUpTo(s, x);
    } else {
      assert forall x :: x in s ==> n <= x;
    }
  }

  predicate Increasing(s: seq<nat>) {
    forall i, j :: 0 <= i < j < |s| ==> s[i] < s[j]
  }

  /** An increasing sequence holds each of its elements once. */
  lemma {:induction false} IncreasingCard(s: seq<nat>)
    requires Increasing(s)
    ensures |Elements(s)| == |s|
  {
    if s != [] {
      var tail := s[1..];
      assert Increasing(tail);
      IncreasingCard(tail);
      assert s[0] !in Elements(tail);
      assert Elements(s) == Elements(tail) + {s[0]} by {
        assert s == [s[0]] + tail;
      }
    }
  }

  function Elements(s: seq<nat>): (r: set<nat>)
    ensures forall x :: x in r <==> x in s
  {
    set x | x in s
  }

  /** A key below every key of an increasing sequence can go in front of it. */
  lemma PrependIncreasing(x: nat, s: seq<nat>)
    requires Increasing(s) && forall y :: y in s ==> x < y
    ensures Increasing([x] + s)
  {
    forall i, j | 0 <= i < j < |[x] + s| ensures ([x] + s)[i] < ([x] + s)[j] {
      if i > 0 {
        assert ([x] + s)[i] == s[i - 1] && ([x] + s)[j] == s[j - 1];
      } else {
        assert ([x] + s)[j] == s[j - 1];
        assert s[j - 1] in s;
      }
    }
  }

  /** The keys of a table in ascending order, as a scan of its primary key yields them. */
  function Ascending(s: set<nat>): (r: seq<nat>)
    ensures forall x :: x in r <==> x in s
    ensures Increasing(r)
    ensures |r| == |s|
    decreases |s|
  {
    if s == {} then []
    else
      var m := Least(s);
      var rest := Ascending(s - {m});
      assert |s - {m}| == |s| - 1;
      assert forall y :: y in rest ==> m < y;
      PrependIncreasing(m, rest);
      [m] + rest
  }

  /** Lexicographic order on text by code point; on ISO dates it is chronological order. */
  predicate TextLe(a: string, b: string)
    decreases |a|
  {
    if a == [] then true
    else if b == [] then false
    else if a[0] != b[0] then a[0] < b[0]
    else TextLe(a[1..], b[1..])
  }

  lemma {:induction false} TextLeTotal(a: string, b: string)
    ensures TextLe(a, b) || TextLe(b, a)
    decreases |a|
  {
    if a != [] && b != [] && a[0] == b[0] {
      TextLeTotal(a[1..], b[1..]);
    }
  }

  lemma {:induction false} TextLeTransitive(a: string, b: string, c: string)
    requires TextLe(a, b) && TextLe(b, c)
    ensures TextLe(a, c)
    decreases |a|
  {
    if a != [] && b != [] && c != [] && a[0] == b[0] && b[0] == c[0] {
      TextLeTransitive(a[1..], b[1..], c[1..]);
    }
  }
}
