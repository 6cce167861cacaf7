/** `ORDER BY key` with a tie-break on the primary key, as a stable
    insertion sort over the rows of a table. */
module Ordering {
  import opened Wrappers

  /** `a` comes before `b`: earlier key, or equal keys and smaller id. */
  predicate Precedes<T>(key: T -> int, tie: T -> int, a: T, b: T)
  {
    key(a) < key(b) || (key(a) == key(b) && tie(a) < tie(b))
  }

  predicate Sorted<T>(key: T -> int, tie: T -> int, s: seq<T>)
  {
    forall i, j :: 0 <= i < j < |s| ==> Precedes(key, tie, s[i], s[j])
  }

  /** No two elements share a tie-break value (the primary key). */
  predicate DistinctTies<T>(tie: T -> int, s: seq<T>)
  {
    forall i, j :: 0 <= i < j < |s| ==> tie(s[i]) != tie(s[j])
  }

  function Insert<T(!new)>(key: T -> int, tie: T -> int, x: T, s: seq<T>): (r: seq<T>)
    ensures multiset(r) == multiset(s) + multiset{x}
    ensures forall y :: y in r <==> y in s || y == x
  {
    if s == [] then [x]
    else if Precedes(key, tie, x, s[0]) then [x] + s
    else
      assert s == [s[0]] + s[1..];
      [s[0]] + Insert(key, tie, x, s[1..])
  }

  function Sort<T(!new)>(key: T -> int, tie: T -> int, s: seq<T>): (r: seq<T>)
    ensures multiset(r) == multiset(s)
    ensures forall y :: y in r <==> y in s
  {
    if s == [] then []
    else
      assert s == [s[0]] + s[1..];
      Insert(key, tie, s[0], Sort(key, tie, s[1..]))
  }

  lemma {:induction false} InsertSorted<T(!new)>(key: T -> int, tie: T -> int, x: T, s: seq<T>)
    requires Sorted(key, tie, s)
    requires forall y :: y in s ==> tie(y) != tie(x)
    ensures Sorted(key, tie, Insert(key, tie, x, s))
    decreases |s|
  {
    if s != [] && !Precedes(key, tie, x, s[0]) {
      var rest := Insert(key, tie, x, s[1..]);
      InsertSorted(key, tie, x, s[1..]);
      assert Precedes(key, tie, s[0], x);
      forall y | y in rest
        ensures Precedes(key, tie, s[0], y)
      {
        if y != x {
          var k :| 1 <= k < |s| && s[k] == y;
        }
      }
      var r := [s[0]] + rest;
      forall i, j | 0 <= i < j < |r|
        ensures Precedes(key, tie, r[i], r[j])
      {
        if i == 0 {
          assert r[j] in rest;
        } else {
          assert r[i] == rest[i - 1] && r[j] == rest[j - 1];
        }
      }
    }
  }

  /** Sorting rows with distinct primary keys yields them in strictly
      ascending (key, id) order. */
  lemma {:induction false} SortSorted<T(!new)>(key: T -> int, tie: T -> int, s: seq<T>)
    requires DistinctTies(tie, s)
    ensures Sorted(key, tie, Sort(key, tie, s))
    decreases |s|
  {
    if s != [] {
      assert DistinctTies(tie, s[1..]) by {
        forall i, j | 0 <= i < j < |s[1..]|
          ensures tie(s[1..][i]) != tie(s[1..][j])
        {
          assert s[1..][i] == s[i + 1] && s[1..][j] == s[j + 1];
        }
      }
      SortSorted(key, tie, s[1..]);
      forall y | y in Sort(key, tie, s[1..])
        ensures tie(y) != tie(s[0])
      {
        var k :| 1 <= k < |s| && s[k] == y;
      }
      InsertSorted(key, tie, s[0], Sort(key, tie, s[1..]));
    }
  }

  /** A prefix of a sorted sequence holds its earliest elements: anything
      left out comes after everything kept. */
  lemma PrefixIsEarliest<T>(key: T -> int, tie: T -> int, s: seq<T>, n: nat, y: T)
    requires Sorted(key, tie, s) && n <= |s|
    requires y in s && y !in s[..n]
    ensures forall x :: x in s[..n] ==> Precedes(key, tie, x, y)
  {
    var k :| 0 <= k < |s| && s[k] == y;
    assert k >= n;
    forall x | x in s[..n]
      ensures Precedes(key, tie, x, y)
    {
      var i :| 0 <= i < n && s[..n][i] == x;
    }
  }

  /** `session.get(Model, id)` over a table held in insertion order: the
      first position whose primary key is `id`, or None. */
  function FindKey<T>(s: seq<T>, key: T -> int, id: int): (r: Option<nat>)
    ensures r.Some? ==> r.value < |s| && key(s[r.value]) == id
    ensures r.Some? ==> forall i :: 0 <= i < r.value ==> key(s[i]) != id
    ensures r.None? <==> forall i :: 0 <= i < |s| ==> key(s[i]) != id
  {
    if |s| == 0 then None
    else if key(s[0]) == id then Some(0)
    else
      match FindKey(s[1..], key, id)
      case Some(i) =>
        assert forall j :: 1 <= j < |s| ==> s[j] == s[1..][j - 1];
        Some(i + 1)
      case None =>
        assert forall j :: 1 <= j < |s| ==> s[j] == s[1..][j - 1];
        None
  }
}
