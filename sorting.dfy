/**
 * Ordering helpers shared by the queries that sort rows: a total preorder
 * over row values, sortedness with respect to it, and an insertion sort that
 * is proved to return a sorted permutation of its input.
 *
 * The modelled sorts (SQL `ORDER BY`, pandas `sort_values`) promise no
 * particular order among rows with equal keys; the insertion sort picks one,
 * and only sortedness and permutation are claimed about it.
 */
module Sorting {

  /** `le` is total and transitive: a preorder by which rows can be sorted. */
  ghost predicate TotalPreorder<T(!new)>(le: (T, T) -> bool)
  {
    && (forall a, b :: le(a, b) || le(b, a))
    && (forall a, b, c :: le(a, b) && le(b, c) ==> le(a, c))
  }

  /** Every earlier element is `le` every later element. */
  predicate SortedBy<T>(s: seq<T>, le: (T, T) -> bool)
  {
    forall i, j :: 0 <= i < j < |s| ==> le(s[i], s[j])
  }

  /** Inserts `x` into the sorted sequence `s`, before the first element it is `le`. */
  function InsertBy<T(!new)>(x: T, s: seq<T>, le: (T, T) -> bool): (r: seq<T>)
    requires TotalPreorder(le) && SortedBy(s, le)
    ensures SortedBy(r, le)
    ensures multiset(r) == multiset(s) + multiset{x}
    ensures |r| == |s| + 1
  {
    if s == [] then [x]
    else if le(x, s[0]) then
      assert forall j :: 0 <= j < |s| ==> le(s[0], s[j]);
      [x] + s
    else
      var rest := InsertBy(x, s[1..], le);
      HeadBoundsInsertion(x, s, rest, le);
      SortedCons(s[0], rest, le);
      assert s == [s[0]] + s[1..];
      [s[0]] + rest
  }

  /** Every element of the insertion into the tail is at least the head. */
  lemma HeadBoundsInsertion<T(!new)>(x: T, s: seq<T>, rest: seq<T>, le: (T, T) -> bool)
    requires TotalPreorder(le) && SortedBy(s, le) && |s| > 0 && !le(x, s[0])
    requires multiset(rest) == multiset(s[1..]) + multiset{x}
    ensures forall j :: 0 <= j < |rest| ==> le(s[0], rest[j])
  {
    forall j | 0 <= j < |rest| ensures le(s[0], rest[j]) {
      var y := rest[j];
      assert y in multiset(rest);
      if y != x {
        assert y in multiset(s[1..]);
        var k :| 0 <= k < |s[1..]| && s[1..][k] == y;
        assert le(s[0], s[k + 1]);
      }
    }
  }

  /** A lower bound of a sorted sequence can be put in front of it. */
  lemma SortedCons<T>(h: T, rest: seq<T>, le: (T, T) -> bool)
    requires SortedBy(rest, le)
    requires forall j :: 0 <= j < |rest| ==> le(h, rest[j])
    ensures SortedBy([h] + rest, le)
  {
    var r := [h] + rest;
    forall i, j | 0 <= i < j < |r| ensures le(r[i], r[j]) {
      if i == 0 {
        assert r[j] == rest[j - 1];
      } else {
        assert r[i] == rest[i - 1] && r[j] == rest[j - 1];
      }
    }
  }

  /** Insertion sort: a sorted permutation of `s`. */
  function SortBy<T(!new)>(s: seq<T>, le: (T, T) -> bool): (r: seq<T>)
    requires TotalPreorder(le)
    ensures SortedBy(r, le)
    ensures multiset(r) == multiset(s)
    ensures |r| == |s|
  {
    if s == [] then []
    else
      assert s == [s[0]] + s[1..];
      InsertBy(s[0], SortBy(s[1..], le), le)
  }

  /** The first `limit` elements, or all of them when `limit` is negative (SQLite's `LIMIT`). */
  function Limit<T>(s: seq<T>, limit: int): (r: seq<T>)
    ensures limit >= 0 ==> |r| == if limit < |s| then limit else |s|
    ensures limit < 0 ==> r == s
    ensures r <= s
  {
    if limit < 0 || |s| <= limit then s else s[..limit]
  }
}
