/** The database orderings the source relies on: `ORDER BY key DESC NULLS LAST`
    (upvotes of a category, creation time of the backfill selection). The database
    leaves the order of rows with equal keys open; the contracts here say nothing about it. */
module Ranking {
  import opened Wrappers

  /** A row with key `a` may come before a row with key `b`: larger values first,
      NULL after every value. */
  predicate NoLater(a: Option<int>, b: Option<int>) {
    match a
    case None => b.None?
    case Some(x) => b.None? || x >= b.value
  }

  predicate SortedDesc<T>(s: seq<T>, key: T -> Option<int>) {
    forall i, j :: 0 <= i < j < |s| ==> NoLater(key(s[i]), key(s[j]))
  }

  /** Places `x` before the first element it may precede, so it stays ahead of the
      elements with an equal key. */
  function Insert<T>(x: T, s: seq<T>, key: T -> Option<int>): seq<T>
  {
    if s == [] || NoLater(key(x), key(s[0])) then [x] + s
    else [s[0]] + Insert(x, s[1..], key)
  }

  lemma {:induction false} InsertSorted<T>(x: T, s: seq<T>, key: T -> Option<int>)
    requires SortedDesc(s, key)
    ensures multiset(Insert(x, s, key)) == multiset(s) + multiset{x}
    ensures SortedDesc(Insert(x, s, key), key)
  {
    if s != [] && !NoLater(key(x), key(s[0])) {
      var t := Insert(x, s[1..], key);
      InsertSorted(x, s[1..], key);
      assert s == [s[0]] + s[1..];
      HeadPrecedesAll(s[0], s[1..], x, t, key);
      ConsSorted(s[0], t, key);
    }
  }

  /** An element that may precede every element of `rest` and `x` may precede every
      element of a rearrangement of `rest` plus `x`. */
  lemma HeadPrecedesAll<T>(h: T, rest: seq<T>, x: T, t: seq<T>, key: T -> Option<int>)
    requires SortedDesc([h] + rest, key) && !NoLater(key(x), key(h))
    requires multiset(t) == multiset(rest) + multiset{x}
    ensures forall j :: 0 <= j < |t| ==> NoLater(key(h), key(t[j]))
  {
    assert NoLater(key(h), key(x));
    forall j | 0 <= j < |t| ensures NoLater(key(h), key(t[j])) {
      assert t[j] in multiset(t);
      if t[j] != x {
        assert t[j] in multiset(rest);
        var k :| 0 <= k < |rest| && rest[k] == t[j];
        var hr := [h] + rest;
        assert hr[0] == h && hr[k + 1] == t[j];
        assert NoLater(key(hr[0]), key(hr[k + 1]));
      }
    }
  }

  /** Putting in front of a sorted sequence an element that may precede all of it keeps it
      sorted. */
  lemma ConsSorted<T>(h: T, t: seq<T>, key: T -> Option<int>)
    requires SortedDesc(t, key)
    requires forall j :: 0 <= j < |t| ==> NoLater(key(h), key(t[j]))
    ensures SortedDesc([h] + t, key)
  {
    var r := [h] + t;
    forall i, j | 0 <= i < j < |r| ensures NoLater(key(r[i]), key(r[j])) {
      if i > 0 {
        assert r[i] == t[i - 1] && r[j] == t[j - 1];
      }
    }
  }

  /** Sort by `key`, descending, NULLs last. */
  function SortDesc<T>(s: seq<T>, key: T -> Option<int>): (r: seq<T>)
    ensures multiset(r) == multiset(s)
    ensures SortedDesc(r, key)
  {
    if s == [] then []
    else
      var t := SortDesc(s[1..], key);
      InsertSorted(s[0], t, key);
      assert s == [s[0]] + s[1..];
      Insert(s[0], t, key)
  }
}
