/** The round-robin merge of src/apis/main.py:75-100, over any element type: round `i`
    visits the categories in order and takes each category's element `i` when it has one;
    there are as many rounds as the longest category has elements. */
module Interleave {

  /** `max(len(posts) for posts in categories)`, 0 for no category. */
  function MaxLen<T>(bs: seq<seq<T>>): (m: nat)
    ensures forall k :: 0 <= k < |bs| ==> |bs[k]| <= m
    ensures m == 0 || exists k :: 0 <= k < |bs| && |bs[k]| == m
  {
    if bs == [] then 0
    else
      var m := MaxLen(bs[..|bs| - 1]);
      assert forall k :: 0 <= k < |bs| - 1 ==> bs[..|bs| - 1][k] == bs[k];
      if |bs[|bs| - 1]| > m then |bs[|bs| - 1]| else m
  }

  /** What round `i` has appended after visiting the first `j` categories. */
  function RoundPrefix<T>(bs: seq<seq<T>>, i: nat, j: nat): seq<T>
    requires j <= |bs|
  {
    if j == 0 then []
    else RoundPrefix(bs, i, j - 1) + (if i < |bs[j - 1]| then [bs[j - 1][i]] else [])
  }

  /** Everything round `i` appends. */
  function Round<T>(bs: seq<seq<T>>, i: nat): seq<T> {
    RoundPrefix(bs, i, |bs|)
  }

  /** The result after the first `n` rounds. */
  function RoundsUpTo<T>(bs: seq<seq<T>>, n: nat): seq<T> {
    if n == 0 then [] else RoundsUpTo(bs, n - 1) + Round(bs, n - 1)
  }

  /** The interleaved result before the limit. */
  function RoundRobin<T>(bs: seq<seq<T>>): seq<T> {
    RoundsUpTo(bs, MaxLen(bs))
  }

  /** All categories one after the other. */
  function Flatten<T>(bs: seq<seq<T>>): seq<T> {
    if bs == [] then [] else Flatten(bs[..|bs| - 1]) + bs[|bs| - 1]
  }

  /** The sum of the category sizes. */
  function TotalSize<T>(bs: seq<seq<T>>): nat {
    if bs == [] then 0 else TotalSize(bs[..|bs| - 1]) + |bs[|bs| - 1]|
  }

  /** Where round `i` puts element `i` of category `k`. */
  function Pos<T>(bs: seq<seq<T>>, i: nat, k: nat): nat
    requires k <= |bs|
  {
    |RoundsUpTo(bs, i)| + |RoundPrefix(bs, i, k)|
  }

  function MinNat(a: nat, b: nat): nat { if a < b then a else b }

  /** The first `n` elements of each of the first `j` categories, one category after the other. */
  function Prefixes<T>(bs: seq<seq<T>>, n: nat, j: nat): seq<T>
    requires j <= |bs|
  {
    if j == 0 then [] else Prefixes(bs, n, j - 1) + bs[j - 1][..MinNat(n, |bs[j - 1]|)]
  }

  // ---------------------------------------------------------------- contents

  lemma MultisetRegroup<T>(p1: seq<T>, p0: seq<T>, r: seq<T>, c: seq<T>, e: seq<T>)
    requires multiset(p1) == multiset(p0) + multiset(r)
    ensures multiset(p1 + (c + e)) == multiset(p0 + c) + multiset(r + e)
  {
  }

  lemma {:induction false} PrefixesStep<T>(bs: seq<seq<T>>, n: nat, j: nat)
    requires j <= |bs|
    ensures multiset(Prefixes(bs, n + 1, j)) == multiset(Prefixes(bs, n, j)) + multiset(RoundPrefix(bs, n, j))
  {
    if j > 0 {
      PrefixesStep(bs, n, j - 1);
      var b := bs[j - 1];
      var c := b[..MinNat(n, |b|)];
      var extra := if n < |b| then [b[n]] else [];
      assert b[..MinNat(n + 1, |b|)] == c + extra;
      MultisetRegroup(Prefixes(bs, n + 1, j - 1), Prefixes(bs, n, j - 1), RoundPrefix(bs, n, j - 1), c, extra);
    }
  }

  lemma {:induction false} PrefixesZero<T>(bs: seq<seq<T>>, j: nat)
    requires j <= |bs|
    ensures Prefixes(bs, 0, j) == []
  {
    if j > 0 {
      PrefixesZero(bs, j - 1);
    }
  }

  lemma RoundsStep<T>(bs: seq<seq<T>>, m: nat)
    ensures multiset(RoundsUpTo(bs, m + 1)) == multiset(RoundsUpTo(bs, m)) + multiset(Round(bs, m))
  {
  }

  lemma {:induction false} RoundsAsPrefixes<T>(bs: seq<seq<T>>, n: nat)
    ensures multiset(RoundsUpTo(bs, n)) == multiset(Prefixes(bs, n, |bs|))
  {
    if n == 0 {
      PrefixesZero(bs, |bs|);
    } else {
      var m := n - 1;
      RoundsAsPrefixes(bs, m);
      PrefixesStep(bs, m, |bs|);
      RoundsStep(bs, m);
    }
  }

  lemma {:induction false} PrefixesBeyondMax<T>(bs: seq<seq<T>>, n: nat, j: nat)
    requires j <= |bs| && n >= MaxLen(bs)
    ensures Prefixes(bs, n, j) == Flatten(bs[..j])
  {
    if j > 0 {
      PrefixesBeyondMax(bs, n, j - 1);
      assert bs[..j][..j - 1] == bs[..j - 1];
      assert bs[j - 1][..MinNat(n, |bs[j - 1]|)] == bs[j - 1];
    }
  }

  lemma {:induction false} FlattenSize<T>(bs: seq<seq<T>>)
    ensures |Flatten(bs)| == TotalSize(bs)
  {
    if bs != [] {
      FlattenSize(bs[..|bs| - 1]);
    }
  }

  /** A value is in the concatenation exactly when it is in one of the categories. */
  lemma {:induction false} InFlatten<T>(bs: seq<seq<T>>, x: T)
    ensures x in Flatten(bs) <==> exists k :: 0 <= k < |bs| && x in bs[k]
  {
    if bs != [] {
      var init := bs[..|bs| - 1];
      InFlatten(init, x);
      assert forall k :: 0 <= k < |init| ==> init[k] == bs[k];
    }
  }

  /** A value in two different categories occurs at least twice in the concatenation. */
  lemma {:induction false} FlattenCountsBoth<T>(bs: seq<seq<T>>, x: T, k1: nat, k2: nat)
    requires k1 < k2 < |bs| && x in bs[k1] && x in bs[k2]
    ensures multiset(Flatten(bs))[x] >= 2
  {
    var init := bs[..|bs| - 1];
    if k2 == |bs| - 1 {
      InFlatten(init, x);
      assert init[k1] == bs[k1];
    } else {
      FlattenCountsBoth(init, x, k1, k2);
    }
  }

  /** Before the limit, the interleaved result holds exactly the posts of all
      categories, each as often as it occurs there; its length is the sum of the
      category sizes. */
  lemma RoundRobinPermutes<T>(bs: seq<seq<T>>)
    ensures multiset(RoundRobin(bs)) == multiset(Flatten(bs))
    ensures |RoundRobin(bs)| == TotalSize(bs)
  {
    RoundsAsPrefixes(bs, MaxLen(bs));
    PrefixesBeyondMax(bs, MaxLen(bs), |bs|);
    assert bs[..|bs|] == bs;
    FlattenSize(bs);
    calc {
      |RoundRobin(bs)|;
      |multiset(RoundRobin(bs))|;
      |multiset(Flatten(bs))|;
      |Flatten(bs)|;
    }
  }

  // ---------------------------------------------------------------- positions

  lemma {:induction false} RoundPrefixGrows<T>(bs: seq<seq<T>>, i: nat, j: nat, j': nat)
    requires j <= j' <= |bs|
    ensures RoundPrefix(bs, i, j) <= RoundPrefix(bs, i, j')
  {
    if j < j' {
      RoundPrefixGrows(bs, i, j, j' - 1);
    }
  }

  lemma {:induction false} RoundsGrow<T>(bs: seq<seq<T>>, n: nat, n': nat)
    requires n <= n'
    ensures RoundsUpTo(bs, n) <= RoundsUpTo(bs, n')
  {
    if n < n' {
      RoundsGrow(bs, n, n' - 1);
    }
  }

  /** Element `i` of category `k` is in the result, at position `Pos(bs, i, k)`:
      after the first `i` rounds and after the element `i` of every earlier category
      that has one. */
  lemma RoundRobinAt<T>(bs: seq<seq<T>>, i: nat, k: nat)
    requires k < |bs| && i < |bs[k]|
    ensures Pos(bs, i, k) < |RoundRobin(bs)|
    ensures RoundRobin(bs)[Pos(bs, i, k)] == bs[k][i]
    ensures Pos(bs, i, k) < |RoundsUpTo(bs, i + 1)|
  {
    RoundPrefixGrows(bs, i, k + 1, |bs|);
    RoundsGrow(bs, i + 1, MaxLen(bs));
    var before := RoundsUpTo(bs, i);
    var upto := RoundPrefix(bs, i, k + 1);
    assert upto == RoundPrefix(bs, i, k) + [bs[k][i]];
    assert RoundsUpTo(bs, i + 1) == before + Round(bs, i);
    assert (before + upto)[Pos(bs, i, k)] == bs[k][i];
    assert before + upto <= RoundsUpTo(bs, i + 1);
  }

  /** Round by round, and category by category within a round: an earlier
      (round, category) pair lands strictly earlier in the result. Together with
      RoundRobinAt and RoundRobinPermutes: one entry per (category, index) pair. */
  lemma PosOrdered<T>(bs: seq<seq<T>>, i1: nat, k1: nat, i2: nat, k2: nat)
    requires k1 < |bs| && i1 < |bs[k1]| && k2 < |bs| && i2 < |bs[k2]|
    requires i1 < i2 || (i1 == i2 && k1 < k2)
    ensures Pos(bs, i1, k1) < Pos(bs, i2, k2)
  {
    if i1 < i2 {
      RoundRobinAt(bs, i1, k1);
      RoundsGrow(bs, i1 + 1, i2);
      assert Pos(bs, i1, k1) < |RoundsUpTo(bs, i1 + 1)| <= |RoundsUpTo(bs, i2)| <= Pos(bs, i2, k2);
    } else {
      RoundPrefixGrows(bs, i1, k1 + 1, k2);
      assert RoundPrefix(bs, i1, k1 + 1) == RoundPrefix(bs, i1, k1) + [bs[k1][i1]];
      assert |RoundPrefix(bs, i1, k1)| < |RoundPrefix(bs, i1, k1 + 1)| <= |RoundPrefix(bs, i2, k2)|;
    }
  }

  lemma {:induction false} FirstRoundCount<T>(bs: seq<seq<T>>, k: nat)
    requires k <= |bs|
    requires forall j :: 0 <= j < |bs| ==> bs[j] != []
    ensures |RoundPrefix(bs, 0, k)| == k
  {
    if k > 0 {
      FirstRoundCount(bs, k - 1);
    }
  }

  /** Fairness: when no category is empty, the result opens with the first element of
      every category, in category order. */
  lemma FirstRoundIsHeads<T>(bs: seq<seq<T>>)
    requires forall j :: 0 <= j < |bs| ==> bs[j] != []
    ensures |bs| <= |RoundRobin(bs)|
    ensures forall k :: 0 <= k < |bs| ==> RoundRobin(bs)[k] == bs[k][0]
  {
    forall k | 0 <= k < |bs| ensures k < |RoundRobin(bs)| && RoundRobin(bs)[k] == bs[k][0] {
      FirstRoundCount(bs, k);
      RoundRobinAt(bs, 0, k);
    }
    if |bs| > 0 {
      assert |bs| - 1 < |RoundRobin(bs)|;
    }
  }

  lemma {:induction false} RoundPrefixEmptyBeyond<T>(bs: seq<seq<T>>, i: nat, j: nat)
    requires j <= |bs| && i >= MaxLen(bs)
    ensures RoundPrefix(bs, i, j) == []
  {
    if j > 0 {
      RoundPrefixEmptyBeyond(bs, i, j - 1);
    }
  }

  /** Once every category is exhausted, further rounds add nothing: running more rounds
      than the longest category gives the same result. */
  lemma {:induction false} ExtraRoundsAddNothing<T>(bs: seq<seq<T>>, n: nat)
    requires n >= MaxLen(bs)
    ensures RoundsUpTo(bs, n) == RoundRobin(bs)
  {
    if n > MaxLen(bs) {
      ExtraRoundsAddNothing(bs, n - 1);
      RoundPrefixEmptyBeyond(bs, n - 1, |bs|);
    }
  }

  /** Categories [10, 8, 6] and [9] interleave as 10, 9, 8, 6. */
  lemma TwoCategoriesInterleave()
    ensures RoundRobin([[10, 8, 6], [9]]) == [10, 9, 8, 6]
  {
    var bs: seq<seq<int>> := [[10, 8, 6], [9]];
    assert MaxLen(bs[..1]) == 3 by {
      assert bs[..1][..0] == [];
    }
    assert MaxLen(bs) == 3;
    var a, b := bs[0], bs[1];
    assert a == [10, 8, 6] && b == [9];
    assert Round(bs, 0) == [10, 9] by {
      assert RoundPrefix(bs, 0, 1) == [a[0]];
      assert RoundPrefix(bs, 0, 2) == [a[0], b[0]];
    }
    assert Round(bs, 1) == [8] by {
      assert RoundPrefix(bs, 1, 1) == [a[1]];
    }
    assert Round(bs, 2) == [6] by {
      assert RoundPrefix(bs, 2, 1) == [a[2]];
    }
    assert RoundsUpTo(bs, 1) == [10, 9];
    assert RoundsUpTo(bs, 2) == [10, 9, 8];
  }
}
