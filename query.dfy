/** The query API of src/apis/main.py: `posts` (flat, or interleaved across
    source/sub categories), `post` by surrogate id, and `get_detailed_posts`.
    The table is a sequence of rows in the order the database yields them; the order of
    `SELECT DISTINCT source, sub` is an input. */
module Query {
  import opened Wrappers
  import opened PostTypes
  import opened PostStore
  import opened Ranking
  import opened Interleave
  import opened Slices
  import opened Multisets
  import opened Text

  /** One row of `SELECT DISTINCT source, sub`, with the source as its enum member. */
  datatype Pair = Pair(source: Option<SourceEnum>, sub: Option<string>)

  /** `f"{source}:{sub}" if sub else source`. */
  function CategoryKey(source: SourceEnum, sub: Option<string>): string {
    if Truthy(sub) then SourceValue(source) + ":" + sub.value else SourceValue(source)
  }

  /** The filter of the category query: the source must match; the sub must match only
      when the pair's sub is truthy, otherwise that condition is `True`. */
  predicate InCategory(r: StoredPost, source: SourceEnum, sub: Option<string>) {
    r.source == Some(source) && (Truthy(sub) ==> r.sub == sub)
  }

  /** The rows passing the category filter, in table order. */
  function Where(rows: seq<StoredPost>, source: SourceEnum, sub: Option<string>): (r: seq<StoredPost>)
    ensures forall x :: x in r <==> x in rows && InCategory(x, source, sub)
  {
    if rows == [] then []
    else (if InCategory(rows[0], source, sub) then [rows[0]] else []) + Where(rows[1..], source, sub)
  }

  function UpvotesKey(r: StoredPost): Option<int> { r.upvotes }

  /** The category query: filtered, then `ORDER BY upvotes DESC NULLS LAST`. */
  function CategoryPosts(rows: seq<StoredPost>, source: SourceEnum, sub: Option<string>): seq<StoredPost> {
    SortDesc(Where(rows, source, sub), UpvotesKey)
  }

  /** `posts_by_category`: a Python dict, i.e. a map plus the order in which keys were
      first inserted. Assigning to an existing key keeps its place. */
  datatype Categories = Categories(order: seq<string>, buckets: map<string, seq<StoredPost>>) {
    ghost predicate Valid() {
      && (forall i, j :: 0 <= i < j < |order| ==> order[i] != order[j])
      && (forall k :: k in buckets <==> k in order)
    }

    function Put(key: string, posts: seq<StoredPost>): (d: Categories)
      requires Valid()
      ensures d.Valid()
    {
      if key in buckets then this.(buckets := buckets[key := posts])
      else Categories(order + [key], buckets[key := posts])
    }

    /** The dict's values in iteration order. */
    function Lists(): (ls: seq<seq<StoredPost>>)
      requires Valid()
      ensures |ls| == |order| && forall i :: 0 <= i < |order| ==> ls[i] == buckets[order[i]]
    {
      seq(|order|, i requires 0 <= i < |order| => buckets[order[i]])
    }
  }

  /** One iteration of the loop at lines 57-72. */
  function AddCategory(d: Categories, rows: seq<StoredPost>, p: Pair): Categories
    requires d.Valid()
  {
    if p.source.None? then d
    else
      var posts := CategoryPosts(rows, p.source.value, p.sub);
      if posts == [] then d else d.Put(CategoryKey(p.source.value, p.sub), posts)
  }

  /** `posts_by_category` after the loop over the distinct pairs. */
  function Categorise(rows: seq<StoredPost>, pairs: seq<Pair>): (d: Categories)
    ensures d.Valid()
  {
    if pairs == [] then Categories([], map[])
    else AddCategory(Categorise(rows, pairs[..|pairs| - 1]), rows, pairs[|pairs| - 1])
  }

  /** Category `key` holding `posts` is what pair `p` produces. */
  predicate FromPair(rows: seq<StoredPost>, p: Pair, key: string, posts: seq<StoredPost>) {
    p.source.Some? && key == CategoryKey(p.source.value, p.sub)
    && posts == CategoryPosts(rows, p.source.value, p.sub)
  }

  /** What the loop at lines 57-72 guarantees: every stored category is non-empty and is
      the query of some pair with a source; every pair with a source and a non-empty
      query has its key stored. Pairs whose source is NULL produce nothing. */
  lemma {:induction false} CategoriseSpec(rows: seq<StoredPost>, pairs: seq<Pair>)
    ensures var d := Categorise(rows, pairs);
      && (forall k :: k in d.buckets ==> d.buckets[k] != [])
      && (forall k :: k in d.buckets ==> exists i :: 0 <= i < |pairs| && FromPair(rows, pairs[i], k, d.buckets[k]))
      && (forall i :: (0 <= i < |pairs| && pairs[i].source.Some?
                       && CategoryPosts(rows, pairs[i].source.value, pairs[i].sub) != [])
                     ==> CategoryKey(pairs[i].source.value, pairs[i].sub) in d.buckets)
  {
    CategoriesNonEmpty(rows, pairs);
    CategoriesFromPairs(rows, pairs);
    PairsStored(rows, pairs);
  }

  lemma {:induction false} CategoriesNonEmpty(rows: seq<StoredPost>, pairs: seq<Pair>)
    ensures forall k :: k in Categorise(rows, pairs).buckets ==> Categorise(rows, pairs).buckets[k] != []
  {
    if pairs != [] {
      var init, p := pairs[..|pairs| - 1], pairs[|pairs| - 1];
      CategoriesNonEmpty(rows, init);
      var prev := Categorise(rows, init);
      var d := AddCategory(prev, rows, p);
      assert d == Categorise(rows, pairs);
      AddCategoryFacts(prev, rows, p, d);
      forall k | k in d.buckets ensures d.buckets[k] != [] {
        if Stores(rows, p) && k == CategoryKey(p.source.value, p.sub) {
        } else {
          assert d.buckets[k] == prev.buckets[k];
        }
      }
    }
  }

  lemma {:induction false} CategoriesFromPairs(rows: seq<StoredPost>, pairs: seq<Pair>)
    ensures forall k :: k in Categorise(rows, pairs).buckets ==>
      exists i :: 0 <= i < |pairs| && FromPair(rows, pairs[i], k, Categorise(rows, pairs).buckets[k])
  {
    if pairs != [] {
      var n := |pairs| - 1;
      var init, p := pairs[..n], pairs[n];
      CategoriesFromPairs(rows, init);
      var prev := Categorise(rows, init);
      var d := AddCategory(prev, rows, p);
      assert d == Categorise(rows, pairs);
      AddCategoryFacts(prev, rows, p, d);
      forall k | k in d.buckets
        ensures exists i :: 0 <= i < |pairs| && FromPair(rows, pairs[i], k, d.buckets[k])
      {
        if Stores(rows, p) && k == CategoryKey(p.source.value, p.sub) {
          assert FromPair(rows, pairs[n], k, d.buckets[k]);
        } else {
          assert k in prev.buckets && d.buckets[k] == prev.buckets[k];
          var i :| 0 <= i < n && FromPair(rows, init[i], k, prev.buckets[k]);
          assert init[i] == pairs[i];
        }
      }
    }
  }

  lemma {:induction false} PairsStored(rows: seq<StoredPost>, pairs: seq<Pair>)
    ensures forall i :: (0 <= i < |pairs| && pairs[i].source.Some?
                         && CategoryPosts(rows, pairs[i].source.value, pairs[i].sub) != [])
                       ==> CategoryKey(pairs[i].source.value, pairs[i].sub) in Categorise(rows, pairs).buckets
  {
    if pairs != [] {
      var n := |pairs| - 1;
      var init, p := pairs[..n], pairs[n];
      PairsStored(rows, init);
      var prev := Categorise(rows, init);
      AddCategoryFacts(prev, rows, p, Categorise(rows, pairs));
      forall i | 0 <= i < n
        ensures pairs[i] == init[i]
      {
      }
    }
  }

  /** Pair `p` stores a category: it has a source and its query is non-empty. */
  predicate Stores(rows: seq<StoredPost>, p: Pair) {
    p.source.Some? && CategoryPosts(rows, p.source.value, p.sub) != []
  }

  /** One iteration of the loop: a pair that stores a category puts its posts under its
      key; every other key keeps its posts. */
  lemma AddCategoryFacts(d: Categories, rows: seq<StoredPost>, p: Pair, d': Categories)
    requires d.Valid() && d' == AddCategory(d, rows, p)
    ensures forall k :: k in d'.buckets <==> k in d.buckets || (Stores(rows, p) && k == CategoryKey(p.source.value, p.sub))
    ensures Stores(rows, p) ==> d'.buckets[CategoryKey(p.source.value, p.sub)] == CategoryPosts(rows, p.source.value, p.sub)
    ensures forall k :: k in d.buckets && !(Stores(rows, p) && k == CategoryKey(p.source.value, p.sub)) ==>
      d'.buckets[k] == d.buckets[k]
  {
  }

  /** Two pairs share a key only when they have the same source and either the same
      truthy sub or both a falsy one (None or ""): source values contain no ':'. */
  lemma CategoryKeyInjective(s1: SourceEnum, b1: Option<string>, s2: SourceEnum, b2: Option<string>)
    requires CategoryKey(s1, b1) == CategoryKey(s2, b2)
    ensures s1 == s2 && (Truthy(b1) <==> Truthy(b2)) && (Truthy(b1) ==> b1 == b2)
  {
    var k := CategoryKey(s1, b1);
    var v1, v2 := SourceValue(s1), SourceValue(s2);
    assert k[0] == v1[0] && k[0] == v2[0];
    assert s1 == s2;
    if Truthy(b1) {
      assert k[|v1| + 1..] == b1.value && k[|v1| + 1..] == b2.value;
    }
  }

  lemma {:induction false} WhereSameFilter(rows: seq<StoredPost>, s: SourceEnum, b1: Option<string>, b2: Option<string>)
    requires forall x :: InCategory(x, s, b1) == InCategory(x, s, b2)
    ensures Where(rows, s, b1) == Where(rows, s, b2)
  {
    if rows != [] {
      WhereSameFilter(rows[1..], s, b1, b2);
    }
  }

  /** Pairs with the same key query the same posts, so the dict assignment that
      overwrites a key with the same key's posts changes nothing. */
  lemma SameKeySameCategory(rows: seq<StoredPost>, s1: SourceEnum, b1: Option<string>, s2: SourceEnum, b2: Option<string>)
    requires CategoryKey(s1, b1) == CategoryKey(s2, b2)
    ensures CategoryPosts(rows, s1, b1) == CategoryPosts(rows, s2, b2)
  {
    CategoryKeyInjective(s1, b1, s2, b2);
    WhereSameFilter(rows, s1, b1, b2);
  }

  /** The interleaved rows before the limit. */
  function InterleavedRows(rows: seq<StoredPost>, pairs: seq<Pair>): seq<StoredPost> {
    RoundRobin(Categorise(rows, pairs).Lists())
  }

  /** Every stored category comes from a pair whose query it is. */
  lemma BucketFromPair(rows: seq<StoredPost>, pairs: seq<Pair>, key: string)
    requires key in Categorise(rows, pairs).buckets
    ensures exists i :: 0 <= i < |pairs| && FromPair(rows, pairs[i], key, Categorise(rows, pairs).buckets[key])
  {
    CategoriseSpec(rows, pairs);
  }

  /** A pair with a source and a non-empty query has its key stored, holding exactly its
      query (a later pair with the same key overwrites it with the same posts). */
  lemma PairStored(rows: seq<StoredPost>, pairs: seq<Pair>, i: nat)
    requires i < |pairs| && pairs[i].source.Some?
    requires CategoryPosts(rows, pairs[i].source.value, pairs[i].sub) != []
    ensures var key := CategoryKey(pairs[i].source.value, pairs[i].sub);
      && key in Categorise(rows, pairs).buckets
      && Categorise(rows, pairs).buckets[key] == CategoryPosts(rows, pairs[i].source.value, pairs[i].sub)
  {
    var p := pairs[i];
    var key := CategoryKey(p.source.value, p.sub);
    CategoriseSpec(rows, pairs);
    assert key in Categorise(rows, pairs).buckets;
    BucketFromPair(rows, pairs, key);
    var j :| 0 <= j < |pairs| && FromPair(rows, pairs[j], key, Categorise(rows, pairs).buckets[key]);
    SameKeySameCategory(rows, p.source.value, p.sub, pairs[j].source.value, pairs[j].sub);
  }

  /** The categories in dict order are non-empty, and each is ordered by upvotes
      descending with NULLs last. */
  lemma CategoriesOrdered(rows: seq<StoredPost>, pairs: seq<Pair>, bs: seq<seq<StoredPost>>)
    requires bs == Categorise(rows, pairs).Lists()
    ensures forall k :: 0 <= k < |bs| ==> bs[k] != [] && SortedDesc(bs[k], UpvotesKey)
  {
    var d := Categorise(rows, pairs);
    forall k | 0 <= k < |d.order|
      ensures d.buckets[d.order[k]] != [] && SortedDesc(d.buckets[d.order[k]], UpvotesKey)
    {
      CategoriseSpec(rows, pairs);
      BucketFromPair(rows, pairs, d.order[k]);
    }
  }

  /** A row passes the filter of some distinct pair with a non-NULL source. */
  ghost predicate Selected(rows: seq<StoredPost>, pairs: seq<Pair>, x: StoredPost) {
    x in rows && exists i :: 0 <= i < |pairs| && pairs[i].source.Some? && InCategory(x, pairs[i].source.value, pairs[i].sub)
  }

  lemma InterleavedOnlySelected(rows: seq<StoredPost>, pairs: seq<Pair>, x: StoredPost)
    requires x in InterleavedRows(rows, pairs)
    ensures Selected(rows, pairs, x)
  {
    var d := Categorise(rows, pairs);
    var bs := d.Lists();
    RoundRobinPermutes(bs);
    assert x in multiset(Flatten(bs));
    InFlatten(bs, x);
    var k :| 0 <= k < |bs| && x in bs[k];
    BucketFromPair(rows, pairs, d.order[k]);
    var i :| 0 <= i < |pairs| && FromPair(rows, pairs[i], d.order[k], d.buckets[d.order[k]]);
    var p := pairs[i];
    assert x in multiset(CategoryPosts(rows, p.source.value, p.sub));
    assert x in Where(rows, p.source.value, p.sub);
  }

  /** A row passing the filter of pair `i` sits in the category that pair stores; `k` is
      that category's place in dict order. */
  lemma CategoryOfRow(rows: seq<StoredPost>, pairs: seq<Pair>, i: nat, x: StoredPost) returns (k: nat)
    requires i < |pairs| && pairs[i].source.Some? && x in rows && InCategory(x, pairs[i].source.value, pairs[i].sub)
    ensures k < |Categorise(rows, pairs).order|
    ensures Categorise(rows, pairs).order[k] == CategoryKey(pairs[i].source.value, pairs[i].sub)
    ensures x in Categorise(rows, pairs).Lists()[k]
  {
    var d := Categorise(rows, pairs);
    var p := pairs[i];
    var posts := CategoryPosts(rows, p.source.value, p.sub);
    assert x in Where(rows, p.source.value, p.sub);
    assert x in multiset(posts);
    PairStored(rows, pairs, i);
    k :| 0 <= k < |d.order| && d.order[k] == CategoryKey(p.source.value, p.sub);
  }

  lemma InterleavedAllSelected(rows: seq<StoredPost>, pairs: seq<Pair>, x: StoredPost)
    requires Selected(rows, pairs, x)
    ensures x in InterleavedRows(rows, pairs)
  {
    var bs := Categorise(rows, pairs).Lists();
    var i :| 0 <= i < |pairs| && pairs[i].source.Some? && InCategory(x, pairs[i].source.value, pairs[i].sub);
    var k := CategoryOfRow(rows, pairs, i, x);
    InFlatten(bs, x);
    RoundRobinPermutes(bs);
    assert x in multiset(InterleavedRows(rows, pairs));
  }

  /** Which rows the interleaved result holds: exactly the selected ones. */
  lemma InterleavedMembers(rows: seq<StoredPost>, pairs: seq<Pair>, x: StoredPost)
    ensures x in InterleavedRows(rows, pairs) <==> Selected(rows, pairs, x)
  {
    if x in InterleavedRows(rows, pairs) { InterleavedOnlySelected(rows, pairs, x); }
    if Selected(rows, pairs, x) { InterleavedAllSelected(rows, pairs, x); }
  }

  /** The pair a row contributes to `SELECT DISTINCT source, sub`. */
  function PairOf(r: StoredPost): Pair {
    Pair(r.source, r.sub)
  }

  /** `pairs` is what `SELECT DISTINCT source, sub` returns for the table, in some order:
      each row's pair is listed, every listed pair is some row's, and none twice. */
  ghost predicate PairsOf(rows: seq<StoredPost>, pairs: seq<Pair>) {
    && (forall r :: r in rows ==> PairOf(r) in pairs)
    && (forall i :: 0 <= i < |pairs| ==> exists r :: r in rows && PairOf(r) == pairs[i])
    && Distinct(pairs)
  }

  /** With the table's own distinct pairs, interleaved mode returns exactly the rows whose
      source is not NULL, whatever order the pairs come in. */
  lemma InterleavedIsNonNullSource(rows: seq<StoredPost>, pairs: seq<Pair>, x: StoredPost)
    requires PairsOf(rows, pairs)
    ensures x in InterleavedRows(rows, pairs) <==> x in rows && x.source.Some?
  {
    InterleavedMembers(rows, pairs, x);
    if x in rows && x.source.Some? {
      var i :| 0 <= i < |pairs| && pairs[i] == PairOf(x);
      assert InCategory(x, pairs[i].source.value, pairs[i].sub);
    }
  }

  /** Rows whose source is NULL never appear in the interleaved result. */
  lemma NullSourceNeverInterleaved(rows: seq<StoredPost>, pairs: seq<Pair>, x: StoredPost)
    requires x.source.None?
    ensures x !in InterleavedRows(rows, pairs)
  {
    InterleavedMembers(rows, pairs, x);
  }

  /** The quirk of lines 62-66: for a pair without a sub the sub condition is `True`, so
      that category holds every post of the source, those with a sub included. */
  lemma SublessCategoryHoldsWholeSource(rows: seq<StoredPost>, s: SourceEnum, sub: Option<string>, x: StoredPost)
    requires !Truthy(sub)
    ensures x in CategoryPosts(rows, s, sub) <==> x in rows && x.source == Some(s)
  {
    assert x in CategoryPosts(rows, s, sub) <==> x in multiset(Where(rows, s, sub));
  }

  /** A consequence of the quirk: when the distinct pairs hold both (s, None) and
      (s, b) with b non-empty, each post of source s with sub b is listed twice. */
  lemma SubPostListedTwice(rows: seq<StoredPost>, pairs: seq<Pair>, x: StoredPost, s: SourceEnum, b: string)
    requires b != "" && x in rows && x.source == Some(s) && x.sub == Some(b)
    requires Pair(Some(s), None) in pairs && Pair(Some(s), Some(b)) in pairs
    ensures multiset(InterleavedRows(rows, pairs))[x] >= 2
  {
    var bs := Categorise(rows, pairs).Lists();
    var i1 :| 0 <= i1 < |pairs| && pairs[i1] == Pair(Some(s), None);
    var i2 :| 0 <= i2 < |pairs| && pairs[i2] == Pair(Some(s), Some(b));
    var k1 := CategoryOfRow(rows, pairs, i1, x);
    var k2 := CategoryOfRow(rows, pairs, i2, x);
    assert k1 != k2 by {
      if k1 == k2 { CategoryKeyInjective(s, None, s, Some(b)); }
    }
    if k1 < k2 { FlattenCountsBoth(bs, x, k1, k2); } else { FlattenCountsBoth(bs, x, k2, k1); }
    RoundRobinPermutes(bs);
  }

  /** Before the limit: one entry per (category, index) pair, so the result is a
      permutation of the categories' concatenation; it opens with the top post of every
      category in dict order. */
  lemma InterleavedShape(rows: seq<StoredPost>, pairs: seq<Pair>)
    ensures var bs := Categorise(rows, pairs).Lists();
      && |InterleavedRows(rows, pairs)| == TotalSize(bs)
      && multiset(InterleavedRows(rows, pairs)) == multiset(Flatten(bs))
      && |bs| <= |InterleavedRows(rows, pairs)|
      && (forall k :: 0 <= k < |bs| ==> bs[k] != [] && InterleavedRows(rows, pairs)[k] == bs[k][0])
  {
    var bs := Categorise(rows, pairs).Lists();
    CategoriesOrdered(rows, pairs, bs);
    RoundRobinPermutes(bs);
    FirstRoundIsHeads(bs);
  }

  /** With a limit no larger than the number of categories, `posts` returns the top post
      of each of the first `limit` categories. */
  lemma SmallLimitTakesTopOfEachCategory(rows: seq<StoredPost>, pairs: seq<Pair>, l: nat)
    requires l <= |Categorise(rows, pairs).order|
    ensures var bs := Categorise(rows, pairs).Lists();
      && |InterleavedPosts(rows, pairs, Some(l))| == l
      && forall k :: 0 <= k < l ==> bs[k] != [] && InterleavedPosts(rows, pairs, Some(l))[k] == ToView(bs[k][0])
  {
    InterleavedShape(rows, pairs);
  }

  /** `if limit is not None and len(result) > limit: result = result[:limit]`. */
  function ApplyLimit<T>(s: seq<T>, limit: Option<int>): (r: seq<T>)
    ensures r <= s
    ensures limit.None? ==> r == s
    ensures limit.Some? && limit.value >= 0 ==> |r| == Min(limit.value, |s|)
    ensures limit.Some? && limit.value < 0 ==> |r| == Max(0, |s| + limit.value)
  {
    if limit.Some? && |s| > limit.value then PySliceTo(s, limit.value) else s
  }

  /** SQL `LIMIT`, as SQLite reads it: a negative limit means no limit. */
  function SqlLimit<T>(s: seq<T>, limit: Option<int>): (r: seq<T>)
    ensures r <= s
    ensures limit.Some? && limit.value >= 0 ==> |r| == Min(limit.value, |s|)
    ensures (limit.None? || limit.value < 0) ==> r == s
  {
    if limit.Some? && limit.value >= 0 then s[..Min(limit.value, |s|)] else s
  }

  /** What `posts(limit, interweave=True)` returns. */
  function InterleavedPosts(rows: seq<StoredPost>, pairs: seq<Pair>, limit: Option<int>): seq<PostView> {
    ApplyLimit(Views(InterleavedRows(rows, pairs)), limit)
  }

  /** What `posts(limit, interweave=False)` returns. */
  function FlatPosts(rows: seq<StoredPost>, limit: Option<int>): seq<PostView> {
    Views(SqlLimit(rows, limit))
  }

  lemma ViewsAppend(a: seq<StoredPost>, x: StoredPost)
    ensures Views(a + [x]) == Views(a) + [ToView(x)]
  {
    assert (a + [x])[..|a|] == a;
  }

  /** `Query.posts`: the loops of lines 57-104 in interleave mode, the loop of lines
      115-131 otherwise. */
  method Posts(rows: seq<StoredPost>, pairs: seq<Pair>, limit: Option<int>, interweave: bool)
    returns (result: seq<PostView>)
    ensures interweave ==> result == InterleavedPosts(rows, pairs, limit)
    ensures !interweave ==> result == FlatPosts(rows, limit)
  {
    if interweave {
      var postsByCategory := Categories([], map[]);
      for k := 0 to |pairs|
        invariant postsByCategory == Categorise(rows, pairs[..k])
      {
        assert pairs[..k + 1][..k] == pairs[..k];
        var p := pairs[k];
        if p.source.Some? {
          var key := CategoryKey(p.source.value, p.sub);
          var categoryPosts := CategoryPosts(rows, p.source.value, p.sub);
          if categoryPosts != [] {
            postsByCategory := postsByCategory.Put(key, categoryPosts);
          }
        }
      }
      assert pairs[..|pairs|] == pairs;
      result := RoundRobinViews(postsByCategory);
      if limit.Some? && |result| > limit.value {
        result := PySliceTo(result, limit.value);
      }
    } else {
      var dbPosts := SqlLimit(rows, limit);
      result := [];
      for k := 0 to |dbPosts|
        invariant result == Views(dbPosts[..k])
      {
        ViewsAppend(dbPosts[..k], dbPosts[k]);
        assert dbPosts[..k + 1] == dbPosts[..k] + [dbPosts[k]];
        result := result + [ToView(dbPosts[k])];
      }
      assert dbPosts[..|dbPosts|] == dbPosts;
    }
  }

  lemma ViewsConcat(a: seq<StoredPost>, b: seq<StoredPost>)
    ensures Views(a + b) == Views(a) + Views(b)
  {
  }

  /** Lines 75-100: the rounds over `posts_by_category`, converting each post taken. */
  method RoundRobinViews(postsByCategory: Categories) returns (result: seq<PostView>)
    requires postsByCategory.Valid()
    ensures result == Views(RoundRobin(postsByCategory.Lists()))
  {
    ghost var bs := postsByCategory.Lists();
    var maxPostsPerCategory := 0;
    if postsByCategory.order != [] {
      maxPostsPerCategory := MaxLen(postsByCategory.Lists());
    }
    assert maxPostsPerCategory == MaxLen(bs);
    result := [];
    for i := 0 to maxPostsPerCategory
      invariant result == Views(RoundsUpTo(bs, i))
    {
      result := AppendRound(postsByCategory, i, result);
      ViewsConcat(RoundsUpTo(bs, i), Round(bs, i));
    }
  }

  /** Lines 81-85: round `i` visits the categories in dict order and appends element `i`
      of each category that has one. */
  method AppendRound(postsByCategory: Categories, i: nat, result: seq<PostView>) returns (r: seq<PostView>)
    requires postsByCategory.Valid()
    ensures r == result + Views(Round(postsByCategory.Lists(), i))
  {
    ghost var bs := postsByCategory.Lists();
    r := result;
    for j := 0 to |postsByCategory.order|
      invariant r == result + Views(RoundPrefix(bs, i, j))
    {
      var categoryPosts := postsByCategory.buckets[postsByCategory.order[j]];
      assert categoryPosts == bs[j];
      ghost var prefix := RoundPrefix(bs, i, j);
      if i < |categoryPosts| {
        assert RoundPrefix(bs, i, j + 1) == prefix + [bs[j][i]];
        ViewsAppend(prefix, categoryPosts[i]);
        r := r + [ToView(categoryPosts[i])];
      } else {
        assert RoundPrefix(bs, i, j + 1) == prefix;
      }
    }
  }

  /** `.first()`: the index of the first row passing a filter, in table order. */
  function FirstWhere(rows: seq<StoredPost>, f: StoredPost -> bool): (r: Option<nat>)
    ensures r.Some? ==> r.value < |rows| && f(rows[r.value]) && forall j :: 0 <= j < r.value ==> !f(rows[j])
    ensures r.None? <==> forall j :: 0 <= j < |rows| ==> !f(rows[j])
  {
    if rows == [] then None
    else if f(rows[0]) then Some(0)
    else match FirstWhere(rows[1..], f)
      case None => None
      case Some(k) => Some(k + 1)
  }

  /** `Query.post(id)`: the first row whose surrogate id is `id`, converted; None when
      there is none. */
  function PostById(rows: seq<StoredPost>, id: int): (r: Option<PostView>)
    ensures r.None? <==> forall j :: 0 <= j < |rows| ==> rows[j].id != id
    ensures r.Some? ==> exists j :: (0 <= j < |rows| && rows[j].id == id && r.value == ToView(rows[j])
      && forall i :: 0 <= i < j ==> rows[i].id != id)
  {
    match FirstWhere(rows, (x: StoredPost) => x.id == id)
    case None => None
    case Some(j) => Some(ToView(rows[j]))
  }

  /** `DetailedPostResponse`. */
  datatype DetailedPostResponse = DetailedPostResponse(post: PostView, surroundingPosts: seq<PostView>)

  /** `filter(post_id.in_(surrounding_ids))`: the rows, in table order, whose external id
      is one of `ids`; a NULL post_id is never `IN` a list. */
  function WithPostIdIn(rows: seq<StoredPost>, ids: seq<string>): (r: seq<StoredPost>)
    ensures forall x :: x in r <==> x in rows && x.postId.Some? && x.postId.value in ids
    ensures |r| <= |rows|
  {
    if rows == [] then []
    else
      (if rows[0].postId.Some? && rows[0].postId.value in ids then [rows[0]] else [])
      + WithPostIdIn(rows[1..], ids)
  }

  /** `Query.get_detailed_posts(id, surrounding_ids)`: the first row whose external id is
      `id`, or the error "Post not found"; with it, the converted rows whose external id
      is in the list. */
  function GetDetailedPosts(rows: seq<StoredPost>, id: string, surroundingIds: seq<string>): (r: Result<DetailedPostResponse, string>)
    ensures r.Err? <==> forall j :: 0 <= j < |rows| ==> rows[j].postId != Some(id)
    ensures r.Err? ==> r.error == "Post not found"
    ensures r.Ok? ==> (r.value.post.id == Some(id)
      && exists j :: 0 <= j < |rows| && rows[j].postId == Some(id) && r.value.post == ToView(rows[j])
           && forall i :: 0 <= i < j ==> rows[i].postId != Some(id))
    ensures r.Ok? ==> r.value.surroundingPosts == Views(WithPostIdIn(rows, surroundingIds))
  {
    match FirstWhere(rows, (x: StoredPost) => x.postId == Some(id))
    case None => Err("Post not found")
    case Some(j) =>
      Ok(DetailedPostResponse(ToView(rows[j]), Views(WithPostIdIn(rows, surroundingIds))))
  }

  /** The surrounding posts are exactly the stored rows whose external id is in the list,
      so ids with no row are silently absent and every returned `id` is one asked for. */
  lemma SurroundingExactly(rows: seq<StoredPost>, id: string, surroundingIds: seq<string>, v: PostView)
    requires GetDetailedPosts(rows, id, surroundingIds).Ok?
    ensures var ps := GetDetailedPosts(rows, id, surroundingIds).value.surroundingPosts;
      && (v in ps <==> exists x :: x in rows && x.postId.Some? && x.postId.value in surroundingIds && v == ToView(x))
      && (v in ps ==> v.id.Some? && v.id.value in surroundingIds)
  {
    ViewsMember(WithPostIdIn(rows, surroundingIds), v);
  }
}
