/** The client's post cache (ui/src/utils/cacheUtils.ts): one module-level JavaScript
    object from post id to a copy of the post. The object's own keys are kept in the order
    JavaScript enumerates them: keys that are array indices ("0", "17", ... below 2^32 - 1)
    first, in ascending numeric order, then every other key in the order it was first
    inserted. Overwriting a key keeps its place; deleting it forgets it. */
module PostCacheModel {
  import opened Wrappers
  import opened Text
  import opened Ranking
  import opened Multisets

  /** `PostData`; optional members are None when undefined. */
  datatype PostData = PostData(
    id: string,
    source: Option<string>,
    sub: Option<string>,
    title: string,
    text: string,
    author: Option<string>,
    upvotes: Option<int>,
    publishedDate: Option<string>,
    url: Option<string>,
    commentUrl: Option<string>,
    commentHtml: Option<string>)

  /** 2^32 - 1: the canonical numeric strings below it are array indices, which
      `Object.keys` lists before every other key. */
  const ArrayIndexBound := 4294967295

  predicate IsArrayIndex(k: string) {
    && k != []
    && AllDigits(k)
    && (k[0] == '0' ==> |k| == 1)
    && DigitsValue(k) < ArrayIndexBound
  }

  /** The keys that are array indices, in insertion order. */
  function IndexKeys(order: seq<string>): seq<string> {
    if order == [] then []
    else
      var last := order[|order| - 1];
      IndexKeys(order[..|order| - 1]) + (if IsArrayIndex(last) then [last] else [])
  }

  /** The other keys, in insertion order. */
  function NamedKeys(order: seq<string>): seq<string> {
    if order == [] then []
    else
      var last := order[|order| - 1];
      NamedKeys(order[..|order| - 1]) + (if IsArrayIndex(last) then [] else [last])
  }

  /** Ascending by numeric value is descending by the negated value. */
  function AscendingKey(k: string): Option<int> {
    if AllDigits(k) then Some(-(DigitsValue(k) as int)) else None
  }

  /** `Object.keys(postCache)` for own keys inserted in the order `order`. */
  function ObjectKeys(order: seq<string>): seq<string> {
    SortDesc(IndexKeys(order), AscendingKey) + NamedKeys(order)
  }

  /** `order` without `key`. */
  function Remove(order: seq<string>, key: string): (r: seq<string>)
    ensures forall k :: k in r <==> k in order && k != key
    ensures Distinct(order) ==> Distinct(r)
  {
    if order == [] then []
    else
      var init := order[..|order| - 1];
      var last := order[|order| - 1];
      assert forall i :: 0 <= i < |init| ==> init[i] == order[i];
      assert Distinct(order) ==> last !in init;
      Remove(init, key) + (if last == key then [] else [last])
  }

  /** The contents of the cache object: the stored copies, and the own keys in insertion
      order. */
  datatype Cache = Cache(entries: map<string, PostData>, order: seq<string>) {

    /** The keys recorded in `order` are exactly the stored ones, each once. */
    ghost predicate Valid() {
      && (forall k :: k in entries <==> k in order)
      && Distinct(order)
    }

    /** `postCache[id]`: the stored copy, or undefined. */
    function Lookup(id: string): (r: Option<PostData>)
      ensures r.Some? <==> id in entries
    {
      if id in entries then Some(entries[id]) else None
    }

    /** `cachePost(post)`: a post with an empty id is ignored; otherwise a copy is stored
        under its id, and a new key goes last in insertion order. */
    function Store(post: PostData): Cache {
      if post.id == "" then this
      else if post.id in entries then Cache(entries[post.id := post], order)
      else Cache(entries[post.id := post], order + [post.id])
    }

    /** `cachePosts(posts)`: `cachePost` on each post in turn. */
    function StoreAll(posts: seq<PostData>): Cache
      decreases |posts|
    {
      if posts == [] then this else Store(posts[0]).StoreAll(posts[1..])
    }

    /** `delete postCache[key]`. */
    function Delete(key: string): Cache {
      Cache(entries - {key}, Remove(order, key))
    }

    /** `Object.keys(postCache)`. */
    function Keys(): seq<string> {
      ObjectKeys(order)
    }
  }

  const Empty := Cache(map[], [])

  /** The module-level `postCache` object. */
  class PostCache {
    var entries: map<string, PostData>
    var order: seq<string>

    function State(): Cache
      reads this
    {
      Cache(entries, order)
    }

    ghost predicate Valid()
      reads this
    {
      State().Valid()
    }

    /** `const postCache = {}`. */
    constructor ()
      ensures State() == Empty && Valid()
    {
      entries := map[];
      order := [];
    }

    method CachePost(post: PostData)
      requires Valid()
      modifies this
      ensures State() == old(State()).Store(post) && Valid()
    {
      if post.id != "" {
        if post.id !in entries {
          order := order + [post.id];
        }
        entries := entries[post.id := post];
      }
      StoreKeepsValid(old(State()), post);
    }

    method GetCachedPost(id: string) returns (r: Option<PostData>)
      ensures r == State().Lookup(id)
    {
      r := if id in entries then Some(entries[id]) else None;
    }

    /** `!!postCache[id]`: a stored copy is an object, and every object is truthy. */
    method IsPostCached(id: string) returns (b: bool)
      ensures b <==> State().Lookup(id).Some?
    {
      b := id in entries;
    }

    method CachePosts(posts: seq<PostData>)
      requires Valid()
      modifies this
      ensures State() == old(State()).StoreAll(posts) && Valid()
    {
      for i := 0 to |posts|
        invariant Valid()
        invariant State().StoreAll(posts[i..]) == old(State()).StoreAll(posts)
      {
        assert posts[i..][1..] == posts[i + 1..];
        CachePost(posts[i]);
      }
    }

    /** Deletes every key `Object.keys` lists, one by one. */
    method ClearCache()
      requires Valid()
      modifies this
      ensures State() == Empty && Valid()
    {
      var keys := ObjectKeys(order);
      OwnKeysListed(order);
      for i := 0 to |keys|
        invariant Valid()
        invariant forall k :: k in order ==> k in keys[i..]
      {
        DeleteKeepsValid(State(), keys[i]);
        ClearStep(order, keys, i);
        entries := entries - {keys[i]};
        order := Remove(order, keys[i]);
      }
      assert keys[|keys|..] == [];
      NothingListedIsEmpty(State());
    }

    /** `getCacheStats()`. */
    method GetCacheStats() returns (size: nat, keys: seq<string>)
      ensures keys == State().Keys() && size == |keys|
    {
      keys := ObjectKeys(order);
      size := |keys|;
    }
  }

  // ---------------------------------------------------------------- laws

  /** The array-index keys and the other keys split the own keys between them. */
  lemma {:induction false} KeysMembers(order: seq<string>)
    ensures forall i :: 0 <= i < |IndexKeys(order)| ==> IsArrayIndex(IndexKeys(order)[i])
    ensures forall k :: k in IndexKeys(order) <==> k in order && IsArrayIndex(k)
    ensures forall k :: k in NamedKeys(order) <==> k in order && !IsArrayIndex(k)
  {
    if order != [] {
      var init, last := order[..|order| - 1], order[|order| - 1];
      KeysMembers(init);
      assert order == init + [last];
    }
  }

  lemma OwnKeysListed(order: seq<string>)
    ensures forall k :: k in order ==> k in ObjectKeys(order)
  {
    KeysMembers(order);
    forall k | k in order ensures k in ObjectKeys(order) {
      if IsArrayIndex(k) {
        assert k in multiset(SortDesc(IndexKeys(order), AscendingKey));
      }
    }
  }

  lemma NothingListedIsEmpty(c: Cache)
    requires c.Valid()
    ensures (forall k :: k !in c.order) ==> c == Empty
  {
    if c.order != [] {
      assert c.order[0] in c.order;
    } else {
      assert c.entries.Keys == {};
    }
  }

  lemma ClearStep(order: seq<string>, keys: seq<string>, i: nat)
    requires i < |keys| && forall k :: k in order ==> k in keys[i..]
    ensures forall k :: k in Remove(order, keys[i]) ==> k in keys[i + 1..]
  {
    assert keys[i..] == [keys[i]] + keys[i + 1..];
  }

  lemma StoreKeepsValid(c: Cache, post: PostData)
    requires c.Valid()
    ensures c.Store(post).Valid()
  {
  }

  lemma DeleteKeepsValid(c: Cache, key: string)
    requires c.Valid()
    ensures c.Delete(key).Valid()
  {
  }

  /** After `cachePost(p)` with a non-empty id, `getCachedPost(p.id)` returns a copy equal
      to `p`; every other key reads as before, and a post with an empty id changes
      nothing. */
  lemma StoreThenLookup(c: Cache, post: PostData, id: string)
    ensures c.Store(post).Lookup(id) ==
      if post.id != "" && id == post.id then Some(post) else c.Lookup(id)
  {
  }

  /** The post `cachePosts` leaves under `id`: the last post carrying that id. */
  function LastWith(posts: seq<PostData>, id: string): (r: Option<PostData>)
    ensures r.Some? <==> exists i :: 0 <= i < |posts| && posts[i].id == id
    ensures r.Some? ==> exists i :: (0 <= i < |posts| && posts[i] == r.value && posts[i].id == id
                                     && forall j :: i < j < |posts| ==> posts[j].id != id)
  {
    if posts == [] then None
    else
      var init := posts[..|posts| - 1];
      var last := posts[|posts| - 1];
      if last.id == id then Some(last)
      else
        var r := LastWith(init, id);
        assert forall i :: 0 <= i < |init| ==> init[i] == posts[i];
        r
  }

  lemma {:induction false} StoreAllAppend(c: Cache, posts: seq<PostData>, p: PostData)
    ensures c.StoreAll(posts + [p]) == c.StoreAll(posts).Store(p)
    decreases |posts|
  {
    if posts == [] {
      assert [p][1..] == [];
    } else {
      assert (posts + [p])[1..] == posts[1..] + [p];
      StoreAllAppend(c.Store(posts[0]), posts[1..], p);
    }
  }

  /** `cachePosts` behaves like `cachePost` on each element in order: under each
      non-empty id the cache holds the last post with that id, and every other key reads
      as before. */
  lemma {:induction false} StoreAllLookup(c: Cache, posts: seq<PostData>, id: string)
    ensures c.StoreAll(posts).Lookup(id) ==
      if id != "" && LastWith(posts, id).Some? then LastWith(posts, id) else c.Lookup(id)
    decreases |posts|
  {
    if posts != [] {
      var init := posts[..|posts| - 1];
      var last := posts[|posts| - 1];
      assert posts == init + [last];
      StoreAllAppend(c, init, last);
      StoreAllLookup(c, init, id);
      StoreThenLookup(c.StoreAll(init), last, id);
    }
  }

  lemma {:induction false} StoreAllKeepsValid(c: Cache, posts: seq<PostData>)
    requires c.Valid()
    ensures c.StoreAll(posts).Valid()
    decreases |posts|
  {
    if posts != [] {
      StoreKeepsValid(c, posts[0]);
      StoreAllKeepsValid(c.Store(posts[0]), posts[1..]);
    }
  }

  /** After `clearCache` every lookup is undefined and no key is listed. */
  lemma ClearedIsEmpty(id: string)
    ensures Empty.Lookup(id).None? && Empty.Keys() == [] && Empty.Valid()
  {
  }

  lemma {:induction false} KeysPartition(order: seq<string>)
    ensures multiset(IndexKeys(order)) + multiset(NamedKeys(order)) == multiset(order)
  {
    if order != [] {
      var init, last := order[..|order| - 1], order[|order| - 1];
      KeysPartition(init);
      assert order == init + [last];
      assert multiset(order) == multiset(init) + multiset{last};
      if IsArrayIndex(last) {
        assert multiset(IndexKeys(order)) == multiset(IndexKeys(init)) + multiset{last};
        assert NamedKeys(order) == NamedKeys(init);
      } else {
        assert IndexKeys(order) == IndexKeys(init);
        assert multiset(NamedKeys(order)) == multiset(NamedKeys(init)) + multiset{last};
      }
    }
  }

  /** `Object.keys` lists every own key exactly once: the same keys as the map, no
      repeats, so `getCacheStats().size` is the number of cached posts. */
  lemma KeysAreOwnKeys(c: Cache)
    requires c.Valid()
    ensures multiset(c.Keys()) == multiset(c.order)
    ensures forall k :: k in c.Keys() <==> k in c.entries
    ensures Distinct(c.Keys())
    ensures |c.Keys()| == |c.entries|
  {
    KeysPartition(c.order);
    PermutationKeepsDistinct(c.order, c.Keys());
    forall k ensures k in c.Keys() <==> k in c.entries {
      assert k in c.Keys() <==> k in multiset(c.Keys());
    }
    assert c.entries.Keys == set k | k in c.order;
    DistinctCardinality(c.order);
  }

  lemma {:induction false} DistinctCardinality(s: seq<string>)
    requires Distinct(s)
    ensures |set k | k in s| == |s|
  {
    if s != [] {
      var init := s[..|s| - 1];
      DistinctCardinality(init);
      assert (set k | k in s) == (set k | k in init) + {s[|s| - 1]};
    }
  }

  /** The sorted array-index keys: array indices, ascending. */
  lemma SortedIndexKeys(order: seq<string>)
    ensures var sorted := SortDesc(IndexKeys(order), AscendingKey);
      && |sorted| == |IndexKeys(order)|
      && (forall i :: 0 <= i < |sorted| ==> IsArrayIndex(sorted[i]))
      && (forall i, j :: 0 <= i < j < |sorted| ==> DigitsValue(sorted[i]) <= DigitsValue(sorted[j]))
  {
    var idx := IndexKeys(order);
    var sorted := SortDesc(idx, AscendingKey);
    KeysMembers(order);
    PermutationKeepsMembers(idx, sorted);
    assert |sorted| == |multiset(sorted)| == |idx|;
    forall i, j | 0 <= i < j < |sorted| ensures DigitsValue(sorted[i]) <= DigitsValue(sorted[j]) {
      assert NoLater(AscendingKey(sorted[i]), AscendingKey(sorted[j]));
    }
  }

  /** Array-index keys come first, in ascending numeric order; every other key follows. */
  lemma KeysOrder(c: Cache)
    ensures var ks, n := c.Keys(), |IndexKeys(c.order)|;
      && n <= |ks|
      && (forall i :: 0 <= i < n ==> IsArrayIndex(ks[i]))
      && (forall i :: n <= i < |ks| ==> !IsArrayIndex(ks[i]))
      && (forall i, j :: 0 <= i < j < n ==> DigitsValue(ks[i]) <= DigitsValue(ks[j]))
  {
    var sorted := SortDesc(IndexKeys(c.order), AscendingKey);
    var named := NamedKeys(c.order);
    var ks := c.Keys();
    SortedIndexKeys(c.order);
    KeysMembers(c.order);
    assert ks == sorted + named;
    assert forall i :: 0 <= i < |sorted| ==> ks[i] == sorted[i];
    forall i | |sorted| <= i < |ks| ensures !IsArrayIndex(ks[i]) {
      assert ks[i] == named[i - |sorted|];
      assert ks[i] in named;
    }
  }

  /** Overwriting a cached id keeps the listed keys as they were; a new key that is not
      an array index is listed last. */
  lemma StoreKeysOrder(c: Cache, post: PostData)
    requires c.Valid()
    ensures post.id in c.entries ==> c.Store(post).Keys() == c.Keys()
    ensures post.id != "" && post.id !in c.entries && !IsArrayIndex(post.id) ==>
      c.Store(post).Keys() == c.Keys() + [post.id]
  {
    if post.id != "" && post.id !in c.entries && !IsArrayIndex(post.id) {
      var o := c.order;
      assert (o + [post.id])[..|o|] == o;
      assert IndexKeys(o + [post.id]) == IndexKeys(o);
      assert NamedKeys(o + [post.id]) == NamedKeys(o) + [post.id];
    }
  }
}
