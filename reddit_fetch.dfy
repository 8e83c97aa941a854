/** `fetch_reddit_top_posts` (src/utils/reddit_fetch.py): one request for the weekly
    top listing of r/Python, then one dict per listing child among the first `limit`. The
    HTTP call is an input: a function from URL to reply. */
module Reddit {
  import opened Wrappers
  import opened PostTypes
  import opened Slices
  import opened Text

  const ListingUrl := "https://www.reddit.com/r/Python/top/.json?t=week"
  const SiteRoot := "https://www.reddit.com"
  const DefaultLimit := 10

  /** The members of a child's `data` the adapter reads; each is what `.get` returns,
      None for an absent member or `null`. */
  datatype ChildData = ChildData(
    id: Option<string>,
    title: Option<string>,
    author: Option<string>,
    ups: Option<int>,
    url: Option<string>,
    permalink: Option<string>,
    createdUtc: Option<int>)

  /** A listing child: with or without its `data` member. */
  datatype Child = NoData | WithData(data: ChildData)

  /** The reply to the listing request: a failed request (connection error or an HTTP
      error status), a body without `data.children`, or the children in listing order. */
  datatype ListingReply = ListingFailed | NoChildren | Listing(children: seq<Child>)

  /** One element of the returned list: the post dict, or an `{"error": ...}` dict (the
      message text is not modelled). */
  datatype Entry =
    | PostDict(id: Option<string>, title: Option<string>, author: Option<string>,
               upvotes: Option<int>, url: Option<string>, commentUrl: string,
               publishedDateStr: DateText)
    | ErrorDict

  /** The dict of lines 31-39, or None where building it raises: a child without `data`
      (KeyError) or without `created_utc` (`fromtimestamp(None)`). */
  function ToEntry(c: Child): Option<Entry> {
    match c
    case NoData => None
    case WithData(d) =>
      if d.createdUtc.None? then None
      else Some(PostDict(d.id, d.title, d.author, d.ups, d.url,
                         SiteRoot + PyFormat(d.permalink), LocalTimeOf(d.createdUtc.value)))
  }

  /** The loop of lines 29-39 over the sliced children: every dict, or None as soon as
      one raises. */
  function MapChildren(cs: seq<Child>): Option<seq<Entry>> {
    if cs == [] then Some([])
    else
      match ToEntry(cs[0])
      case None => None
      case Some(e) =>
        match MapChildren(cs[1..])
        case None => None
        case Some(rest) => Some([e] + rest)
  }

  function EffectiveLimit(limit: Option<int>): int {
    if limit.None? then DefaultLimit else limit.value
  }

  /** The adapter given the listing reply: any failure becomes the single error dict. */
  function FromListing(reply: ListingReply, limit: Option<int>): seq<Entry> {
    match reply
    case ListingFailed => [ErrorDict]
    case NoChildren => [ErrorDict]
    case Listing(children) =>
      match MapChildren(PySliceTo(children, EffectiveLimit(limit)))
      case None => [ErrorDict]
      case Some(posts) => posts
  }

  /** `fetch_reddit_top_posts(limit)`: only the weekly top listing of r/Python is
      requested. */
  method FetchTopPosts(get: string -> ListingReply, limit: Option<int>) returns (posts: seq<Entry>)
    ensures posts == FromListing(get(ListingUrl), limit)
  {
    var lim := if limit.None? then DefaultLimit else limit.value;
    var reply := get(ListingUrl);
    if !reply.Listing? {
      return [ErrorDict];
    }
    var children := PySliceTo(reply.children, lim);
    posts := [];
    for k := 0 to |children|
      invariant MapChildren(children[..k]) == Some(posts)
    {
      var entry := ToEntry(children[k]);
      if entry.None? {
        MapChildrenSpec(children);
        return [ErrorDict];
      }
      MapChildrenAppend(children[..k], children[k]);
      assert children[..k + 1] == children[..k] + [children[k]];
      posts := posts + [entry.value];
    }
    assert children[..|children|] == children;
  }

  lemma {:induction false} MapChildrenAppend(cs: seq<Child>, c: Child)
    requires MapChildren(cs).Some?
    ensures ToEntry(c).Some? ==> MapChildren(cs + [c]) == Some(MapChildren(cs).value + [ToEntry(c).value])
  {
    if cs != [] && ToEntry(c).Some? {
      assert (cs + [c])[1..] == cs[1..] + [c];
      assert (cs + [c])[0] == cs[0];
      MapChildrenAppend(cs[1..], c);
      var e, rest := ToEntry(cs[0]).value, MapChildren(cs[1..]).value;
      assert MapChildren(cs + [c]) == Some([e] + (rest + [ToEntry(c).value]));
      assert [e] + (rest + [ToEntry(c).value]) == ([e] + rest) + [ToEntry(c).value];
    } else if cs == [] && ToEntry(c).Some? {
      var one: seq<Child> := [c];
      var x := ToEntry(c).value;
      assert cs + [c] == one && one[1..] == [] && one[0] == c;
      assert MapChildren(one[1..]) == Some([]);
      assert MapChildren(one) == Some([x] + []);
      assert [x] + [] == [x] == [] + [x];
    }
  }

  /** The loop succeeds exactly when every child it visits can be converted, and then
      entry `k` is child `k` converted. */
  lemma {:induction false} MapChildrenSpec(cs: seq<Child>)
    ensures MapChildren(cs).Some? <==> forall k :: 0 <= k < |cs| ==> ToEntry(cs[k]).Some?
    ensures MapChildren(cs).Some? ==>
      |MapChildren(cs).value| == |cs| && forall k :: 0 <= k < |cs| ==> MapChildren(cs).value[k] == ToEntry(cs[k]).value
  {
    if cs != [] {
      MapChildrenSpec(cs[1..]);
      assert forall k :: 0 < k < |cs| ==> cs[1..][k - 1] == cs[k];
    }
  }

  /** A failed request or a malformed listing gives the single error dict. Otherwise, when
      every child among the first `limit` has `data` and `created_utc`, the result has
      one dict per such child, in listing order: `min(limit, n)` dicts for a limit of
      zero or more, upvotes taken from `ups`, and the comment URL the site root followed
      by the permalink ("None" when there is none). If any of them lacks those members
      the result is the single error dict. */
  lemma FromListingSpec(reply: ListingReply, limit: Option<int>)
    ensures !reply.Listing? ==> FromListing(reply, limit) == [ErrorDict]
    ensures limit.None? ==> EffectiveLimit(limit) == 10
    ensures reply.Listing? ==>
      var cs := PySliceTo(reply.children, EffectiveLimit(limit));
      var r := FromListing(reply, limit);
      && (EffectiveLimit(limit) >= 0 ==> |cs| == Min(EffectiveLimit(limit), |reply.children|))
      && cs <= reply.children
      && ((forall k :: 0 <= k < |cs| ==> cs[k].WithData? && cs[k].data.createdUtc.Some?) ==>
           && |r| == |cs|
           && forall k :: 0 <= k < |cs| ==>
                && r[k].PostDict?
                && r[k].id == cs[k].data.id && r[k].title == cs[k].data.title
                && r[k].author == cs[k].data.author && r[k].url == cs[k].data.url
                && r[k].upvotes == cs[k].data.ups
                && r[k].commentUrl == SiteRoot + PyFormat(cs[k].data.permalink)
                && r[k].publishedDateStr == LocalTimeOf(cs[k].data.createdUtc.value))
      && ((exists k :: 0 <= k < |cs| && (cs[k].NoData? || cs[k].data.createdUtc.None?)) ==> r == [ErrorDict])
  {
    if reply.Listing? {
      MapChildrenSpec(PySliceTo(reply.children, EffectiveLimit(limit)));
    }
  }

  /** Every dict's comment URL starts with the site root. */
  lemma CommentUrlsOnSite(reply: ListingReply, limit: Option<int>, e: Entry)
    requires e in FromListing(reply, limit) && e.PostDict?
    ensures |e.commentUrl| >= |SiteRoot| && e.commentUrl[..|SiteRoot|] == SiteRoot
  {
    var cs := PySliceTo(reply.children, EffectiveLimit(limit));
    MapChildrenSpec(cs);
    var k :| 0 <= k < |FromListing(reply, limit)| && FromListing(reply, limit)[k] == e;
  }
}
