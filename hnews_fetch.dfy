/** `fetch_hackernews_top_posts` (src/utils/hnews_fetch.py): walk the top-story ids in
    order, fetch each item, keep stories of the last seven days whose lower-cased title
    contains a keyword and whose score exceeds 20, and stop once `limit` entries exist.
    The two HTTP endpoints are inputs: the reply to the id-list request and a function
    from story id to the reply of its item request. The clock is `now`, in epoch
    seconds. */
module HackerNews {
  import opened Wrappers
  import opened PostTypes
  import opened Text
  import opened Slices

  /** A member of a JSON object as `dict.get` sees it: absent, `null`, or a value. */
  datatype Json<T> = Missing | Null | Value(v: T)

  /** `story_data.get(key)`: None for an absent member and for `null`. */
  function Get<T>(f: Json<T>): (r: Option<T>)
    ensures r.Some? <==> f.Value?
  {
    if f.Value? then Some(f.v) else None
  }

  /** The members of an item the adapter reads (`author` is the member `by`). */
  datatype Story = Story(
    time: Json<int>,
    title: Json<string>,
    score: Json<int>,
    text: Option<string>,
    author: Option<string>,
    url: Option<string>)

  /** The reply to `GET item/{id}.json`: a failed request (connection error or an HTTP
      error status), a JSON `null` (deleted item), or an item. */
  datatype ItemReply = ItemFailed | ItemNull | Item(story: Story)

  /** The reply to `GET topstories.json`. */
  datatype IdsReply = IdsFailed | Ids(ids: seq<int>)

  /** One element of the returned list: a `Post`, or an `{"error": ...}` dict (the
      message text is not modelled). */
  datatype Entry = PostEntry(post: Post) | ErrorEntry

  const DefaultLimit := 10
  const Week := 7 * 24 * 60 * 60
  const MinScore := 20
  const ItemPage := "https://news.ycombinator.com/item?id="

  const Keywords: seq<string> := ["program", "ML", "AI", "machine learning",
    "artificial intelligence", "agent", "coding", "developer", "development", "source",
    "code", "Open-source", "python", "javascript", "typescript", "css", "server", "browser"]

  /** `any(keyword in title for keyword in keywords)`. */
  predicate AnyKeyword(title: string) {
    exists k | 0 <= k < |Keywords| :: Contains(title, Keywords[k])
  }

  /** What one iteration of the loop does with a story: nothing, append an entry, or
      raise into the outer handler, which replaces the whole result by one error. */
  datatype Step = Skip | Emit(entry: Entry) | Abort

  /** The `Post(...)` call of lines 71-84. Its arguments are evaluated first, so a missing
      `time` fails in `int(None)` before pydantic runs; `comment_html` is not passed. */
  function BuildEntry(id: int, s: Story, version: Pydantic): Entry {
    if !s.time.Value? then ErrorEntry
    else
      var args := PostArgs(
        source := Given(Some(HNews)),
        sub := Given(None),
        id := Given(Some(IntToString(id))),
        title := Given(Get(s.title)),
        text := Given(s.text),
        author := Given(s.author),
        upvotes := Given(Get(s.score)),
        url := Given(s.url),
        publishedDate := Given(Some(LocalTimeOf(s.time.v))),
        commentUrl := Given(Some(ItemPage + IntToString(id))),
        commentHtml := Omitted);
      match ConstructPost(args, version)
      case Ok(p) => PostEntry(p)
      case Err(_) => ErrorEntry
  }

  /** Lines 57-89 for one story id. `.get("time", 0)` turns an absent time into the epoch
      (too old unless `now` is within a week of it); `null` fails in `fromtimestamp`. An
      absent title is "" and matches nothing; a `null` one fails in `.lower()`. The score
      is compared only once a keyword matched, and a missing score fails the `>`. */
  function Visit(id: int, reply: ItemReply, now: int, version: Pydantic): Step {
    match reply
    case ItemFailed => Abort
    case ItemNull => Abort
    case Item(s) =>
      if s.time.Null? then Abort
      else
        var t := if s.time.Value? then s.time.v else 0;
        if t < now - Week then Skip
        else if s.title.Null? then Abort
        else
          var title := if s.title.Value? then Lower(s.title.v) else "";
          if !AnyKeyword(title) then Skip
          else if !s.score.Value? then Abort
          else if s.score.v > MinScore then Emit(BuildEntry(id, s, version))
          else Skip
  }

  /** What `Visit` does with each story id, given the item endpoint, the clock and the
      pydantic version. */
  function Outcomes(item: int -> ItemReply, now: int, version: Pydantic): int -> Step {
    id => Visit(id, item(id), now, version)
  }

  /** The loop of lines 53-89 from the current position with `posts` collected so far;
      `outcome` is `Outcomes(item, now, version)`. */
  function Scan(ids: seq<int>, outcome: int -> Step, limit: int, posts: seq<Entry>): seq<Entry>
    decreases |ids|
  {
    if ids == [] || |posts| >= limit then posts
    else
      match outcome(ids[0])
      case Abort => [ErrorEntry]
      case Skip => Scan(ids[1..], outcome, limit, posts)
      case Emit(e) => Scan(ids[1..], outcome, limit, posts + [e])
  }

  function EffectiveLimit(limit: Option<int>): int {
    if limit.None? then DefaultLimit else limit.value
  }

  /** The whole adapter. */
  function Fetch(reply: IdsReply, item: int -> ItemReply, now: int, limit: Option<int>, version: Pydantic): seq<Entry> {
    match reply
    case IdsFailed => [ErrorEntry]
    case Ids(ids) => Scan(ids, Outcomes(item, now, version), EffectiveLimit(limit), [])
  }

  /** `fetch_hackernews_top_posts(limit)`. */
  method FetchTopPosts(reply: IdsReply, item: int -> ItemReply, now: int, limit: Option<int>, version: Pydantic)
    returns (posts: seq<Entry>)
    ensures posts == Fetch(reply, item, now, limit, version)
  {
    var lim := if limit.None? then DefaultLimit else limit.value;
    if reply.IdsFailed? {
      return [ErrorEntry];
    }
    var ids := reply.ids;
    posts := [];
    var k := 0;
    while k < |ids| && |posts| < lim
      invariant 0 <= k <= |ids|
      invariant Scan(ids[k..], Outcomes(item, now, version), lim, posts) == Fetch(reply, item, now, limit, version)
      decreases |ids| - k
    {
      assert ids[k..][1..] == ids[k + 1..];
      var step := Visit(ids[k], item(ids[k]), now, version);
      assert step == Outcomes(item, now, version)(ids[k..][0]);
      match step {
        case Abort => return [ErrorEntry];
        case Skip =>
        case Emit(e) => posts := posts + [e];
      }
      k := k + 1;
    }
  }

  // ---------------------------------------------------------------- reference definitions

  /** The entries every story would produce if the loop never stopped, in id order. */
  function Emitted(ids: seq<int>, outcome: int -> Step): seq<Entry> {
    if ids == [] then []
    else
      var rest := Emitted(ids[1..], outcome);
      match outcome(ids[0])
      case Emit(e) => [e] + rest
      case _ => rest
  }

  /** No story's processing raises. */
  predicate NoAbort(ids: seq<int>, outcome: int -> Step) {
    forall k :: 0 <= k < |ids| ==> !outcome(ids[k]).Abort?
  }

  /** The loop either hands back the single error entry, or extends `posts` by the next
      qualifying entries in id order until it holds `limit` entries or the ids run out;
      with no failing story it is always the latter. */
  lemma {:induction false} ScanSpec(ids: seq<int>, outcome: int -> Step, limit: int, posts: seq<Entry>)
    ensures var r := Scan(ids, outcome, limit, posts);
      var e := Emitted(ids, outcome);
      var m := Min(Max(limit - |posts|, 0), |e|);
      && (r == [ErrorEntry] || r == posts + e[..m])
      && (NoAbort(ids, outcome) ==> r == posts + e[..m])
    decreases |ids|
  {
    if ids != [] && |posts| < limit {
      var tail := ids[1..];
      assert NoAbort(ids, outcome) ==> NoAbort(tail, outcome) by {
        forall k | 0 <= k < |tail| ensures tail[k] == ids[k + 1] { }
      }
      var e := Emitted(ids, outcome);
      var e' := Emitted(tail, outcome);
      match outcome(ids[0])
      case Abort =>
      case Skip =>
        ScanSpec(tail, outcome, limit, posts);
      case Emit(x) =>
        ScanSpec(tail, outcome, limit, posts + [x]);
        var m' := Min(Max(limit - |posts| - 1, 0), |e'|);
        assert e[..m' + 1] == [x] + e'[..m'];
    }
  }

  /** A story whose processing raises, reached while fewer than `limit` entries exist,
      discards everything collected so far: the loop hands back the single error entry. */
  lemma {:induction false} ScanAborts(ids: seq<int>, outcome: int -> Step, limit: int, posts: seq<Entry>, k: nat)
    requires k < |ids| && outcome(ids[k]).Abort?
    requires NoAbort(ids[..k], outcome)
    requires |posts| + |Emitted(ids[..k], outcome)| < limit
    ensures Scan(ids, outcome, limit, posts) == [ErrorEntry]
    decreases k
  {
    if k > 0 {
      var tail := ids[1..];
      var before := ids[..k];
      var pre := tail[..k - 1];
      assert before[0] == ids[0];
      assert before[1..] == pre;
      assert NoAbort(pre, outcome) by {
        forall j | 0 <= j < |pre| ensures !outcome(pre[j]).Abort? {
          assert pre[j] == before[j + 1];
        }
      }
      assert tail[k - 1] == ids[k];
      match outcome(ids[0])
      case Skip =>
        ScanAborts(tail, outcome, limit, posts, k - 1);
      case Emit(x) =>
        ScanAborts(tail, outcome, limit, posts + [x], k - 1);
    }
  }

  /** Once `limit` entries exist the loop breaks before the next item request, so a story
      after that point is never fetched: if no story before position `k` fails and those
      stories bring the entries to `limit`, the result is the first `limit` of them, however
      the later stories would fare. */
  lemma {:induction false} ScanStops(ids: seq<int>, outcome: int -> Step, limit: int, posts: seq<Entry>, k: nat)
    requires k <= |ids|
    requires NoAbort(ids[..k], outcome)
    requires |posts| + |Emitted(ids[..k], outcome)| >= limit
    ensures Scan(ids, outcome, limit, posts) == (posts + Emitted(ids[..k], outcome))[..Max(limit, |posts|)]
    decreases k
  {
    var all := posts + Emitted(ids[..k], outcome);
    if |posts| >= limit {
      assert all[..|posts|] == posts;
    } else {
      var tail := ids[1..];
      var before := ids[..k];
      var pre := tail[..k - 1];
      assert before[0] == ids[0];
      assert before[1..] == pre;
      assert NoAbort(pre, outcome) by {
        forall j | 0 <= j < |pre| ensures !outcome(pre[j]).Abort? {
          assert pre[j] == before[j + 1];
        }
      }
      assert !outcome(before[0]).Abort?;
      match outcome(ids[0])
      case Skip =>
        ScanStops(tail, outcome, limit, posts, k - 1);
      case Emit(x) =>
        ScanStops(tail, outcome, limit, posts + [x], k - 1);
        assert all == (posts + [x]) + Emitted(pre, outcome);
    }
  }

  /** What the adapter returns: a failed id-list request gives the single error entry;
      otherwise the result is the single error entry or the first `limit` qualifying
      entries in id order (all of them if fewer), and the latter whenever no story
      fails. A limit of zero or less gives `[]` without fetching any item. A story that
      fails before `limit` entries were collected discards them all for the single
      error entry; once `limit` entries were collected without a failure, the stories
      after that point are never fetched and cannot turn the result into an error. */
  lemma FetchSpec(reply: IdsReply, item: int -> ItemReply, now: int, limit: Option<int>, version: Pydantic)
    ensures reply.IdsFailed? ==> Fetch(reply, item, now, limit, version) == [ErrorEntry]
    ensures reply.Ids? ==>
      var r := Fetch(reply, item, now, limit, version);
      var e := Emitted(reply.ids, Outcomes(item, now, version));
      var l := EffectiveLimit(limit);
      && (r == [ErrorEntry] || r == e[..Min(Max(l, 0), |e|)])
      && (NoAbort(reply.ids, Outcomes(item, now, version)) ==> r == e[..Min(Max(l, 0), |e|)])
      && (l <= 0 ==> r == [])
      && |r| <= Max(l, 1)
    ensures reply.Ids? ==> forall k ::
      (&& 0 <= k < |reply.ids| && Visit(reply.ids[k], item(reply.ids[k]), now, version).Abort?
       && NoAbort(reply.ids[..k], Outcomes(item, now, version))
       && |Emitted(reply.ids[..k], Outcomes(item, now, version))| < EffectiveLimit(limit))
      ==> Fetch(reply, item, now, limit, version) == [ErrorEntry]
    ensures reply.Ids? ==> forall k ::
      (&& 0 <= k <= |reply.ids| && NoAbort(reply.ids[..k], Outcomes(item, now, version))
       && |Emitted(reply.ids[..k], Outcomes(item, now, version))| >= EffectiveLimit(limit))
      ==> Fetch(reply, item, now, limit, version)
          == Emitted(reply.ids[..k], Outcomes(item, now, version))[..Max(EffectiveLimit(limit), 0)]
    ensures limit.None? ==> EffectiveLimit(limit) == 10
  {
    if reply.Ids? {
      var outcome := Outcomes(item, now, version);
      ScanSpec(reply.ids, outcome, EffectiveLimit(limit), []);
      forall k | 0 <= k < |reply.ids| && Visit(reply.ids[k], item(reply.ids[k]), now, version).Abort?
        && NoAbort(reply.ids[..k], outcome)
        && |Emitted(reply.ids[..k], outcome)| < EffectiveLimit(limit)
        ensures Fetch(reply, item, now, limit, version) == [ErrorEntry]
      {
        assert outcome(reply.ids[k]) == Visit(reply.ids[k], item(reply.ids[k]), now, version);
        ScanAborts(reply.ids, outcome, EffectiveLimit(limit), [], k);
      }
      forall k | 0 <= k <= |reply.ids| && NoAbort(reply.ids[..k], outcome)
        && |Emitted(reply.ids[..k], outcome)| >= EffectiveLimit(limit)
        ensures Fetch(reply, item, now, limit, version)
          == Emitted(reply.ids[..k], outcome)[..Max(EffectiveLimit(limit), 0)]
      {
        ScanStops(reply.ids, outcome, EffectiveLimit(limit), [], k);
        assert [] + Emitted(reply.ids[..k], outcome) == Emitted(reply.ids[..k], outcome);
      }
    }
  }

  /** Every emitted entry comes from one of the ids, by a non-failing visit. */
  lemma {:induction false} EmittedFrom(ids: seq<int>, outcome: int -> Step, x: Entry)
    requires x in Emitted(ids, outcome)
    ensures exists k :: 0 <= k < |ids| && outcome(ids[k]) == Emit(x)
  {
    var rest := Emitted(ids[1..], outcome);
    if x in rest {
      EmittedFrom(ids[1..], outcome, x);
      var k :| 0 <= k < |ids[1..]| && outcome(ids[1..][k]) == Emit(x);
      assert ids[1..][k] == ids[k + 1];
    }
  }

  /** A story yields an entry only if it is at most a week old (an absent time counting as
      the epoch), its lower-cased title contains a keyword, and its score exceeds 20. The
      entry is a `Post` only under pydantic 1, since `comment_html` is never passed; it
      then has source hnews, no sub, the id rendered in decimal, and the item page as
      comment URL. A failed or null item request always raises. */
  lemma VisitSpec(id: int, reply: ItemReply, now: int, version: Pydantic)
    ensures (reply.ItemFailed? || reply.ItemNull?) ==> Visit(id, reply, now, version) == Abort
    ensures Visit(id, reply, now, version).Emit? ==>
      && reply.Item?
      && (if reply.story.time.Value? then reply.story.time.v else 0) >= now - Week
      && reply.story.title.Value? && AnyKeyword(Lower(reply.story.title.v))
      && reply.story.score.Value? && reply.story.score.v > MinScore
    ensures version == PydanticV2 && Visit(id, reply, now, version).Emit? ==>
      Visit(id, reply, now, version).entry == ErrorEntry
    ensures Visit(id, reply, now, version).Emit? && Visit(id, reply, now, version).entry.PostEntry? ==>
      var p := Visit(id, reply, now, version).entry.post;
      && version == PydanticV1
      && p.source == Some(HNews) && p.sub == None && p.id == Some(IntToString(id))
      && p.commentUrl == Some(ItemPage + IntToString(id)) && p.commentHtml == None
      && p.title == Some(reply.story.title.v) && p.upvotes == Some(reply.story.score.v)
      && p.publishedDate == Some(LocalTimeOf(reply.story.time.v))
    ensures version == PydanticV1 && reply.Item? && reply.story.time.Value?
      && reply.story.time.v >= now - Week
      && reply.story.title.Value? && AnyKeyword(Lower(reply.story.title.v))
      && reply.story.score.Value? && reply.story.score.v > MinScore
      ==> Visit(id, reply, now, version).Emit? && Visit(id, reply, now, version).entry.PostEntry?
  {
    if reply.Item? {
      var s := reply.story;
      VisitOutcome(id, s, now, version);
      if s.time.Value? {
        BuildEntrySpec(id, s, version);
      }
    }
  }

  /** Which stories `Visit` emits, and that what it emits is `BuildEntry` of the story. */
  lemma VisitOutcome(id: int, s: Story, now: int, version: Pydantic)
    ensures Visit(id, Item(s), now, version).Emit? <==>
      && !s.time.Null? && (if s.time.Value? then s.time.v else 0) >= now - Week
      && s.title.Value? && AnyKeyword(Lower(s.title.v))
      && s.score.Value? && s.score.v > MinScore
    ensures Visit(id, Item(s), now, version).Emit? ==>
      Visit(id, Item(s), now, version).entry == BuildEntry(id, s, version)
  {
  }

  /** The `Post(...)` call of a story with a time: an error under pydantic 2, since
      `comment_html` is omitted; under pydantic 1 a `Post` with the adapter's fields. */
  lemma BuildEntrySpec(id: int, s: Story, version: Pydantic)
    requires s.time.Value?
    ensures version == PydanticV2 ==> BuildEntry(id, s, version) == ErrorEntry
    ensures version == PydanticV1 ==> BuildEntry(id, s, version).PostEntry?
    ensures BuildEntry(id, s, version).PostEntry? ==>
      var p := BuildEntry(id, s, version).post;
      && p.source == Some(HNews) && p.sub == None && p.id == Some(IntToString(id))
      && p.commentUrl == Some(ItemPage + IntToString(id)) && p.commentHtml == None
      && p.title == Get(s.title) && p.upvotes == Get(s.score)
      && p.publishedDate == Some(LocalTimeOf(s.time.v))
  {
    var args := PostArgs(Given(Some(HNews)), Given(None), Given(Some(IntToString(id))),
      Given(Get(s.title)), Given(s.text), Given(s.author), Given(Get(s.score)), Given(s.url),
      Given(Some(LocalTimeOf(s.time.v))), Given(Some(ItemPage + IntToString(id))), Omitted);
    ConstructPostSpec(args, version);
    assert OmittedFlags(args)[10];
  }

  /** Under pydantic 2 the adapter returns errors only: every story that qualifies becomes
      an `{"error": ...}` entry, because `comment_html` is required there. */
  lemma PydanticV2OnlyErrors(reply: IdsReply, item: int -> ItemReply, now: int, limit: Option<int>, x: Entry)
    requires x in Fetch(reply, item, now, limit, PydanticV2)
    ensures x == ErrorEntry
  {
    if reply.Ids? {
      var outcome := Outcomes(item, now, PydanticV2);
      var e := Emitted(reply.ids, outcome);
      FetchSpec(reply, item, now, limit, PydanticV2);
      if x != ErrorEntry {
        assert x in e;
        EmittedFrom(reply.ids, outcome, x);
        var k :| 0 <= k < |reply.ids| && outcome(reply.ids[k]) == Emit(x);
        VisitSpec(reply.ids[k], item(reply.ids[k]), now, PydanticV2);
      }
    }
  }

  /** Every `Post` returned is the story of one of the top ids, with the hnews source, the
      decimal id, and that id's item page as comment URL, and it qualified. */
  lemma ReturnedPostsQualify(reply: IdsReply, item: int -> ItemReply, now: int, limit: Option<int>, version: Pydantic, x: Entry)
    requires x in Fetch(reply, item, now, limit, version) && x.PostEntry?
    ensures reply.Ids?
    ensures exists k :: (0 <= k < |reply.ids| &&
      var id := reply.ids[k];
      && item(id).Item? && item(id).story.score.Value? && item(id).story.score.v > MinScore
      && item(id).story.title.Value? && AnyKeyword(Lower(item(id).story.title.v))
      && x.post.source == Some(HNews) && x.post.sub == None && x.post.id == Some(IntToString(id))
      && x.post.commentUrl == Some(ItemPage + IntToString(id)))
  {
    var outcome := Outcomes(item, now, version);
    var e := Emitted(reply.ids, outcome);
    FetchSpec(reply, item, now, limit, version);
    assert x in e;
    EmittedFrom(reply.ids, outcome, x);
    var k :| 0 <= k < |reply.ids| && outcome(reply.ids[k]) == Emit(x);
    VisitSpec(reply.ids[k], item(reply.ids[k]), now, version);
  }

  /** Titles are lower-cased before matching, so the keywords "ML", "AI" and
      "Open-source" never match anything on their own. */
  lemma DeadKeywords(title: string)
    ensures Keywords[1] == "ML" && Keywords[2] == "AI" && Keywords[11] == "Open-source"
    ensures !Contains(Lower(title), Keywords[1])
    ensures !Contains(Lower(title), Keywords[2])
    ensures !Contains(Lower(title), Keywords[11])
  {
    UpperPatternNotInLower(title, Keywords[1], 0);
    UpperPatternNotInLower(title, Keywords[2], 0);
    UpperPatternNotInLower(title, Keywords[11], 0);
  }
}
