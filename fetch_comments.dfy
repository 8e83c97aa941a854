/** The comment backfill of scripts/fetch_comments.py: pick the newest posts that lack
    comment HTML, give each a comment URL when it has none, ask the local scrape service
    for that page, and store a non-blank reply. The table is a sequence of mutable rows;
    the scrape service is a function from request URL to reply, and the clock a function
    from the position in the selection to the time read while processing that post. */
module CommentBackfill {
  import opened Wrappers
  import opened PostTypes
  import opened PostStore
  import opened Ranking
  import opened Text
  import opened Slices
  import opened Multisets

  const RedditSite := "https://www.reddit.com/r/"
  const HackerNewsItem := "https://news.ycombinator.com/item?id="
  const ScrapeService := "http://localhost:3033/get?s=&url="
  const BatchSize := 20

  /** A row of the posts table. The columns the backfill writes are fields; the others
      are constants. */
  class PostRow {
    const id: int
    const postId: Option<string>
    const source: Option<SourceEnum>
    const sub: Option<string>
    const title: Option<string>
    const text: Option<string>
    const author: Option<string>
    const upvotes: Option<int>
    const url: Option<string>
    const publishedDate: Option<string>
    const createdAt: int
    var commentUrl: Option<string>
    var commentHtml: Option<string>
    var updatedAt: int

    /** The row's current values. */
    function Record(): StoredPost
      reads this
    {
      StoredPost(id, postId, source, sub, title, text, author, upvotes, url, publishedDate,
                 commentUrl, commentHtml, createdAt, updatedAt)
    }

    constructor (r: StoredPost)
      ensures Record() == r
    {
      id, postId, source, sub, title := r.id, r.postId, r.source, r.sub, r.title;
      text, author, upvotes, url := r.text, r.author, r.upvotes, r.url;
      publishedDate, createdAt := r.publishedDate, r.createdAt;
      commentUrl, commentHtml, updatedAt := r.commentUrl, r.commentHtml, r.updatedAt;
    }
  }

  /** The reply of the scrape service: an exception, or a status code and a body. */
  datatype Scrape = Raised | Reply(status: int, body: string)

  /** The comment URL lines 37-50 build for a row without one, if any: Reddit rows use
      their sub (rendered "None" when NULL) and post id, Hacker News rows their post id. */
  function SynthesisedUrl(r: StoredPost): (u: Option<string>)
    ensures u.Some? <==> Truthy(r.postId) && r.source.Some?
    ensures u.Some? && r.source == Some(Reddit) ==>
      u.value == RedditSite + PyFormat(r.sub) + "/comments/" + r.postId.value
    ensures u.Some? && r.source == Some(HNews) ==> u.value == HackerNewsItem + r.postId.value
  {
    if !Truthy(r.postId) || r.source.None? then None
    else
      match r.source.value
      case Reddit => Some(RedditSite + PyFormat(r.sub) + "/comments/" + r.postId.value)
      case HNews => Some(HackerNewsItem + r.postId.value)
  }

  /** The row as committed after one `update_post_comment`, and what it returned. */
  datatype Outcome = Outcome(row: StoredPost, ok: bool)

  /** `update_post_comment(post)` with `now` as the `utcnow()` reading. */
  function Update(r: StoredPost, scrape: string -> Scrape, now: int): Outcome {
    if !Truthy(r.commentUrl) && SynthesisedUrl(r).None? then Outcome(r, false)
    else
      var r1 := if Truthy(r.commentUrl) then r
                else r.(commentUrl := SynthesisedUrl(r), updatedAt := now);
      match scrape(ScrapeService + r1.commentUrl.value)
      case Raised => Outcome(r1, false)
      case Reply(status, body) =>
        if status == 200 && body != "" && Strip(body) != "" then
          Outcome(r1.(commentHtml := Some(body), updatedAt := now), true)
        else Outcome(r1, false)
  }

  /** The URL an update requests: the stored one when truthy, else the synthesised one. */
  function RequestUrl(r: StoredPost): Option<string> {
    if Truthy(r.commentUrl) then r.commentUrl else SynthesisedUrl(r)
  }

  /** The row an update works on once it has its URL. */
  function WithUrl(r: StoredPost, now: int): StoredPost {
    if Truthy(r.commentUrl) then r else r.(commentUrl := SynthesisedUrl(r), updatedAt := now)
  }

  /** The outcome, case by case. */
  lemma UpdateCases(r: StoredPost, scrape: string -> Scrape, now: int)
    ensures var u, o := RequestUrl(r), Update(r, scrape, now);
      && (u.None? ==> o == Outcome(r, false))
      && (u.Some? ==> WithUrl(r, now).commentUrl == u)
      && (u.Some? && scrape(ScrapeService + u.value).Raised? ==> o == Outcome(WithUrl(r, now), false))
      && (u.Some? && scrape(ScrapeService + u.value).Reply? ==>
            var rep := scrape(ScrapeService + u.value);
            o == if rep.status == 200 && NonBlank(rep.body)
                 then Outcome(WithUrl(r, now).(commentHtml := Some(rep.body), updatedAt := now), true)
                 else Outcome(WithUrl(r, now), false))
  {
    var u := RequestUrl(r);
    if u.Some? && scrape(ScrapeService + u.value).Reply? {
      var body := scrape(ScrapeService + u.value).body;
      StripNonEmptyIff(body);
      assert NonBlank(body) ==> body != "";
    }
  }

  /** What one update promises. It succeeds exactly when the row has or can be given a
      comment URL and the service answers that URL with status 200 and a body that is not
      blank; the body is then stored as is, with the time. Otherwise the comment HTML is
      untouched. A row without a URL that cannot be given one is left exactly as it was;
      a synthesised URL is kept even when the scrape fails. Only the comment URL, the
      comment HTML and the update time ever change. */
  lemma UpdateSpec(r: StoredPost, scrape: string -> Scrape, now: int)
    ensures var o := Update(r, scrape, now);
      var u := if Truthy(r.commentUrl) then r.commentUrl else SynthesisedUrl(r);
      && (o.ok <==> u.Some? && scrape(ScrapeService + u.value).Reply?
                    && scrape(ScrapeService + u.value).status == 200
                    && NonBlank(scrape(ScrapeService + u.value).body))
      && (o.ok ==> o.row.commentHtml == Some(scrape(ScrapeService + u.value).body) && o.row.updatedAt == now)
      && (!o.ok ==> o.row.commentHtml == r.commentHtml)
      && (u.None? ==> o == Outcome(r, false))
      && (u.Some? ==> o.row.commentUrl == u)
      && (!Truthy(r.commentUrl) && u.Some? ==> o.row.updatedAt == now)
      && o.row == r.(commentUrl := o.row.commentUrl, commentHtml := o.row.commentHtml, updatedAt := o.row.updatedAt)
  {
    UpdateCases(r, scrape, now);
  }

  /** `update_post_comment(post, db)` on the row object; the commits and the rollback
      leave the row as its fields end up. */
  method UpdatePostComment(post: PostRow, scrape: string -> Scrape, now: int) returns (ok: bool)
    modifies post
    ensures Outcome(post.Record(), ok) == Update(old(post.Record()), scrape, now)
  {
    ghost var r := post.Record();
    UpdateCases(r, scrape, now);
    if !Truthy(post.commentUrl) {
      if post.source == Some(Reddit) && Truthy(post.postId) {
        post.commentUrl := Some(RedditSite + PyFormat(post.sub) + "/comments/" + post.postId.value);
        post.updatedAt := now;
      } else if post.source == Some(HNews) && Truthy(post.postId) {
        post.commentUrl := Some(HackerNewsItem + post.postId.value);
        post.updatedAt := now;
      } else {
        assert RequestUrl(r).None?;
        return false;
      }
    }
    assert post.Record() == WithUrl(r, now) && post.commentUrl == RequestUrl(r);
    var serviceUrl := ScrapeService + post.commentUrl.value;
    var response := scrape(serviceUrl);
    if response.Raised? {
      return false;
    }
    StripNonEmptyIff(response.body);
    if response.status == 200 {
      var commentsHtml := response.body;
      if commentsHtml != "" && Strip(commentsHtml) != "" {
        post.commentHtml := Some(commentsHtml);
        post.updatedAt := now;
        return true;
      } else {
        return false;
      }
    } else {
      return false;
    }
  }

  // ---------------------------------------------------------------- selection

  /** `comment_html IS NULL OR comment_html = ''`. */
  predicate NeedsComments(r: StoredPost) {
    r.commentHtml.None? || r.commentHtml == Some("")
  }

  /** The positions of the first `n` rows that need comments, in table order. */
  function Needy(recs: seq<StoredPost>, n: nat): (r: seq<nat>)
    requires n <= |recs|
    ensures forall k: nat :: k in r <==> k < n && NeedsComments(recs[k])
    ensures forall i :: 0 <= i < |r| ==> r[i] < n
    ensures forall i, j :: 0 <= i < j < |r| ==> r[i] < r[j]
  {
    if n == 0 then []
    else Needy(recs, n - 1) + (if NeedsComments(recs[n - 1]) then [n - 1] else [])
  }

  /** The sort key of a position: the row's creation time. */
  function CreatedKey(recs: seq<StoredPost>): nat -> Option<int> {
    (k: nat) => if k < |recs| then Some(recs[k].createdAt) else None
  }

  /** The rows needing comments, `ORDER BY created_at DESC`, as positions. */
  function Ordered(recs: seq<StoredPost>): (sorted: seq<nat>)
    ensures multiset(sorted) == multiset(Needy(recs, |recs|))
    ensures SortedDesc(sorted, CreatedKey(recs))
  {
    SortDesc(Needy(recs, |recs|), CreatedKey(recs))
  }

  /** The query of lines 91-95: the rows needing comments, newest first, `LIMIT 20`. */
  function Selection(recs: seq<StoredPost>): (sel: seq<nat>)
    ensures |sel| <= BatchSize
    ensures forall i :: 0 <= i < |sel| ==> sel[i] < |recs| && NeedsComments(recs[sel[i]])
  {
    var sorted := Ordered(recs);
    PermutationKeepsMembers(Needy(recs, |recs|), sorted);
    sorted[..Min(BatchSize, |sorted|)]
  }

  lemma {:induction false} IncreasingOnce(s: seq<nat>, x: nat)
    requires forall i, j :: 0 <= i < j < |s| ==> s[i] < s[j]
    ensures multiset(s)[x] <= 1
  {
    if s != [] {
      var init := s[..|s| - 1];
      IncreasingOnce(init, x);
      assert s == init + [s[|s| - 1]];
      if x == s[|s| - 1] {
        assert x !in init;
      }
    }
  }

  /** The ordered positions are distinct, each is a row needing comments, every such row
      is among them, and creation times do not increase along them. */
  lemma OrderedSpec(recs: seq<StoredPost>)
    ensures var sorted := Ordered(recs);
      && (forall i, j :: 0 <= i < j < |sorted| ==> sorted[i] != sorted[j])
      && (forall k: nat :: k in sorted <==> k < |recs| && NeedsComments(recs[k]))
      && (forall i, j :: 0 <= i < j < |sorted| ==>
            sorted[i] < |recs| && sorted[j] < |recs| && recs[sorted[i]].createdAt >= recs[sorted[j]].createdAt)
  {
    OrderedDistinct(recs);
    OrderedMembers(recs);
    OrderedByTime(recs);
  }

  lemma OrderedDistinct(recs: seq<StoredPost>)
    ensures var sorted := Ordered(recs); forall i, j :: 0 <= i < j < |sorted| ==> sorted[i] != sorted[j]
  {
    var needy := Needy(recs, |recs|);
    var sorted: seq<nat> := Ordered(recs);
    forall x: nat ensures multiset(sorted)[x] <= 1 {
      IncreasingOnce(needy, x);
    }
    DistinctFromCounts<nat>(sorted);
  }

  lemma OrderedMembers(recs: seq<StoredPost>)
    ensures forall k: nat :: k in Ordered(recs) <==> k < |recs| && NeedsComments(recs[k])
  {
    var needy := Needy(recs, |recs|);
    var sorted := Ordered(recs);
    forall k: nat ensures k in sorted <==> k in needy {
      assert k in sorted <==> k in multiset(sorted);
    }
  }

  lemma OrderedByTime(recs: seq<StoredPost>)
    ensures var sorted := Ordered(recs);
      forall i, j :: 0 <= i < j < |sorted| ==>
        sorted[i] < |recs| && sorted[j] < |recs| && recs[sorted[i]].createdAt >= recs[sorted[j]].createdAt
  {
    var needy := Needy(recs, |recs|);
    var key := CreatedKey(recs);
    var sorted := Ordered(recs);
    PermutationKeepsMembers(needy, sorted);
    forall i, j | 0 <= i < j < |sorted|
      ensures sorted[i] < |recs| && sorted[j] < |recs| && recs[sorted[i]].createdAt >= recs[sorted[j]].createdAt
    {
      assert sorted[i] in needy && sorted[j] in needy;
      assert NoLater(key(sorted[i]), key(sorted[j]));
    }
  }

  /** At most twenty distinct rows, each needing comments, newest first; the selection is
      empty exactly when no row needs comments. */
  lemma SelectionSpec(recs: seq<StoredPost>)
    ensures var sel := Selection(recs);
      && |sel| <= BatchSize
      && (forall i :: 0 <= i < |sel| ==> sel[i] < |recs| && NeedsComments(recs[sel[i]]))
      && (forall i, j :: 0 <= i < j < |sel| ==> sel[i] != sel[j])
      && (forall i, j :: 0 <= i < j < |sel| ==> recs[sel[i]].createdAt >= recs[sel[j]].createdAt)
      && (sel == [] <==> forall k :: 0 <= k < |recs| ==> !NeedsComments(recs[k]))
  {
    var sorted := Ordered(recs);
    var sel := Selection(recs);
    OrderedSpec(recs);
    assert sel == sorted[..Min(BatchSize, |sorted|)];
    forall k | 0 <= k < |recs| ensures NeedsComments(recs[k]) ==> k in sorted && sel != [] { }
  }

  /** A row that needs comments but is not selected is no newer than any selected one,
      and it is left out only when twenty were taken. */
  lemma LeftOutIsOlder(recs: seq<StoredPost>, k: nat)
    requires k < |recs| && NeedsComments(recs[k]) && k !in Selection(recs)
    ensures |Selection(recs)| == BatchSize
    ensures forall i :: 0 <= i < |Selection(recs)| ==> recs[Selection(recs)[i]].createdAt >= recs[k].createdAt
  {
    var sorted := Ordered(recs);
    var sel := Selection(recs);
    OrderedSpec(recs);
    assert sel == sorted[..Min(BatchSize, |sorted|)];
    var p :| 0 <= p < |sorted| && sorted[p] == k;
    assert forall q :: 0 <= q < |sel| ==> sel[q] == sorted[q];
    assert p >= |sel|;
  }

  // ---------------------------------------------------------------- the batch

  /** The table after the first `j` selected rows were processed, with the number of
      updates that returned True. */
  datatype Run = Run(recs: seq<StoredPost>, count: nat)

  predicate ValidSelection(recs: seq<StoredPost>, sel: seq<nat>) {
    forall i :: 0 <= i < |sel| ==> sel[i] < |recs|
  }

  function Process(recs: seq<StoredPost>, sel: seq<nat>, scrape: string -> Scrape, clock: nat -> int, j: nat): (run: Run)
    requires j <= |sel| && ValidSelection(recs, sel)
    ensures |run.recs| == |recs|
  {
    if j == 0 then Run(recs, 0)
    else
      var prev := Process(recs, sel, scrape, clock, j - 1);
      var o := Update(prev.recs[sel[j - 1]], scrape, clock(j - 1));
      Run(prev.recs[sel[j - 1] := o.row], prev.count + if o.ok then 1 else 0)
  }

  /** How many of the first `j` selected rows an update would succeed on, each judged on
      its row as it was before the batch. */
  function CountOk(recs: seq<StoredPost>, sel: seq<nat>, scrape: string -> Scrape, clock: nat -> int, j: nat): nat
    requires j <= |sel| && ValidSelection(recs, sel)
  {
    if j == 0 then 0
    else CountOk(recs, sel, scrape, clock, j - 1) + if Update(recs[sel[j - 1]], scrape, clock(j - 1)).ok then 1 else 0
  }

  /** A row no processed position names keeps its record. */
  lemma {:induction false} ProcessUntouched(recs: seq<StoredPost>, sel: seq<nat>, scrape: string -> Scrape, clock: nat -> int, j: nat, k: nat)
    requires j <= |sel| && ValidSelection(recs, sel) && k < |recs|
    requires forall a :: 0 <= a < j ==> sel[a] != k
    ensures Process(recs, sel, scrape, clock, j).recs[k] == recs[k]
  {
    if j > 0 {
      ProcessUntouched(recs, sel, scrape, clock, j - 1, k);
    }
  }

  /** With distinct positions, the row at processed position `i` holds the result of a
      lone update of its original record. */
  lemma {:induction false} ProcessUpdated(recs: seq<StoredPost>, sel: seq<nat>, scrape: string -> Scrape, clock: nat -> int, j: nat, i: nat)
    requires j <= |sel| && ValidSelection(recs, sel) && i < j
    requires forall a, b :: 0 <= a < b < |sel| ==> sel[a] != sel[b]
    ensures Process(recs, sel, scrape, clock, j).recs[sel[i]] == Update(recs[sel[i]], scrape, clock(i)).row
  {
    if i == j - 1 {
      ProcessUntouched(recs, sel, scrape, clock, j - 1, sel[i]);
    } else {
      ProcessUpdated(recs, sel, scrape, clock, j - 1, i);
      assert sel[j - 1] != sel[i];
    }
  }

  /** With distinct positions, the count is the number of lone updates that succeed. */
  lemma {:induction false} ProcessCount(recs: seq<StoredPost>, sel: seq<nat>, scrape: string -> Scrape, clock: nat -> int, j: nat)
    requires j <= |sel| && ValidSelection(recs, sel)
    requires forall a, b :: 0 <= a < b < |sel| ==> sel[a] != sel[b]
    ensures Process(recs, sel, scrape, clock, j).count == CountOk(recs, sel, scrape, clock, j) <= j
  {
    if j > 0 {
      ProcessCount(recs, sel, scrape, clock, j - 1);
      ProcessUntouched(recs, sel, scrape, clock, j - 1, sel[j - 1]);
      var prev := Process(recs, sel, scrape, clock, j - 1);
      var ok := Update(recs[sel[j - 1]], scrape, clock(j - 1)).ok;
      assert Process(recs, sel, scrape, clock, j).count == prev.count + if ok then 1 else 0;
      assert CountOk(recs, sel, scrape, clock, j) == CountOk(recs, sel, scrape, clock, j - 1) + if ok then 1 else 0;
    }
  }

  /** With distinct selected rows, processing them one by one updates each exactly as a
      lone update of its original row would, touches no other row, and counts exactly
      the updates that succeed, so never more than were selected. */
  lemma ProcessSpec(recs: seq<StoredPost>, sel: seq<nat>, scrape: string -> Scrape, clock: nat -> int, j: nat)
    requires j <= |sel| && ValidSelection(recs, sel)
    requires forall a, b :: 0 <= a < b < |sel| ==> sel[a] != sel[b]
    ensures var run := Process(recs, sel, scrape, clock, j);
      && (forall k :: 0 <= k < |recs| && k !in sel[..j] ==> run.recs[k] == recs[k])
      && (forall i :: 0 <= i < j ==> run.recs[sel[i]] == Update(recs[sel[i]], scrape, clock(i)).row)
      && run.count == CountOk(recs, sel, scrape, clock, j)
      && run.count <= j
  {
    forall k | 0 <= k < |recs| && k !in sel[..j]
      ensures Process(recs, sel, scrape, clock, j).recs[k] == recs[k]
    {
      assert forall a :: 0 <= a < j ==> sel[a] == sel[..j][a];
      ProcessUntouched(recs, sel, scrape, clock, j, k);
    }
    forall i | 0 <= i < j
      ensures Process(recs, sel, scrape, clock, j).recs[sel[i]] == Update(recs[sel[i]], scrape, clock(i)).row
    {
      ProcessUpdated(recs, sel, scrape, clock, j, i);
    }
    ProcessCount(recs, sel, scrape, clock, j);
  }

  function Records(rows: seq<PostRow>): (recs: seq<StoredPost>)
    reads set r | r in rows
    ensures |recs| == |rows|
    ensures forall i :: 0 <= i < |rows| ==> recs[i] == rows[i].Record()
  {
    seq(|rows|, i reads set r | r in rows requires 0 <= i < |rows| => rows[i].Record())
  }

  /** `update_post_comment` on the row at position `k` of the table: that row's record
      changes as `Update` says, the other rows keep theirs. */
  method UpdateRowAt(rows: seq<PostRow>, k: nat, scrape: string -> Scrape, now: int) returns (ok: bool)
    requires k < |rows|
    requires forall a, b :: 0 <= a < b < |rows| ==> rows[a] != rows[b]
    modifies rows[k]
    ensures var o := Update(old(Records(rows))[k], scrape, now);
      Records(rows) == old(Records(rows))[k := o.row] && ok == o.ok
  {
    var post := rows[k];
    ghost var before := Records(rows);
    assert before[k] == post.Record();
    ok := UpdatePostComment(post, scrape, now);
    forall i | 0 <= i < |rows| ensures Records(rows)[i] == before[k := post.Record()][i] {
      if i != k {
        assert rows[i] != post;
      }
    }
  }

  /** One more processed row: the table and the count after it. */
  lemma ProcessNext(recs: seq<StoredPost>, sel: seq<nat>, scrape: string -> Scrape, clock: nat -> int, k: nat)
    requires k < |sel| && ValidSelection(recs, sel)
    ensures var prev := Process(recs, sel, scrape, clock, k);
      var o := Update(prev.recs[sel[k]], scrape, clock(k));
      Process(recs, sel, scrape, clock, k + 1) == Run(prev.recs[sel[k] := o.row], prev.count + if o.ok then 1 else 0)
  {
  }

  /** The loop of lines 104-107: update the rows at the positions `posts` in order,
      counting the updates that return True. */
  method UpdateRows(rows: seq<PostRow>, posts: seq<nat>, scrape: string -> Scrape, clock: nat -> int)
    returns (successCount: nat)
    requires forall a, b :: 0 <= a < b < |rows| ==> rows[a] != rows[b]
    requires forall i :: 0 <= i < |posts| ==> posts[i] < |rows|
    modifies set r | r in rows
    ensures var run := Process(old(Records(rows)), posts, scrape, clock, |posts|);
      Records(rows) == run.recs && successCount == run.count
  {
    ghost var recs := Records(rows);
    successCount := 0;
    for k := 0 to |posts|
      invariant Records(rows) == Process(recs, posts, scrape, clock, k).recs
      invariant successCount == Process(recs, posts, scrape, clock, k).count
    {
      ghost var prev := Process(recs, posts, scrape, clock, k);
      ghost var o := Update(prev.recs[posts[k]], scrape, clock(k));
      ProcessNext(recs, posts, scrape, clock, k);
      var ok := UpdateRowAt(rows, posts[k], scrape, clock(k));
      assert Records(rows) == prev.recs[posts[k] := o.row] && ok == o.ok;
      if ok {
        successCount := successCount + 1;
      }
    }
  }

  /** `fetch_and_update_comments()`: select once, then update the selected rows in order
      and count the successes; an empty selection returns at once. */
  method FetchAndUpdateComments(rows: seq<PostRow>, scrape: string -> Scrape, clock: nat -> int)
    returns (successCount: nat)
    requires forall a, b :: 0 <= a < b < |rows| ==> rows[a] != rows[b]
    modifies set r | r in rows
    ensures var recs := old(Records(rows));
      var run := Process(recs, Selection(recs), scrape, clock, |Selection(recs)|);
      Records(rows) == run.recs && successCount == run.count
  {
    var posts := Selection(Records(rows));
    if posts == [] {
      return 0;
    }
    successCount := UpdateRows(rows, posts, scrape, clock);
  }

  /** The whole backfill: at most twenty rows change, only rows that needed comments, and
      the success count is the number of them whose update succeeded, at most the number
      selected. */
  lemma BackfillSpec(recs: seq<StoredPost>, scrape: string -> Scrape, clock: nat -> int)
    ensures var sel := Selection(recs);
      var run := Process(recs, sel, scrape, clock, |sel|);
      && |sel| <= BatchSize
      && run.count == CountOk(recs, sel, scrape, clock, |sel|)
      && run.count <= |sel|
      && (forall k :: 0 <= k < |recs| && run.recs[k] != recs[k] ==> NeedsComments(recs[k]) && k in sel)
      && (forall i :: 0 <= i < |sel| ==> run.recs[sel[i]] == Update(recs[sel[i]], scrape, clock(i)).row)
  {
    var sel := Selection(recs);
    SelectionSpec(recs);
    ProcessSpec(recs, sel, scrape, clock, |sel|);
    assert sel[..|sel|] == sel;
  }
}
