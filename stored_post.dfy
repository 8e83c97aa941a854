/** The stored row of the posts table and the `PostType` the query API returns
    (src/apis/main.py:15-27, 86-99). */
module PostStore {
  import opened Wrappers
  import opened PostTypes

  /** One row of the posts table: every column the API and the backfill read. `id` is the
      surrogate key, `postId` the source-native id. */
  datatype StoredPost = StoredPost(
    id: int,
    postId: Option<string>,
    source: Option<SourceEnum>,
    sub: Option<string>,
    title: Option<string>,
    text: Option<string>,
    author: Option<string>,
    upvotes: Option<int>,
    url: Option<string>,
    publishedDate: Option<string>,
    commentUrl: Option<string>,
    commentHtml: Option<string>,
    createdAt: int,
    updatedAt: int)

  /** `PostType`: all fields Optional; `id` is the external id. */
  datatype PostView = PostView(
    source: Option<string>,
    sub: Option<string>,
    id: Option<string>,
    title: Option<string>,
    text: Option<string>,
    author: Option<string>,
    upvotes: Option<int>,
    url: Option<string>,
    publishedDate: Option<string>,
    commentUrl: Option<string>,
    commentHtml: Option<string>)

  /** The `PostType(...)` call the query repeats for every row it returns: the API's `id`
      is the external post id, never the surrogate key, and the source is its enum value
      (None for a NULL source), from which the member can be recovered. */
  function ToView(p: StoredPost): (v: PostView)
    ensures v.id == p.postId
    ensures v.source.Some? <==> p.source.Some?
    ensures p.source.Some? ==> SourceFromValue(v.source.value) == p.source
  {
    PostView(
      source := if p.source.Some? then Some(SourceValue(p.source.value)) else None,
      sub := p.sub,
      id := p.postId,
      title := p.title,
      text := p.text,
      author := p.author,
      upvotes := p.upvotes,
      url := p.url,
      publishedDate := p.publishedDate,
      commentUrl := p.commentUrl,
      commentHtml := p.commentHtml)
  }

  /** The rows converted one by one, in order. */
  function Views(rows: seq<StoredPost>): seq<PostView> {
    seq(|rows|, i requires 0 <= i < |rows| => ToView(rows[i]))
  }

  /** A view is in the converted list exactly when some row converts to it. */
  lemma ViewsMember(rows: seq<StoredPost>, v: PostView)
    ensures v in Views(rows) <==> exists x :: x in rows && v == ToView(x)
  {
    if v in Views(rows) {
      var i :| 0 <= i < |rows| && Views(rows)[i] == v;
      assert rows[i] in rows;
    }
    if exists x :: x in rows && v == ToView(x) {
      var x :| x in rows && v == ToView(x);
      var i :| 0 <= i < |rows| && rows[i] == x;
      assert Views(rows)[i] == v;
    }
  }
}
