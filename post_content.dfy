/** The reading pane of ui/src/components/PostContent.tsx: a placeholder without a post;
    otherwise the title, the date and upvotes when present, a link to the comments, and
    the comment HTML (or the text) with quote entities decoded and line breaks tidied. */
module PostContentModel {
  import opened Wrappers
  import opened Text
  import opened PostTypes
  import opened PostStore
  import CommentBackfill

  /** The `post` prop. Its optional members may be undefined, or null when the API sends
      a NULL column as JSON null; `text` is typed as a string but may arrive as null too. */
  datatype ContentPost = ContentPost(
    id: string,
    source: string,
    sub: JsValue<string>,
    title: string,
    text: JsValue<string>,
    publishedDate: JsValue<string>,
    upvotes: JsValue<int>,
    commentUrl: JsValue<string>,
    commentHtml: JsValue<string>,
    url: JsValue<string>)

  /** What the component renders: the placeholder, the article with the date, upvote
      count and comments link it shows (None when not shown) and the body HTML, or a
      TypeError thrown while rendering. */
  datatype Pane =
    | Placeholder
    | Article(titleHtml: string, date: Option<string>, upvotes: Option<int>,
              commentsLink: Option<string>, bodyHtml: string)
    | TypeErrorThrown

  const RedditCommentsRoot := "https://www.reddit.com/r/"

  /** `commentsUrl`: the stored comment URL when truthy; otherwise, for a Reddit post,
      its comments page built from sub and id (an undefined sub renders "undefined" and
      a null one "null"), and for any other source the empty string. */
  function CommentsUrl(p: ContentPost): string {
    if JsTruthy(p.commentUrl) then p.commentUrl.v
    else if p.source == "REDDIT" then RedditCommentsRoot + JsFormat(p.sub) + "/comments/" + p.id
    else ""
  }

  /** `post.commentHtml ? post.commentHtml : post.text`. */
  function BodySource(p: ContentPost): JsValue<string> {
    if JsTruthy(p.commentHtml) then p.commentHtml else p.text
  }

  /** The `.replace` chain, in order: `&quot;` to `"`, every carriage return removed,
      then each pair of newlines, left to right and not overlapping, made one. */
  function RewriteBody(s: string): string {
    ReplaceAll(ReplaceAll(ReplaceAll(s, "&quot;", "\""), "\r", ""), "\n\n", "\n")
  }

  function Render(post: Option<ContentPost>): Pane {
    match post
    case None => Placeholder
    case Some(p) =>
      // `null.toLocaleString()` and `.replace` on a null or undefined body throw.
      if p.upvotes.Null? || !BodySource(p).Present? then TypeErrorThrown
      else
        var link := CommentsUrl(p);
        Article(p.title,
                if JsTruthy(p.publishedDate) then Some(p.publishedDate.v) else None,
                if p.upvotes.Present? then Some(p.upvotes.v) else None,
                if link != "" then Some(link) else None,
                RewriteBody(BodySource(p).v))
  }

  /** The rewritten body has no carriage return and is never longer than its source;
      text without `&`, carriage returns or newlines is kept as it is. */
  lemma RewriteBodySpec(s: string)
    ensures '\r' !in RewriteBody(s)
    ensures |RewriteBody(s)| <= |s|
    ensures '&' !in s && '\r' !in s && '\n' !in s ==> RewriteBody(s) == s
  {
    var a := ReplaceAll(s, "&quot;", "\"");
    var b := ReplaceAll(a, "\r", "");
    ReplaceAllRemovesChar(a, '\r', "");
    ReplaceAllKeepsAbsent(b, "\n\n", "\n", '\r');
    ReplaceAllShrinks(s, "&quot;", "\"");
    ReplaceAllShrinks(a, "\r", "");
    ReplaceAllShrinks(b, "\n\n", "\n");
    if '&' !in s && '\r' !in s && '\n' !in s {
      ReplaceAllAbsent(s, "&quot;", "\"");
      ReplaceAllAbsent(s, "\r", "");
      ReplaceAllAbsent(s, "\n\n", "\n");
    }
  }

  /** Pairs are collapsed without overlap: three newlines leave two. */
  lemma ThreeNewlinesLeaveTwo()
    ensures RewriteBody("\n\n\n") == "\n\n"
  {
    var s := "\n\n\n";
    ReplaceAllAbsent(s, "&quot;", "\"");
    ReplaceAllAbsent(s, "\r", "");
    assert ReplaceAll("\n", "\n\n", "\n") == "\n";
    assert s[..2] == "\n\n" && s[2..] == "\n";
    assert ReplaceAll(s, "\n\n", "\n") == "\n" + ReplaceAll("\n", "\n\n", "\n");
  }

  /** A Windows blank line between two lines of plain text becomes a single line
      break. */
  lemma WindowsBlankLine(x: string, y: string)
    requires '&' !in x && '\r' !in x && '\n' !in x
    requires '&' !in y && '\r' !in y && '\n' !in y
    ensures RewriteBody(x + "\r\n\r\n" + y) == x + "\n" + y
  {
    var s := x + ("\r\n\r\n" + y);
    assert x + "\r\n\r\n" + y == s;
    ReplaceAllKeepsPrefix(x, "\r\n\r\n" + y, "&quot;", "\"");
    ReplaceAllAbsent("\r\n\r\n" + y, "&quot;", "\"");
    ReplaceAllKeepsPrefix(x, "\r\n\r\n" + y, "\r", "");
    CarriageReturnsRemoved(y);
    ReplaceAllKeepsPrefix(x, "\n\n" + y, "\n\n", "\n");
    NewlinePairCollapsed(y);
  }

  lemma CarriageReturnsRemoved(y: string)
    requires '\r' !in y
    ensures ReplaceAll("\r\n\r\n" + y, "\r", "") == "\n\n" + y
  {
    var ny := ['\n'] + y;
    var rny := "\r" + ny;
    var nrny := ['\n'] + rny;
    assert "\r\n\r\n" + y == "\r" + nrny;
    ReplaceAllAbsent(y, "\r", "");
    ReplaceAllSkip('\n', y, "\r", "");
    ReplaceAllMatch(ny, "\r", "");
    ReplaceAllSkip('\n', rny, "\r", "");
    ReplaceAllMatch(nrny, "\r", "");
  }

  lemma NewlinePairCollapsed(y: string)
    requires '\n' !in y
    ensures ReplaceAll("\n\n" + y, "\n\n", "\n") == "\n" + y
  {
    ReplaceAllAbsent(y, "\n\n", "\n");
    ReplaceAllMatch(y, "\n\n", "\n");
  }

  /** Without a post only the placeholder is shown. With one, rendering throws exactly
      when the upvotes are null (`!== undefined` lets null through to
      `toLocaleString`) or when the comment HTML is empty and the text is null or
      undefined. Otherwise the body comes from the comment HTML when it is non-empty and
      from the text otherwise; the date shows when non-empty, the upvote count whenever
      it is a number (zero included), and the comments link exactly when there is a
      non-empty comment URL or the post is from Reddit. */
  lemma RenderSpec(post: Option<ContentPost>)
    ensures Render(post).Placeholder? <==> post.None?
    ensures Render(post).TypeErrorThrown? <==>
      post.Some? && (post.value.upvotes.Null? || (!JsTruthy(post.value.commentHtml) && !post.value.text.Present?))
    ensures Render(post).Article? ==>
      var p, pane := post.value, Render(post);
      && (JsTruthy(p.commentHtml) || p.text.Present?)
      && pane.bodyHtml == RewriteBody(if JsTruthy(p.commentHtml) then p.commentHtml.v else p.text.v)
      && (pane.date.Some? <==> JsTruthy(p.publishedDate))
      && (pane.upvotes.Some? <==> p.upvotes.Present?)
      && (pane.upvotes.Some? ==> pane.upvotes.value == p.upvotes.v)
      && (pane.commentsLink.Some? <==> JsTruthy(p.commentUrl) || p.source == "REDDIT")
      && (pane.commentsLink.Some? && !JsTruthy(p.commentUrl) ==>
            |pane.commentsLink.value| > |RedditCommentsRoot|
            && pane.commentsLink.value[..|RedditCommentsRoot|] == RedditCommentsRoot)
  {
    if post.Some? && !JsTruthy(post.value.commentUrl) && post.value.source == "REDDIT" {
      var p := post.value;
      assert CommentsUrl(p) == RedditCommentsRoot + (JsFormat(p.sub) + "/comments/" + p.id);
    }
  }

  /** For a Reddit row without a comment URL, the link the pane falls back to is the URL
      the backfill would store for it, as long as the row has a sub. Without one the two
      differ: Python writes "None" where JavaScript writes "null" for a sub the API sent
      as JSON null, or "undefined" for one left out. */
  lemma FallbackMatchesBackfill(r: StoredPost, p: ContentPost)
    requires r.source == Some(Reddit) && Truthy(r.postId)
    requires p.source == "REDDIT" && p.id == r.postId.value && !JsTruthy(p.commentUrl)
    requires r.sub.Some? ==> p.sub == Present(r.sub.value)
    requires r.sub.None? ==> !p.sub.Present?
    ensures r.sub.Some? ==> CommentsUrl(p) == CommentBackfill.SynthesisedUrl(r).value
    ensures r.sub.None? ==> CommentsUrl(p) != CommentBackfill.SynthesisedUrl(r).value
    ensures p.sub.Null? ==> CommentsUrl(p) == RedditCommentsRoot + "null" + "/comments/" + p.id
  {
    var tail := "/comments/" + p.id;
    if r.sub.None? {
      var ui := RedditCommentsRoot + (JsFormat(p.sub) + tail);
      var py := RedditCommentsRoot + ("None" + tail);
      assert CommentsUrl(p) == ui;
      assert ui[|RedditCommentsRoot|] == JsFormat(p.sub)[0] != 'N' == py[|RedditCommentsRoot|];
    }
  }
}
