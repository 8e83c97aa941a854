/** The posts page of ui/src/pages/PostsPage.tsx: clicking a headline selects that post,
    and the selected post's text is shown with quote entities decoded and line breaks
    turned into `<br />`. */
module PostsPageModel {
  import opened Wrappers
  import opened Text

  /** The selected post; a null or undefined text is None. */
  datatype SelectedPost = SelectedPost(title: string, text: Option<string>)

  datatype Pane = Placeholder | Article(titleHtml: string, bodyHtml: string)

  /** The `.replace` chain over `text ?? ''`, in order: `&quot;` to `"`, every newline to
      `<br />`, every carriage return removed. */
  function PageBody(text: Option<string>): string {
    ReplaceAll(ReplaceAll(ReplaceAll(text.GetOr(""), "&quot;", "\""), "\n", "<br />"), "\r", "")
  }

  function Render(selected: Option<SelectedPost>): Pane {
    match selected
    case None => Placeholder
    case Some(p) => Article(p.title, PageBody(p.text))
  }

  /** The page's `selectedPost` state. */
  class PostsPage {
    var selectedPost: Option<SelectedPost>

    constructor ()
      ensures selectedPost.None?
    {
      selectedPost := None;
    }

    /** `handlePostClick(post)`. */
    method HandlePostClick(post: SelectedPost)
      modifies this
      ensures selectedPost == Some(post)
    {
      selectedPost := Some(post);
    }

    function View(): Pane
      reads this
    {
      Render(selectedPost)
    }
  }

  /** The page body has neither newlines nor carriage returns; a missing text gives the
      empty body; text without `&`, newlines or carriage returns is shown as it is. */
  lemma PageBodySpec(text: Option<string>)
    ensures '\n' !in PageBody(text) && '\r' !in PageBody(text)
    ensures text.None? ==> PageBody(text) == ""
    ensures text.Some? && '&' !in text.value && '\n' !in text.value && '\r' !in text.value ==>
      PageBody(text) == text.value
  {
    var a := ReplaceAll(text.GetOr(""), "&quot;", "\"");
    var b := ReplaceAll(a, "\n", "<br />");
    ReplaceAllRemovesChar(a, '\n', "<br />");
    ReplaceAllKeepsAbsent(b, "\r", "", '\n');
    ReplaceAllRemovesChar(b, '\r', "");
    var s := text.GetOr("");
    if '&' !in s && '\n' !in s && '\r' !in s {
      ReplaceAllAbsent(s, "&quot;", "\"");
      ReplaceAllAbsent(s, "\n", "<br />");
      ReplaceAllAbsent(s, "\r", "");
    }
  }

  /** A Windows line break between two plain lines becomes a single `<br />`. */
  lemma WindowsLineBreak(x: string, y: string)
    requires '&' !in x && '\r' !in x && '\n' !in x
    requires '&' !in y && '\r' !in y && '\n' !in y
    ensures PageBody(Some(x + "\r\n" + y)) == x + "<br />" + y
  {
    var s := x + ("\r\n" + y);
    assert x + "\r\n" + y == s;
    ReplaceAllKeepsPrefix(x, "\r\n" + y, "&quot;", "\"");
    ReplaceAllAbsent("\r\n" + y, "&quot;", "\"");
    ReplaceAllKeepsPrefix(x, "\r\n" + y, "\n", "<br />");
    NewlineStage(y);
    ReplaceAllKeepsPrefix(x, "\r<br />" + y, "\r", "");
    ReturnStage(y);
    assert x + ("<br />" + y) == x + "<br />" + y;
  }

  lemma NewlineStage(y: string)
    requires '\n' !in y
    ensures ReplaceAll("\r\n" + y, "\n", "<br />") == "\r<br />" + y
  {
    var ny := "\n" + y;
    assert "\r\n" + y == ['\r'] + ny;
    ReplaceAllAbsent(y, "\n", "<br />");
    ReplaceAllMatch(y, "\n", "<br />");
    ReplaceAllSkip('\r', ny, "\n", "<br />");
  }

  lemma ReturnStage(y: string)
    requires '\r' !in y
    ensures ReplaceAll("\r<br />" + y, "\r", "") == "<br />" + y
  {
    var br := "<br />" + y;
    assert "\r<br />" + y == "\r" + br;
    ReplaceAllAbsent(br, "\r", "");
    ReplaceAllMatch(br, "\r", "");
  }

  /** A click shows the clicked post; before any click the placeholder shows. This only
      unfolds `Render` for the two states the page can be in, as a reading aid. */
  lemma ClickShows(post: SelectedPost)
    ensures Render(None).Placeholder?
    ensures Render(Some(post)) == Article(post.title, PageBody(post.text))
  {
  }
}
