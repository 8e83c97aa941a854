/** The in-flight post record of src/app_types/post.py: the source enumeration, the
    sub enumeration, and the pydantic model `Post`, whose eleven fields are all Optional
    and have no default. */
module PostTypes {
  import opened Wrappers

  /** `SourceEnum(str, Enum)`: two members. */
  datatype SourceEnum = HNews | Reddit

  /** The string value of a member (`SourceEnum.hnews.value`). */
  function SourceValue(s: SourceEnum): string {
    match s
    case HNews => "HNEWS"
    case Reddit => "REDDIT"
  }

  /** The members in declaration order. */
  const AllSources: seq<SourceEnum> := [HNews, Reddit]

  /** Lookup by value, `SourceEnum(v)`; None where Python raises ValueError. */
  function SourceFromValue(v: string): (r: Option<SourceEnum>)
    ensures r.Some? ==> SourceValue(r.value) == v
  {
    if v == "HNEWS" then Some(HNews)
    else if v == "REDDIT" then Some(Reddit)
    else None
  }

  /** Exactly two members, with the values "HNEWS" and "REDDIT"; the value identifies
      the member. */
  lemma SourceEnumMembers(s: SourceEnum)
    ensures s in AllSources && |AllSources| == 2
    ensures SourceValue(AllSources[0]) == "HNEWS" && SourceValue(AllSources[1]) == "REDDIT"
    ensures SourceFromValue(SourceValue(s)) == Some(s)
    ensures forall v :: SourceFromValue(v).Some? <==> v in {"HNEWS", "REDDIT"}
  {
  }

  /** `SubEnum(str, Enum)`: one member. */
  datatype SubEnum = RedditArtificialInteligence

  function SubValue(s: SubEnum): string {
    match s
    case RedditArtificialInteligence => "ArtificialInteligence"
  }

  /** The single member, whose value is "ArtificialInteligence". */
  lemma SubEnumMember(s: SubEnum)
    ensures s == RedditArtificialInteligence && SubValue(s) == "ArtificialInteligence"
  {
  }

  /** A `published_date` value. The adapters fill it with `strftime("%Y-%m-%d %H:%M:%S")`
      of a local time; the model keeps the epoch seconds that text was formatted from. */
  datatype DateText = LocalTimeOf(epochSeconds: int) | Literal(text: string)

  /** The pydantic model `Post`. */
  datatype Post = Post(
    source: Option<SourceEnum>,
    sub: Option<string>,
    id: Option<string>,
    title: Option<string>,
    text: Option<string>,
    author: Option<string>,
    upvotes: Option<int>,
    url: Option<string>,
    publishedDate: Option<DateText>,
    commentUrl: Option<string>,
    commentHtml: Option<string>)

  /** The field names in declaration order. */
  const FieldNames: seq<string> := ["source", "sub", "id", "title", "text", "author",
    "upvotes", "url", "published_date", "comment_url", "comment_html"]

  /** One keyword argument of the constructor call: left out, or given (possibly None). */
  datatype Arg<T> = Omitted | Given(v: Option<T>)

  /** The keyword arguments of a `Post(...)` call, one slot per field. */
  datatype PostArgs = PostArgs(
    source: Arg<SourceEnum>,
    sub: Arg<string>,
    id: Arg<string>,
    title: Arg<string>,
    text: Arg<string>,
    author: Arg<string>,
    upvotes: Arg<int>,
    url: Arg<string>,
    publishedDate: Arg<DateText>,
    commentUrl: Arg<string>,
    commentHtml: Arg<string>)

  /** The pydantic major version decides what an omitted Optional field means:
      version 1 gives it the implicit default None, version 2 reports it missing. */
  datatype Pydantic = PydanticV1 | PydanticV2

  /** Which of the eleven slots were omitted, as flags in declaration order. */
  function OmittedFlags(a: PostArgs): seq<bool> {
    [a.source.Omitted?, a.sub.Omitted?, a.id.Omitted?, a.title.Omitted?, a.text.Omitted?,
     a.author.Omitted?, a.upvotes.Omitted?, a.url.Omitted?, a.publishedDate.Omitted?,
     a.commentUrl.Omitted?, a.commentHtml.Omitted?]
  }

  /** The names of the omitted fields, in declaration order. */
  function MissingFields(a: PostArgs): (r: seq<string>)
    ensures forall n :: n in r <==> exists k :: 0 <= k < 11 && OmittedFlags(a)[k] && FieldNames[k] == n
    ensures r == [] <==> forall k :: 0 <= k < 11 ==> !OmittedFlags(a)[k]
  {
    var flags := OmittedFlags(a);
    Select(flags, FieldNames)
  }

  function Select(flags: seq<bool>, names: seq<string>): (r: seq<string>)
    requires |flags| == |names|
    ensures forall n :: n in r <==> exists k :: 0 <= k < |names| && flags[k] && names[k] == n
    ensures r == [] <==> forall k :: 0 <= k < |flags| ==> !flags[k]
  {
    if flags == [] then []
    else
      var rest := Select(flags[1..], names[1..]);
      assert forall k :: 0 < k < |names| ==> flags[1..][k - 1] == flags[k] && names[1..][k - 1] == names[k];
      if flags[0] then [names[0]] + rest else rest
  }

  function ArgValue<T>(a: Arg<T>): Option<T> {
    match a
    case Omitted => None
    case Given(v) => v
  }

  /** `Post(**kwargs)`: the validated record, or the names pydantic reports missing. */
  function ConstructPost(a: PostArgs, version: Pydantic): Result<Post, seq<string>> {
    if version == PydanticV2 && MissingFields(a) != [] then Err(MissingFields(a))
    else Ok(Post(ArgValue(a.source), ArgValue(a.sub), ArgValue(a.id), ArgValue(a.title),
                 ArgValue(a.text), ArgValue(a.author), ArgValue(a.upvotes), ArgValue(a.url),
                 ArgValue(a.publishedDate), ArgValue(a.commentUrl), ArgValue(a.commentHtml)))
  }

  /** Every field is Optional without a default: under pydantic 2 a call succeeds exactly
      when all eleven are supplied (None is a valid value), under pydantic 1 always; a
      successful call stores each given value, None for an omitted one. */
  lemma ConstructPostSpec(a: PostArgs, version: Pydantic)
    ensures ConstructPost(a, version).Ok? <==> version == PydanticV1 || forall k :: 0 <= k < 11 ==> !OmittedFlags(a)[k]
    ensures ConstructPost(a, version).Err? ==> ("comment_html" in ConstructPost(a, version).error <==> a.commentHtml.Omitted?)
    ensures ConstructPost(a, version).Ok? ==> StoresArgs(a, ConstructPost(a, version).value)
  {
    if ConstructPost(a, version).Ok? {
      StoredFields(a, version);
    }
    var m := MissingFields(a);
    if !forall k :: 0 <= k < 11 ==> !OmittedFlags(a)[k] {
      var k :| 0 <= k < 11 && OmittedFlags(a)[k];
      assert FieldNames[k] in m;
    }
    if ConstructPost(a, version).Err? {
      assert FieldNames[10] == "comment_html";
      if "comment_html" in m {
        var k :| 0 <= k < 11 && OmittedFlags(a)[k] && FieldNames[k] == "comment_html";
        CommentHtmlIsLast(k);
      }
    }
  }

  /** A field holds the value given for it, or None when it was omitted. */
  predicate Stores<T(==)>(arg: Arg<T>, field: Option<T>) {
    && (arg.Given? ==> field == arg.v)
    && (arg.Omitted? ==> field == None)
  }

  /** Every one of the eleven fields holds its argument. */
  predicate StoresArgs(a: PostArgs, p: Post) {
    && Stores(a.source, p.source) && Stores(a.sub, p.sub) && Stores(a.id, p.id)
    && Stores(a.title, p.title) && Stores(a.text, p.text) && Stores(a.author, p.author)
    && Stores(a.upvotes, p.upvotes) && Stores(a.url, p.url)
    && Stores(a.publishedDate, p.publishedDate) && Stores(a.commentUrl, p.commentUrl)
    && Stores(a.commentHtml, p.commentHtml)
  }

  /** A successful call stores every argument in its field. */
  lemma StoredFields(a: PostArgs, version: Pydantic)
    requires ConstructPost(a, version).Ok?
    ensures StoresArgs(a, ConstructPost(a, version).value)
  {
  }

  /** Only the last field is called "comment_html": it is the only name of twelve letters. */
  lemma CommentHtmlIsLast(k: int)
    requires 0 <= k < 11 && FieldNames[k] == "comment_html"
    ensures k == 10
  {
    assert |FieldNames[k]| == 12;
  }

  /** The model has exactly the eleven declared fields, each named once. */
  lemma FieldNamesDistinct()
    ensures |FieldNames| == 11
    ensures forall i, j :: 0 <= i < j < |FieldNames| ==> FieldNames[i] != FieldNames[j]
  {
  }
}
