# news-fetcher-agent: a verified model of the post pipeline

This project models the data-shaping core of news-fetcher-agent, a service that
collects posts from Hacker News and Reddit, stores them, backfills their comment pages,
and serves them to a React client. The model covers:

- **The query API** (`src/apis/main.py`):
  - `Query.posts` in both modes. The interleaved mode buckets posts by category, orders
    each bucket by upvotes (descending, NULLs last), merges the buckets round-robin and
    applies the limit. The flat mode applies SQL `LIMIT`.
  - `Query.post`, `Query.get_detailed_posts`, and the `PostType` conversion they share.
- **The post record** (`src/app_types/post.py`): `SourceEnum`, `SubEnum`, and the
  all-Optional pydantic `Post`. The pydantic major version decides what an omitted field
  means, so it is a parameter.
- **The source adapters**:
  - `fetch_hackernews_top_posts`: the keyword, score and age filter with the early stop
    at `limit`, and the error-entry paths.
  - `fetch_reddit_top_posts`: the listing slice and the field mapping.
  - HTTP replies are input data. Time is integer epoch seconds.
- **The comment backfill** (`scripts/fetch_comments.py`):
  - the selection of at most 20 newest rows lacking comment HTML;
  - URL synthesis per source;
  - the conditional write of the scraped body;
  - the success count.
  - Rows are mutable objects. The scrape service is a function from URL to reply.
- **The client** (`ui/src`):
  - the module-level post cache, including the order `Object.keys` lists keys in;
  - the keyboard-navigation hook;
  - relative-date bucketing;
  - the source and sub-category selectors;
  - the comment-URL fallback and body rewriting of the reading pane and the posts page.

Stateful parts are classes whose methods are proved against pure specification
functions:
- the cache object;
- the navigation hook's state;
- the selectors' and the page's React state;
- the backfilled table rows.

The loops of the source are `while`/`for` loops with invariants:
- the interleaving and flat conversion in `Query.posts`;
- the Hacker News and Reddit loops;
- the backfill loop;
- `cachePosts` and `clearCache`.

Behaviour that looks unintended is modelled as written and stated as a lemma:
- the sub-less category holds every post of its source, so a post can be listed twice;
- the upper-case keywords can never match a lower-cased title;
- under pydantic 2 the Hacker News adapter yields only error entries;
- `\n\n\n` collapses only to `\n\n`.

Shared helper modules:
- `Wrappers`: Option and Result.
- `Slices`: Python's `s[:l]`.
- `Text`: decimal rendering, ASCII lower-casing, substring search, replace-all, and
  Python's `strip`.
- `Ranking`: a sort for `ORDER BY … DESC NULLS LAST`, proved a permutation and ordered. It breaks ties by table order, but no contract states that, since the database leaves ties unspecified.
- `Interleave`: the generic round-robin merge.
- `Multisets`: distinctness facts.
- `Toggle`: the list toggle both selectors use.

## Model

| member | source | states |
|---|---|---|
| PostTypes.SourceEnumMembers | src/app_types/post.py:6-8 | Exactly two members with values "HNEWS" and "REDDIT"; lookup by value succeeds exactly for those two strings and inverts the value |
| PostTypes.SourceFromValue | src/app_types/post.py:6-8 | `SourceEnum(v)` returns a member only when `v` is that member's value |
| PostTypes.SubEnumMember | src/app_types/post.py:11-12 | `SubEnum` has the single member with value "ArtificialInteligence" |
| PostTypes.MissingFields | src/app_types/post.py:15-26 | The names reported missing are exactly the omitted fields; none exactly when all eleven are supplied |
| PostTypes.ConstructPost | src/app_types/post.py:15-26 | The `Post(...)` call: the record built from the given arguments, or under pydantic 2 the missing field names; its properties are stated by ConstructPostSpec and StoredFields |
| PostTypes.StoredFields | src/app_types/post.py:15-26 | A successful call stores in each of the eleven fields the value given for it, and None for every omitted one |
| PostTypes.ConstructPostSpec | src/app_types/post.py:15-26 | Under pydantic 2, construction succeeds iff all eleven fields are supplied (None allowed), and `comment_html` is reported iff it was omitted; under pydantic 1 it always succeeds. A success stores in each of the eleven fields the value given for it, and None for every omitted one |
| PostTypes.FieldNamesDistinct | src/app_types/post.py:16-26 | The record has eleven fields with pairwise distinct names |
| PostStore.ToView | src/apis/main.py:86-99 | A `PostType`'s `id` is the row's external post_id, never the surrogate key; the source is present iff the row has one, and its value maps back to the row's member |
| PostStore.ViewsMember | src/apis/main.py:177-192 | A view is among the converted rows iff some row converts to it |
| Ranking.InsertSorted | src/apis/main.py:67-69 | Inserting into a list ordered by key descending with NULLs last keeps it ordered and adds exactly that element |
| Ranking.SortDesc | src/apis/main.py:67-69 | `ORDER BY key DESC NULLS LAST` is a permutation of its input, ordered: larger keys first, every NULL after every non-NULL |
| Interleave.MaxLen | src/apis/main.py:76-78 | The number of rounds bounds every category's length and equals one of them (0 with no category) |
| Interleave.RoundRobinPermutes | src/apis/main.py:76-100 | The merged result is a permutation of the categories' concatenation, one entry per (category, index) pair, so its length is the sum of the sizes |
| Interleave.RoundRobinAt | src/apis/main.py:81-85 | Element `i` of category `k` is appended in round `i`, at the position `Pos(i, k)` |
| Interleave.PosOrdered | src/apis/main.py:81-85 | Earlier rounds come first, and within a round categories follow dict order |
| Interleave.FirstRoundIsHeads | src/apis/main.py:81-85 | When no category is empty, the result opens with each category's first element, in dict order |
| Interleave.ExtraRoundsAddNothing | src/apis/main.py:76-85 | Once every category is exhausted, more rounds append nothing |
| Interleave.TwoCategoriesInterleave | src/apis/main.py:81-100 | Categories [10, 8, 6] and [9] interleave as 10, 9, 8, 6 |
| Query.CategoryKey | src/apis/main.py:62 | `f"{source}:{sub}" if sub else source`; CategoryKeyInjective states when two keys are equal |
| Query.InCategory | src/apis/main.py:64-66 | The category filter: the source matches, and the sub matches only when the pair's sub is truthy; Where and SublessCategoryHoldsWholeSource state what it keeps |
| Query.CategoryPosts | src/apis/main.py:64-69 | The category query, filtered and ordered by upvotes descending with NULLs last; CategoriesOrdered states the order |
| Query.Categorise | src/apis/main.py:54-72 | `posts_by_category` after the loop over the distinct pairs; CategoriseSpec, BucketFromPair and PairStored state its contents |
| Query.Where | src/apis/main.py:62-66 | The category filter keeps exactly the rows of the pair's source whose sub matches, or all of them when the pair's sub is falsy |
| Query.CategoriseSpec | src/apis/main.py:57-72 | Every stored category is non-empty and is the query of some pair with a source; every pair with a source and a non-empty query has its key stored; NULL-source pairs produce nothing |
| Query.CategoryKeyInjective | src/apis/main.py:62 | Equal keys mean equal sources and subs that are both falsy or equal |
| Query.SameKeySameCategory | src/apis/main.py:62-69 | Pairs with the same key query the same posts, so a repeated key is rewritten with the same list |
| Query.BucketFromPair | src/apis/main.py:57-72 | Every stored category comes from a pair whose query it is |
| Query.PairStored | src/apis/main.py:57-72 | A pair with a source and a non-empty query has its key stored, holding exactly its query |
| Query.CategoriesOrdered | src/apis/main.py:67-72 | In dict order, every category is non-empty and ordered by upvotes descending, NULLs last |
| Query.InterleavedMembers | src/apis/main.py:57-100 | A row is in the interleaved result iff it passes the filter of some distinct pair with a source |
| Query.NullSourceNeverInterleaved | src/apis/main.py:59-60 | Rows with a NULL source never appear in interleaved mode |
| Query.SublessCategoryHoldsWholeSource | src/apis/main.py:62-66 | A sub-less pair's category holds every post of its source, those with a sub included |
| Query.SubPostListedTwice | src/apis/main.py:50-100 | When both (s, None) and (s, b) are distinct pairs, a post of s with sub b appears at least twice before the limit |
| Query.InterleavedShape | src/apis/main.py:76-100 | Before the limit: the length is the sum of category sizes, the result is a permutation of the concatenation, and it opens with each category's top post |
| Query.SmallLimitTakesTopOfEachCategory | src/apis/main.py:81-104 | With a limit no larger than the number of categories, the result is the top post of each of the first `limit` categories |
| Query.InterleavedPosts | src/apis/main.py:49-106 | What interleaved mode returns: the converted round-robin merge, limited; InterleavedShape, InterleavedMembers and InterleavedIsNonNullSource state its contents |
| Query.InterleavedIsNonNullSource | src/apis/main.py:49-100 | When the pairs are the table's distinct (source, sub) values, each once, in any order, the interleaved result holds exactly the rows whose source is not NULL |
| Query.FlatPosts | src/apis/main.py:107-132 | What flat mode returns: every row converted, in table order, under SQL `LIMIT`; SqlLimit states the limit |
| Query.ApplyLimit | src/apis/main.py:103-104 | The result is a prefix: unchanged with no limit, length min(limit, n) for a limit ≥ 0, and Python's negative slice otherwise |
| Query.SqlLimit | src/apis/main.py:109-110 | SQL `LIMIT` gives a prefix of length min(limit, n); with no limit or a negative one, all rows |
| Query.Posts | src/apis/main.py:39-132 | Interleaved mode returns the converted round-robin merge with the limit applied; flat mode returns the converted rows in table order with SQL `LIMIT` |
| Query.RoundRobinViews | src/apis/main.py:75-100 | The nested loops produce the conversion of the round-robin merge of the categories in dict order |
| Query.FirstWhere | src/apis/main.py:138 | `.first()` finds the first row passing the filter, or reports that none does |
| Query.PostById | src/apis/main.py:134-154 | None iff no row has the surrogate id; otherwise the conversion of the first such row |
| Query.WithPostIdIn | src/apis/main.py:170-174 | Keeps exactly the rows whose non-NULL post_id is in the list |
| Query.GetDetailedPosts | src/apis/main.py:156-209 | The error "Post not found" iff no row has the external id; otherwise the first such row converted, whose `id` is the requested one, with the surrounding rows converted |
| Query.SurroundingExactly | src/apis/main.py:170-192 | The surrounding posts are exactly the stored rows whose post_id is listed; ids without a row are absent, and every returned id was asked for |
| HackerNews.BuildEntry | src/utils/hnews_fetch.py:70-89 | The `Post(...)` call for one story, or the error entry it raises into; BuildEntrySpec states its outcome |
| HackerNews.Visit | src/utils/hnews_fetch.py:57-89 | One iteration for one story id: skip, append an entry, or raise into the outer handler; VisitOutcome and VisitSpec state when each happens |
| HackerNews.Scan | src/utils/hnews_fetch.py:52-90 | The loop from the current id with the entries collected so far; ScanSpec and ScanAborts state its result |
| HackerNews.Fetch | src/utils/hnews_fetch.py:20-96 | The whole adapter; FetchSpec states its result |
| HackerNews.Get | src/utils/hnews_fetch.py:63-69 | `.get` yields a value only for a present, non-null member |
| HackerNews.FetchTopPosts | src/utils/hnews_fetch.py:20-96 | The loop returns what the specification `Fetch` gives |
| HackerNews.ScanSpec | src/utils/hnews_fetch.py:53-89 | The loop returns either the single error entry or the collected entries followed by the next qualifying ones, up to `limit`; the latter when no story fails |
| HackerNews.ScanStops | src/utils/hnews_fetch.py:53-55 | When the stories before some position fail nowhere and bring the entries to `limit`, the loop returns the first `limit` entries; the later stories are never fetched, so they cannot cause an error |
| HackerNews.ScanAborts | src/utils/hnews_fetch.py:53-96 | The first failing story, reached while fewer than `limit` entries exist, discards the collected entries: the loop returns the single error entry |
| HackerNews.FetchSpec | src/utils/hnews_fetch.py:20-96 | A failed id request gives one error entry. Otherwise the result is one error entry or the first `limit` qualifying entries in id order (the latter when no story fails); a limit ≤ 0 gives []; a missing limit is 10. A story that fails while fewer than `limit` entries were collected replaces them all with the one error entry; once `limit` entries were collected with no failure, the result is those entries, whatever the later stories would do |
| HackerNews.EmittedFrom | src/utils/hnews_fetch.py:53-89 | Every entry comes from one of the top ids |
| HackerNews.VisitSpec | src/utils/hnews_fetch.py:57-89 | A failed or null item raises. An entry needs time within a week (absent counts as 0), a keyword in the lower-cased title and score > 20. A Post entry has source hnews, no sub, the decimal id and the item page as comment URL, and exists only under pydantic 1; every qualifying story yields one under pydantic 1 |
| HackerNews.VisitOutcome | src/utils/hnews_fetch.py:57-69 | A story yields an entry iff its time is not null and within a week (absent counts as 0), its title is present with a keyword after lower-casing, and its score is present and above 20; the entry is the `Post(...)` call's outcome |
| HackerNews.BuildEntrySpec | src/utils/hnews_fetch.py:70-89 | The `Post(...)` call fails under pydantic 2 and succeeds under pydantic 1, giving source hnews, no sub, the decimal id, the item page, no comment HTML, and the story's title, score and time |
| HackerNews.PydanticV2OnlyErrors | src/utils/hnews_fetch.py:70-89 | Under pydantic 2 every returned entry is an error, because `comment_html` is omitted |
| HackerNews.ReturnedPostsQualify | src/utils/hnews_fetch.py:53-89 | Every returned Post is a top story with score > 20 and a keyword in its title, carrying the hnews source, its decimal id and its item-page URL |
| HackerNews.DeadKeywords | src/utils/hnews_fetch.py:26-67 | "ML", "AI" and "Open-source" never occur in a lower-cased title |
| Slices.PySliceTo | src/utils/reddit_fetch.py:29 | `s[:l]` is a prefix of length min(l, n) for l ≥ 0, and drops \|l\| elements from the end otherwise |
| Reddit.ToEntry | src/utils/reddit_fetch.py:30-39 | The dict built for one child, or none where building it raises; MapChildrenSpec states its use |
| Reddit.MapChildren | src/utils/reddit_fetch.py:29-39 | The loop over the sliced children; MapChildrenSpec states its result |
| Reddit.FromListing | src/utils/reddit_fetch.py:17-47 | The adapter given the listing reply; FromListingSpec states its result |
| Reddit.FetchTopPosts | src/utils/reddit_fetch.py:17-47 | The loop returns what the specification `FromListing` gives |
| Reddit.MapChildrenSpec | src/utils/reddit_fetch.py:29-39 | The loop succeeds iff every visited child converts, and then entry k is child k converted |
| Reddit.FromListingSpec | src/utils/reddit_fetch.py:17-47 | A failed request or a malformed listing gives one error dict. Otherwise, over the first `limit` children (min(limit, n) of them; 10 by default), each well-formed child maps in order with `ups` as upvotes and site root + permalink as comment URL; a child without `data` or `created_utc` gives one error dict |
| Reddit.CommentUrlsOnSite | src/utils/reddit_fetch.py:37 | Every comment URL starts with "https://www.reddit.com" |
| Text.Strip | scripts/fetch_comments.py:63 | Python's `str.strip()`; StripNonEmptyIff states when it is empty |
| Text.Lower | src/utils/hnews_fetch.py:65 | `str.lower()` on ASCII letters: same length, each letter lowered and no upper-case letter left; DeadKeywords uses it |
| Text.ReplaceAll | ui/src/components/PostContent.tsx:73-76 | `s.replace(/pat/g, rep)` for a literal pattern; RewriteBodySpec, PageBodySpec and the Text lemmas state its effect |
| Text.StripNonEmptyIff | scripts/fetch_comments.py:63 | `s.strip()` is non-empty iff `s` has a non-whitespace character |
| CommentBackfill.SynthesisedUrl | scripts/fetch_comments.py:35-53 | A URL is synthesised iff the row has a truthy post_id and a source: the Reddit form with the sub (rendered "None" when NULL), or the Hacker News item page |
| CommentBackfill.Update | scripts/fetch_comments.py:31-81 | `update_post_comment` on one row with a clock reading: the committed row and the returned flag; UpdateSpec states both |
| CommentBackfill.Process | scripts/fetch_comments.py:104-107 | The loop over the selection: the records after each update and the success count; ProcessSpec and ProcessCount state them |
| CommentBackfill.UpdateSpec | scripts/fetch_comments.py:31-81 | Success iff there is or can be a URL and the service answers 200 with a non-blank body. That body is then stored unstripped with the time; otherwise comment_html is unchanged. A row that gets no URL is untouched; a synthesised URL persists even if the scrape fails; only comment_url, comment_html and updated_at change |
| CommentBackfill.UpdatePostComment | scripts/fetch_comments.py:31-81 | Updating the row object leaves it as `Update` says and returns its success flag |
| CommentBackfill.Needy | scripts/fetch_comments.py:91-95 | The positions of exactly the rows lacking comment HTML (NULL or ""), increasing |
| CommentBackfill.Ordered | scripts/fetch_comments.py:91-95 | A permutation of those positions ordered by created_at descending |
| CommentBackfill.Selection | scripts/fetch_comments.py:91-95 | At most 20 positions, each a row lacking comment HTML |
| CommentBackfill.OrderedSpec | scripts/fetch_comments.py:91-95 | The ordered positions are distinct, are exactly the rows lacking comment HTML, and have non-increasing created_at |
| CommentBackfill.SelectionSpec | scripts/fetch_comments.py:91-95 | At most 20 distinct rows, each lacking comment HTML, newest first; empty iff no row lacks comment HTML |
| CommentBackfill.LeftOutIsOlder | scripts/fetch_comments.py:91-95 | A row lacking comment HTML is left out only when 20 were taken, and it is no newer than any selected row |
| CommentBackfill.ProcessSpec | scripts/fetch_comments.py:104-107 | Processing distinct rows in turn updates each as a lone update of its original row would, leaves the others alone, and counts exactly the successes |
| CommentBackfill.UpdateRowAt | scripts/fetch_comments.py:104-107 | Updating one row of the table changes only that row's record |
| CommentBackfill.FetchAndUpdateComments | scripts/fetch_comments.py:84-116 | The table ends as processing the selection says, and the returned count is the number of successes (0 at once for an empty selection) |
| CommentBackfill.BackfillSpec | scripts/fetch_comments.py:84-116 | At most 20 rows change, only rows lacking comment HTML; the count is the number of successful updates, at most the number selected |
| PostCacheModel.Cache.Lookup | ui/src/utils/cacheUtils.ts:36-38 | A lookup finds a post iff the id is a key |
| PostCacheModel.Remove | ui/src/utils/cacheUtils.ts:66 | `delete` removes exactly that key from the key order and keeps it free of repeats |
| PostCacheModel.PostCache.constructor | ui/src/utils/cacheUtils.ts:19 | The cache starts empty |
| PostCacheModel.PostCache.CachePost | ui/src/utils/cacheUtils.ts:25-29 | The new state is the old one with the post stored under its id, if the id is non-empty; the keys stay consistent |
| PostCacheModel.PostCache.GetCachedPost | ui/src/utils/cacheUtils.ts:36-38 | Returns the stored copy, or undefined |
| PostCacheModel.PostCache.IsPostCached | ui/src/utils/cacheUtils.ts:45-47 | True exactly when the id is cached |
| PostCacheModel.PostCache.CachePosts | ui/src/utils/cacheUtils.ts:53-59 | The new state is the old one with each post stored in turn |
| PostCacheModel.PostCache.ClearCache | ui/src/utils/cacheUtils.ts:64-68 | Deleting every key `Object.keys` lists leaves the cache empty |
| PostCacheModel.PostCache.GetCacheStats | ui/src/utils/cacheUtils.ts:74-79 | `keys` is `Object.keys` of the cache and `size` is its length |
| PostCacheModel.StoreKeepsValid | ui/src/utils/cacheUtils.ts:25-29 | Storing keeps the key order and the stored keys in agreement |
| PostCacheModel.DeleteKeepsValid | ui/src/utils/cacheUtils.ts:66 | Deleting keeps the key order and the stored keys in agreement |
| PostCacheModel.StoreThenLookup | ui/src/utils/cacheUtils.ts:25-38 | After storing a post with a non-empty id, looking that id up returns a copy equal to the post; other ids read as before; an empty id changes nothing |
| PostCacheModel.LastWith | ui/src/utils/cacheUtils.ts:53-59 | The last post carrying an id, present iff some post carries it |
| PostCacheModel.StoreAllAppend | ui/src/utils/cacheUtils.ts:53-59 | Caching a list extended by one post is caching the list, then the post |
| PostCacheModel.StoreAllLookup | ui/src/utils/cacheUtils.ts:53-59 | After `cachePosts`, each non-empty id holds the last post with that id, so later duplicates win; other ids read as before |
| PostCacheModel.StoreAllKeepsValid | ui/src/utils/cacheUtils.ts:53-59 | `cachePosts` keeps the key order and the stored keys in agreement |
| PostCacheModel.ClearedIsEmpty | ui/src/utils/cacheUtils.ts:64-79 | After clearing, every lookup is undefined and no key is listed |
| PostCacheModel.KeysAreOwnKeys | ui/src/utils/cacheUtils.ts:74-79 | `Object.keys` lists every stored id exactly once, so `size` is the number of cached posts |
| PostCacheModel.KeysOrder | ui/src/utils/cacheUtils.ts:74-79 | Array-index keys come first, in ascending numeric order, then every other key |
| PostCacheModel.StoreKeysOrder | ui/src/utils/cacheUtils.ts:25-29 | Overwriting keeps the listed keys; a new non-index id is listed last |
| KeyNavModel.MoveTo | ui/src/utils/useKeyNav.tsx:40-59 | The arrow keys' common part once the new index is known; ArrowDownLands, ArrowUpLands and ThrowsOnlyOutOfRange state it |
| KeyNavModel.HandleKey | ui/src/utils/useKeyNav.tsx:34-82 | `handleKeyDown`: the new state, the calls made and whether it throws; the KeyNavModel lemmas below state each key's effect |
| KeyNavModel.HandleClick | ui/src/utils/useKeyNav.tsx:88-94 | `handleItemClick`; ClickSelects states its effect |
| KeyNavModel.IdOrNull | ui/src/utils/useKeyNav.tsx:44 | `id \|\| null`: an id is kept iff it is non-empty |
| KeyNavModel.KeyNav.constructor | ui/src/utils/useKeyNav.tsx:30-31 | The hook starts at index -1 with no active id |
| KeyNavModel.KeyNav.SetActiveIndex | ui/src/utils/useKeyNav.tsx:96-101 | Sets the index and leaves the id |
| KeyNavModel.KeyNav.HandleKeyDown | ui/src/utils/useKeyNav.tsx:34-82 | The new state, calls and failure are those of the specification `HandleKey` |
| KeyNavModel.KeyNav.HandleItemClick | ui/src/utils/useKeyNav.tsx:88-94 | The new state and calls are those of the specification `HandleClick` |
| KeyNavModel.InitialInRange | ui/src/utils/useKeyNav.tsx:30-31 | The initial state has index -1 and no id, in range for any list |
| KeyNavModel.EmptyListIgnoresKeys | ui/src/utils/useKeyNav.tsx:35 | With no items, no key changes anything or calls anything |
| KeyNavModel.ArrowDownLands | ui/src/utils/useKeyNav.tsx:50-59 | From index ≥ -1, ArrowDown lands in range, on the next position or the last; the id is that item's, `onSelect` gets the item iff given, and the item is scrolled to |
| KeyNavModel.ArrowUpLands | ui/src/utils/useKeyNav.tsx:40-49 | From index ≤ length, ArrowUp lands in range, on the previous position or the first, with the same id, select and scroll effects |
| KeyNavModel.ThrowsOnlyOutOfRange | ui/src/utils/useKeyNav.tsx:40-59 | The handler fails iff an arrow key moves to an index outside the list |
| KeyNavModel.MetaEnterOpens | ui/src/utils/useKeyNav.tsx:60-68 | Enter never changes the state; it opens the active item iff Meta is held, the index is in range and `onSelect` is given |
| KeyNavModel.CustomKeyRuns | ui/src/utils/useKeyNav.tsx:69-74 | Another key changes nothing and runs its action iff one is registered and the index is ≥ 0 |
| KeyNavModel.ClickSelects | ui/src/utils/useKeyNav.tsx:88-94 | A click sets the index and id to the clicked item and calls `onSelect` iff given (unfolds `HandleClick`; a reading aid) |
| KeyNavModel.KeysKeepInRange | ui/src/utils/useKeyNav.tsx:34-82 | From an in-range state, every key keeps the index in range and never fails |
| RelativeDate.Bucket | ui/src/utils/dateUtils.ts:15-28 | The floor divisions and guarded returns for a difference in milliseconds; BucketSpec and JustNowIff state the buckets |
| RelativeDate.FormatRelativeDate | ui/src/utils/dateUtils.ts:6-29 | `formatRelativeDate` with the parser and the clock as inputs; FormatRelativeDateSpec states its result |
| RelativeDate.FormatRelativeDateSpec | ui/src/utils/dateUtils.ts:6-29 | Missing, empty or unparseable input gives ""; a valid date gives the bucket of its age, never "" |
| RelativeDate.BucketNonEmpty | ui/src/utils/dateUtils.ts:15-28 | Every bucket text is non-empty |
| RelativeDate.BucketSpec | ui/src/utils/dateUtils.ts:15-28 | Under a minute (future dates included) gives "just now"; otherwise the largest unit with a positive floor count, with that count (m < 60, h < 24, d < 30, mo < 12); "Ny" from 360 days |
| RelativeDate.JustNowIff | ui/src/utils/dateUtils.ts:15-28 | "just now" exactly for differences under a minute |
| Toggle.Toggled | ui/src/components/SubSelector.tsx:55-57 | Remove the value if present, otherwise append it; ToggledSpec and ToggleTwiceRestores state its effect |
| Toggle.Without | ui/src/components/SubSelector.tsx:56 | The filter keeps exactly the other values and never grows the list |
| Toggle.ToggledSpec | ui/src/components/SubSelector.tsx:54-57 | Toggling flips the value's membership and no other's, appends a new value at the end, and keeps a list free of repeats |
| Toggle.ToggleTwiceRestores | ui/src/components/SubSelector.tsx:54-57 | Toggling an absent value twice restores the list |
| SubSelectorModel.OptionValues | ui/src/components/SubSelector.tsx:68 | The values of the options, one per option, in order |
| SubSelectorModel.OptionValuesSpec | ui/src/components/SubSelector.tsx:9-15 | Select-all gives exactly the five values in declared order, without repeats, including the `SubEnum` value |
| SubSelectorModel.SubSelector.constructor | ui/src/components/SubSelector.tsx:18-20 | Starts with the initial subs, closed, with Reddit not selected |
| SubSelectorModel.SubSelector.SourcesChanged | ui/src/components/SubSelector.tsx:24-33 | Remembers whether REDDIT is selected; without it, clears the subs and reports [] |
| SubSelectorModel.SubSelector.ToggleSub | ui/src/components/SubSelector.tsx:54-61 | The subs become the toggled list, which is reported |
| SubSelectorModel.SubSelector.SelectAllSubs | ui/src/components/SubSelector.tsx:67-71 | The subs become all option values, which are reported |
| SubSelectorModel.SubSelector.ClearAllSubs | ui/src/components/SubSelector.tsx:73-76 | The subs become [], which is reported |
| SubSelectorModel.SubSelector.ToggleDropdown | ui/src/components/SubSelector.tsx:63-65 | Negates `isOpen` and nothing else |
| SubSelectorModel.SubSelector.ClickButton | ui/src/components/SubSelector.tsx:79-85 | The button toggles the dropdown only when enabled, that is when Reddit is selected |
| SubSelectorModel.SubLabel | ui/src/components/SubSelector.tsx:92-94 | The button text for the number of selected subs; SubLabelSpec states its values |
| SubSelectorModel.SubLabelSpec | ui/src/components/SubSelector.tsx:92-94 | "Sub-category" for 0, "1 Sub" for 1, "n Subs" above; distinct counts give distinct labels |
| SourceSelectorModel.SourceSelector.constructor | ui/src/components/SourceSelector.tsx:9-10 | Starts closed with the initial sources |
| SourceSelectorModel.SourceSelector.ToggleDropdown | ui/src/components/SourceSelector.tsx:37-39 | Negates `isOpen` and nothing else |
| SourceSelectorModel.SourceSelector.ToggleSource | ui/src/components/SourceSelector.tsx:41-48 | The sources become the toggled list, which is reported |
| SourceSelectorModel.SourceOptionsAreSources | ui/src/components/SourceSelector.tsx:13-16 | The offered ids are the `SourceEnum` values "HNEWS" and "REDDIT", in order |
| SourceSelectorModel.OfferedStaysOffered | ui/src/components/SourceSelector.tsx:41-48 | Toggling offered ids keeps the selection among the offered ids |
| SourceSelectorModel.SourceLabel | ui/src/components/SourceSelector.tsx:57 | The button text for the number of selected sources; SourceLabelSpec states its values |
| SourceSelectorModel.SourceLabelSpec | ui/src/components/SourceSelector.tsx:57 | "Sources" for none, "n selected" otherwise; distinct counts give distinct labels |
| PostContentModel.CommentsUrl | ui/src/components/PostContent.tsx:32 | The stored comment URL when truthy, else the Reddit comments page for a Reddit post (an undefined sub written "undefined", a null one "null"), else ""; RenderSpec and FallbackMatchesBackfill state it |
| PostContentModel.RewriteBody | ui/src/components/PostContent.tsx:72-76 | The `.replace` chain applied to the body; RewriteBodySpec, ThreeNewlinesLeaveTwo and WindowsBlankLine state its effect |
| PostContentModel.Render | ui/src/components/PostContent.tsx:18-80 | The rendered pane, or the TypeError thrown for null upvotes or a null or undefined body; optional props may be undefined or null; RenderSpec states it |
| PostContentModel.RewriteBodySpec | ui/src/components/PostContent.tsx:73-76 | The rewritten body has no carriage return, is no longer than the source, and is unchanged by text without `&`, `\r` or `\n` |
| PostContentModel.ThreeNewlinesLeaveTwo | ui/src/components/PostContent.tsx:73-76 | Pairs collapse without overlap: "\n\n\n" becomes "\n\n" |
| PostContentModel.WindowsBlankLine | ui/src/components/PostContent.tsx:73-76 | Between two lines without `&`, `\r` or `\n`, a Windows blank line `\r\n\r\n` becomes a single `\n`, so the paragraph break is lost |
| PostContentModel.RenderSpec | ui/src/components/PostContent.tsx:19-76 | No post gives only the placeholder. Rendering throws iff upvotes is null (`!== undefined` lets it reach `toLocaleString`) or commentHtml is falsy and text is null or undefined. Otherwise the comments link shows iff the post has a non-empty comment URL or is from Reddit, the date iff non-empty, upvotes iff a number (zero included) with that value, and the body is commentHtml when truthy, else text, rewritten |
| PostContentModel.FallbackMatchesBackfill | ui/src/components/PostContent.tsx:32 | For a Reddit row without a comment URL, the fallback link equals the backfill's synthesised URL when the sub is set, and differs when it is NULL: a sub sent as JSON null writes "null" (and a missing one "undefined") where Python writes "None" |
| PostsPageModel.PostsPage.constructor | ui/src/pages/PostsPage.tsx:6-9 | No post is selected at first |
| PostsPageModel.PostsPage.HandlePostClick | ui/src/pages/PostsPage.tsx:11-13 | Selects the clicked post |
| PostsPageModel.PageBody | ui/src/pages/PostsPage.tsx:40-45 | The `.replace` chain applied to `text ?? ''`; PageBodySpec and WindowsLineBreak state its effect |
| PostsPageModel.Render | ui/src/pages/PostsPage.tsx:33-59 | The right column: the placeholder, or the title and the rewritten body; ClickShows states it |
| PostsPageModel.PageBodySpec | ui/src/pages/PostsPage.tsx:41-44 | The page body has neither `\n` nor `\r`; missing text gives ""; plain text is unchanged |
| PostsPageModel.WindowsLineBreak | ui/src/pages/PostsPage.tsx:42-44 | Between two lines without `&`, `\r` or `\n`, a Windows line break `\r\n` becomes a single `<br />` |
| PostsPageModel.ClickShows | ui/src/pages/PostsPage.tsx:33-58 | With nothing selected the placeholder shows; otherwise the title and the rewritten body (unfolds `Render`; a reading aid) |

## Left out

**External calls and I/O**
- HTTP requests (the Hacker News and Reddit APIs, the scrape service): each becomes an input value or a function from URL to reply. Error message texts are not modelled, only that an `{"error": ...}` entry results.
- Clocks: each becomes an input.
  - The adapters take `now` in epoch seconds.
  - The backfill takes one clock reading per selected row.
  - `formatRelativeDate` takes `Date.now()` in milliseconds.
- `datetime.fromtimestamp(...).strftime(...)` is kept as the epoch seconds it formats (`DateText`).
- JavaScript `Date` parsing is an input function. `toLocaleString` is not modelled.

**Database and sessions**
- Database sessions, commits and the rollback: the row objects hold what was last assigned, which is what the commits persist. The rollback after a failed request discards nothing, because every assignment before it was committed.
- The ORM class of the posts table is not part of this model. Its columns are taken from the fields the code reads.
- Table order stands for the database's unspecified row order. The order of `SELECT DISTINCT source, sub` is an input.
- Query.SqlLimit: a negative `LIMIT` is read as SQLite reads it (no limit); PostgreSQL would reject it.

**Output, timing and rendering**
- The success message of the backfill is not printed; the count is returned instead.
- `asyncio.sleep` and the debug prints are not modelled.
- JSX markup, styling, click-outside listeners and `scrollIntoView` are not modelled. A scroll is recorded as a `ScrollTo` effect, and a pane as the fields it displays.

**Behaviour outside the declared types**
- HackerNews.Visit: the seven-day test compares epoch seconds (`t >= now - Week`). The source compares naive local datetimes, so in a week holding a daylight-saving change its cutoff moves by the change of UTC offset; that shift is not modelled.
- HackerNews.Visit and Reddit.ToEntry: a `time` or `created_utc` outside the platform's range for `datetime.fromtimestamp` makes the source raise into the single error entry; the model treats every integer timestamp as valid.
- Text.Lower: lower-cases ASCII letters only, while Python's `str.lower()` covers all of Unicode (U+212A KELVIN SIGN becomes "k", U+0130 becomes "i" plus a combining dot). Keyword matching in the Hacker News adapter comes out the same: no keyword contains "k", and every "i" in a keyword is followed by a letter, which a combining dot never equals.
- PostCacheModel.PostCache.GetCachedPost: returns the stored post as a value. In the source it returns the stored object itself, so a caller that mutates it changes the cache; that aliasing is not modelled.
- PostCacheModel: keys inherited from `Object.prototype` (such as `toString` or `__proto__`) are not modelled.
- PostCacheModel: `null` entries in the list passed to `cachePosts` fall outside its declared type and are not modelled.
- PostContentModel.Render: the required props `id`, `source` and `title` are taken as strings; a `null` in them is not modelled (`text` and every optional prop may be `null`).
- KeyNavModel.KeyNav.HandleKeyDown: models the default `getItemId`, which fails on an index outside the list. A custom `getItemId` that accepts `undefined` is not modelled.
- KeyNavModel: React's stale closures and batched state updates are not modelled. Each event sees the state left by the previous one.

**Not part of the core**
- The agent entry point, the YAML/eval adapter, the deduplicating save, migrations, seeding and the tooling scripts.
