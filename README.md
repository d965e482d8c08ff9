# arXiv / OpenReview paper portal — a verified model of its core

The portal is a Next.js application. It searches arXiv and OpenReview and
merges their results. It keeps bookmarks and a small comparison "bucket" in
the browser, and bookmarks and a paper cache in PostgreSQL. It asks a
language model for translations, analyses and Mermaid mind-maps, and caches
what the model returns.

This project models the logic behind those features and proves what it
promises:

- **`PapersRoute`** (`papers_route.dfy`): the `/api/papers` handler.
  - `mergePapers` is a loop (`MergePapers`) proved equal to a specification
    (`Merge`): a round-robin interleaving followed by dropping repeated
    normalised titles.
  - The `get`, `latest` and `search` actions are a function from the request
    and the adapters' answers to the response and the adapter calls made.
- **`Arxiv`** and **`OpenReview`**: the two source adapters.
  - The HTTP reply of each is an oracle parameter; the feed or JSON
    arrives already parsed into records.
  - Id extraction, entry and note parsing, query building, the date
    filter, the newest-first sort, the page slice and the totals are
    modelled exactly. The date filter reads its fields with the
    radix-less `parseInt` (`JsStrings.ParseInt`), so a `0x` or `0X`
    field is read in base 16.
  - The keyword filter is modelled exactly for ASCII text. Its
    lower-casing (`JsStrings.ToLower`) maps ASCII letters only; see
    "## Left out".
- **`QueryEnhancer`**: the deterministic paths of `enhanceSearchQuery` and
  `formatDate`. The language model and `JSON.parse` are oracles.
- **`Bucket`**, **`Bookmarks`** and **`Db`**: the three keyed stores.
  - They are classes whose fields are the stored list, or the
    `bookmarks` rows and the `paper_cache` map.
  - Their methods update the fields as the TypeScript and SQL do. Each
    method is tied to a specification function.
  - Lemmas prove the invariants (uniqueness, the size bound), the
    round-trips (remove undoes add) and the upsert algebra (one row
    touched, other columns kept, commuting, idempotent).
- **`TranslateRoute`**, **`AnalyzeRoute`** and **`InfographicRoute`**: the
  cache-first POST handlers, as methods over a `Db.Database`.
  - Validation comes first. A cache hit returns without calling a model;
    a miss calls the fallback loop and saves the result under the key the
    `source` field selects.
  - `RouteCache` proves read-after-write: a saved value is served to the
    next request.
- **`ModelFallback`**: `tryModels` as a loop (`TryModels`). It is proved
  equal to "the first model that succeeds", and its aggregated error lists
  one line per failed model, in order.
- **`MermaidCleanup`**: the infographic route's clean-up of the model's
  Mermaid text, both as written and corrected (see Findings).
- **`PaperTypes`**: the shared types and `getCategoryName`.
- **Shared helpers**: `JsStrings` (the JavaScript string built-ins the code
  uses), `KeyedList`, `SeqUtil`, `StableSort` and `Wrappers`.

The network, the language models, the clock, `crypto.randomUUID`, local-time
date construction and database failures are parameters. A database failure
is a boolean such as `queryFails`, `readFails` or `writeFails`, taken
exactly where the code catches the error and returns `null`, `false` or `[]`.

Two behaviours of the code are worth stating:

- The query enhancer's fast path tests its pattern with `\s`, which also
  admits Unicode white space. The model uses the ECMAScript white-space set
  (`JsStrings.IsSpace`).
- `saveBookmarks` (src/lib/bookmarks.ts:18-26) swallows a failed write, and
  `addBookmark` still returns the new record. `Bookmarks.BookmarkStore`
  models this with its `writable` flag.

## Model

| member | source | states |
|---|---|---|
| PapersRoute.MergePapers | src/app/api/papers/route.ts:7-34 | the index loop with its `seenTitles` set returns exactly `Merge(arxivPapers, openreviewPapers)` |
| PapersRoute.MergeHasDistinctTitles | src/app/api/papers/route.ts:9-30 | no two merged papers share a lower-cased, trimmed title |
| PapersRoute.MergeIsFirstOccurrences | src/app/api/papers/route.ts:13-31 | the merge keeps the interleaving's order, and every paper whose title has not appeared earlier in the interleaving is kept: the first occurrence wins |
| PapersRoute.MergeCoversTitles | src/app/api/papers/route.ts:13-33 | every title of either input appears in the merge, every merged paper comes from an input, and the length is the number of distinct titles (at most the sum of the input lengths) |
| PapersRoute.MergeExample | src/app/api/papers/route.ts:11-31 | with distinct titles, `[a1, a2]` and `[b1]` merge to `[a1, b1, a2]` |
| PapersRoute.Interleave | src/app/api/papers/route.ts:13-31 | the round-robin sequence is as long as the two lists together |
| PapersRoute.InterleaveRoundRobin | src/app/api/papers/route.ts:13-30 | at every index both lists reach, `a[i]` sits at `2i` and `b[i]` at `2i + 1`: arXiv before OpenReview |
| PapersRoute.InterleaveKeepsOrder | src/app/api/papers/route.ts:13-31 | each input is a subsequence of the interleaving: the relative order of each source is kept |
| PapersRoute.InterleaveMembers | src/app/api/papers/route.ts:13-31 | an element is in the interleaving iff it is in one of the inputs |
| PapersRoute.DedupShape | src/app/api/papers/route.ts:16-29 | the title filter keeps a subsequence whose keys are pairwise distinct and none already seen |
| PapersRoute.DedupKeys | src/app/api/papers/route.ts:16-29 | the kept keys are exactly the input's keys minus those already seen, one element per key |
| PapersRoute.DedupKeepsFirstOccurrences | src/app/api/papers/route.ts:16-29 | an element whose key is unseen and not repeated earlier in the input is kept |
| PapersRoute.KeysOfInterleave | src/app/api/papers/route.ts:13-31 | the keys of the interleaving are the union of the inputs' keys |
| PapersRoute.DedupInterleaveCovers | src/app/api/papers/route.ts:13-31 | filtering the interleaving keeps every key of both inputs once and invents no element |
| PapersRoute.CeilHalf | src/app/api/papers/route.ts:115-116 | `Math.ceil(n / 2)`: the least `c` with `n <= 2c`, so `2c <= n + 1` |
| PapersRoute.OrDefault | src/app/api/papers/route.ts:38-39 | `searchParams.get(p) \|\| fallback`: the parameter when present and non-empty, else the fallback |
| PapersRoute.EmptyQueryRejected | src/app/api/papers/route.ts:102-104 | a search without a query answers 400 and makes no enhancer or adapter call |
| PapersRoute.SearchReachesAction | src/app/api/papers/route.ts:96-112 | a search with a query uses the defaults 20 and 0, drops an empty category, and enhances unless `enhance=false` |
| PapersRoute.BothSearch | src/app/api/papers/route.ts:114-150 | both sources are asked for `ceil(maxResults/2)`, arXiv from `start` and OpenReview from 0; the papers are `Merge` of arXiv's papers (or none when its search failed) and OpenReview's page; each source reports its own page length and total; the total is the sum of the source totals, whatever the merge drops; a failed arXiv search counts as no papers and total 0 without failing the request |
| PapersRoute.BothSourcesSearch | src/app/api/papers/route.ts:114-150 | through the whole handler, a `source=both` search makes those two calls last and answers with the merged papers, the per-source counts and the summed total, whatever the enhancer did |
| PapersRoute.BothSourcesSearchHasDistinctTitles | src/app/api/papers/route.ts:9-30 | the papers a `source=both` search answers never share a lower-cased, trimmed title |
| PapersRoute.LookupArxivPrefix | src/app/api/papers/route.ts:55-58 | `arxiv:X` is looked up as `X` on arXiv only |
| PapersRoute.LookupOpenReviewPrefix | src/app/api/papers/route.ts:59-60 | `openreview:X` is looked up as `X` on OpenReview only |
| PapersRoute.LookupOtherPrefix | src/app/api/papers/route.ts:55-61 | any other prefix makes no call and finds nothing |
| PapersRoute.GetRoutesByPrefix | src/app/api/papers/route.ts:55-69 | `get` with `source=both` routes a prefixed id by its prefix; an unknown prefix answers 404 without a call |
| PapersRoute.GetWithoutPrefix | src/app/api/papers/route.ts:62-64 | an id without a colon goes to arXiv |
| PapersRoute.LatestBothBounded | src/app/api/papers/route.ts:81-93 | `latest` over both sources returns at most `maxResults` papers with distinct titles, and `total` is their number |
| PapersRoute.LatestBothIsBounded | src/app/api/papers/route.ts:74-93 | the same through the handler, with `maxResults` defaulting to 10 |
| Arxiv.FirstMatch | src/lib/arxiv.ts:26 | the leftmost position where `abs/` followed by a non-empty rest without line terminators starts, or none |
| Arxiv.LazyIdLength | src/lib/arxiv.ts:26 | the lazy `(.+?)` group ends at the first position where the rest is empty or `v` and digits only |
| Arxiv.ExtractArxivId | src/lib/arxiv.ts:25-28 | without a match the input is returned unchanged; with one, a non-empty part strictly shorter than the input |
| Arxiv.ExtractVersionedId | src/lib/arxiv.ts:25-28 | `http://arxiv.org/abs/<id>v<n>` gives `<id>`: the version suffix is stripped |
| Arxiv.ExtractUnversionedId | src/lib/arxiv.ts:25-28 | `http://arxiv.org/abs/<id>` gives `<id>` when `<id>` ends in no version suffix |
| Arxiv.ExtractWithoutAbs | src/lib/arxiv.ts:27 | a URL without `abs/` is returned unchanged |
| Arxiv.FindPdfLink | src/lib/arxiv.ts:35 | the `href` of the first link titled `pdf`; none iff no link is |
| Arxiv.ParseEntry | src/lib/arxiv.ts:31-52 | source `arxiv`, `sourceId` and `arxivId` the extracted id, both URLs the abstract page; title and abstract are the feed text's words joined by single spaces; other fields copied |
| Arxiv.ParseEntryPdfUrl | src/lib/arxiv.ts:35-36 | the PDF URL is the first `pdf` link, else `https://arxiv.org/pdf/<id>.pdf` |
| Arxiv.ParseEntryOfVersionedId | src/lib/arxiv.ts:32-50 | an entry whose id URL carries a version gets the bare id as `sourceId`, `arxivId` and in its URL |
| Arxiv.ParseEntries | src/lib/arxiv.ts:91-92 | every entry is parsed, in order |
| Arxiv.FailureOf | src/lib/arxiv.ts:84-86 | a reply that is not a feed is a failure |
| Arxiv.BuildSearchQueryShape | src/lib/arxiv.ts:58-71 | the query appears verbatim followed by one `)` per filter; a date range puts `submittedDate:[S0000 TO E2359] AND (` first, followed by `cat:C AND (` when there is also a category; else a category puts `cat:C AND (` first; with neither the query is unchanged |
| Arxiv.DayBound | src/lib/arxiv.ts:96-107 | a date whose year, month or day field is not a number to the radix-less `parseInt` gives no instant |
| Arxiv.HexMonthIsInvalid | src/lib/arxiv.ts:97-99 | a month field `0x` or `0X` is `NaN`, so the date gives no instant |
| Arxiv.HexYearExample | src/lib/arxiv.ts:97 | a year field `0x1a` reads as 26 |
| Arxiv.KeepInWindow | src/lib/arxiv.ts:109-112 | exactly the papers published inside the window are kept, in order and with their multiplicity; an unreadable bound keeps none |
| Arxiv.SearchArxiv | src/lib/arxiv.ts:55-119 | fails iff the API does; without a date range, every entry parsed and `totalResults` as total, or the entry count when absent; with one, the papers inside the window and their count as total |
| Arxiv.UnreadableDateRangeKeepsNothing | src/lib/arxiv.ts:95-118 | a start date that does not parse makes the date filter keep nothing, and the total 0 |
| Arxiv.HexMonthRangeKeepsNothing | src/lib/arxiv.ts:95-118 | a start date such as `20240x01`, whose month field is `0x`, keeps no paper and reports a total of 0 |
| Arxiv.GetPaperById | src/lib/arxiv.ts:122-142 | fails iff the API does; no paper iff the feed has no entries; else the first entry parsed |
| Arxiv.GetLatestPapers | src/lib/arxiv.ts:145-164 | fails iff the API does; else every entry of the `cat:` query parsed |
| OpenReview.ForumId | src/lib/openreview.ts:28 | `note.forum \|\| note.id` |
| OpenReview.ExtractPdfUrl | src/lib/openreview.ts:27-30 | `https://openreview.net/pdf?id=` followed by the forum id |
| OpenReview.LastSegment | src/lib/openreview.ts:44 | the longest suffix without `/`, preceded by `/` unless it is the whole string |
| OpenReview.ExtractCategories | src/lib/openreview.ts:32-51 | venue, venue id and last invitation segment, each when present and non-empty, in that order; `['OpenReview']` when there is none; no empty category |
| OpenReview.ParseNote | src/lib/openreview.ts:53-85 | no paper without a title; otherwise the forum id, forum and PDF URLs, title and abstract as their words joined by single spaces (missing abstract is ''), the authors or `[]`, categories, `publishedAt` from `cdate` or the clock, and `updatedAt` from `mdate` when it is set and `publishedAt` otherwise; `null` exactly when a date is out of range |
| OpenReview.MatchingPapers | src/lib/openreview.ts:127-134 | exactly the parsed papers whose lower-cased title or abstract includes the lower-cased query, in order and with their multiplicity |
| OpenReview.VenuePapers | src/lib/openreview.ts:113-138 | a failed or timed-out venue contributes no papers; a venue that answered contributes exactly its matching papers; every contributed paper matches |
| OpenReview.GatherWithAll | src/lib/openreview.ts:140-147 | a property of every venue's contribution holds of everything gathered |
| OpenReview.GatheredMatch | src/lib/openreview.ts:140-147 | every gathered paper matches the query |
| OpenReview.SearchOpenReview | src/lib/openreview.ts:101-160 | the loop over the venues computes `SearchResultFor`: gathered, sorted newest first, sliced, and the unsliced count as total |
| OpenReview.PageBounds | src/lib/openreview.ts:151 | `slice(start, start + n)` holds at most `n` elements and at most the whole list |
| OpenReview.SliceOfSorted | src/lib/openreview.ts:149-151 | a slice of the newest-first list is newest-first and drawn from it |
| OpenReview.SearchPageProperties | src/lib/openreview.ts:149-156 | the page matches the query, is newest first, and holds at most `maxResults` papers and at most `total` |
| OpenReview.GetPaperById | src/lib/openreview.ts:162-187 | fails iff the API does, with the timeout message on an abort; no paper for no notes; else the first note parsed |
| OpenReview.ParseAll | src/lib/openreview.ts:206-207 | every note is parsed, in order |
| OpenReview.ParsedNotes | src/lib/openreview.ts:206-208 | exactly the notes that parse, in the notes' order and with their multiplicity, no more of them than notes |
| OpenReview.GetLatestPapers | src/lib/openreview.ts:189-215 | a timeout gives `[]`; an HTTP or other error fails; else the notes that parse |
| QueryEnhancer.FormatDateRoundTrip | src/lib/search.ts:7-12 | for a four-digit year the date is eight digits whose year, month and day fields read back as the inputs |
| QueryEnhancer.DateGroups | src/lib/search.ts:8-11 | the date is the year's four digits, then the month and the day, each as two digits, with their values |
| QueryEnhancer.TwoDigits | src/lib/search.ts:9-10 | `String(n).padStart(2, '0')` for 1..31 is two digits reading back as `n` |
| QueryEnhancer.FastKeywords | src/lib/search.ts:39 | the keywords are the lower-cased space-separated words longer than two characters, in order and with their multiplicity |
| QueryEnhancer.ShortWordHasNoKeywords | src/lib/search.ts:36-41 | a plain query of at most two characters takes the fast path with no keywords |
| QueryEnhancer.SixWordsLeaveTheFastPath | src/lib/search.ts:36 | a query with five or more spaces never takes the fast path |
| QueryEnhancer.CleanAnswerText | src/lib/search.ts:100 | the model text with its fences removed is trimmed and no longer than before |
| QueryEnhancer.FromAnswer | src/lib/search.ts:103-109 | `originalQuery` is the query; missing keywords default to `[query]`, a missing or empty search query to `query`; a suggested category is never empty |
| QueryEnhancer.EnhanceSearchQuery | src/lib/search.ts:32-117 | the fast path passes the query through with its keywords; no key, a failed call or an unparsable answer give the identity; an answer that decodes gives the result built from it; `originalQuery` is always the query and the search query is non-empty for a non-empty query |
| QueryEnhancer.SearchQueryChangesOnlyByModel | src/lib/search.ts:95-109 | a search query that differs from the input comes from a parsed model answer |
| Bucket.Added | src/lib/bucket.ts:43-70 | no add iff the key is present or the bucket holds 5; otherwise one entry appended, earlier entries untouched |
| Bucket.AddKeepsWellFormed | src/lib/bucket.ts:47-67 | a successful add keeps the bucket at most 5 entries and unique by `(source, sourceId)` |
| Bucket.AddedIsInBucket | src/lib/bucket.ts:56-67 | the appended entry is the paper's, so the key is present |
| Bucket.RemoveUndoesAdd | src/lib/bucket.ts:67-81 | removing the key of a successful add gives back the bucket before it |
| Bucket.RemoveKeepsWellFormed | src/lib/bucket.ts:73-83 | removal keeps the invariant, leaves no match, and shrinks the bucket iff a match was there |
| Bucket.BucketStore.constructor | src/lib/bucket.ts:18-27 | the store starts with the list read from storage |
| Bucket.BucketStore.Save | src/lib/bucket.ts:30-40 | the list is stored when storage is writable, and nothing changes otherwise |
| Bucket.BucketStore.IsInBucket | src/lib/bucket.ts:91-94 | true iff some entry has the key |
| Bucket.BucketStore.AddToBucket | src/lib/bucket.ts:43-70 | returns whether `Added` succeeds, stores its list, then holds the key, and keeps the invariant |
| Bucket.BucketStore.RemoveFromBucket | src/lib/bucket.ts:73-83 | true iff an entry matched; stores the list without the key only then; keeps the invariant |
| Bucket.BucketStore.ClearBucket | src/lib/bucket.ts:86-88 | the bucket is empty afterwards when storage is writable, and unchanged otherwise |
| Bookmarks.NewBookmark | src/lib/bookmarks.ts:38-52 | the record has the paper's source and id; its summary is `null` iff none or an empty one is given |
| Bookmarks.AddIdempotent | src/lib/bookmarks.ts:33-36 | a second add with the same key leaves the list as the first left it |
| Bookmarks.AddPutsNewestFirst | src/lib/bookmarks.ts:54-55 | a new bookmark is put in front of the unchanged list, which grows by one, and is what a lookup finds |
| Bookmarks.AddKeepsUnique | src/lib/bookmarks.ts:33-55 | adding keeps the list unique by `(source, source_id)` |
| Bookmarks.RemoveUndoesAdd | src/lib/bookmarks.ts:67-75 | removing a newly added key gives back the list before the add |
| Bookmarks.WithSummaryChangesOneField | src/lib/bookmarks.ts:103-109 | the summary update keeps every key and the length, and changes only `ai_summary` of the first match |
| Bookmarks.BookmarkStore.constructor | src/lib/bookmarks.ts:6-15 | the store starts with the list read from storage |
| Bookmarks.BookmarkStore.Save | src/lib/bookmarks.ts:18-26 | the list is stored when storage is writable; a failed write is swallowed |
| Bookmarks.BookmarkStore.IsBookmarked | src/lib/bookmarks.ts:88-91 | true iff some entry has the source and source id |
| Bookmarks.BookmarkStore.GetBookmarkBySourceId | src/lib/bookmarks.ts:94-97 | the first entry with the key, or none iff there is none |
| Bookmarks.BookmarkStore.AddBookmark | src/lib/bookmarks.ts:29-62 | an existing key returns the existing record and changes nothing; otherwise the new record is returned and put first; a missing uuid gives `null`; uniqueness is kept |
| Bookmarks.BookmarkStore.RemoveBookmark | src/lib/bookmarks.ts:65-80 | true iff something matched; all matches go and the rest keep their order; uniqueness is kept |
| Bookmarks.BookmarkStore.UpdateAISummary | src/lib/bookmarks.ts:100-116 | true iff something matched; then only that entry's summary changes; uniqueness is kept |
| Db.InsertedRow | src/lib/db.ts:94-109 | the inserted row has the paper's key; `arxiv_id` and `ai_summary` are `NULL` iff empty or absent |
| Db.InsertKeepsUnique | src/lib/db.ts:93-97 | inserting an absent `(source, source_id)` keeps the key unique |
| Db.SummaryUpdateKeepsKeys | src/lib/db.ts:206-215 | the summary update keeps the keys unique and sets the summary of every selected row |
| Db.UpsertTouchesOneRow | src/lib/db.ts:308-313 | an upsert adds at most the key's row, leaves every other row as it was, and the key's row holds the written value and `NOW()` |
| Db.UpsertKeepsOtherColumns | src/lib/db.ts:349-355 | an upsert leaves the other columns, `arxiv_id`, `created_at` and `updated_at` of the row as they were, or at the defaults when it inserts |
| Db.UpsertsCommute | src/lib/db.ts:378-385 | saves of different columns to an existing row commute |
| Db.UpsertIdempotent | src/lib/db.ts:308-322 | repeating a save changes nothing more |
| Db.LegacySaveSetsArxivIdOnInsert | src/lib/db.ts:316-322 | the one-id save writes under `('arxiv', id)` and sets `arxiv_id = id` only when it inserts |
| Db.SavedIsFoundByBareId | src/lib/db.ts:289 | a saved row answers the bare-id lookup of its id |
| Db.Arbiters | src/lib/db.ts:77 | the indexes PostgreSQL infers for an `ON CONFLICT` target: exactly the table's unique indexes over the same columns, a partial one only when the target repeats its predicate |
| Db.PartialIndexNeedsPredicate | src/lib/db.ts:268 | a target without the predicate over columns whose unique indexes are all partial infers no index |
| Db.ConflictTargetAsWritten | src/lib/db.ts:311-319 | on the schema `initDatabase` creates, `ON CONFLICT (source, source_id)` infers no index on either table, so the statement raises |
| Db.ConflictTargetWithPredicate | src/lib/db.ts:77 | with `WHERE source_id IS NOT NULL` repeated, the target infers exactly the table's partial `(source, source_id)` index |
| Db.Database.constructor | src/lib/db.ts:77 | the tables start unique by `(source, source_id)` |
| Db.Database.IsBookmarked | src/lib/db.ts:160-181 | pair form: true iff a row has the pair; bare form: true iff a row has `arxiv_id` or `('arxiv', id)`; false on a query error |
| Db.Database.AddBookmark | src/lib/db.ts:90-117 | a row is inserted and returned iff the query succeeds and the pair is absent; a duplicate or a failed query returns `null` and changes nothing; unless the query failed, a paper with a non-empty id is bookmarked afterwards |
| Db.Database.RemoveBookmark | src/lib/db.ts:121-142 | true iff some selected row existed; exactly the selected rows are deleted, by pair or by the legacy bare-id condition |
| Db.Database.GetBookmarks | src/lib/db.ts:144-156 | all rows ordered by `created_at` descending, `[]` on an error |
| Db.Database.GetBookmarkByArxivId | src/lib/db.ts:183-196 | a row with `arxiv_id` or `('arxiv', id)`, none iff there is none or the query failed |
| Db.Database.UpdateAISummary | src/lib/db.ts:200-221 | the three-argument form updates the pair, the two-argument form the rows with that `arxiv_id`; only `ai_summary` changes; true iff a row matched |
| Db.Database.GetPaperCache | src/lib/db.ts:279-300 | pair form: the pair's row; bare form: some row with `arxiv_id` or `source_id` equal to the id, of any source; `null` iff none or an error |
| Db.Database.Save | src/lib/db.ts:304-330 | the cache is the upsert under the key the overload selects, unchanged on an error; true iff no error |
| Db.Database.SaveTranslation | src/lib/db.ts:304-330 | `Save` of the translation column |
| Db.Database.SaveAnalysis | src/lib/db.ts:341-371 | `Save` of the analysis column |
| Db.Database.SaveInfographicUrl | src/lib/db.ts:375-401 | `Save` of the infographic column |
| RouteCache.SaveKey | src/app/api/translate/route.ts:85-91 | a route saves under `(source, id)`, or `('arxiv', id)` when the source is absent or arxiv; only the latter form sets `arxiv_id` |
| RouteCache.SavedIsServed | src/app/api/translate/route.ts:50-91 | when no row under another key answers the bare-id lookup, then after a route saves a servable value every row that lookup can return holds it, so the next request is a hit |
| TranslateRoute.MissResponse | src/app/api/translate/route.ts:57-99 | no key gives 500; a model failure gives 500 with its message; a success gives the trimmed text, or `''` when the model returns no content, marked not cached |
| TranslateRoute.Post | src/app/api/translate/route.ts:40-102 | missing text is 400 before anything; a hit returns the stored non-empty translation without a model call; a miss answers through the fallback loop, whose number of calls it reports, and saves under the source's key when there is an id |
| TranslateRoute.TranslationIsServedNextTime | src/app/api/translate/route.ts:85-91 | a non-empty translation saved on a miss is served by the next request, when no row under another key answers its id |
| AnalyzeRoute.QuickResponse | src/app/api/analyze/route.ts:14-18 | quick mode answers the summary or 500 with the error |
| AnalyzeRoute.MissResponse | src/app/api/analyze/route.ts:28-53 | no title is 400; a failed analysis is 500; otherwise the analysis, not cached |
| AnalyzeRoute.Post | src/app/api/analyze/route.ts:5-54 | missing abstract is 400 first; quick mode neither reads nor writes the cache; a hit comes before the title check and calls no model; a miss checks the title, analyses and saves |
| AnalyzeRoute.AnalysisIsServedNextTime | src/app/api/analyze/route.ts:34-43 | an analysis saved on a miss is served by the next request, when no row under another key answers its id |
| InfographicRoute.Get | src/app/api/infographic/route.ts:39-61 | no id is 400; a hit returns a stored non-empty diagram; a read error or a miss answers "not found" |
| InfographicRoute.DiagramOf | src/app/api/infographic/route.ts:141-174 | the diagram's lines are the cleaned first line, then each other line re-indented |
| InfographicRoute.MissResponse | src/app/api/infographic/route.ts:87-199 | no key is 500; a model failure is 500 with its message; a success is the cleaned diagram, not cached |
| InfographicRoute.Post | src/app/api/infographic/route.ts:63-201 | a missing field is 400 first; without `forceRegenerate` a hit returns the stored diagram and calls no model; otherwise the fallback loop runs and a non-empty diagram is saved under the source's key |
| InfographicRoute.Generate | src/app/api/infographic/route.ts:133-192 | the generation step answers the fallback result, cleaned, and saves it only when the id and the code are non-empty |
| InfographicRoute.DiagramIsFoundNextTime | src/app/api/infographic/route.ts:178-185 | a saved non-empty diagram is found by the next request, when no row under another key answers its id |
| ModelFallback.TryModels | src/app/api/infographic/route.ts:17-36 | the loop returns the first success after exactly the failures before it, or fails after trying all models |
| ModelFallback.FailureLines | src/app/api/infographic/route.ts:34 | one failure line per model |
| ModelFallback.FailureLineAt | src/app/api/infographic/route.ts:34 | line `i` is `- <model i>: <error i>` |
| ModelFallback.FailureLinesAt | src/app/api/infographic/route.ts:34 | every failure line is that model's, on one line |
| ModelFallback.AllFailedMessageLines | src/app/api/infographic/route.ts:33-35 | the aggregated error splits into the header and one line per model, in order |
| MermaidCleanup.PlainPassLeavesNoFence | src/app/api/infographic/route.ts:146 | after the plain-fence pass no three back-ticks remain |
| MermaidCleanup.TaggedPassOnFenceFree | src/app/api/infographic/route.ts:147 | a tagged fence pass finds nothing in a fence-free string |
| MermaidCleanup.YamlPassIsDead | src/app/api/infographic/route.ts:144-148 | as written, the `yaml` pass never deletes anything |
| MermaidCleanup.TagSurvivesAsWritten | src/app/api/infographic/route.ts:144-148 | as written, a reply fenced with any tag but `mermaid` keeps its tag line |
| MermaidCleanup.StripFences | src/app/api/infographic/route.ts:144-148 | the corrected fence passes give trimmed text |
| MermaidCleanup.FencedReplyIsUnwrapped | src/app/api/infographic/route.ts:144-148 | corrected, a plain, `mermaid` or `yaml` fence is removed entirely |
| MermaidCleanup.YamlFenceExample | src/app/api/infographic/route.ts:144-148 | the `yaml`-fenced mind-map gives `yaml\nmindmap` as written and `mindmap` corrected |
| MermaidCleanup.StrippedHasNoTrailingBlanks | src/app/api/infographic/route.ts:162 | afterwards no line ends in a space or tab |
| MermaidCleanup.StripOfClean | src/app/api/infographic/route.ts:162 | text without trailing blanks is unchanged |
| MermaidCleanup.StripIdempotent | src/app/api/infographic/route.ts:162 | deleting trailing blanks twice is deleting them once |
| MermaidCleanup.StripDeletesOnlyBlanks | src/app/api/infographic/route.ts:162 | only blanks are deleted; every other character and the order stay |
| MermaidCleanup.Indent | src/app/api/infographic/route.ts:170 | `line.search(/\S/)`: the first non-space position, `-1` iff the line is all white space |
| MermaidCleanup.Spaces | src/app/api/infographic/route.ts:172 | `' '.repeat(n)` for `n >= 0` |
| MermaidCleanup.FixLineFailsOnBlank | src/app/api/infographic/route.ts:170-172 | as written, a line throws exactly when it is all white space |
| MermaidCleanup.FixLineAgrees | src/app/api/infographic/route.ts:165-173 | where the written line step does not throw, it agrees with the corrected one |
| MermaidCleanup.RootLineIndent | src/app/api/infographic/route.ts:167-168 | a line whose trimmed text starts with `root`, or that contains `((`, is indented by exactly 2 |
| MermaidCleanup.OtherLineIndent | src/app/api/infographic/route.ts:170-172 | any other line gets its indent rounded down to an even number |
| MermaidCleanup.FixLineKeepsText | src/app/api/infographic/route.ts:165-173 | re-indenting keeps the trimmed text of the line |
| MermaidCleanup.FixLineEndsInText | src/app/api/infographic/route.ts:165-173 | a re-indented line does not end in white space |
| MermaidCleanup.BlankLineFixed | src/app/api/infographic/route.ts:170-172 | corrected, a blank line becomes empty |
| MermaidCleanup.FixLines | src/app/api/infographic/route.ts:165-173 | each line is re-indented, and none is added or lost |
| MermaidCleanup.FixLinesAgree | src/app/api/infographic/route.ts:164-174 | as written, the lines throw iff one is blank, and otherwise agree with the correction |
| MermaidCleanup.ReindentAgrees | src/app/api/infographic/route.ts:164-174 | as written, the re-indentation throws iff a line after the first is blank |
| MermaidCleanup.ReindentLines | src/app/api/infographic/route.ts:164-174 | corrected, the output's lines are the first line kept, then each other one re-indented |
| MermaidCleanup.EmptyLineExample | src/app/api/infographic/route.ts:170-172 | a diagram with an empty second line throws as written, and keeps that line empty corrected |
| MermaidCleanup.CleanupShape | src/app/api/infographic/route.ts:141-174 | the whole clean-up's line structure, and agreement with the code as written wherever that neither throws nor differs in its fence passes |
| PaperTypes.OrNull | src/lib/bookmarks.ts:50 | `s \|\| null`: present iff the string is non-empty, and then unchanged |
| PaperTypes.CategoryNames | src/types/paper.ts:63-177 | every listed display name is non-empty |
| PaperTypes.GetCategoryName | src/types/paper.ts:180-182 | a non-empty id never gives an empty name |
| PaperTypes.GetCategoryNameCases | src/types/paper.ts:180-182 | a listed id gives its name, any other id itself |
| PaperTypes.GetCategoryNameExample | src/types/paper.ts:63-182 | `cs.AI` gives `인공지능`; `cs.XYZ` gives `cs.XYZ` |
| PaperTypes.ArxivCategoriesAreNamed | src/types/paper.ts:51-60 | every category the search form offers has a display name |
| PaperTypes.FormLabelDiffersFromDisplayName | src/types/paper.ts:51-60 | the form's label for `cs.NE` is not the display name `getCategoryName` gives it |
| PaperTypes.PrototypeMemberLeaks | src/types/paper.ts:180-182 | as written, `constructor` yields an inherited function, not a string |
| PaperTypes.AsWrittenAgreesOffPrototype | src/types/paper.ts:180-182 | for every id that names no inherited member, the code as written agrees with the corrected lookup |
| StableSort.SortDesc | src/lib/openreview.ts:149 | the sort is newest first and a permutation of its input |
| StableSort.SortDescStable | src/lib/openreview.ts:149 | the sort is stable: papers with equal dates keep their order |
| StableSort.SortDescOfSorted | src/lib/db.ts:148 | an already ordered list is left as it is |
| KeyedList.FindIndex | src/lib/bookmarks.ts:103 | `findIndex`: the first match, `-1` iff there is none |
| KeyedList.Find | src/lib/bookmarks.ts:96 | `find`: a matching element of the list, none iff there is none |
| KeyedList.FindAtFindIndex | src/lib/bookmarks.ts:96 | `find` returns the element at `findIndex` |
| KeyedList.RemoveAll | src/lib/bookmarks.ts:68 | the filter leaves no match, keeps every other element in order, and is shorter iff something matched |
| KeyedList.RemoveAllOfAbsent | src/lib/bookmarks.ts:70-72 | with no match the filter changes nothing |
| KeyedList.RemoveAllKeepsUnique | src/lib/bucket.ts:75 | filtering keeps a list unique by key |
| KeyedList.UpdateWhere | src/lib/db.ts:207 | `UPDATE ... WHERE`: the selected rows are changed and the others kept, in place |
| KeyedList.UpdateWhereKeepsUnique | src/lib/db.ts:207 | an update that keeps keys keeps them unique |
| JsStrings.Trim | src/lib/arxiv.ts:42 | `trim()`: the slice of the input that only white space precedes and follows, itself without leading or trailing white space, empty iff the input is all white space |
| JsStrings.NormalizeTextShape | src/lib/arxiv.ts:42 | `replace(/\s+/g, ' ').trim()` gives trimmed text with single plain spaces and the same other characters |
| JsStrings.Words | src/lib/arxiv.ts:42 | the maximal runs of non-space characters, each non-empty and free of white space |
| JsStrings.NormalizeTextIsJoinedWords | src/lib/arxiv.ts:42 | `replace(/\s+/g, ' ').trim()` is exactly the words of the text joined by single spaces |
| JsStrings.NormalizeTextIdempotent | src/lib/openreview.ts:74 | normalising twice is normalising once |
| JsStrings.IncludesIff | src/lib/openreview.ts:131 | `includes` holds iff the part starts at some position |
| JsStrings.Split | src/app/api/papers/route.ts:56 | `split(sep)`: one more piece than separators, none holding one, joining back to the input |
| JsStrings.SplitJoin | src/app/api/infographic/route.ts:164-174 | splitting joined pieces gives them back |
| JsStrings.ParseInt | src/lib/arxiv.ts:97-105 | `parseInt(s)` without a radix: `NaN` exactly when no digit follows the white space, the sign and any `0x`; otherwise the magnitude, negated after a minus sign |
| JsStrings.Magnitude | src/lib/arxiv.ts:97-105 | after a `0x` or `0X` prefix it is `NaN` iff no hex digit follows, otherwise iff no decimal digit leads |
| JsStrings.ParseIntOfDigits | src/lib/arxiv.ts:97-99 | `parseInt` of a decimal digit string is its value |
| JsStrings.ParseIntOfHex | src/lib/arxiv.ts:97-105 | after `0x` or `0X`, the hex digits are read in base 16 |
| JsStrings.ParseIntOfBareHexPrefix | src/lib/arxiv.ts:97-105 | `0x` or `0X` with no hex digit after it is `NaN`, though its decimal prefix is `0` |
| JsStrings.NatToStringRoundTrip | src/lib/search.ts:8 | the decimal text of a number reads back as the number |
| JsStrings.PadStart | src/lib/search.ts:9-10 | `padStart`: the fill in front of the unchanged text, to the width |
| JsStrings.DeleteAll | src/app/api/infographic/route.ts:144-148 | a global deletion never lengthens the text |
| SeqUtil.Filter | src/lib/arxiv.ts:109-112 | `filter`: exactly the passing elements, in order, each as often as in the input |
| SeqUtil.PresentValues | src/lib/openreview.ts:206-208 | `filter(p => p !== null)`: exactly the present values, in order and with their multiplicity |

## Left out

- The network, `fetch` and `AbortController` timeouts are not modelled. Each adapter call is an oracle returning a parsed reply, an HTTP error, an abort or another rejection.
- The XML feed and the OpenReview JSON are not parsed: the model starts from parsed records. An arXiv `totalResults` that is present but not a number is taken as absent.
- The language models and their prompts are left out. Each model call is an oracle that fails or returns the message content. `JSON.parse` of the query enhancer's answer is an oracle too. `src/lib/ai.ts` is not part of this model, so its `analyzePaper` and `generateQuickSummary` are the oracles of `AnalyzeRoute.Post`.
- The clock (`new Date()`, `NOW()`), `crypto.randomUUID`, the database's row uuids and the local-time `Date` construction of the arXiv date filter are parameters. Timestamps are integers, not ISO strings.
- Concurrency is not modelled. `Promise.all` and `Promise.allSettled` are sequential calls, each recorded in the call list the papers handler returns.
- JSON request bodies and query parameters arrive already read. Fields are optional strings, and `maxResults` and `start` are integers, so a non-numeric `maxResults` (`NaN` in the code) is not modelled. A non-array `keyPoints` makes `keyPoints.map` throw in the infographic route; this is not modelled, because the field is typed as a list.
- `pool.connect`, `client.release` and connection failures are not modelled. A failed query is a boolean on the operation, and behaves as the code's `catch` does.
- localStorage serialisation, `typeof window` checks and the `bucket-updated` event are not modelled. A failed write is the store's `writable` flag.
- The store's inserts and upserts are modelled with the conflict target the partial indexes need (`Db.IntendedTarget`). As written, each of them raises; see Findings.
- Legacy rows with a `NULL` `source_id` are not modelled. Every row has a key.
- Db.Database.GetPaperCache: the bare-id query has no `ORDER BY`, so the row it returns is stated only as one of the matching rows. The route lemmas therefore state cache hits through `RouteCache.AlwaysServed` and misses through `RouteCache.NeverServed`.
- The infographic clean-up's two quote-stripping regular expressions (src/app/api/infographic/route.ts:155-157) are a parameter `unquote` of the route. The two `replace` calls that put back `((` and `))` (159-160) change nothing and are not modelled.
- InfographicRoute.Get: a failed connection is not modelled. `pool.connect()` (src/lib/db.ts:280) runs before the `try`, so such a failure rejects `getPaperCache` and reaches the route's `catch` (src/app/api/infographic/route.ts:57-60), which answers 500. The translate and analyze routes behave the same way. The model answers "not found" only for a failed query, which `getPaperCache` turns into `null`.
- InfographicRoute.DiagramOf: uses the corrected `MermaidCleanup.Cleanup`. Where the code keeps a `yaml` tag or throws on a blank line, the model returns the corrected diagram. `MermaidCleanup.CleanupShape`, `TagSurvivesAsWritten` and `ReindentAgrees` state where the two differ.
- InfographicRoute.MissResponse: uses the corrected clean-up through `DiagramOf`, so it never gives the 500 "다이어그램 생성 중 오류" (src/app/api/infographic/route.ts:193-199) that the code gives for a blank line.
- InfographicRoute.Post: uses the corrected clean-up through `MissResponse`; see the line above.
- InfographicRoute.Generate: uses the corrected clean-up through `DiagramOf`; see the lines above.
- The routes use the corrected clean-up (`MermaidCleanup.Cleanup`), not the one as written; `MermaidCleanup.CleanupShape` says where the two agree.
- Logging is not modelled: the routes' and adapters' `console.log`, `console.warn` and `console.error` calls write to the server log only and change no answer.
- JsStrings.ToLower: lower-cases ASCII letters only, not the Unicode case mapping of `toLowerCase`.
- ModelFallback.AllFailedMessageLines: stated for model names and error messages without line feeds. Its content per line comes from `ModelFallback.FailureLineAt`.
- The `init-db`, `compare` and `similar-search` routes, `src/lib/supabase.ts`, the database set-up and the React pages and components are not part of this model.
- AnalyzeRoute.Post: the route saves only when the analysis is truthy (src/app/api/analyze/route.ts:35). The model's `analyzePaper` oracle always returns a record, so a JSON `null` answer, which the code does not save and answers with `cached: false`, is not modelled.

## Findings

| source | as written | input that shows it | evidently intended | confidence | as-written member | corrected member |
|---|---|---|---|---|---|---|
| src/types/paper.ts:180-182 | `CATEGORY_NAMES[categoryId] \|\| categoryId` indexes a plain object literal, so an id that names a member inherited from `Object.prototype` returns that member | `getCategoryName("constructor")` returns the `Object` function, not a string | only the table's own entries are names; any other id comes back unchanged | not executed | PaperTypes.PrototypeMemberLeaks | PaperTypes.GetCategoryNameCases |
| src/app/api/infographic/route.ts:144-148 | the plain-fence pass runs before the `yaml` pass, so it deletes the back-ticks of a fence opened with "&#96;&#96;&#96;yaml" and leaves the tag, and the `yaml` pass can never match | the reply "&#96;&#96;&#96;yaml\nmindmap\n&#96;&#96;&#96;" is cleaned to "yaml\nmindmap" | a `yaml` fence is removed like a `mermaid` one, giving "mindmap" | not executed | MermaidCleanup.TagSurvivesAsWritten | MermaidCleanup.FencedReplyIsUnwrapped |
| src/lib/db.ts:96 | every `ON CONFLICT (source, source_id)` (lines 96, 311, 319, 352, 360, 382, 390) omits the `WHERE source_id IS NOT NULL` of the only unique indexes on those columns (lines 77, 268), so PostgreSQL infers no arbiter and each statement raises | any `addBookmark`, `saveTranslation`, `saveAnalysis` or `saveInfographicUrl` on the schema `initDatabase` creates | the target repeats the predicate, so `addBookmark` inserts or ignores and each save upserts, instead of the `catch` answering `null` or `false` | not executed | Db.ConflictTargetAsWritten | Db.ConflictTargetWithPredicate |
| src/app/api/infographic/route.ts:170-172 | on a blank line after the first, `line.search(/\S/)` is `-1`, so `' '.repeat(-2)` throws a `RangeError` and the whole request answers 500 | the reply "mindmap\n\n  root((T))" | the blank line stays empty and the diagram is returned | not executed | MermaidCleanup.ReindentAgrees | MermaidCleanup.BlankLineFixed |
