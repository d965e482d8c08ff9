/** The OpenReview adapter (src/lib/openreview.ts): normalising a note
    into a `Paper`, its categories and URLs, and the search that gathers
    the notes of three venues, keeps those matching the query, orders
    them newest first and cuts out one page. The HTTP call and JSON
    decoding are the oracle `OpenReviewApi`; the current time, used when
    a note has no creation date, is a parameter. */
module OpenReview {
  import opened Wrappers
  import opened JsStrings
  import opened PaperTypes
  import opened StableSort
  import opened SeqUtil

  const FORUM_PREFIX: string := "https://openreview.net/forum?id="
  const PDF_PREFIX: string := "https://openreview.net/pdf?id="

  /** The largest magnitude of a valid JavaScript time value; `toISOString`
      throws beyond it. */
  const MAX_TIME_VALUE: int := 8640000000000000

  predicate IsValidTime(t: int) {
    -MAX_TIME_VALUE <= t <= MAX_TIME_VALUE
  }

  /** An OpenReview note after JSON decoding. An absent field and a field
      whose `value` is absent are both `None`. */
  datatype Note = Note(
    id: string,
    title: Option<string>,
    abstractText: Option<string>,
    authors: Option<seq<string>>,
    venue: Option<string>,
    venueid: Option<string>,
    cdate: Option<int>,
    mdate: Option<int>,
    invitation: Option<string>,
    forum: Option<string>)

  /** A number field read for its truthiness: present and non-zero. */
  predicate TruthyTime(t: Option<int>) {
    t.Some? && t.value != 0
  }

  /** `note.forum || note.id`: the forum a note belongs to. */
  function ForumId(note: Note): (id: string)
    ensures Truthy(note.forum) ==> id == note.forum.value
    ensures !Truthy(note.forum) ==> id == note.id
  {
    if Truthy(note.forum) then note.forum.value else note.id
  }

  /** `extractPdfUrl`. */
  function ExtractPdfUrl(note: Note): (url: string)
    ensures url == PDF_PREFIX + ForumId(note)
  {
    PDF_PREFIX + ForumId(note)
  }

  /** What `/([^/]+)$/` captures: the characters after the last `/`. */
  function LastSegment(s: string): (seg: string)
    ensures |seg| <= |s| && seg == s[|s| - |seg|..]
    ensures '/' !in seg
    ensures |seg| < |s| ==> s[|s| - |seg| - 1] == '/'
  {
    if s == [] || s[|s| - 1] == '/' then []
    else LastSegment(s[..|s| - 1]) + [s[|s| - 1]]
  }

  /** The invitation's last segment when the pattern finds one. */
  function InvitationSegment(note: Note): Option<string> {
    if Truthy(note.invitation) && LastSegment(note.invitation.value) != []
    then Some(LastSegment(note.invitation.value)) else None
  }

  /** `extractCategories`: the venue, the venue id and the last segment of
      the invitation, each when present and non-empty, in that order; the
      single category `OpenReview` when there are none. */
  function ExtractCategories(note: Note): (categories: seq<string>)
    ensures var count := (if Truthy(note.venue) then 1 else 0) + (if Truthy(note.venueid) then 1 else 0)
                         + (if InvitationSegment(note).Some? then 1 else 0);
            (count == 0 ==> categories == ["OpenReview"]) &&
            (count > 0 ==> |categories| == count) &&
            (Truthy(note.venue) ==> categories[0] == note.venue.value) &&
            (Truthy(note.venueid) ==> categories[if Truthy(note.venue) then 1 else 0] == note.venueid.value) &&
            (InvitationSegment(note).Some? ==> categories[count - 1] == InvitationSegment(note).value)
    ensures forall i :: 0 <= i < |categories| ==> categories[i] != ""
  {
    var fromVenue := if Truthy(note.venue) then [note.venue.value] else [];
    var fromVenueId := if Truthy(note.venueid) then [note.venueid.value] else [];
    var fromInvitation := if InvitationSegment(note).Some? then [InvitationSegment(note).value] else [];
    var found := fromVenue + fromVenueId + fromInvitation;
    if |found| > 0 then found else ["OpenReview"]
  }

  /** `parseNote`, with `now` standing for `new Date()`. `None` when the
      note has no title, or when a date lies outside the range
      `toISOString` accepts (the error is caught). */
  function ParseNote(note: Note, now: Timestamp): (p: Option<Paper>)
    requires IsValidTime(now)
    ensures !Truthy(note.title) ==> p.None?
    ensures p.Some? ==>
              p.value.source == OpenReview && p.value.sourceId == ForumId(note) &&
              p.value.sourceUrl == FORUM_PREFIX + p.value.sourceId &&
              p.value.pdfUrl == PDF_PREFIX + p.value.sourceId &&
              p.value.arxivId.None? && p.value.arxivUrl.None?
    ensures p.Some? ==> IsNormalText(p.value.title) && Squeeze(p.value.title) == Squeeze(note.title.value)
    ensures p.Some? ==> IsNormalText(p.value.abstractText) &&
                        Squeeze(p.value.abstractText) == Squeeze(note.abstractText.GetOr(""))
    ensures p.Some? ==> p.value.categories == ExtractCategories(note)
    ensures p.Some? ==> p.value.publishedAt == (if TruthyTime(note.cdate) then note.cdate.value else now)
    ensures p.Some? ==> p.value.title == Join(Words(note.title.value), ' ') &&
                        p.value.abstractText == Join(Words(note.abstractText.GetOr("")), ' ')
    ensures p.Some? ==> p.value.authors == note.authors.GetOr([])
    ensures p.Some? && TruthyTime(note.mdate) ==> p.value.updatedAt == note.mdate.value
    ensures p.Some? && !TruthyTime(note.mdate) ==> p.value.updatedAt == p.value.publishedAt
    ensures Truthy(note.title) ==>
              (p.None? <==> (TruthyTime(note.cdate) && !IsValidTime(note.cdate.value)) ||
                            (TruthyTime(note.mdate) && !IsValidTime(note.mdate.value)))
  {
    if !Truthy(note.title) then None
    else
      var publishedAt := if TruthyTime(note.cdate) then note.cdate.value else now;
      var updatedAt := if TruthyTime(note.mdate) then note.mdate.value else publishedAt;
      if !IsValidTime(publishedAt) || !IsValidTime(updatedAt) then None
      else
        var sourceId := ForumId(note);
        NormalizeTextShape(note.title.value);
        NormalizeTextShape(note.abstractText.GetOr(""));
        NormalizeTextIsJoinedWords(note.title.value);
        NormalizeTextIsJoinedWords(note.abstractText.GetOr(""));
        Some(Paper(
          OpenReview, sourceId, FORUM_PREFIX + sourceId,
          NormalizeText(note.title.value), note.authors.GetOr([]),
          NormalizeText(note.abstractText.GetOr("")), ExtractCategories(note),
          publishedAt, updatedAt, ExtractPdfUrl(note), None, None))
  }

  // ---------------------------------------------------------------------
  // the API

  datatype OpenReviewRequest =
    | VenueNotes(venueid: string, limit: int)
    | NoteById(id: string)

  /** What a request gives: the decoded notes, a non-OK status, a call
      aborted by the timeout, or another rejection with its message. */
  datatype NotesReply = Notes(notes: seq<Note>) | HttpError(status: int) | Aborted | Rejected(message: string)

  type OpenReviewApi = OpenReviewRequest -> NotesReply

  /** The venues the search reads. */
  const SEARCH_VENUES: seq<string> := ["ICLR.cc/2024/Conference", "NeurIPS.cc/2023/Conference", "ICML.cc/2023/Conference"]
  /** How many notes the search asks each venue for. */
  const VENUE_LIMIT: int := 50

  // ---------------------------------------------------------------------
  // searchOpenReview

  /** The case-insensitive substring test on title or abstract. */
  predicate MatchesQuery(p: Paper, query: string) {
    Includes(ToLower(p.title), ToLower(query)) || Includes(ToLower(p.abstractText), ToLower(query))
  }

  /** `notes.map(parseNote).filter(...)`: the parsed notes that match,
      in their order. */
  function MatchingPapers(notes: seq<Note>, query: string, now: Timestamp): (papers: seq<Paper>)
    requires IsValidTime(now)
    ensures IsSubsequence(papers, ParsedNotes(notes, now))
    ensures forall i :: 0 <= i < |papers| ==> MatchesQuery(papers[i], query)
    ensures forall p :: p in ParsedNotes(notes, now) && MatchesQuery(p, query) ==> p in papers
    ensures forall p :: multiset(papers)[p] == if MatchesQuery(p, query) then multiset(ParsedNotes(notes, now))[p] else 0
  {
    var parsed := ParsedNotes(notes, now);
    var keep := (p: Paper) => MatchesQuery(p, query);
    FilterKeepsPassing(parsed, keep);
    Filter(parsed, keep)
  }

  /** What one venue contributes: its matching papers, nothing when its
      call fails in any way. */
  function VenuePapers(reply: NotesReply, query: string, now: Timestamp): (papers: seq<Paper>)
    requires IsValidTime(now)
    ensures !reply.Notes? ==> papers == []
    ensures reply.Notes? ==> papers == MatchingPapers(reply.notes, query, now)
    ensures forall i :: 0 <= i < |papers| ==> MatchesQuery(papers[i], query)
  {
    if reply.Notes? then MatchingPapers(reply.notes, query, now) else []
  }

  /** The contributions of the given venues, in venue order. */
  function GatherWith<T>(venues: seq<string>, contribution: string -> seq<T>): seq<T> {
    if venues == [] then []
    else GatherWith(venues[..|venues| - 1], contribution) + contribution(venues[|venues| - 1])
  }

  /** A property every contribution has holds of everything gathered. */
  lemma {:induction false} GatherWithAll<T>(venues: seq<string>, contribution: string -> seq<T>, P: T -> bool)
    requires forall v, i :: 0 <= i < |contribution(v)| ==> P(contribution(v)[i])
    ensures forall i :: 0 <= i < |GatherWith(venues, contribution)| ==> P(GatherWith(venues, contribution)[i])
    decreases |venues|
  {
    if venues != [] {
      GatherWithAll(venues[..|venues| - 1], contribution, P);
      var front := GatherWith(venues[..|venues| - 1], contribution);
      var more := contribution(venues[|venues| - 1]);
      var all := front + more;
      assert GatherWith(venues, contribution) == all;
      forall i | 0 <= i < |all| ensures P(all[i]) {
        if i < |front| {
          assert all[i] == front[i];
          assert P(front[i]);
        } else {
          var k := i - |front|;
          assert all[i] == more[k];
          assert P(more[k]);
        }
      }
    }
  }

  /** Gathering one venue more appends its contribution. */
  lemma GatherWithStep<T>(venues: seq<string>, i: nat, contribution: string -> seq<T>)
    requires i < |venues|
    ensures GatherWith(venues[..i + 1], contribution) == GatherWith(venues[..i], contribution) + contribution(venues[i])
  {
    assert venues[..i + 1][..i] == venues[..i];
  }

  /** What a venue contributes to a search for `query`. */
  function VenueContribution(api: OpenReviewApi, query: string, now: Timestamp): string -> seq<Paper>
    requires IsValidTime(now)
  {
    venue => VenuePapers(api(VenueNotes(venue, VENUE_LIMIT)), query, now)
  }

  /** The matching papers of the given venues, in venue order. */
  function Gathered(venues: seq<string>, api: OpenReviewApi, query: string, now: Timestamp): seq<Paper>
    requires IsValidTime(now)
  {
    GatherWith(venues, VenueContribution(api, query, now))
  }

  /** Gathering one more venue appends what that venue contributes. */
  lemma GatheredStep(venues: seq<string>, i: nat, api: OpenReviewApi, query: string, now: Timestamp)
    requires IsValidTime(now) && i < |venues|
    ensures Gathered(venues[..i + 1], api, query, now) ==
      Gathered(venues[..i], api, query, now) + VenuePapers(api(VenueNotes(venues[i], VENUE_LIMIT)), query, now)
  {
    GatherWithStep(venues, i, VenueContribution(api, query, now));
  }

  /** Every gathered paper matches the query. */
  lemma GatheredMatch(venues: seq<string>, api: OpenReviewApi, query: string, now: Timestamp)
    requires IsValidTime(now)
    ensures var all := Gathered(venues, api, query, now);
            forall i :: 0 <= i < |all| ==> MatchesQuery(all[i], query)
  {
    var f := VenueContribution(api, query, now);
    var matches := (p: Paper) => MatchesQuery(p, query);
    forall v, i | 0 <= i < |f(v)| ensures matches(f(v)[i]) {
      assert f(v) == VenuePapers(api(VenueNotes(v, VENUE_LIMIT)), query, now);
    }
    GatherWithAll(venues, f, matches);
    var all := Gathered(venues, api, query, now);
    assert all == GatherWith(venues, f);
    forall i | 0 <= i < |all| ensures MatchesQuery(all[i], query) {
      assert matches(all[i]);
    }
  }

  function PublishedAt(p: Paper): int {
    p.publishedAt
  }

  /** What `searchOpenReview` resolves to: the matching papers of every
      venue (a failed venue adds none), newest first, cut to the page
      `slice(start, start + maxResults)`, with the number of all matches
      as the total. */
  function SearchResultFor(params: SearchParams, api: OpenReviewApi, now: Timestamp): SearchResult
    requires IsValidTime(now)
  {
    var all := SortDesc(Gathered(SEARCH_VENUES, api, params.query, now), PublishedAt);
    var start := params.start.GetOr(0);
    SearchResult(Slice(all, start, start + params.maxResults.GetOr(20)), |all|)
  }

  /** `searchOpenReview`: the venue loop that accumulates the matches,
      then the sort and the page. */
  method SearchOpenReview(params: SearchParams, api: OpenReviewApi, now: Timestamp) returns (result: SearchResult)
    requires IsValidTime(now)
    ensures result == SearchResultFor(params, api, now)
  {
    var query := params.query;
    var maxResults := params.maxResults.GetOr(20);
    var start := params.start.GetOr(0);
    var allPapers: seq<Paper> := [];
    var i := 0;
    while i < |SEARCH_VENUES|
      invariant 0 <= i <= |SEARCH_VENUES|
      invariant allPapers == Gathered(SEARCH_VENUES[..i], api, query, now)
    {
      var reply := api(VenueNotes(SEARCH_VENUES[i], VENUE_LIMIT));
      GatheredStep(SEARCH_VENUES, i, api, query, now);
      allPapers := allPapers + VenuePapers(reply, query, now);
      i := i + 1;
    }
    assert SEARCH_VENUES[..i] == SEARCH_VENUES;
    var sorted := SortDesc(allPapers, PublishedAt);
    result := SearchResult(Slice(sorted, start, start + maxResults), |sorted|);
  }

  /** A `slice(start, start + n)` page holds at most `n` elements, and no
      more than the whole list. */
  lemma PageBounds<T>(s: seq<T>, start: int, n: int)
    requires n >= 0
    ensures |Slice(s, start, start + n)| <= n
    ensures |Slice(s, start, start + n)| <= |s|
  {
  }

  /** A window of a sorted list is sorted. */
  lemma SliceOfSorted<T>(s: seq<T>, key: T -> int, start: int, end: int)
    requires SortedDesc(s, key)
    ensures SortedDesc(Slice(s, start, end), key)
    ensures forall x :: x in Slice(s, start, end) ==> x in s
  {
    var from, to := RelativeIndex(start, |s|), RelativeIndex(end, |s|);
    if from < to {
      var w := s[from..to];
      assert forall i :: 0 <= i < |w| ==> w[i] == s[from + i];
    }
  }

  /** Every paper on a search page matches the query and the page is in
      newest-first order; the page is no longer than `maxResults` nor than
      the total. */
  lemma SearchPageProperties(params: SearchParams, api: OpenReviewApi, now: Timestamp)
    requires IsValidTime(now) && params.maxResults.GetOr(20) >= 0
    ensures var page := SearchResultFor(params, api, now).papers;
            (forall i :: 0 <= i < |page| ==> MatchesQuery(page[i], params.query)) &&
            SortedDesc(page, PublishedAt) &&
            |page| <= params.maxResults.GetOr(20) && |page| <= SearchResultFor(params, api, now).total
  {
    var gathered := Gathered(SEARCH_VENUES, api, params.query, now);
    GatheredMatch(SEARCH_VENUES, api, params.query, now);
    var all := SortDesc(gathered, PublishedAt);
    var start := params.start.GetOr(0);
    PageBounds(all, start, params.maxResults.GetOr(20));
    SliceOfSorted(all, PublishedAt, start, start + params.maxResults.GetOr(20));
    var page := SearchResultFor(params, api, now).papers;
    forall i | 0 <= i < |page| ensures MatchesQuery(page[i], params.query) {
      assert page[i] in all;
      assert page[i] in multiset(gathered);
    }
  }

  // ---------------------------------------------------------------------
  // getPaperById and getLatestPapers

  function ApiErrorMessage(status: int): string {
    "OpenReview API 오류: " + IntToString(status)
  }

  const TIMEOUT_MESSAGE: string := "OpenReview API 타임아웃"

  /** `getPaperById`: the first note of the forum, parsed; `None` when the
      API returns no note (or the note has no title). A failed call fails,
      a timed-out one with its own message. */
  function GetPaperById(forumId: string, api: OpenReviewApi, now: Timestamp): (r: Outcome<Option<Paper>>)
    requires IsValidTime(now)
    ensures r.Fail? <==> !api(NoteById(forumId)).Notes?
    ensures api(NoteById(forumId)).Aborted? ==> r == Fail(TIMEOUT_MESSAGE)
    ensures r.Ok? && api(NoteById(forumId)).notes == [] ==> r.value.None?
    ensures r.Ok? && api(NoteById(forumId)).notes != [] ==> r.value == ParseNote(api(NoteById(forumId)).notes[0], now)
  {
    match api(NoteById(forumId))
    case Notes(notes) => if notes == [] then Ok(None) else Ok(ParseNote(notes[0], now))
    case HttpError(status) => Fail(ApiErrorMessage(status))
    case Aborted => Fail(TIMEOUT_MESSAGE)
    case Rejected(message) => Fail(message)
  }

  /** `notes.map(parseNote)`, kept in note order. */
  function ParseAll(notes: seq<Note>, now: Timestamp): (parsed: seq<Option<Paper>>)
    requires IsValidTime(now)
    ensures |parsed| == |notes|
    ensures forall i :: 0 <= i < |notes| ==> parsed[i] == ParseNote(notes[i], now)
  {
    seq(|notes|, i requires 0 <= i < |notes| => ParseNote(notes[i], now))
  }

  /** The notes that parse, in their order: every one of them, as often
      as it occurs, and nothing else. */
  function ParsedNotes(notes: seq<Note>, now: Timestamp): (papers: seq<Paper>)
    requires IsValidTime(now)
    ensures |papers| <= |notes|
    ensures forall i :: 0 <= i < |notes| && ParseAll(notes, now)[i].Some? ==> ParseAll(notes, now)[i].value in papers
    ensures forall p :: p in papers ==> Some(p) in ParseAll(notes, now)
    ensures forall p :: multiset(papers)[p] == multiset(ParseAll(notes, now))[Some(p)]
    ensures IsSubsequence(Somes(papers), ParseAll(notes, now))
  {
    PresentValues(ParseAll(notes, now))
  }

  /** `getLatestPapers`: every note of the venue that parses. A timed-out
      call gives no papers; any other failure fails. */
  function GetLatestPapers(venue: string, maxResults: int, api: OpenReviewApi, now: Timestamp): (r: Outcome<seq<Paper>>)
    requires IsValidTime(now)
    ensures api(VenueNotes(venue, maxResults)).Aborted? ==> r == Ok([])
    ensures r.Fail? <==> api(VenueNotes(venue, maxResults)).HttpError? || api(VenueNotes(venue, maxResults)).Rejected?
    ensures r.Ok? && api(VenueNotes(venue, maxResults)).Notes? ==>
              r.value == ParsedNotes(api(VenueNotes(venue, maxResults)).notes, now)
  {
    match api(VenueNotes(venue, maxResults))
    case Notes(notes) => Ok(ParsedNotes(notes, now))
    case HttpError(status) => Fail(ApiErrorMessage(status))
    case Aborted => Ok([])
    case Rejected(message) => Fail(message)
  }
}
