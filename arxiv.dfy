/** The arXiv adapter (src/lib/arxiv.ts): reading an arXiv id out of an
    entry's id URL, normalising a feed entry into a `Paper`, building the
    search query with its category and date filters, and the client-side
    date filter and total the search reports. The HTTP call and the XML
    parser are one oracle, `ArxivApi`; the local-time `Date` constructor
    is another, `LocalClock`. */
module Arxiv {
  import opened Wrappers
  import opened JsStrings
  import opened PaperTypes
  import opened SeqUtil

  /** Where the portal links an arXiv abstract page. */
  const ABS_PREFIX: string := "https://arxiv.org/abs/"
  /** How the arXiv feed spells an entry's id. */
  const FEED_ID_PREFIX: string := "http://arxiv.org/abs/"

  // ---------------------------------------------------------------------
  // extractArxivId: idUrl.match(/abs\/(.+?)(?:v\d+)?$/)

  predicate NoLineTerminator(s: string) {
    forall k :: 0 <= k < |s| ==> !IsLineTerminator(s[k])
  }

  /** `v\d+` matched against the whole of `s`. */
  predicate IsVersionSuffix(s: string) {
    |s| >= 2 && s[0] == 'v' && AllDigits(s[1..])
  }

  /** The pattern can match with its `abs/` at position `i`: `.` matches
      anything but a line terminator and `$` is the end of the input, so
      what follows `abs/` must be non-empty and free of line terminators. */
  predicate MatchesAt(s: string, i: nat) {
    i + 4 < |s| && s[i..i + 4] == "abs/" && NoLineTerminator(s[i + 4..])
  }

  /** The leftmost position at or after `i` where the pattern matches. */
  function FirstMatch(s: string, i: nat): (r: Option<nat>)
    requires i <= |s|
    ensures r.Some? ==> i <= r.value < |s| && MatchesAt(s, r.value)
    ensures r.Some? ==> forall j :: i <= j < r.value ==> !MatchesAt(s, j)
    ensures r.None? ==> forall j :: i <= j <= |s| ==> !MatchesAt(s, j)
    decreases |s| - i
  {
    if MatchesAt(s, i) then Some(i)
    else if i == |s| then None
    else FirstMatch(s, i + 1)
  }

  /** The lazy group `(.+?)` may stop after `n` characters of `t` when the
      rest is empty or a version suffix. */
  predicate IdEndsAt(t: string, n: nat)
    requires n <= |t|
  {
    n == |t| || IsVersionSuffix(t[n..])
  }

  /** The length the lazy group settles on: the least admissible one. */
  function LazyIdLength(t: string, from: nat): (n: nat)
    requires 1 <= from <= |t|
    ensures from <= n <= |t| && IdEndsAt(t, n)
    ensures forall m :: from <= m < n ==> !IdEndsAt(t, m)
    decreases |t| - from
  {
    if IdEndsAt(t, from) then from else LazyIdLength(t, from + 1)
  }

  /** `extractArxivId`: the text after the first matching `abs/`, minus a
      trailing version; the input itself when nothing matches. */
  function ExtractArxivId(idUrl: string): (id: string)
    ensures (forall j :: 0 <= j <= |idUrl| ==> !MatchesAt(idUrl, j)) ==> id == idUrl
    ensures (exists j :: 0 <= j <= |idUrl| && MatchesAt(idUrl, j)) ==> id != [] && |id| < |idUrl|
  {
    match FirstMatch(idUrl, 0)
    case None => idUrl
    case Some(i) =>
      var t := idUrl[i + 4..];
      t[..LazyIdLength(t, 1)]
  }

  /** The leftmost match is the one found, whatever precedes it. */
  lemma {:induction false} FirstMatchIs(s: string, i: nat, m: nat)
    requires i <= m < |s| && MatchesAt(s, m)
    requires forall j :: i <= j < m ==> !MatchesAt(s, j)
    ensures FirstMatch(s, i) == Some(m)
    decreases m - i
  {
    if i < m {
      FirstMatchIs(s, i + 1, m);
    }
  }

  /** In a feed id the first `abs/` is the one after the host. */
  lemma FeedIdMatch(rest: string)
    requires rest != [] && NoLineTerminator(rest)
    ensures FirstMatch(FEED_ID_PREFIX + rest, 0) == Some(17)
    ensures (FEED_ID_PREFIX + rest)[21..] == rest
  {
    var s := FEED_ID_PREFIX + rest;
    assert s[17..21] == "abs/";
    assert s[21..] == rest;
    forall j | 0 <= j < 17
      ensures !MatchesAt(s, j)
    {
      assert s[j..j + 4][1] == s[j + 1] == FEED_ID_PREFIX[j + 1];
    }
    FirstMatchIs(s, 0, 17);
  }

  /** A versioned feed id yields the bare id. */
  lemma ExtractVersionedId(id: string, version: nat)
    requires id != [] && NoLineTerminator(id)
    ensures ExtractArxivId(FEED_ID_PREFIX + id + "v" + NatToString(version)) == id
  {
    var ds := NatToString(version);
    var t := id + "v" + ds;
    VersionedNoTerminator(id, ds);
    assert FEED_ID_PREFIX + id + "v" + ds == FEED_ID_PREFIX + t;
    FeedIdMatch(t);
    VersionedIdLength(id, ds);
    assert t[..|id|] == id;
  }

  lemma VersionedNoTerminator(id: string, ds: string)
    requires NoLineTerminator(id) && AllDigits(ds)
    ensures NoLineTerminator(id + "v" + ds)
  {
    var t := id + "v" + ds;
    forall k | 0 <= k < |t| ensures !IsLineTerminator(t[k]) {
      if k > |id| {
        assert t[k] == ds[k - |id| - 1];
      }
    }
  }

  /** The lazy group stops right before the version suffix. */
  lemma VersionedIdLength(id: string, ds: string)
    requires id != [] && ds != [] && AllDigits(ds)
    ensures LazyIdLength(id + "v" + ds, 1) == |id|
  {
    var v := "v" + ds;
    var t := id + v;
    assert t == id + "v" + ds;
    assert t[|id|..] == v;
    assert IdEndsAt(t, |id|);
    forall m | 1 <= m < |id|
      ensures !IdEndsAt(t, m)
    {
      assert t[m..][1..][|id| - m - 1] == 'v';
    }
  }

  /** An unversioned feed id yields itself, when it does not itself end
      in something that reads as a version. */
  lemma ExtractUnversionedId(id: string)
    requires id != [] && NoLineTerminator(id)
    requires forall k :: 1 <= k < |id| ==> !IsVersionSuffix(id[k..])
    ensures ExtractArxivId(FEED_ID_PREFIX + id) == id
  {
    FeedIdMatch(id);
    assert IdEndsAt(id, |id|);
  }

  /** An input without any `abs/` is returned unchanged. */
  lemma ExtractWithoutAbs(idUrl: string)
    requires !Includes(idUrl, "abs/")
    ensures ExtractArxivId(idUrl) == idUrl
  {
    IncludesIff(idUrl, "abs/");
    forall j | 0 <= j <= |idUrl|
      ensures !MatchesAt(idUrl, j)
    {
      if MatchesAt(idUrl, j) {
        assert StartsWith(idUrl[j..], "abs/");
      }
    }
  }

  // ---------------------------------------------------------------------
  // parseEntry

  /** A feed `<link>`: its `href` and optional `title` attribute. */
  datatype Link = Link(href: string, title: Option<string>)

  /** A feed `<entry>` after XML parsing (first element of each field). */
  datatype Entry = Entry(
    id: string,
    title: string,
    summary: string,
    authors: seq<string>,
    published: Timestamp,
    updated: Timestamp,
    links: seq<Link>,
    categories: seq<string>)

  predicate IsPdfLink(l: Link) {
    l.title == Some("pdf")
  }

  /** `entry.link.find(l => l.$.title === 'pdf')`, as its `href`. */
  function FindPdfLink(links: seq<Link>): (r: Option<string>)
    ensures r.None? <==> forall k :: 0 <= k < |links| ==> !IsPdfLink(links[k])
    ensures r.Some? ==> exists k :: 0 <= k < |links| && IsPdfLink(links[k]) && links[k].href == r.value
                                    && forall j :: 0 <= j < k ==> !IsPdfLink(links[j])
  {
    if links == [] then None
    else if IsPdfLink(links[0]) then Some(links[0].href)
    else
      var r := FindPdfLink(links[1..]);
      assert forall k :: 1 <= k < |links| ==> links[k] == links[1..][k - 1];
      r
  }

  /** The PDF location the portal falls back to. */
  function PdfFallback(id: string): string {
    "https://arxiv.org/pdf/" + id + ".pdf"
  }

  /** `parseEntry`: the paper an entry describes. Both URLs point at the
      abstract page of the extracted id, and title and abstract are their
      words joined by single spaces. */
  function ParseEntry(e: Entry): (p: Paper)
    ensures p.source == Arxiv && p.sourceId == ExtractArxivId(e.id)
    ensures p.arxivId == Some(p.sourceId)
    ensures p.sourceUrl == ABS_PREFIX + p.sourceId && p.arxivUrl == Some(p.sourceUrl)
    ensures IsNormalText(p.title) && Squeeze(p.title) == Squeeze(e.title)
    ensures IsNormalText(p.abstractText) && Squeeze(p.abstractText) == Squeeze(e.summary)
    ensures p.title == Join(Words(e.title), ' ') && p.abstractText == Join(Words(e.summary), ' ')
    ensures p.authors == e.authors && p.categories == e.categories
    ensures p.publishedAt == e.published && p.updatedAt == e.updated
  {
    var id := ExtractArxivId(e.id);
    NormalizeTextShape(e.title);
    NormalizeTextShape(e.summary);
    NormalizeTextIsJoinedWords(e.title);
    NormalizeTextIsJoinedWords(e.summary);
    Paper(
      Arxiv, id, ABS_PREFIX + id,
      NormalizeText(e.title), e.authors, NormalizeText(e.summary), e.categories,
      e.published, e.updated,
      FindPdfLink(e.links).GetOr(PdfFallback(id)),
      Some(id), Some(ABS_PREFIX + id))
  }

  /** The PDF link is the first link titled `pdf`, or the arXiv PDF
      location of the id when there is none. */
  lemma ParseEntryPdfUrl(e: Entry)
    ensures (forall k :: 0 <= k < |e.links| ==> !IsPdfLink(e.links[k])) ==>
              ParseEntry(e).pdfUrl == PdfFallback(ParseEntry(e).sourceId)
    ensures forall k :: 0 <= k < |e.links| && IsPdfLink(e.links[k]) &&
                        (forall j :: 0 <= j < k ==> !IsPdfLink(e.links[j])) ==>
              ParseEntry(e).pdfUrl == e.links[k].href
  {
    var r := FindPdfLink(e.links);
    if r.Some? {
      var k0 :| 0 <= k0 < |e.links| && IsPdfLink(e.links[k0]) && e.links[k0].href == r.value
                && forall j :: 0 <= j < k0 ==> !IsPdfLink(e.links[j]);
      forall k | 0 <= k < |e.links| && IsPdfLink(e.links[k]) && (forall j :: 0 <= j < k ==> !IsPdfLink(e.links[j]))
        ensures k == k0
      {
      }
    }
  }

  /** A feed entry with a versioned id is filed under the bare id. */
  lemma ParseEntryOfVersionedId(e: Entry, id: string, version: nat)
    requires id != [] && NoLineTerminator(id)
    requires e.id == FEED_ID_PREFIX + id + "v" + NatToString(version)
    ensures ParseEntry(e).sourceId == id && ParseEntry(e).arxivId == Some(id)
    ensures ParseEntry(e).sourceUrl == ABS_PREFIX + id
  {
    ExtractVersionedId(id, version);
  }

  function ParseEntries(entries: seq<Entry>): (papers: seq<Paper>)
    ensures |papers| == |entries|
    ensures forall i :: 0 <= i < |entries| ==> papers[i] == ParseEntry(entries[i])
  {
    seq(|entries|, i requires 0 <= i < |entries| => ParseEntry(entries[i]))
  }

  // ---------------------------------------------------------------------
  // the API and the clock

  /** A request to the arXiv query API (`sortBy=submittedDate`,
      `sortOrder=descending` on every search). */
  datatype ArxivRequest =
    | Search(searchQuery: string, start: int, maxResults: int)
    | IdList(id: string)

  /** The parsed feed: its entries and `opensearch:totalResults`. */
  datatype Feed = Feed(entries: seq<Entry>, totalResults: Option<int>)

  /** What fetching and parsing a request gives: the feed, a non-OK HTTP
      status, or a rejected fetch or parse with its message. */
  datatype FeedReply = Delivered(feed: Feed) | HttpError(status: int) | Rejected(message: string)

  type ArxivApi = ArxivRequest -> FeedReply

  /** `new Date(year, monthIndex, day, hours, minutes, seconds)` in the
      server's local time zone; `None` is an invalid date. */
  datatype LocalDateTime = LocalDateTime(year: int, monthIndex: int, day: int, hours: int, minutes: int, seconds: int)
  type LocalClock = LocalDateTime -> Option<Timestamp>

  function ApiErrorMessage(status: int): string {
    "arXiv API 오류: " + IntToString(status)
  }

  /** The outcome a failed reply turns into. */
  function FailureOf<T>(reply: FeedReply): (r: Outcome<T>)
    requires !reply.Delivered?
    ensures r.Fail?
  {
    match reply
    case HttpError(status) => Fail(ApiErrorMessage(status))
    case Rejected(message) => Fail(message)
  }

  // ---------------------------------------------------------------------
  // searchArxiv

  /** The `search_query` parameter: the category clause, then the
      submission-date clause, each wrapping what came before in
      parentheses so that an `OR` in the user's query stays under them. */
  function BuildSearchQuery(query: string, category: Option<string>, dateRange: Option<DateRange>): string {
    var withCategory :=
      if category.Some? && category.value != "" then "cat:" + category.value + " AND (" + query + ")"
      else query;
    match dateRange
    case None => withCategory
    case Some(range) =>
      "submittedDate:[" + range.startDate + "0000 TO " + range.endDate + "2359] AND (" + withCategory + ")"
  }

  /** The user's query appears verbatim, followed by one closing
      parenthesis per filter, and the outermost filter comes first. */
  lemma BuildSearchQueryShape(query: string, category: Option<string>, dateRange: Option<DateRange>)
    ensures var hasCategory := category.Some? && category.value != "";
            var filters := (if hasCategory then 1 else 0) + (if dateRange.Some? then 1 else 0);
            var q := BuildSearchQuery(query, category, dateRange);
            |q| >= |query| + filters &&
            q[|q| - filters - |query|..] == query + seq(filters, _ => ')') &&
            (dateRange.Some? ==> StartsWith(q, "submittedDate:[" + dateRange.value.startDate + "0000 TO "
                                               + dateRange.value.endDate + "2359] AND ("))  &&
            (hasCategory && dateRange.None? ==> StartsWith(q, "cat:" + category.value + " AND (")) &&
            (hasCategory && dateRange.Some? ==> StartsWith(q, "submittedDate:[" + dateRange.value.startDate + "0000 TO "
                                                          + dateRange.value.endDate + "2359] AND (cat:" + category.value + " AND (")) &&
            (!hasCategory && dateRange.None? ==> q == query)
  {
    var hasCategory := category.Some? && category.value != "";
    var q := BuildSearchQuery(query, category, dateRange);
    var withCategory :=
      if hasCategory then "cat:" + category.value + " AND (" + query + ")" else query;
    if dateRange.Some? {
      var head := "submittedDate:[" + dateRange.value.startDate + "0000 TO " + dateRange.value.endDate + "2359] AND (";
      assert q == head + withCategory + ")";
      assert q[..|head|] == head;
      if hasCategory {
        var inner := head + "cat:" + category.value + " AND (";
        assert inner == "submittedDate:[" + dateRange.value.startDate + "0000 TO "
                        + dateRange.value.endDate + "2359] AND (cat:" + category.value + " AND (";
        assert q == inner + query + ")" + ")";
        assert q[..|inner|] == inner;
      }
    }
    if hasCategory && dateRange.None? {
      var head := "cat:" + category.value + " AND (";
      assert q == head + query + ")";
      assert q[..|head|] == head;
    }
  }

  /** The year, month and day fields `parseInt` reads from a YYYYMMDD string. */
  function DayFields(date: string): (Option<int>, Option<int>, Option<int>) {
    (ParseInt(Slice(date, 0, 4)), ParseInt(Slice(date, 4, 6)), ParseInt(Slice(date, 6, 8)))
  }

  /** The local instant a YYYYMMDD date denotes at the given time of day;
      `None` (an invalid date) when a field is not a number. */
  function DayBound(date: string, hours: int, minutes: int, seconds: int, clock: LocalClock): (t: Option<Timestamp>)
    ensures (DayFields(date).0.None? || DayFields(date).1.None? || DayFields(date).2.None?) ==> t.None?
  {
    match DayFields(date)
    case (Some(y), Some(m), Some(d)) => clock(LocalDateTime(y, m - 1, d, hours, minutes, seconds))
    case _ => None
  }

  /** A month field `0x` or `0X` is `NaN` to the radix-less `parseInt`, so
      the date is invalid, although its leading `0` alone reads as zero. */
  lemma HexMonthIsInvalid(date: string, hours: int, minutes: int, seconds: int, clock: LocalClock)
    requires |date| >= 8 && date[4] == '0' && (date[5] == 'x' || date[5] == 'X')
    ensures DayFields(date).1.None?
    ensures DayBound(date, hours, minutes, seconds, clock).None?
  {
    assert Slice(date, 4, 6) == ['0', date[5]] + [];
    ParseIntOfBareHexPrefix(date[5], []);
  }

  /** A year field `0x1a` reads as hexadecimal 26. */
  lemma HexYearExample()
    ensures DayFields("0x1a0101").0 == Some(26)
  {
    var date := "0x1a0101";
    assert |date| == 8;
    assert Slice(date, 0, 4) == date[0..4];
    assert date[0..4] == ['0', 'x'] + ['1', 'a'];
    HexOneA();
    ParseIntOfHex('x', ['1', 'a']);
  }

  lemma HexOneA()
    ensures AllHexDigits(['1', 'a']) && HexValue(['1', 'a']) == 26
  {
    var h := ['1', 'a'];
    assert h[..1] == ['1'] && ['1'][..0] == [];
  }

  /** `paperDate >= startDate && paperDate <= endDate`; every comparison
      with an invalid date is false. */
  predicate InDateRange(p: Paper, lo: Option<Timestamp>, hi: Option<Timestamp>) {
    lo.Some? && hi.Some? && lo.value <= p.publishedAt <= hi.value
  }

  /** The window the client-side filter keeps: from the start of the
      first day to the last second of the last day. */
  function Window(range: DateRange, clock: LocalClock): (Option<Timestamp>, Option<Timestamp>) {
    (DayBound(range.startDate, 0, 0, 0, clock), DayBound(range.endDate, 23, 59, 59, clock))
  }

  /** The request `searchArxiv` sends. */
  function SearchRequest(params: SearchParams): ArxivRequest {
    Search(BuildSearchQuery(params.query, params.category, params.dateRange),
           params.start.GetOr(0), params.maxResults.GetOr(20))
  }

  /** The client-side date filter: exactly the papers inside the window,
      in their order. */
  function KeepInWindow(papers: seq<Paper>, w: (Option<Timestamp>, Option<Timestamp>)): (kept: seq<Paper>)
    ensures IsSubsequence(kept, papers)
    ensures forall i :: 0 <= i < |kept| ==> InDateRange(kept[i], w.0, w.1)
    ensures forall p :: p in papers && InDateRange(p, w.0, w.1) ==> p in kept
    ensures forall p :: multiset(kept)[p] == if InDateRange(p, w.0, w.1) then multiset(papers)[p] else 0
    ensures w.0.None? || w.1.None? ==> kept == []
  {
    var kept := Filter(papers, (p: Paper) => InDateRange(p, w.0, w.1));
    assert forall p :: p in papers && InDateRange(p, w.0, w.1) ==> multiset(kept)[p] > 0;
    kept
  }

  /** `searchArxiv`. Without a date range: the parsed entries, and the
      feed's total (the page size when the feed gives none). With one:
      exactly the parsed entries published inside the window, in feed
      order, and their number as the total. A failed call fails. */
  function SearchArxiv(params: SearchParams, api: ArxivApi, clock: LocalClock): (r: Outcome<SearchResult>)
    ensures r.Fail? <==> !api(SearchRequest(params)).Delivered?
    ensures r.Ok? && params.dateRange.None? ==>
              var feed := api(SearchRequest(params)).feed;
              r.value.papers == ParseEntries(feed.entries) &&
              r.value.total == feed.totalResults.GetOr(|feed.entries|)
    ensures r.Ok? && params.dateRange.Some? ==>
              r.value.papers == KeepInWindow(ParseEntries(api(SearchRequest(params)).feed.entries),
                                             Window(params.dateRange.value, clock)) &&
              r.value.total == |r.value.papers|
  {
    var reply := api(SearchRequest(params));
    if !reply.Delivered? then FailureOf(reply)
    else
      var papers := ParseEntries(reply.feed.entries);
      match params.dateRange
      case None => Ok(SearchResult(papers, reply.feed.totalResults.GetOr(|papers|)))
      case Some(range) =>
        var kept := KeepInWindow(papers, Window(range, clock));
        Ok(SearchResult(kept, |kept|))
  }

  /** A date range with a non-numeric field filters every paper out. */
  lemma UnreadableDateRangeKeepsNothing(params: SearchParams, api: ArxivApi, clock: LocalClock)
    requires params.dateRange.Some?
    requires var f := DayFields(params.dateRange.value.startDate); f.0.None? || f.1.None? || f.2.None?
    requires SearchArxiv(params, api, clock).Ok?
    ensures SearchArxiv(params, api, clock).value == SearchResult([], 0)
  {
    assert Window(params.dateRange.value, clock).0.None?;
  }

  /** A start date whose month field begins with `0x` filters every paper
      out and reports a total of 0. */
  lemma HexMonthRangeKeepsNothing(params: SearchParams, api: ArxivApi, clock: LocalClock)
    requires params.dateRange.Some?
    requires var d := params.dateRange.value.startDate; |d| >= 8 && d[4] == '0' && (d[5] == 'x' || d[5] == 'X')
    requires SearchArxiv(params, api, clock).Ok?
    ensures SearchArxiv(params, api, clock).value == SearchResult([], 0)
  {
    HexMonthIsInvalid(params.dateRange.value.startDate, 0, 0, 0, clock);
    UnreadableDateRangeKeepsNothing(params, api, clock);
  }

  // ---------------------------------------------------------------------
  // getPaperById and getLatestPapers

  /** `getPaperById`: the first entry the feed returns for the id, `None`
      when it returns none; a failed call fails. */
  function GetPaperById(arxivId: string, api: ArxivApi): (r: Outcome<Option<Paper>>)
    ensures r.Fail? <==> !api(IdList(arxivId)).Delivered?
    ensures r.Ok? ==> (r.value.None? <==> api(IdList(arxivId)).feed.entries == [])
    ensures r.Ok? && r.value.Some? ==> r.value.value == ParseEntry(api(IdList(arxivId)).feed.entries[0])
  {
    var reply := api(IdList(arxivId));
    if !reply.Delivered? then FailureOf(reply)
    else if reply.feed.entries == [] then Ok(None)
    else Ok(Some(ParseEntry(reply.feed.entries[0])))
  }

  /** The request `getLatestPapers` sends: the category alone, from the
      first result. */
  function LatestRequest(category: string, maxResults: int): ArxivRequest {
    Search("cat:" + category, 0, maxResults)
  }

  /** `getLatestPapers`: every entry the category query returns, parsed. */
  function GetLatestPapers(category: string, maxResults: int, api: ArxivApi): (r: Outcome<seq<Paper>>)
    ensures r.Fail? <==> !api(LatestRequest(category, maxResults)).Delivered?
    ensures r.Ok? ==> r.value == ParseEntries(api(LatestRequest(category, maxResults)).feed.entries)
  {
    var reply := api(LatestRequest(category, maxResults));
    if !reply.Delivered? then FailureOf(reply) else Ok(ParseEntries(reply.feed.entries))
  }
}
