/** The papers API route (src/app/api/papers/route.ts): `mergePapers`,
    which interleaves the two sources' lists and drops repeated titles,
    and the GET handler's three actions. The handler is a function of the
    request and of the oracles behind the adapters; besides the response
    it returns the adapter calls it makes, in order. */
module PapersRoute {
  import opened Wrappers
  import opened JsStrings
  import opened PaperTypes
  import opened SeqUtil
  import Arxiv
  import OpenReview
  import QueryEnhancer

  // ---------------------------------------------------------------------
  // mergePapers

  /** The key under which repeated papers are recognised. */
  function NormalizedTitle(p: Paper): string {
    Trim(ToLower(p.title))
  }

  /** The keys of the elements of `s`. */
  function Keys<T, K>(s: seq<T>, key: T -> K): set<K> {
    if s == [] then {} else {key(s[0])} + Keys(s[1..], key)
  }

  /** Round-robin order: the first of each list, then the second of
      each, and so on; the longer list's tail at the end. */
  function Interleave<T>(a: seq<T>, b: seq<T>): (r: seq<T>)
    ensures |r| == |a| + |b|
  {
    if a == [] then b
    else if b == [] then a
    else [a[0], b[0]] + Interleave(a[1..], b[1..])
  }

  /** The interleaving holds the elements of both lists and no others. */
  lemma {:induction false} InterleaveMembers<T>(a: seq<T>, b: seq<T>)
    ensures forall x :: x in Interleave(a, b) <==> x in a || x in b
    decreases |a|
  {
    if a != [] && b != [] {
      InterleaveMembers(a[1..], b[1..]);
      assert a == [a[0]] + a[1..] && b == [b[0]] + b[1..];
    }
  }

  /** The elements of `s` whose key is not in `seen` and not taken by an
      earlier element of `s`. */
  function DedupFrom<T, K(==)>(seen: set<K>, s: seq<T>, key: T -> K): seq<T>
    decreases |s|
  {
    if s == [] then []
    else
      var k := key(s[0]);
      var rest := DedupFrom(if k in seen then seen else seen + {k}, s[1..], key);
      if k in seen then rest else [s[0]] + rest
  }

  /** What survives is drawn from `s` in its order, has no key in `seen`,
      and no two survivors share a key. */
  lemma {:induction false} DedupShape<T, K>(seen: set<K>, s: seq<T>, key: T -> K)
    ensures var r := DedupFrom(seen, s, key);
            IsSubsequence(r, s) &&
            (forall i :: 0 <= i < |r| ==> key(r[i]) !in seen) &&
            (forall i, j :: 0 <= i < j < |r| ==> key(r[i]) != key(r[j]))
    decreases |s|
  {
    if s != [] {
      var k := key(s[0]);
      var seen' := if k in seen then seen else seen + {k};
      var rest := DedupFrom(seen', s[1..], key);
      DedupShape(seen', s[1..], key);
      SubsequenceOfPrepend(s[0], rest, s[1..]);
      assert s == [s[0]] + s[1..];
    }
  }

  /** What `mergePapers` returns. */
  function Merge(a: seq<Paper>, b: seq<Paper>): seq<Paper> {
    DedupFrom({}, Interleave(a, b), NormalizedTitle)
  }

  /** The part of a list from position `i` on. */
  function Drop<T>(s: seq<T>, i: nat): seq<T> {
    if i < |s| then s[i..] else []
  }

  /** The element at position `i`, when there is one. */
  function At<T>(s: seq<T>, i: nat): seq<T> {
    if i < |s| then [s[i]] else []
  }

  /** One round of the interleaving. */
  lemma InterleaveStep<T>(a: seq<T>, b: seq<T>, i: nat)
    ensures Interleave(Drop(a, i), Drop(b, i)) == At(a, i) + (At(b, i) + Interleave(Drop(a, i + 1), Drop(b, i + 1)))
  {
    var da, db := Drop(a, i), Drop(b, i);
    if i < |a| && i < |b| {
      assert da[0] == a[i] && da[1..] == Drop(a, i + 1);
      assert db[0] == b[i] && db[1..] == Drop(b, i + 1);
      InterleaveCons(da, db);
    } else if i < |a| {
      assert da == [a[i]] + Drop(a, i + 1);
    } else if i < |b| {
      assert db == [b[i]] + Drop(b, i + 1);
    }
  }

  lemma InterleaveCons<T>(a: seq<T>, b: seq<T>)
    requires a != [] && b != []
    ensures Interleave(a, b) == [a[0]] + ([b[0]] + Interleave(a[1..], b[1..]))
  {
    var rest := Interleave(a[1..], b[1..]);
    assert [a[0], b[0]] == [a[0]] + [b[0]];
    AppendAssoc([a[0]], [b[0]], rest);
  }

  /** Deduplicating one element in front of the rest. */
  lemma DedupStep<T, K>(seen: set<K>, x: T, rest: seq<T>, key: T -> K)
    ensures DedupFrom(seen, [x] + rest, key) ==
            if key(x) in seen then DedupFrom(seen, rest, key) else [x] + DedupFrom(seen + {key(x)}, rest, key)
  {
    assert ([x] + rest)[1..] == rest;
  }

  /** Moving the element at `i` of `s`, if any, from the pending part of
      a deduplication to its finished part. */
  lemma DedupPushAt<T, K>(done: seq<T>, seen: set<K>, s: seq<T>, i: nat, rest: seq<T>, key: T -> K)
    ensures var taken := i < |s| && key(s[i]) !in seen;
            done + DedupFrom(seen, At(s, i) + rest, key) ==
            (if taken then done + [s[i]] else done) + DedupFrom(if taken then seen + {key(s[i])} else seen, rest, key)
  {
    if i < |s| {
      DedupStep(seen, s[i], rest, key);
      if key(s[i]) !in seen {
        assert done + ([s[i]] + DedupFrom(seen + {key(s[i])}, rest, key)) ==
               (done + [s[i]]) + DedupFrom(seen + {key(s[i])}, rest, key);
      }
    } else {
      assert At(s, i) + rest == rest;
    }
  }

  /** `mergePapers`. */
  method MergePapers(arxivPapers: seq<Paper>, openreviewPapers: seq<Paper>) returns (merged: seq<Paper>)
    ensures merged == Merge(arxivPapers, openreviewPapers)
  {
    merged := [];
    var seenTitles: set<string> := {};
    var maxLength := if |arxivPapers| > |openreviewPapers| then |arxivPapers| else |openreviewPapers|;
    var i := 0;
    while i < maxLength
      invariant 0 <= i <= maxLength
      invariant merged + DedupFrom(seenTitles, Interleave(Drop(arxivPapers, i), Drop(openreviewPapers, i)), NormalizedTitle)
                == Merge(arxivPapers, openreviewPapers)
    {
      InterleaveStep(arxivPapers, openreviewPapers, i);
      ghost var rest := Interleave(Drop(arxivPapers, i + 1), Drop(openreviewPapers, i + 1));
      DedupPushAt(merged, seenTitles, arxivPapers, i, At(openreviewPapers, i) + rest, NormalizedTitle);
      if i < |arxivPapers| {
        var paper := arxivPapers[i];
        var normalizedTitle := NormalizedTitle(paper);
        if normalizedTitle !in seenTitles {
          merged := merged + [paper];
          seenTitles := seenTitles + {normalizedTitle};
        }
      }
      DedupPushAt(merged, seenTitles, openreviewPapers, i, rest, NormalizedTitle);
      if i < |openreviewPapers| {
        var paper := openreviewPapers[i];
        var normalizedTitle := NormalizedTitle(paper);
        if normalizedTitle !in seenTitles {
          merged := merged + [paper];
          seenTitles := seenTitles + {normalizedTitle};
        }
      }
      i := i + 1;
    }
    assert Drop(arxivPapers, i) == [] && Drop(openreviewPapers, i) == [];
  }

  /** No two merged papers share a normalised title. */
  lemma MergeHasDistinctTitles(a: seq<Paper>, b: seq<Paper>)
    ensures var m := Merge(a, b);
            forall i, j :: 0 <= i < j < |m| ==> NormalizedTitle(m[i]) != NormalizedTitle(m[j])
  {
    DedupShape({}, Interleave(a, b), NormalizedTitle);
  }

  /** Round robin: up to the shorter list's length, the interleaving
      alternates the first list's element and the second's. */
  lemma {:induction false} InterleaveRoundRobin<T>(a: seq<T>, b: seq<T>)
    ensures forall i :: 0 <= i < |a| && i < |b| ==>
              Interleave(a, b)[2 * i] == a[i] && Interleave(a, b)[2 * i + 1] == b[i]
    decreases |a|
  {
    if a != [] && b != [] {
      InterleaveRoundRobin(a[1..], b[1..]);
      var r := Interleave(a, b);
      forall i | 1 <= i < |a| && i < |b|
        ensures r[2 * i] == a[i] && r[2 * i + 1] == b[i]
      {
        assert r[2 * i] == Interleave(a[1..], b[1..])[2 * (i - 1)];
        assert r[2 * i + 1] == Interleave(a[1..], b[1..])[2 * (i - 1) + 1];
      }
    }
  }

  /** Each list keeps its own order inside the interleaving. */
  lemma {:induction false} InterleaveKeepsOrder<T>(a: seq<T>, b: seq<T>)
    ensures IsSubsequence(a, Interleave(a, b)) && IsSubsequence(b, Interleave(a, b))
    decreases |a|
  {
    if a == [] {
      SubsequenceReflexive(b);
    } else if b == [] {
      SubsequenceReflexive(a);
    } else {
      InterleaveKeepsOrder(a[1..], b[1..]);
      var rest := Interleave(a[1..], b[1..]);
      assert Interleave(a, b) == [a[0]] + ([b[0]] + rest);
      SubsequenceOfPrepend(b[0], a[1..], rest);
      SubsequenceOfPrepend(a[0], a[1..], [b[0]] + rest);
      SubsequenceOfPrepend(b[0], b[1..], rest);
      SubsequenceOfPrepend(a[0], b, [b[0]] + rest);
      assert a == [a[0]] + a[1..] && b == [b[0]] + b[1..];
    }
  }

  /** The keys that survive are exactly the keys present, minus those
      already seen, one element each. */
  lemma {:induction false} DedupKeys<T, K>(seen: set<K>, s: seq<T>, key: T -> K)
    ensures Keys(DedupFrom(seen, s, key), key) == Keys(s, key) - seen
    ensures |DedupFrom(seen, s, key)| == |Keys(s, key) - seen|
    decreases |s|
  {
    if s != [] {
      var k := key(s[0]);
      var seen' := if k in seen then seen else seen + {k};
      var rest := DedupFrom(seen', s[1..], key);
      DedupKeys(seen', s[1..], key);
      if k !in seen {
        var r := [s[0]] + rest;
        assert r[1..] == rest;
        assert Keys(r, key) == {k} + Keys(rest, key);
        assert k !in Keys(s[1..], key) - seen';
        assert Keys(s, key) - seen == {k} + (Keys(s[1..], key) - seen');
      }
    }
  }

  /** Every element whose key has not occurred earlier in the list (nor
      in `seen`) is kept: the first occurrence wins. */
  lemma {:induction false} DedupKeepsFirstOccurrences<T, K>(seen: set<K>, s: seq<T>, key: T -> K)
    ensures forall k :: 0 <= k < |s| && key(s[k]) !in seen &&
                        (forall j :: 0 <= j < k ==> key(s[j]) != key(s[k])) ==>
              s[k] in DedupFrom(seen, s, key)
    decreases |s|
  {
    if s != [] {
      var k0 := key(s[0]);
      var seen' := if k0 in seen then seen else seen + {k0};
      DedupKeepsFirstOccurrences(seen', s[1..], key);
      forall k | 1 <= k < |s| && key(s[k]) !in seen &&
                 (forall j :: 0 <= j < k ==> key(s[j]) != key(s[k]))
        ensures s[k] in DedupFrom(seen, s, key)
      {
        assert s[k] == s[1..][k - 1];
        assert forall j :: 0 <= j < k - 1 ==> s[1..][j] == s[j + 1];
        assert key(s[0]) != key(s[k]);
      }
    }
  }

  lemma {:induction false} KeysBound<T, K>(s: seq<T>, key: T -> K)
    ensures |Keys(s, key)| <= |s|
    decreases |s|
  {
    if s != [] {
      assert s == [s[0]] + s[1..];
      assert Keys(s, key) == {key(s[0])} + Keys(s[1..], key);
      KeysBound(s[1..], key);
    }
  }

  lemma {:induction false} KeysOfInterleave<T, K>(a: seq<T>, b: seq<T>, key: T -> K)
    ensures Keys(Interleave(a, b), key) == Keys(a, key) + Keys(b, key)
    decreases |a|
  {
    if a != [] && b != [] {
      KeysOfInterleave(a[1..], b[1..], key);
      var rest := Interleave(a[1..], b[1..]);
      assert Interleave(a, b) == [a[0]] + ([b[0]] + rest);
      assert ([a[0]] + ([b[0]] + rest))[1..] == [b[0]] + rest;
      assert ([b[0]] + rest)[1..] == rest;
    }
  }

  /** The deduplicated interleaving keeps one element per distinct key of
      the two lists, and only elements of them. */
  lemma DedupInterleaveCovers<T, K>(a: seq<T>, b: seq<T>, key: T -> K)
    ensures var m := DedupFrom({}, Interleave(a, b), key);
            Keys(m, key) == Keys(a, key) + Keys(b, key) &&
            |m| == |Keys(a, key) + Keys(b, key)| <= |a| + |b| &&
            forall x :: x in m ==> x in a || x in b
  {
    var s := Interleave(a, b);
    DedupKeys({}, s, key);
    KeysOfInterleave(a, b, key);
    InterleaveMembers(a, b);
    DedupShape({}, s, key);
    SubsequenceMembers(DedupFrom({}, s, key), s);
    KeysBound(s, key);
  }

  /** The merge keeps exactly one paper per distinct title of the two
      lists, so it is as long as the inputs together when all titles
      differ; every merged paper comes from an input. */
  lemma MergeCoversTitles(a: seq<Paper>, b: seq<Paper>)
    ensures Keys(Merge(a, b), NormalizedTitle) == Keys(a, NormalizedTitle) + Keys(b, NormalizedTitle)
    ensures |Merge(a, b)| == |Keys(a, NormalizedTitle) + Keys(b, NormalizedTitle)| <= |a| + |b|
    ensures forall p :: p in Merge(a, b) ==> p in a || p in b
  {
    DedupInterleaveCovers(a, b, NormalizedTitle);
  }

  /** The merged list is drawn from the interleaving in its order, and
      every paper whose title is new at its point of the interleaving is
      in it. */
  lemma MergeIsFirstOccurrences(a: seq<Paper>, b: seq<Paper>)
    ensures IsSubsequence(Merge(a, b), Interleave(a, b))
    ensures var s := Interleave(a, b);
            forall k :: 0 <= k < |s| && (forall j :: 0 <= j < k ==> NormalizedTitle(s[j]) != NormalizedTitle(s[k])) ==>
              s[k] in Merge(a, b)
  {
    DedupShape({}, Interleave(a, b), NormalizedTitle);
    DedupKeepsFirstOccurrences({}, Interleave(a, b), NormalizedTitle);
  }

  lemma DedupThree<T, K>(x: T, y: T, z: T, key: T -> K)
    requires key(x) != key(y) && key(x) != key(z) && key(y) != key(z)
    ensures DedupFrom({}, [x, y, z], key) == [x, y, z]
  {
    assert [x, y, z] == [x] + [y, z] && [y, z] == [y] + [z] && [z] == [z] + [];
    var s1: set<K> := {key(x)};
    var s2: set<K> := {key(x), key(y)};
    DedupStep({}, x, [y, z], key);
    assert {} + {key(x)} == s1;
    DedupStep(s1, y, [z], key);
    assert s1 + {key(y)} == s2;
    DedupStep(s2, z, [], key);
    assert DedupFrom(s2, [z], key) == [z];
    assert DedupFrom(s1, [y, z], key) == [y, z];
  }

  /** The merge of `[a1, a2]` and `[b1]` with three different titles. */
  lemma MergeExample(a1: Paper, a2: Paper, b1: Paper)
    requires NormalizedTitle(a1) != NormalizedTitle(a2)
    requires NormalizedTitle(a1) != NormalizedTitle(b1)
    requires NormalizedTitle(a2) != NormalizedTitle(b1)
    ensures Merge([a1, a2], [b1]) == [a1, b1, a2]
  {
    InterleaveTwoOne(a1, a2, b1);
    DedupThree(a1, b1, a2, NormalizedTitle);
  }

  lemma InterleaveTwoOne<T>(x: T, z: T, y: T)
    ensures Interleave([x, z], [y]) == [x, y, z]
  {
    assert [x, z][1..] == [z] && [y][1..] == [];
    assert Interleave([z], []) == [z];
  }

  // ---------------------------------------------------------------------
  // the GET handler

  /** `Math.ceil(n / 2)`. */
  function CeilHalf(n: int): (c: int)
    ensures n <= 2 * c <= n + 1
  {
    (n + 1) / 2
  }

  /** The query parameters of a request. A text parameter is `None` when
      absent; a number is the value `parseInt` reads from it. */
  datatype Request = Request(
    action: Option<string>,
    source: Option<string>,
    id: Option<string>,
    category: Option<string>,
    venue: Option<string>,
    query: Option<string>,
    maxResults: Option<int>,
    start: Option<int>,
    enhance: Option<string>)

  /** `searchParams.get(name) || fallback`. */
  function OrDefault(param: Option<string>, fallback: string): (v: string)
    ensures param.Some? && param.value != "" ==> v == param.value
    ensures param.None? || param.value == "" ==> v == fallback
  {
    if param.Some? && param.value != "" then param.value else fallback
  }

  /** The oracles behind the adapters. */
  datatype Services = Services(
    arxiv: Arxiv.ArxivApi,
    clock: Arxiv.LocalClock,
    openreview: OpenReview.OpenReviewApi,
    now: Timestamp,
    hasApiKey: bool,
    generate: string -> Outcome<string>,
    decode: string -> Option<QueryEnhancer.ModelAnswer>)

  /** The adapter calls the handler makes. */
  datatype Call =
    | Enhance(query: string)
    | ArxivSearch(params: SearchParams)
    | ArxivById(arxivId: string)
    | ArxivLatest(category: string, maxResults: int)
    | OpenReviewSearch(params: SearchParams)
    | OpenReviewById(forumId: string)
    | OpenReviewLatest(venue: string, maxResults: int)

  /** `{ count, total }` of one source in a search response. */
  datatype SourceCount = SourceCount(count: int, total: int)

  datatype Response =
    | ErrorResponse(status: int, error: string)
    | PaperResponse(paper: Paper)
    | ListResponse(papers: seq<Paper>, total: int)
    | SearchResponse(
        papers: seq<Paper>, total: int,
        arxivSource: SourceCount, openreviewSource: SourceCount,
        enhanced: Option<QueryEnhancer.EnhancedQuery>)

  const ID_REQUIRED: string := "ID가 필요합니다"
  const NOT_FOUND: string := "논문을 찾을 수 없습니다"
  const QUERY_REQUIRED: string := "검색어가 필요합니다"
  const BAD_SOURCE: string := "잘못된 source 파라미터"
  const SERVER_ERROR: string := "API 호출 중 오류가 발생했습니다"

  function ServerError(): Response {
    ErrorResponse(500, SERVER_ERROR)
  }

  /** The adapter lookup of the `get` action: the paper or failure, and
      the call made. An id prefixed with neither source finds nothing. */
  function Lookup(source: string, id: string, sv: Services): (Outcome<Option<Paper>>, seq<Call>)
    requires OpenReview.IsValidTime(sv.now)
  {
    if source == "arxiv" then (Arxiv.GetPaperById(id, sv.arxiv), [ArxivById(id)])
    else if source == "openreview" then (OpenReview.GetPaperById(id, sv.openreview, sv.now), [OpenReviewById(id)])
    else if ':' in id then
      var parts := Split(id, ':');
      var detectedSource, actualId := parts[0], parts[1];
      if detectedSource == "arxiv" then (Arxiv.GetPaperById(actualId, sv.arxiv), [ArxivById(actualId)])
      else if detectedSource == "openreview" then
        (OpenReview.GetPaperById(actualId, sv.openreview, sv.now), [OpenReviewById(actualId)])
      else (Ok(None), [])
    else (Arxiv.GetPaperById(id, sv.arxiv), [ArxivById(id)])
  }

  /** The `get` action with a non-empty id. */
  function GetAction(source: string, id: string, sv: Services): (out: (Response, seq<Call>))
    requires OpenReview.IsValidTime(sv.now)
  {
    var lookup := Lookup(source, id, sv);
    match lookup.0
    case Fail(_) => (ServerError(), lookup.1)
    case Ok(None) => (ErrorResponse(404, NOT_FOUND), lookup.1)
    case Ok(Some(paper)) => (PaperResponse(paper), lookup.1)
  }

  /** The `latest` action. */
  function LatestAction(source: string, category: string, venue: string, maxResults: int, sv: Services): (out: (Response, seq<Call>))
    requires OpenReview.IsValidTime(sv.now)
  {
    if source == "both" then
      var half := CeilHalf(maxResults);
      var calls := [ArxivLatest(category, half), OpenReviewLatest(venue, half)];
      var fromArxiv := Arxiv.GetLatestPapers(category, half, sv.arxiv);
      var fromOpenReview := OpenReview.GetLatestPapers(venue, half, sv.openreview, sv.now);
      if fromArxiv.Fail? || fromOpenReview.Fail? then (ServerError(), calls)
      else
        var papers := Slice(Merge(fromArxiv.value, fromOpenReview.value), 0, maxResults);
        (ListResponse(papers, |papers|), calls)
    else if source == "arxiv" then
      match Arxiv.GetLatestPapers(category, maxResults, sv.arxiv)
      case Fail(_) => (ServerError(), [ArxivLatest(category, maxResults)])
      case Ok(papers) => (ListResponse(papers, |papers|), [ArxivLatest(category, maxResults)])
    else if source == "openreview" then
      match OpenReview.GetLatestPapers(venue, maxResults, sv.openreview, sv.now)
      case Fail(_) => (ServerError(), [OpenReviewLatest(venue, maxResults)])
      case Ok(papers) => (ListResponse(papers, |papers|), [OpenReviewLatest(venue, maxResults)])
    else (ListResponse([], 0), [])
  }

  /** The parameters the handler passes to `searchArxiv`. */
  function ArxivParams(searchQuery: string, category: Option<string>, enhanced: Option<QueryEnhancer.EnhancedQuery>,
                       maxResults: int, start: int): SearchParams
  {
    var suggested := if enhanced.Some? then enhanced.value.suggestedCategory else None;
    var dateFilter := if enhanced.Some? then enhanced.value.dateFilter else None;
    SearchParams(
      searchQuery,
      if category.Some? then category else suggested,
      Some(maxResults), Some(start),
      if dateFilter.Some? then Some(DateRange(dateFilter.value.startDate, dateFilter.value.endDate)) else None)
  }

  /** A search result the handler could not obtain counts as empty. */
  function PapersOr(r: Outcome<SearchResult>): (SearchResult) {
    if r.Ok? then r.value else SearchResult([], 0)
  }

  /** A search of both sources: each is asked for half the page size,
      rounded up, arXiv from `start` and OpenReview from its first result;
      the papers are merged and the totals summed. A failed arXiv search
      counts as no papers. */
  function BothSearch(searchQuery: string, category: Option<string>, enhanced: Option<QueryEnhancer.EnhancedQuery>,
                      maxResults: int, start: int, sv: Services): (out: (Response, seq<Call>))
    requires OpenReview.IsValidTime(sv.now)
    ensures |out.1| == 2 && BothSearchShape(out.0, out.1, CeilHalf(maxResults), start, sv)
  {
    var half := CeilHalf(maxResults);
    var arxivParams := ArxivParams(searchQuery, category, enhanced, half, start);
    var openreviewParams := SearchParams(searchQuery, None, Some(half), Some(0), None);
    var fromArxiv := PapersOr(Arxiv.SearchArxiv(arxivParams, sv.arxiv, sv.clock));
    var fromOpenReview := OpenReview.SearchResultFor(openreviewParams, sv.openreview, sv.now);
    (SearchResponse(
       Merge(fromArxiv.papers, fromOpenReview.papers),
       fromArxiv.total + fromOpenReview.total,
       SourceCount(|fromArxiv.papers|, fromArxiv.total),
       SourceCount(|fromOpenReview.papers|, fromOpenReview.total),
       enhanced),
     [ArxivSearch(arxivParams), OpenReviewSearch(openreviewParams)])
  }

  /** The search action with a non-empty query. */
  function SearchAction(source: string, query: string, category: Option<string>, maxResults: int, start: int,
                        enhance: bool, sv: Services): (out: (Response, seq<Call>))
    requires OpenReview.IsValidTime(sv.now)
  {
    var enhanced :=
      if enhance then Some(QueryEnhancer.EnhanceSearchQuery(query, sv.hasApiKey, sv.generate, sv.decode)) else None;
    var enhanceCalls := if enhance then [Enhance(query)] else [];
    var searchQuery := if enhanced.Some? then enhanced.value.searchQuery else query;
    if source == "both" then
      var both := BothSearch(searchQuery, category, enhanced, maxResults, start, sv);
      (both.0, enhanceCalls + both.1)
    else if source == "arxiv" then
      var arxivParams := ArxivParams(searchQuery, category, enhanced, maxResults, start);
      var calls := enhanceCalls + [ArxivSearch(arxivParams)];
      match Arxiv.SearchArxiv(arxivParams, sv.arxiv, sv.clock)
      case Fail(_) => (ServerError(), calls)
      case Ok(result) =>
        (SearchResponse(result.papers, result.total, SourceCount(|result.papers|, result.total), SourceCount(0, 0), enhanced),
         calls)
    else if source == "openreview" then
      var openreviewParams := SearchParams(searchQuery, None, Some(maxResults), Some(start), None);
      var result := OpenReview.SearchResultFor(openreviewParams, sv.openreview, sv.now);
      (SearchResponse(result.papers, result.total, SourceCount(0, 0), SourceCount(|result.papers|, result.total), enhanced),
       enhanceCalls + [OpenReviewSearch(openreviewParams)])
    else (ErrorResponse(400, BAD_SOURCE), enhanceCalls)
  }

  /** `GET`: the response and the adapter calls made, in order. */
  function Get(req: Request, sv: Services): (out: (Response, seq<Call>))
    requires OpenReview.IsValidTime(sv.now)
  {
    var action := OrDefault(req.action, "search");
    var source := OrDefault(req.source, "both");
    if action == "get" then
      if req.id.None? || req.id.value == "" then (ErrorResponse(400, ID_REQUIRED), [])
      else GetAction(source, req.id.value, sv)
    else if action == "latest" then
      LatestAction(source, OrDefault(req.category, "cs.AI"), OrDefault(req.venue, "ICLR.cc"), req.maxResults.GetOr(10), sv)
    else
      var query := OrDefault(req.query, "");
      var category := if req.category.Some? && req.category.value != "" then req.category else None;
      if query == "" then (ErrorResponse(400, QUERY_REQUIRED), [])
      else SearchAction(source, query, category, req.maxResults.GetOr(20), req.start.GetOr(0),
                        req.enhance != Some("false"), sv)
  }

  // ---------------------------------------------------------------------
  // properties of the handler

  predicate IsSearch(req: Request) {
    OrDefault(req.action, "search") != "get" && OrDefault(req.action, "search") != "latest"
  }

  /** A search without a query is refused before the enhancer or any
      adapter is called. */
  lemma EmptyQueryRejected(req: Request, sv: Services)
    requires OpenReview.IsValidTime(sv.now)
    requires IsSearch(req) && OrDefault(req.query, "") == ""
    ensures Get(req, sv) == (ErrorResponse(400, QUERY_REQUIRED), [])
  {
  }

  /** The shape of a search of both sources: the last two calls ask arXiv
      for `half` results from `start` and OpenReview for `half` results
      from its first; the papers are the merge of the two answers, each
      source reports its own page length and total, the total is the sum
      of the two sources' totals, whatever the merge drops, and a failed
      arXiv search counts as no papers and total 0 without failing the
      request. */
  predicate BothSearchShape(resp: Response, calls: seq<Call>, half: int, start: int, sv: Services) {
    resp.SearchResponse? &&
    |calls| >= 2 &&
    calls[|calls| - 2].ArxivSearch? && calls[|calls| - 2].params.maxResults == Some(half) &&
    calls[|calls| - 2].params.start == Some(start) &&
    calls[|calls| - 1].OpenReviewSearch? && calls[|calls| - 1].params.maxResults == Some(half) &&
    calls[|calls| - 1].params.start == Some(0) &&
    OpenReview.IsValidTime(sv.now) &&
    (var a := PapersOr(Arxiv.SearchArxiv(calls[|calls| - 2].params, sv.arxiv, sv.clock));
     var b := OpenReview.SearchResultFor(calls[|calls| - 1].params, sv.openreview, sv.now);
     resp.papers == Merge(a.papers, b.papers) &&
     resp.arxivSource == SourceCount(|a.papers|, a.total) &&
     resp.openreviewSource == SourceCount(|b.papers|, b.total)) &&
    resp.total == resp.arxivSource.total + resp.openreviewSource.total &&
    (Arxiv.SearchArxiv(calls[|calls| - 2].params, sv.arxiv, sv.clock).Fail? ==>
       resp.arxivSource == SourceCount(0, 0)) &&
    (Arxiv.SearchArxiv(calls[|calls| - 2].params, sv.arxiv, sv.clock).Ok? ==>
       resp.arxivSource.total == Arxiv.SearchArxiv(calls[|calls| - 2].params, sv.arxiv, sv.clock).value.total)
  }

  /** Calls made before the two searches do not change the shape. */
  lemma ShapeAfterPrefix(resp: Response, pre: seq<Call>, two: seq<Call>, half: int, start: int, sv: Services)
    requires |two| == 2 && BothSearchShape(resp, two, half, start, sv)
    ensures BothSearchShape(resp, pre + two, half, start, sv)
  {
    var calls := pre + two;
    assert calls[|calls| - 2] == two[0] && calls[|calls| - 1] == two[1];
  }

  /** A search request reaches the search action with its defaults. */
  lemma SearchReachesAction(req: Request, sv: Services)
    requires OpenReview.IsValidTime(sv.now)
    requires IsSearch(req) && OrDefault(req.query, "") != ""
    ensures Get(req, sv) ==
      SearchAction(OrDefault(req.source, "both"), OrDefault(req.query, ""),
                   if req.category.Some? && req.category.value != "" then req.category else None,
                   req.maxResults.GetOr(20), req.start.GetOr(0), req.enhance != Some("false"), sv)
  {
  }

  /** A search request of both sources has that shape, with the default
      page size of 20 and first result 0. */
  lemma BothSourcesSearch(req: Request, sv: Services)
    requires OpenReview.IsValidTime(sv.now)
    requires IsSearch(req) && OrDefault(req.query, "") != "" && OrDefault(req.source, "both") == "both"
    ensures BothSearchShape(Get(req, sv).0, Get(req, sv).1, CeilHalf(req.maxResults.GetOr(20)), req.start.GetOr(0), sv)
  {
    var category := if req.category.Some? && req.category.value != "" then req.category else None;
    var query := OrDefault(req.query, "");
    var enhance := req.enhance != Some("false");
    SearchReachesAction(req, sv);
    var enhanced :=
      if enhance then Some(QueryEnhancer.EnhanceSearchQuery(query, sv.hasApiKey, sv.generate, sv.decode)) else None;
    var searchQuery := if enhanced.Some? then enhanced.value.searchQuery else query;
    var both := BothSearch(searchQuery, category, enhanced, req.maxResults.GetOr(20), req.start.GetOr(0), sv);
    var enhanceCalls := if enhance then [Enhance(query)] else [];
    assert SearchAction("both", query, category, req.maxResults.GetOr(20), req.start.GetOr(0), enhance, sv) ==
      (both.0, enhanceCalls + both.1);
    ShapeAfterPrefix(both.0, enhanceCalls, both.1, CeilHalf(req.maxResults.GetOr(20)), req.start.GetOr(0), sv);
  }

  /** The papers a search of both sources answers never share a
      lower-cased, trimmed title. */
  lemma BothSourcesSearchHasDistinctTitles(req: Request, sv: Services)
    requires OpenReview.IsValidTime(sv.now)
    requires IsSearch(req) && OrDefault(req.query, "") != "" && OrDefault(req.source, "both") == "both"
    ensures var m := Get(req, sv).0.papers;
            forall i, j :: 0 <= i < j < |m| ==> NormalizedTitle(m[i]) != NormalizedTitle(m[j])
  {
    BothSourcesSearch(req, sv);
    var calls := Get(req, sv).1;
    var a := PapersOr(Arxiv.SearchArxiv(calls[|calls| - 2].params, sv.arxiv, sv.clock));
    var b := OpenReview.SearchResultFor(calls[|calls| - 1].params, sv.openreview, sv.now);
    MergeHasDistinctTitles(a.papers, b.papers);
  }

  /** `split(':')` of `p:x` when neither part has a colon. */
  lemma SplitAtColon(p: string, x: string)
    requires ':' !in p && ':' !in x
    ensures Split(p + ":" + x, ':') == [p, x]
  {
    SplitAtFirstSep(p, ':', x);
    SplitWithoutSep(x, ':');
  }

  /** `prefix:x` holds a colon and splits into the prefix and `x`. */
  lemma PrefixedId(prefix: string, x: string)
    requires ':' !in prefix && ':' !in x
    ensures ':' in prefix + ":" + x
    ensures Split(prefix + ":" + x, ':')[0] == prefix && Split(prefix + ":" + x, ':')[1] == x
  {
    assert (prefix + ":" + x)[|prefix|] == ':';
    SplitAtColon(prefix, x);
  }

  /** Routing of a prefixed id when the source is left to `both`. */
  lemma LookupArxivPrefix(sv: Services, prefix: string, x: string)
    requires OpenReview.IsValidTime(sv.now)
    requires prefix == "arxiv" && ':' !in x
    ensures Lookup("both", prefix + ":" + x, sv).1 == [ArxivById(x)]
  {
    PrefixedId(prefix, x);
  }

  lemma LookupOpenReviewPrefix(sv: Services, prefix: string, x: string)
    requires OpenReview.IsValidTime(sv.now)
    requires prefix == "openreview" && ':' !in x
    ensures Lookup("both", prefix + ":" + x, sv).1 == [OpenReviewById(x)]
  {
    PrefixedId(prefix, x);
  }

  lemma LookupOtherPrefix(sv: Services, prefix: string, x: string)
    requires OpenReview.IsValidTime(sv.now)
    requires ':' !in prefix && ':' !in x && prefix != "arxiv" && prefix != "openreview"
    ensures Lookup("both", prefix + ":" + x, sv) == (Ok(None), [])
  {
    PrefixedId(prefix, x);
  }

  /** With the source left to `both`, the `get` action routes an id by
      its prefix: `arxiv:X` to arXiv, `openreview:X` to OpenReview, and
      any other prefix to 404 with no call. */
  lemma GetRoutesByPrefix(req: Request, sv: Services, prefix: string, x: string)
    requires OpenReview.IsValidTime(sv.now)
    requires OrDefault(req.action, "search") == "get" && OrDefault(req.source, "both") == "both"
    requires ':' !in prefix && ':' !in x
    requires req.id == Some(prefix + ":" + x)
    ensures prefix == "arxiv" ==> Get(req, sv).1 == [ArxivById(x)]
    ensures prefix == "openreview" ==> Get(req, sv).1 == [OpenReviewById(x)]
    ensures prefix != "arxiv" && prefix != "openreview" ==> Get(req, sv) == (ErrorResponse(404, NOT_FOUND), [])
  {
    assert req.id.value != "" by {
      assert |prefix + ":" + x| > 0;
    }
    assert Get(req, sv) == GetAction("both", prefix + ":" + x, sv);
    if prefix == "arxiv" {
      LookupArxivPrefix(sv, prefix, x);
    } else if prefix == "openreview" {
      LookupOpenReviewPrefix(sv, prefix, x);
    } else {
      LookupOtherPrefix(sv, prefix, x);
    }
  }

  /** An id without a colon is looked up on arXiv. */
  lemma GetWithoutPrefix(req: Request, sv: Services)
    requires OpenReview.IsValidTime(sv.now)
    requires OrDefault(req.action, "search") == "get" && OrDefault(req.source, "both") == "both"
    requires req.id.Some? && req.id.value != "" && ':' !in req.id.value
    ensures Get(req, sv).1 == [ArxivById(req.id.value)]
  {
  }

  /** The `latest` action of both sources returns at most `maxResults`
      papers, no two with the same title, and reports their number. */
  lemma LatestBothBounded(category: string, venue: string, max: int, sv: Services)
    requires OpenReview.IsValidTime(sv.now)
    requires max >= 0
    ensures var resp := LatestAction("both", category, venue, max, sv).0;
            resp.ListResponse? ==>
              |resp.papers| <= max && resp.total == |resp.papers| &&
              forall i, j :: 0 <= i < j < |resp.papers| ==> NormalizedTitle(resp.papers[i]) != NormalizedTitle(resp.papers[j])
  {
    var resp := LatestAction("both", category, venue, max, sv).0;
    if resp.ListResponse? {
      var half := CeilHalf(max);
      var a := Arxiv.GetLatestPapers(category, half, sv.arxiv).value;
      var b := OpenReview.GetLatestPapers(venue, half, sv.openreview, sv.now).value;
      MergeHasDistinctTitles(a, b);
      FirstPageOfDistinct(Merge(a, b), max);
    }
  }

  /** The first page of a list with distinct titles has distinct titles
      and at most the page size. */
  lemma FirstPageOfDistinct(m: seq<Paper>, max: int)
    requires max >= 0
    requires forall i, j :: 0 <= i < j < |m| ==> NormalizedTitle(m[i]) != NormalizedTitle(m[j])
    ensures var page := Slice(m, 0, max);
      |page| <= max &&
      forall i, j :: 0 <= i < j < |page| ==> NormalizedTitle(page[i]) != NormalizedTitle(page[j])
  {
    OpenReview.PageBounds(m, 0, max);
    var to := RelativeIndex(max, |m|);
    if 0 < to {
      assert Slice(m, 0, max) == m[0..to];
      assert forall i :: 0 <= i < to ==> m[0..to][i] == m[i];
    }
  }

  /** The same through the handler, with the default of 10 papers. */
  lemma LatestBothIsBounded(req: Request, sv: Services)
    requires OpenReview.IsValidTime(sv.now)
    requires OrDefault(req.action, "search") == "latest" && OrDefault(req.source, "both") == "both"
    requires req.maxResults.GetOr(10) >= 0
    ensures Get(req, sv).0.ListResponse? ==>
              var papers := Get(req, sv).0.papers;
              |papers| <= req.maxResults.GetOr(10) && Get(req, sv).0.total == |papers| &&
              forall i, j :: 0 <= i < j < |papers| ==> NormalizedTitle(papers[i]) != NormalizedTitle(papers[j])
  {
    var category, venue := OrDefault(req.category, "cs.AI"), OrDefault(req.venue, "ICLR.cc");
    assert Get(req, sv) == LatestAction("both", category, venue, req.maxResults.GetOr(10), sv);
    LatestBothBounded(category, venue, req.maxResults.GetOr(10), sv);
  }
}
