/** `POST /api/analyze` (src/app/api/analyze/route.ts:5-54): the abstract
    is required; `mode: 'quick'` answers with a short summary and touches
    no cache; a full analysis is returned from the cache when the id has
    one, is otherwise computed from the title and abstract, saved for the
    id and returned. The two model calls (`generateQuickSummary`,
    `analyzePaper`) are oracles: the value each resolves to or the message
    of the error it throws. */
module AnalyzeRoute {
  import opened Wrappers
  import opened PaperTypes
  import opened Db
  import opened RouteCache

  const ABSTRACT_REQUIRED: string := "초록이 필요합니다"
  const TITLE_REQUIRED: string := "제목이 필요합니다"
  const ANALYSIS_FAILED: string := "AI 분석 중 오류가 발생했습니다: "

  /** The JSON the route answers with: `{ summary }`, the analysis spread
      with `cached`, or `{ error }` with its status. */
  datatype Response =
    | Summary(summary: string)
    | Analyzed(analysis: Analysis, cached: bool)
    | Error(status: nat, error: string)

  /** `mode` selects the quick summary only when it is `'quick'`; a
      missing mode defaults to `'full'`. */
  predicate IsQuick(mode: Option<string>) {
    mode.GetOr("full") == "quick"
  }

  /** The answer in quick mode. */
  function QuickResponse(quickSummary: Outcome<string>): (r: Response)
    ensures r.Summary? <==> quickSummary.Ok?
    ensures r.Summary? ==> r.summary == quickSummary.value
    ensures r.Error? ==> r == Error(500, ANALYSIS_FAILED + quickSummary.error)
  {
    match quickSummary
    case Ok(s) => Summary(s)
    case Fail(e) => Error(500, ANALYSIS_FAILED + e)
  }

  /** The answer of a full analysis the cache had nothing for: the title
      check, then the analysis or its error. */
  function MissResponse(title: Option<string>, analyze: Outcome<Analysis>): (r: Response)
    ensures r.Analyzed? <==> Truthy(title) && analyze.Ok?
    ensures r.Analyzed? ==> r == Analyzed(analyze.value, false)
    ensures !Truthy(title) ==> r == Error(400, TITLE_REQUIRED)
    ensures Truthy(title) && analyze.Fail? ==> r == Error(500, ANALYSIS_FAILED + analyze.error)
  {
    if !Truthy(title) then Error(400, TITLE_REQUIRED)
    else match analyze
      case Ok(a) => Analyzed(a, false)
      case Fail(e) => Error(500, ANALYSIS_FAILED + e)
  }

  /** The answer came from the cache. */
  predicate FromCache(resp: Response) {
    resp.Analyzed? && resp.cached
  }

  /** `POST`: the body's fields, the two oracles, the database clock and
      whether the cache's query and upsert fail. `summarised` and
      `analyzed` say which model call was made. */
  method Post(db: Database, title: Option<string>, abstractText: Option<string>, arxivId: Option<string>,
              source: Option<string>, mode: Option<string>,
              quickSummary: Outcome<string>, analyze: Outcome<Analysis>, now: Timestamp,
              readFails: bool, writeFails: bool)
    returns (resp: Response, summarised: bool, analyzed: bool)
    requires db.Valid()
    modifies db
    ensures db.Valid() && db.bookmarks == old(db.bookmarks)
    ensures !(summarised && analyzed)
    // the abstract is checked before anything else
    ensures !Truthy(abstractText) ==>
      resp == Error(400, ABSTRACT_REQUIRED) && !summarised && !analyzed && db.cache == old(db.cache)
    // quick mode neither reads nor writes the cache
    ensures Truthy(abstractText) && IsQuick(mode) ==>
      resp == QuickResponse(quickSummary) && summarised && !analyzed && db.cache == old(db.cache)
    ensures summarised <==> Truthy(abstractText) && IsQuick(mode)
    // a cached answer is the analysis of a row the id looks up, and calls no model
    ensures FromCache(resp) ==>
      Truthy(abstractText) && !IsQuick(mode) && Truthy(arxivId) && !readFails && !analyzed &&
      db.cache == old(db.cache) &&
      exists k :: k in old(db.cache) && LegacyHit(k, old(db.cache)[k], arxivId.value) &&
        old(db.cache)[k].analysis == Some(resp.analysis)
    // the cache is consulted before the title is checked
    ensures (Truthy(abstractText) && !IsQuick(mode) && Truthy(arxivId) && !readFails &&
             AlwaysServed(old(db.cache), arxivId.value, AnalysisColumn)) ==> FromCache(resp)
    ensures (Truthy(abstractText) && !IsQuick(mode) &&
             (!Truthy(arxivId) || readFails || NeverServed(old(db.cache), arxivId.value, AnalysisColumn))) ==>
      !FromCache(resp)
    // otherwise the title is checked and the analysis asked for
    ensures Truthy(abstractText) && !IsQuick(mode) && !FromCache(resp) ==>
      resp == MissResponse(title, analyze) && (analyzed <==> Truthy(title))
    // and a fresh analysis is saved for the id when there is one
    ensures Truthy(abstractText) && !IsQuick(mode) && !FromCache(resp) ==>
      db.cache == if Truthy(arxivId) && resp.Analyzed? && !writeFails
        then RouteSave(old(db.cache), source, arxivId.value, WriteAnalysis(resp.analysis), now)
        else old(db.cache)
  {
    summarised, analyzed := false, false;
    if !Truthy(abstractText) {
      return Error(400, ABSTRACT_REQUIRED), false, false;
    }
    if IsQuick(mode) {
      summarised := true;
      if quickSummary.Ok? {
        resp := Summary(quickSummary.value);
      } else {
        resp := Error(500, ANALYSIS_FAILED + quickSummary.error);
      }
      return;
    }
    if Truthy(arxivId) {
      var hit := db.GetPaperCache(arxivId.value, None, readFails);
      if hit.Some? && hit.value.row.analysis.Some? {
        return Analyzed(hit.value.row.analysis.value, true), false, false;
      }
    }
    if !Truthy(title) {
      return Error(400, TITLE_REQUIRED), false, false;
    }
    analyzed := true;
    if analyze.Fail? {
      resp := Error(500, ANALYSIS_FAILED + analyze.error);
      return;
    }
    var analysis := analyze.value;
    if Truthy(arxivId) {
      var (first, sourceId) := SaveArgs(source, arxivId.value);
      var _ := db.SaveAnalysis(first, sourceId, analysis, now, writeFails);
    }
    resp := Analyzed(analysis, false);
  }

  /** Read after write: a fresh analysis saved for an id is what the next
      full request for that id is answered with, from the cache, whatever
      its title, when no other row answers that id. */
  lemma AnalysisIsServedNextTime(cache: map<CacheKey, CacheRow>, source: Option<string>, id: string,
                                 title: Option<string>, analyze: Outcome<Analysis>, now: Timestamp)
    requires MissResponse(title, analyze).Analyzed?
    requires forall k :: k in cache && LegacyHit(k, cache[k], id) ==>
      k == (if Truthy(source) then source.value else "arxiv", id)
    ensures var after := RouteSave(cache, source, id, WriteAnalysis(analyze.value), now);
      AlwaysServed(after, id, AnalysisColumn) &&
      forall k :: k in after && LegacyHit(k, after[k], id) ==> after[k].analysis == Some(analyze.value)
  {
    SavedIsServed(cache, source, id, WriteAnalysis(analyze.value), now);
  }
}
