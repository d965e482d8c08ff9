/** `/api/infographic` (src/app/api/infographic/route.ts:39-201): `GET`
    returns the mindmap cached for an id; `POST` returns the cached one
    unless asked to regenerate, and otherwise has the models write a
    Mermaid mindmap, cleans the reply up, saves it for the id and returns
    it. The model call is an oracle from a model name to the reply's
    content (absent when the reply has none) or the error it throws; the
    quote-stripping step of the clean-up is the parameter `unquote`. */
module InfographicRoute {
  import opened Wrappers
  import opened JsStrings
  import opened PaperTypes
  import opened Db
  import opened RouteCache
  import opened ModelFallback
  import opened MermaidCleanup

  const ID_REQUIRED: string := "arxivId가 필요합니다"
  const FIELDS_REQUIRED: string := "제목, 요약, 핵심 포인트가 필요합니다"
  const API_KEY_MISSING: string := "OPENAI_API_KEY가 설정되지 않았습니다"
  const GENERATE_FAILED: string := "다이어그램 생성 중 오류: "

  /** The answers of `GET`: `{ success: true, diagramCode, cached: true }`,
      `{ success: false, diagramCode: null }`, or `{ error }` with its
      status. */
  datatype LookupResponse =
    | Found(diagramCode: string)
    | NotFound
    | LookupError(status: nat, error: string)

  /** The answers of `POST`: `{ success: true, diagramCode, cached }`, or
      `{ error }` with its status. */
  datatype Response =
    | Diagram(diagramCode: string, cached: bool)
    | Error(status: nat, error: string)

  /** `GET`: the id is required; the answer is the mindmap of the row the
      id looks up, when it has one. A failing query reads as a miss. */
  method Get(db: Database, arxivId: Option<string>, readFails: bool) returns (resp: LookupResponse)
    ensures !Truthy(arxivId) ==> resp == LookupError(400, ID_REQUIRED)
    ensures resp.Found? ==>
      Truthy(arxivId) && !readFails && resp.diagramCode != "" &&
      exists k :: k in db.cache && LegacyHit(k, db.cache[k], arxivId.value) &&
        db.cache[k].infographicUrl == Some(resp.diagramCode)
    ensures Truthy(arxivId) && !readFails && AlwaysServed(db.cache, arxivId.value, InfographicColumn) ==> resp.Found?
    ensures Truthy(arxivId) && (readFails || NeverServed(db.cache, arxivId.value, InfographicColumn)) ==>
      resp == NotFound
  {
    if !Truthy(arxivId) {
      return LookupError(400, ID_REQUIRED);
    }
    var hit := db.GetPaperCache(arxivId.value, None, readFails);
    if hit.Some? && Truthy(hit.value.row.infographicUrl) {
      return Found(hit.value.row.infographicUrl.value);
    }
    resp := NotFound;
  }

  /** The mindmap made of a reply's content: trimmed (empty when there is
      none), then cleaned up. */
  function DiagramOf(content: Option<string>, unquote: string -> string): (code: string)
    ensures var lines := Split(StripTrailingBlanks(unquote(StripFences(Trim(content.GetOr(""))))), '\n');
      Split(code, '\n') == [lines[0]] + FixLines(lines[1..])
  {
    CleanupShape(Trim(content.GetOr("")), unquote);
    Cleanup(Trim(content.GetOr("")), unquote)
  }

  /** The answer when the cache was skipped or had nothing: the key check,
      then the outcome of the fallback loop. */
  function MissResponse(hasApiKey: bool, result: Outcome<Option<string>>, unquote: string -> string): (r: Response)
    ensures r.Diagram? <==> hasApiKey && result.Ok?
    ensures r.Diagram? ==> !r.cached && r.diagramCode == DiagramOf(result.value, unquote)
    ensures !hasApiKey ==> r == Error(500, API_KEY_MISSING)
    ensures hasApiKey && result.Fail? ==> r == Error(500, GENERATE_FAILED + result.error)
  {
    if !hasApiKey then Error(500, API_KEY_MISSING)
    else match result
      case Ok(content) => Diagram(DiagramOf(content, unquote), false)
      case Fail(e) => Error(500, GENERATE_FAILED + e)
  }

  /** The answer came from the cache. */
  predicate FromCache(resp: Response) {
    resp.Diagram? && resp.cached
  }

  /** The request's fields are all there: a title, a summary and a list
      of key points (an empty list counts). */
  predicate HasFields(title: Option<string>, summary: Option<string>, keyPoints: Option<seq<string>>) {
    Truthy(title) && Truthy(summary) && keyPoints.Some?
  }

  /** `POST`: the body's fields (`forceRegenerate` as its truthiness), the
      model oracle, the quote-stripping step, the database clock and
      whether the cache's query and upsert fail. `attempts` counts the
      model calls made. */
  method Post(db: Database, title: Option<string>, summary: Option<string>, keyPoints: Option<seq<string>>,
              arxivId: Option<string>, source: Option<string>, forceRegenerate: bool,
              hasApiKey: bool, call: string -> Outcome<Option<string>>, unquote: string -> string,
              now: Timestamp, readFails: bool, writeFails: bool)
    returns (resp: Response, attempts: nat)
    requires db.Valid()
    modifies db
    ensures db.Valid() && db.bookmarks == old(db.bookmarks)
    // the fields are checked before anything else
    ensures !HasFields(title, summary, keyPoints) ==>
      resp == Error(400, FIELDS_REQUIRED) && attempts == 0 && db.cache == old(db.cache)
    // a cached answer is the mindmap of a row the id looks up, and costs no call
    ensures FromCache(resp) ==>
      HasFields(title, summary, keyPoints) && Truthy(arxivId) && !forceRegenerate && !readFails &&
      attempts == 0 && db.cache == old(db.cache) && resp.diagramCode != "" &&
      exists k :: k in old(db.cache) && LegacyHit(k, old(db.cache)[k], arxivId.value) &&
        old(db.cache)[k].infographicUrl == Some(resp.diagramCode)
    ensures (HasFields(title, summary, keyPoints) && Truthy(arxivId) && !forceRegenerate && !readFails &&
             AlwaysServed(old(db.cache), arxivId.value, InfographicColumn)) ==> FromCache(resp)
    // regenerating, or a miss, goes to the models
    ensures (HasFields(title, summary, keyPoints) &&
             (!Truthy(arxivId) || forceRegenerate || readFails ||
              NeverServed(old(db.cache), arxivId.value, InfographicColumn))) ==> !FromCache(resp)
    ensures HasFields(title, summary, keyPoints) && !FromCache(resp) ==>
      resp == MissResponse(hasApiKey, FallbackResult(MODELS, call), unquote) &&
      attempts == (if hasApiKey then FallbackAttempts(MODELS, call) else 0)
    // a non-empty mindmap is saved for the id when there is one
    ensures HasFields(title, summary, keyPoints) && !FromCache(resp) ==>
      db.cache == if Truthy(arxivId) && resp.Diagram? && resp.diagramCode != "" && !writeFails
        then RouteSave(old(db.cache), source, arxivId.value, WriteInfographic(resp.diagramCode), now)
        else old(db.cache)
  {
    if !HasFields(title, summary, keyPoints) {
      return Error(400, FIELDS_REQUIRED), 0;
    }
    if Truthy(arxivId) && !forceRegenerate {
      var hit := db.GetPaperCache(arxivId.value, None, readFails);
      if hit.Some? && Truthy(hit.value.row.infographicUrl) {
        return Diagram(hit.value.row.infographicUrl.value, true), 0;
      }
    }
    resp, attempts := Generate(db, arxivId, source, hasApiKey, call, unquote, now, writeFails);
  }

  /** The part of `POST` after the cache: the key check, the models, the
      clean-up and the save. */
  method Generate(db: Database, arxivId: Option<string>, source: Option<string>,
                  hasApiKey: bool, call: string -> Outcome<Option<string>>, unquote: string -> string,
                  now: Timestamp, writeFails: bool)
    returns (resp: Response, attempts: nat)
    requires db.Valid()
    modifies db
    ensures db.Valid() && db.bookmarks == old(db.bookmarks)
    ensures resp == MissResponse(hasApiKey, FallbackResult(MODELS, call), unquote)
    ensures attempts == if hasApiKey then FallbackAttempts(MODELS, call) else 0
    ensures db.cache == if Truthy(arxivId) && resp.Diagram? && resp.diagramCode != "" && !writeFails
      then RouteSave(old(db.cache), source, arxivId.value, WriteInfographic(resp.diagramCode), now)
      else old(db.cache)
  {
    if !hasApiKey {
      return Error(500, API_KEY_MISSING), 0;
    }
    var result;
    result, attempts := TryModels(MODELS, call);
    if result.Fail? {
      return Error(500, GENERATE_FAILED + result.error), attempts;
    }
    var code := DiagramOf(result.value, unquote);
    if Truthy(arxivId) && code != "" {
      var (first, sourceId) := SaveArgs(source, arxivId.value);
      var _ := db.SaveInfographicUrl(first, sourceId, code, now, writeFails);
    }
    resp := Diagram(code, false);
  }

  /** Read after write: a mindmap `POST` has saved for an id is what the
      next `GET` for that id answers with, when no other row answers that
      id. */
  lemma DiagramIsFoundNextTime(cache: map<CacheKey, CacheRow>, source: Option<string>, id: string,
                               code: string, now: Timestamp)
    requires code != ""
    requires forall k :: k in cache && LegacyHit(k, cache[k], id) ==>
      k == (if Truthy(source) then source.value else "arxiv", id)
    ensures var after := RouteSave(cache, source, id, WriteInfographic(code), now);
      AlwaysServed(after, id, InfographicColumn) &&
      forall k :: k in after && LegacyHit(k, after[k], id) ==> after[k].infographicUrl == Some(code)
  {
    SavedIsServed(cache, source, id, WriteInfographic(code), now);
  }
}
