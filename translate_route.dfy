/** `POST /api/translate` (src/app/api/translate/route.ts:40-102): the
    text is required; a translation cached for the id is returned as is;
    otherwise the models are tried in order, the reply is trimmed, saved
    for the id when there is one, and returned. The model call is an
    oracle from a model name to the reply's content (absent when the reply
    has none) or the error it throws. */
module TranslateRoute {
  import opened Wrappers
  import opened JsStrings
  import opened PaperTypes
  import opened Db
  import opened RouteCache
  import opened ModelFallback

  const TEXT_REQUIRED: string := "번역할 텍스트가 필요합니다"
  const API_KEY_MISSING: string := "API 키가 설정되지 않았습니다"
  const TRANSLATE_FAILED: string := "번역 중 오류가 발생했습니다: "

  /** The JSON the route answers with: `{ translation, cached }`, or
      `{ error }` with its status. */
  datatype Response =
    | Translated(translation: string, cached: bool)
    | Error(status: nat, error: string)

  /** The answer when the cache had nothing to give: the key check, then
      the outcome of the fallback loop, the reply's content trimmed (or
      empty when there is none). */
  function MissResponse(hasApiKey: bool, result: Outcome<Option<string>>): (r: Response)
    ensures r.Translated? <==> hasApiKey && result.Ok?
    ensures r.Translated? ==> !r.cached && IsTrimmed(r.translation)
    ensures r.Translated? && result.value.Some? ==> r.translation == Trim(result.value.value)
    ensures r.Translated? && result.value.None? ==> r.translation == ""
    ensures r.Error? ==> r.status == 500
    ensures r.Error? && hasApiKey ==> r.error == TRANSLATE_FAILED + result.error
    ensures !hasApiKey ==> r == Error(500, API_KEY_MISSING)
  {
    if !hasApiKey then Error(500, API_KEY_MISSING)
    else match result
      case Ok(content) => Translated(Trim(content.GetOr("")), false)
      case Fail(e) => Error(500, TRANSLATE_FAILED + e)
  }

  /** The answer came from the cache. */
  predicate FromCache(resp: Response) {
    resp.Translated? && resp.cached
  }

  /** `POST`: `text`, `arxivId` and `source` are the body's fields;
      `readFails` and `writeFails` say whether the cache's query and
      upsert fail (each then behaves as a miss, or as no save); `now` is
      the database clock. `attempts` counts the model calls made. */
  method Post(db: Database, text: Option<string>, arxivId: Option<string>, source: Option<string>,
              hasApiKey: bool, call: string -> Outcome<Option<string>>, now: Timestamp,
              readFails: bool, writeFails: bool)
    returns (resp: Response, attempts: nat)
    requires db.Valid()
    modifies db
    ensures db.Valid() && db.bookmarks == old(db.bookmarks)
    // the text is checked before anything else
    ensures !Truthy(text) ==> resp == Error(400, TEXT_REQUIRED) && attempts == 0 && db.cache == old(db.cache)
    // a cached answer is a non-empty translation of a row the id looks up, and costs no call
    ensures FromCache(resp) ==>
      Truthy(text) && Truthy(arxivId) && !readFails && attempts == 0 && db.cache == old(db.cache) &&
      exists k :: k in old(db.cache) && LegacyHit(k, old(db.cache)[k], arxivId.value) &&
        old(db.cache)[k].translation == Some(resp.translation) && resp.translation != ""
    // when every row the id looks up holds a translation, the answer is cached
    ensures Truthy(text) && Truthy(arxivId) && !readFails && AlwaysServed(old(db.cache), arxivId.value, TranslationColumn) ==>
      FromCache(resp)
    // when no row holds one, the models are asked
    ensures Truthy(text) && (!Truthy(arxivId) || readFails || NeverServed(old(db.cache), arxivId.value, TranslationColumn)) ==>
      !FromCache(resp)
    // otherwise the answer is the fallback loop's, and so is the number of calls
    ensures Truthy(text) && !FromCache(resp) ==>
      resp == MissResponse(hasApiKey, FallbackResult(MODELS, call)) &&
      attempts == (if hasApiKey then FallbackAttempts(MODELS, call) else 0)
    // and the translation is saved for the id when there is one
    ensures Truthy(text) && !FromCache(resp) ==>
      db.cache == if Truthy(arxivId) && resp.Translated? && !writeFails
        then RouteSave(old(db.cache), source, arxivId.value, WriteTranslation(resp.translation), now)
        else old(db.cache)
  {
    if !Truthy(text) {
      return Error(400, TEXT_REQUIRED), 0;
    }
    if Truthy(arxivId) {
      var hit := db.GetPaperCache(arxivId.value, None, readFails);
      if hit.Some? && Truthy(hit.value.row.translation) {
        return Translated(hit.value.row.translation.value, true), 0;
      }
    }
    if !hasApiKey {
      return Error(500, API_KEY_MISSING), 0;
    }
    var result;
    result, attempts := TryModels(MODELS, call);
    if result.Fail? {
      return Error(500, TRANSLATE_FAILED + result.error), attempts;
    }
    var translation := Trim(result.value.GetOr(""));
    if Truthy(arxivId) {
      var (first, sourceId) := SaveArgs(source, arxivId.value);
      var _ := db.SaveTranslation(first, sourceId, translation, now, writeFails);
    }
    resp := Translated(translation, false);
  }

  /** Read after write: a request that reached the models and got a
      non-empty translation leaves the cache serving it to the next
      request for the same id, when no other row answers that id. */
  lemma TranslationIsServedNextTime(cache: map<CacheKey, CacheRow>, source: Option<string>, id: string,
                                    result: Outcome<Option<string>>, now: Timestamp)
    requires MissResponse(true, result).Translated? && MissResponse(true, result).translation != ""
    requires forall k :: k in cache && LegacyHit(k, cache[k], id) ==>
      k == (if Truthy(source) then source.value else "arxiv", id)
    ensures var t := MissResponse(true, result).translation;
      AlwaysServed(RouteSave(cache, source, id, WriteTranslation(t), now), id, TranslationColumn)
  {
    var t := MissResponse(true, result).translation;
    SavedIsServed(cache, source, id, WriteTranslation(t), now);
  }
}
