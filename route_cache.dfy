/** The cache policy the three AI routes share
    (src/app/api/translate/route.ts:50-55, 85-91,
    src/app/api/analyze/route.ts:21-26, 35-41,
    src/app/api/infographic/route.ts:76-85, 179-185): a lookup by the bare
    id before any model call, and a save after it under the pair
    `(source, id)` for a source other than `arxiv`, under the bare id
    otherwise. */
module RouteCache {
  import opened Wrappers
  import opened PaperTypes
  import opened Db

  /** The arguments a route passes to a save: `(source, arxivId, value)`
      when `source && source !== 'arxiv'`, `(arxivId, value)` otherwise. */
  function SaveArgs(source: Option<string>, arxivId: string): (string, Option<string>) {
    if Truthy(source) && source.value != "arxiv" then (source.value, Some(arxivId)) else (arxivId, None)
  }

  /** Whichever form is chosen, the row written is keyed by the source, or
      `arxiv` when none is given, and the id; only the bare form sets
      `arxiv_id`, which it only does when inserting. */
  lemma SaveKey(source: Option<string>, arxivId: string)
    ensures SaveTarget(SaveArgs(source, arxivId).0, SaveArgs(source, arxivId).1).0 ==
      (if Truthy(source) then source.value else "arxiv", arxivId)
    ensures SaveTarget(SaveArgs(source, arxivId).0, SaveArgs(source, arxivId).1).1 ==
      (if Truthy(source) && source.value != "arxiv" then None else Some(arxivId))
  {
  }

  /** The upsert a route's save makes. */
  function RouteSave(cache: map<CacheKey, CacheRow>, source: Option<string>, arxivId: string, w: CacheWrite, now: Timestamp)
    : map<CacheKey, CacheRow>
  {
    var (first, sourceId) := SaveArgs(source, arxivId);
    var (key, insertedArxivId) := SaveTarget(first, sourceId);
    Upsert(cache, key, insertedArxivId, w, now)
  }

  /** The route treats the row's column as a hit: `cache?.translation`,
      `cache?.analysis` and `cache?.infographic_url` are truthy. */
  predicate Served(row: CacheRow, c: Column) {
    match c
    case TranslationColumn => Truthy(row.translation)
    case AnalysisColumn => row.analysis.Some?
    case InfographicColumn => Truthy(row.infographicUrl)
  }

  /** The value a save writes is one a later lookup serves. */
  predicate Servable(w: CacheWrite) {
    match w
    case WriteTranslation(t) => t != ""
    case WriteAnalysis(_) => true
    case WriteInfographic(u) => u != ""
  }

  /** Some row answers the bare-id lookup of `id`. */
  predicate AnyLegacyHit(cache: map<CacheKey, CacheRow>, id: string) {
    exists k :: k in cache && LegacyHit(k, cache[k], id)
  }

  /** The bare-id lookup of `id` is a hit for column `c` whichever of the
      matching rows it returns. */
  predicate AlwaysServed(cache: map<CacheKey, CacheRow>, id: string, c: Column) {
    AnyLegacyHit(cache, id) && forall k :: k in cache && LegacyHit(k, cache[k], id) ==> Served(cache[k], c)
  }

  /** The bare-id lookup of `id` is a miss for column `c` whichever of the
      matching rows it returns. */
  predicate NeverServed(cache: map<CacheKey, CacheRow>, id: string, c: Column) {
    forall k :: k in cache && LegacyHit(k, cache[k], id) ==> !Served(cache[k], c)
  }

  /** Read after write: once a route has saved a servable value for `id`,
      the next request for `id` is served that value from the cache, as
      long as no other row answers the bare-id lookup of `id`. */
  lemma SavedIsServed(cache: map<CacheKey, CacheRow>, source: Option<string>, id: string, w: CacheWrite, now: Timestamp)
    requires Servable(w)
    requires forall k :: k in cache && LegacyHit(k, cache[k], id) ==>
      k == (if Truthy(source) then source.value else "arxiv", id)
    ensures AlwaysServed(RouteSave(cache, source, id, w, now), id, w.Column())
    ensures var key := (if Truthy(source) then source.value else "arxiv", id);
      Holds(RouteSave(cache, source, id, w, now)[key], w, now)
  {
    SaveKey(source, id);
    var key := (if Truthy(source) then source.value else "arxiv", id);
    var (first, sourceId) := SaveArgs(source, id);
    var insertedArxivId := SaveTarget(first, sourceId).1;
    var after := RouteSave(cache, source, id, w, now);
    UpsertTouchesOneRow(cache, key, insertedArxivId, w, now);
    assert key in after && LegacyHit(key, after[key], id);
  }
}
