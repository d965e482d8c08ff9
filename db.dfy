/** The PostgreSQL store (src/lib/db.ts). The `bookmarks` table is a list
    of rows kept unique by `(source, source_id)` by its unique index; the
    `paper_cache` table is a map from `(source, source_id)` to the cached
    translation, analysis and infographic of one paper. Each statement is
    modelled by what it does to these values; `queryFails` stands for the
    query raising, which every operation turns into `null`, `false` or
    `[]`. Generated ids and `NOW()` are parameters. */
module Db {
  import opened Wrappers
  import opened PaperTypes
  import opened SeqUtil
  import opened KeyedList
  import opened StableSort

  // ---------------------------------------------------------------------
  // The bookmarks table

  /** A row of `bookmarks`. */
  datatype BookmarkRow = BookmarkRow(
    id: string,
    arxivId: Option<string>,
    source: string,
    sourceId: string,
    title: string,
    authors: seq<string>,
    abstractText: string,
    categories: seq<string>,
    publishedAt: Timestamp,
    pdfUrl: string,
    aiSummary: Option<string>,
    createdAt: Timestamp)

  /** The columns of the unique index. */
  function RowKey(r: BookmarkRow): (string, string) {
    (r.source, r.sourceId)
  }

  function CreatedAt(r: BookmarkRow): int {
    r.createdAt
  }

  /** `WHERE source = $1 AND source_id = $2`. */
  function PairIs(source: string, sourceId: string): BookmarkRow -> bool {
    (r: BookmarkRow) => r.source == source && r.sourceId == sourceId
  }

  /** `WHERE arxiv_id = $1 OR (source = 'arxiv' AND source_id = $1)`: the
      bare-id form of the lookups and the delete. */
  function LegacyIs(arxivId: string): BookmarkRow -> bool {
    (r: BookmarkRow) => r.arxivId == Some(arxivId) || (r.source == "arxiv" && r.sourceId == arxivId)
  }

  /** `WHERE arxiv_id = $2`: the bare-id form of the summary update. */
  function ArxivIdIs(arxivId: string): BookmarkRow -> bool {
    (r: BookmarkRow) => r.arxivId == Some(arxivId)
  }

  /** The rows an overloaded call selects: the pair form when the second
      argument is a non-empty string, the bare-id form otherwise. */
  function Selects(sourceOrArxivId: string, sourceId: Option<string>): BookmarkRow -> bool {
    if Truthy(sourceId) then PairIs(sourceOrArxivId, sourceId.value) else LegacyIs(sourceOrArxivId)
  }

  /** The row `addBookmark` inserts; empty strings for the arXiv id and the
      summary are stored as `NULL`. */
  function InsertedRow(paper: Paper, aiSummary: Option<string>, id: string, now: Timestamp): (r: BookmarkRow)
    ensures RowKey(r) == (SourceName(paper.source), paper.sourceId)
    ensures r.arxivId.Some? <==> Truthy(paper.arxivId)
    ensures r.aiSummary.Some? <==> Truthy(aiSummary)
  {
    BookmarkRow(id, OrNull(paper.arxivId), SourceName(paper.source), paper.sourceId,
                paper.title, paper.authors, paper.abstractText, paper.categories,
                paper.publishedAt, paper.pdfUrl, OrNull(aiSummary), now)
  }

  function SetSummary(summary: string): BookmarkRow -> BookmarkRow {
    (r: BookmarkRow) => r.(aiSummary := Some(summary))
  }

  /** The rows and the new summary of an overloaded `updateAISummary`: the
      pair form when a third argument is given, else the bare-id form with
      the second argument as the summary. */
  function SummaryTarget(sourceOrArxivId: string, sourceIdOrSummary: string, aiSummary: Option<string>)
    : (BookmarkRow -> bool, string)
  {
    if aiSummary.Some? then (PairIs(sourceOrArxivId, sourceIdOrSummary), aiSummary.value)
    else (ArxivIdIs(sourceOrArxivId), sourceIdOrSummary)
  }

  /** An update of the summary touches no key column, so the unique index
      still holds, and every row it selects then carries the summary. */
  lemma SummaryUpdateKeepsKeys(rows: seq<BookmarkRow>, m: BookmarkRow -> bool, summary: string)
    requires UniqueBy(rows, RowKey)
    ensures UniqueBy(UpdateWhere(rows, m, SetSummary(summary)), RowKey)
    ensures forall i :: 0 <= i < |rows| && m(rows[i]) ==>
      UpdateWhere(rows, m, SetSummary(summary))[i].aiSummary == Some(summary)
  {
    UpdateWhereKeepsUnique(rows, m, SetSummary(summary), RowKey);
  }

  /** A fresh pair inserted into a table that lacks it keeps the index
      unique. */
  lemma InsertKeepsUnique(rows: seq<BookmarkRow>, row: BookmarkRow)
    requires UniqueBy(rows, RowKey)
    requires !AnyMatch(rows, PairIs(row.source, row.sourceId))
    ensures UniqueBy(rows + [row], RowKey)
  {
    forall i | 0 <= i < |rows|
      ensures RowKey(rows[i]) != RowKey(row)
    {
      assert !PairIs(row.source, row.sourceId)(rows[i]);
    }
    AppendKeepsUnique(rows, row, RowKey);
  }

  // ---------------------------------------------------------------------
  // The paper_cache table

  /** `(source, source_id)`. */
  type CacheKey = (string, string)

  /** A row of `paper_cache`, without its key columns. */
  datatype CacheRow = CacheRow(
    arxivId: Option<string>,
    translation: Option<string>,
    translatedAt: Option<Timestamp>,
    analysis: Option<Analysis>,
    analyzedAt: Option<Timestamp>,
    infographicUrl: Option<string>,
    infographicCreatedAt: Option<Timestamp>,
    createdAt: Timestamp,
    updatedAt: Timestamp)

  /** `PaperCache`: a row with its key, as `SELECT *` returns it. */
  datatype CachedPaper = CachedPaper(key: CacheKey, row: CacheRow)

  /** The three cached results, each a value column with its timestamp. */
  datatype Column = TranslationColumn | AnalysisColumn | InfographicColumn

  /** What one save writes. */
  datatype CacheWrite =
    | WriteTranslation(text: string)
    | WriteAnalysis(analysis: Analysis)
    | WriteInfographic(url: string)
  {
    function Column(): Column {
      match this
      case WriteTranslation(_) => TranslationColumn
      case WriteAnalysis(_) => AnalysisColumn
      case WriteInfographic(_) => InfographicColumn
    }
  }

  /** The row an `INSERT` creates before its value is set: the defaults,
      `created_at = updated_at = NOW()`. */
  function FreshRow(arxivId: Option<string>, now: Timestamp): CacheRow {
    CacheRow(arxivId, None, None, None, None, None, None, now, now)
  }

  /** `SET <column> = $3, <column>_at = NOW()`. */
  function Write(row: CacheRow, w: CacheWrite, now: Timestamp): CacheRow {
    match w
    case WriteTranslation(t) => row.(translation := Some(t), translatedAt := Some(now))
    case WriteAnalysis(a) => row.(analysis := Some(a), analyzedAt := Some(now))
    case WriteInfographic(u) => row.(infographicUrl := Some(u), infographicCreatedAt := Some(now))
  }

  /** `row` holds what `w` wrote at `now`. */
  predicate Holds(row: CacheRow, w: CacheWrite, now: Timestamp) {
    match w
    case WriteTranslation(t) => row.translation == Some(t) && row.translatedAt == Some(now)
    case WriteAnalysis(a) => row.analysis == Some(a) && row.analyzedAt == Some(now)
    case WriteInfographic(u) => row.infographicUrl == Some(u) && row.infographicCreatedAt == Some(now)
  }

  /** `a` and `b` agree on column `c` and its timestamp. */
  predicate SameColumn(a: CacheRow, b: CacheRow, c: Column) {
    match c
    case TranslationColumn => a.translation == b.translation && a.translatedAt == b.translatedAt
    case AnalysisColumn => a.analysis == b.analysis && a.analyzedAt == b.analyzedAt
    case InfographicColumn => a.infographicUrl == b.infographicUrl && a.infographicCreatedAt == b.infographicCreatedAt
  }

  /** `INSERT ... ON CONFLICT (source, source_id) DO UPDATE SET ...`: the
      row under `key` gets the write, inserted with `arxivId` when absent. */
  function Upsert(cache: map<CacheKey, CacheRow>, key: CacheKey, arxivId: Option<string>, w: CacheWrite, now: Timestamp)
    : map<CacheKey, CacheRow>
  {
    cache[key := Write(if key in cache then cache[key] else FreshRow(arxivId, now), w, now)]
  }

  /** The key and insert-time `arxiv_id` of an overloaded save: the pair
      form when the id argument is given, else `('arxiv', id)` with
      `arxiv_id = id`. */
  function SaveTarget(sourceOrArxivId: string, sourceId: Option<string>): (CacheKey, Option<string>) {
    if sourceId.Some? then ((sourceOrArxivId, sourceId.value), None)
    else (("arxiv", sourceOrArxivId), Some(sourceOrArxivId))
  }

  /** The bare-id lookup `WHERE arxiv_id = $1 OR source_id = $1`, of any
      source. */
  predicate LegacyHit(key: CacheKey, row: CacheRow, id: string) {
    row.arxivId == Some(id) || key.1 == id
  }

  /** An upsert writes exactly one row, under its key: no second row for
      the key appears and every other row stays. */
  lemma UpsertTouchesOneRow(cache: map<CacheKey, CacheRow>, key: CacheKey, arxivId: Option<string>, w: CacheWrite, now: Timestamp)
    ensures Upsert(cache, key, arxivId, w, now).Keys == cache.Keys + {key}
    ensures forall k :: k in cache && k != key ==> Upsert(cache, key, arxivId, w, now)[k] == cache[k]
    ensures Holds(Upsert(cache, key, arxivId, w, now)[key], w, now)
  {
    var r := Write(if key in cache then cache[key] else FreshRow(arxivId, now), w, now);
    assert Holds(r, w, now) by {
      match w
      case WriteTranslation(_) =>
      case WriteAnalysis(_) =>
      case WriteInfographic(_) =>
    }
  }

  /** An upsert of one column leaves the other two columns, `arxiv_id`,
      `created_at` and `updated_at` of an existing row as they were; a new
      row has only the written column set, and the given `arxiv_id`. */
  lemma UpsertKeepsOtherColumns(cache: map<CacheKey, CacheRow>, key: CacheKey, arxivId: Option<string>, w: CacheWrite, now: Timestamp, c: Column)
    requires c != w.Column()
    ensures var r := Upsert(cache, key, arxivId, w, now)[key];
      var before := if key in cache then cache[key] else FreshRow(arxivId, now);
      SameColumn(r, before, c) && r.arxivId == before.arxivId &&
      r.createdAt == before.createdAt && r.updatedAt == before.updatedAt
  {
    match w
    case WriteTranslation(_) =>
    case WriteAnalysis(_) =>
    case WriteInfographic(_) =>
  }

  /** Upserts of different columns under one existing key commute: neither
      undoes the other. */
  lemma UpsertsCommute(cache: map<CacheKey, CacheRow>, key: CacheKey, a1: Option<string>, w1: CacheWrite, n1: Timestamp,
                       a2: Option<string>, w2: CacheWrite, n2: Timestamp)
    requires key in cache && w1.Column() != w2.Column()
    ensures Upsert(Upsert(cache, key, a1, w1, n1), key, a2, w2, n2) == Upsert(Upsert(cache, key, a2, w2, n2), key, a1, w1, n1)
  {
    var row := cache[key];
    assert Write(Write(row, w1, n1), w2, n2) == Write(Write(row, w2, n2), w1, n1) by {
      match w1
      case WriteTranslation(_) =>
      case WriteAnalysis(_) =>
      case WriteInfographic(_) =>
    }
  }

  /** Saving the same value twice is saving it once. */
  lemma UpsertIdempotent(cache: map<CacheKey, CacheRow>, key: CacheKey, arxivId: Option<string>, w: CacheWrite, now: Timestamp)
    ensures Upsert(Upsert(cache, key, arxivId, w, now), key, arxivId, w, now) == Upsert(cache, key, arxivId, w, now)
  {
    var before := if key in cache then cache[key] else FreshRow(arxivId, now);
    assert Write(Write(before, w, now), w, now) == Write(before, w, now) by {
      match w
      case WriteTranslation(_) =>
      case WriteAnalysis(_) =>
      case WriteInfographic(_) =>
    }
  }

  /** The bare-id save writes under `('arxiv', id)` and sets `arxiv_id`
      only when it inserts: an existing row keeps its own. */
  lemma LegacySaveSetsArxivIdOnInsert(cache: map<CacheKey, CacheRow>, id: string, w: CacheWrite, now: Timestamp)
    ensures SaveTarget(id, None).0 == ("arxiv", id)
    ensures var r := Upsert(cache, ("arxiv", id), SaveTarget(id, None).1, w, now)[("arxiv", id)];
      r.arxivId == if ("arxiv", id) in cache then cache[("arxiv", id)].arxivId else Some(id)
  {
    match w
    case WriteTranslation(_) =>
    case WriteAnalysis(_) =>
    case WriteInfographic(_) =>
  }

  /** A value saved in either form is found again by the bare-id lookup the
      routes use: the pair form under `(source, id)` through `source_id`,
      the bare form through `source_id` as well. */
  lemma SavedIsFoundByBareId(cache: map<CacheKey, CacheRow>, first: string, sourceId: Option<string>, w: CacheWrite, now: Timestamp)
    ensures var (key, arxivId) := SaveTarget(first, sourceId);
      var id := if sourceId.Some? then sourceId.value else first;
      key in Upsert(cache, key, arxivId, w, now) && LegacyHit(key, Upsert(cache, key, arxivId, w, now)[key], id)
  {
  }

  // ---------------------------------------------------------------------
  // Conflict targets

  /** A unique index: its table, its key columns, and whether it is partial,
      holding only for rows with `source_id IS NOT NULL`. */
  datatype UniqueIndex = UniqueIndex(table: string, columns: seq<string>, partial: bool)

  /** The unique indexes `initDatabase` leaves on the two tables: the
      primary keys on `id` and the two partial indexes on
      `(source, source_id)`. */
  const SchemaIndexes: seq<UniqueIndex> := [
    UniqueIndex("bookmarks", ["id"], false),
    UniqueIndex("bookmarks", ["source", "source_id"], true),
    UniqueIndex("paper_cache", ["id"], false),
    UniqueIndex("paper_cache", ["source", "source_id"], true)]

  /** The target of an `ON CONFLICT` clause: its columns, and whether it
      repeats the partial indexes' `WHERE source_id IS NOT NULL`. */
  datatype ConflictTarget = ConflictTarget(columns: seq<string>, notNullPredicate: bool)

  /** PostgreSQL's arbiter inference: a unique index over the same table and
      the same set of columns is inferred from the target, and a partial one
      only when the target states a predicate implying the index's own. */
  predicate Arbitrates(index: UniqueIndex, table: string, t: ConflictTarget) {
    index.table == table && multiset(index.columns) == multiset(t.columns) &&
    (index.partial ==> t.notNullPredicate)
  }

  /** The indexes inferred for a statement; with none the statement raises
      "there is no unique or exclusion constraint matching the ON CONFLICT
      specification". */
  function Arbiters(indexes: seq<UniqueIndex>, table: string, t: ConflictTarget): (r: seq<UniqueIndex>)
    ensures forall index :: index in r <==> index in indexes && Arbitrates(index, table, t)
  {
    var keep := (index: UniqueIndex) => Arbitrates(index, table, t);
    FilterMembers(indexes, keep);
    Filter(indexes, keep)
  }

  lemma FilterMembers<T(!new)>(s: seq<T>, keep: T -> bool)
    ensures forall x :: x in Filter(s, keep) <==> x in s && keep(x)
  {
    forall x ensures x in Filter(s, keep) <==> x in s && keep(x) {
      assert x in Filter(s, keep) <==> multiset(Filter(s, keep))[x] > 0;
      assert x in s <==> multiset(s)[x] > 0;
    }
  }

  /** The target every upsert and insert-or-ignore of the store names. */
  const WrittenTarget := ConflictTarget(["source", "source_id"], false)

  /** The same target with the index predicate repeated. */
  const IntendedTarget := ConflictTarget(["source", "source_id"], true)

  /** Without the predicate, a target over columns whose only unique index is
      partial infers nothing. */
  lemma PartialIndexNeedsPredicate(indexes: seq<UniqueIndex>, table: string, t: ConflictTarget)
    requires !t.notNullPredicate
    requires forall index :: index in indexes && index.table == table && multiset(index.columns) == multiset(t.columns) ==> index.partial
    ensures Arbiters(indexes, table, t) == []
  {
    var r := Arbiters(indexes, table, t);
    assert forall index :: index in indexes ==> !Arbitrates(index, table, t);
    assert forall index :: index !in r;
  }

  /** As written, every `ON CONFLICT (source, source_id)` statement on either
      table raises, so `addBookmark` answers `null` and every save `false`:
      the `queryFails` path of the store's methods. */
  lemma ConflictTargetAsWritten(table: string)
    requires table == "bookmarks" || table == "paper_cache"
    ensures Arbiters(SchemaIndexes, table, WrittenTarget) == []
  {
    forall index | index in SchemaIndexes && !index.partial
      ensures multiset(index.columns) != multiset(WrittenTarget.columns)
    {
      assert multiset(index.columns)["id"] == 1 != multiset(WrittenTarget.columns)["id"];
    }
    PartialIndexNeedsPredicate(SchemaIndexes, table, WrittenTarget);
  }

  /** With the predicate repeated, the statement infers exactly the table's
      partial index on `(source, source_id)`, the key `Upsert` and
      `AddBookmark` are written over. */
  lemma ConflictTargetWithPredicate(table: string)
    requires table == "bookmarks" || table == "paper_cache"
    ensures forall index :: index in Arbiters(SchemaIndexes, table, IntendedTarget) <==>
      index == UniqueIndex(table, ["source", "source_id"], true)
  {
    var key := UniqueIndex(table, ["source", "source_id"], true);
    assert key in SchemaIndexes;
    forall i | 0 <= i < |SchemaIndexes|
      ensures Arbitrates(SchemaIndexes[i], table, IntendedTarget) <==> SchemaIndexes[i] == key
    {
      var index := SchemaIndexes[i];
      if i % 2 == 0 {
        assert multiset(index.columns)["id"] == 1 != multiset(IntendedTarget.columns)["id"];
      } else {
        assert index.columns == IntendedTarget.columns && index.partial;
      }
    }
  }

  // ---------------------------------------------------------------------
  // The store

  class Database {
    var bookmarks: seq<BookmarkRow>
    var cache: map<CacheKey, CacheRow>

    /** The unique index on `bookmarks(source, source_id)`. */
    ghost predicate Valid()
      reads this
    {
      UniqueBy(bookmarks, RowKey)
    }

    constructor (bookmarks: seq<BookmarkRow>, cache: map<CacheKey, CacheRow>)
      requires UniqueBy(bookmarks, RowKey)
      ensures Valid() && this.bookmarks == bookmarks && this.cache == cache
    {
      this.bookmarks := bookmarks;
      this.cache := cache;
    }

    /** `isBookmarked` in both forms. */
    function IsBookmarked(sourceOrArxivId: string, sourceId: Option<string>, queryFails: bool): (b: bool)
      reads this
      ensures b ==> !queryFails
      ensures !queryFails && Truthy(sourceId) ==>
        (b <==> exists i :: 0 <= i < |bookmarks| && RowKey(bookmarks[i]) == (sourceOrArxivId, sourceId.value))
      ensures !queryFails && !Truthy(sourceId) ==>
        (b <==> exists i :: (0 <= i < |bookmarks| &&
          (bookmarks[i].arxivId == Some(sourceOrArxivId) || RowKey(bookmarks[i]) == ("arxiv", sourceOrArxivId))))
    {
      !queryFails && AnyMatch(bookmarks, Selects(sourceOrArxivId, sourceId))
    }

    /** `addBookmark`: `INSERT ... ON CONFLICT (source, source_id) DO
        NOTHING RETURNING *`. A present pair inserts nothing and returns
        `null`; otherwise the new row is inserted and returned. Either way
        the pair is bookmarked afterwards unless the query failed. */
    method AddBookmark(paper: Paper, aiSummary: Option<string>, id: string, now: Timestamp, queryFails: bool)
      returns (r: Option<BookmarkRow>)
      requires Valid()
      modifies this
      ensures Valid() && cache == old(cache)
      ensures r.Some? <==> !queryFails && !old(AnyMatch(bookmarks, PairIs(SourceName(paper.source), paper.sourceId)))
      ensures r.Some? ==> r.value == InsertedRow(paper, aiSummary, id, now) && bookmarks == old(bookmarks) + [r.value]
      ensures r.None? ==> bookmarks == old(bookmarks)
      ensures !queryFails && paper.sourceId != "" ==> IsBookmarked(SourceName(paper.source), Some(paper.sourceId), false)
    {
      if queryFails {
        return None;
      }
      var row := InsertedRow(paper, aiSummary, id, now);
      var m := PairIs(row.source, row.sourceId);
      if AnyMatch(bookmarks, m) {
        return None;
      }
      InsertKeepsUnique(bookmarks, row);
      bookmarks := bookmarks + [row];
      r := Some(row);
      assert m(bookmarks[|bookmarks| - 1]);
    }

    /** `removeBookmark` in both forms: deletes every selected row and
        reports whether any was deleted. */
    method RemoveBookmark(sourceOrArxivId: string, sourceId: Option<string>, queryFails: bool) returns (removed: bool)
      requires Valid()
      modifies this
      ensures Valid() && cache == old(cache)
      ensures removed <==> old(IsBookmarked(sourceOrArxivId, sourceId, queryFails))
      ensures bookmarks == if queryFails then old(bookmarks) else RemoveAll(old(bookmarks), Selects(sourceOrArxivId, sourceId))
      ensures !IsBookmarked(sourceOrArxivId, sourceId, queryFails)
    {
      if queryFails {
        return false;
      }
      var m := Selects(sourceOrArxivId, sourceId);
      var before := bookmarks;
      RemoveAllKeepsUnique(before, m, RowKey);
      bookmarks := RemoveAll(before, m);
      removed := |bookmarks| < |before|;
    }

    /** `getBookmarks`: every row, newest `created_at` first; rows with the
        same instant come in no particular order. */
    method GetBookmarks(queryFails: bool) returns (rows: seq<BookmarkRow>)
      ensures queryFails ==> rows == []
      ensures !queryFails ==> multiset(rows) == multiset(bookmarks) && SortedDesc(rows, CreatedAt)
    {
      if queryFails {
        return [];
      }
      rows := SortDesc(bookmarks, CreatedAt);
    }

    /** `getBookmarkByArxivId`: some row matching the bare id, or `null`;
        without `ORDER BY` which one is unspecified. */
    method GetBookmarkByArxivId(arxivId: string, queryFails: bool) returns (r: Option<BookmarkRow>)
      ensures r.None? <==> queryFails || !AnyMatch(bookmarks, LegacyIs(arxivId))
      ensures r.Some? ==>
        r.value in bookmarks && (r.value.arxivId == Some(arxivId) || RowKey(r.value) == ("arxiv", arxivId))
    {
      if queryFails || !AnyMatch(bookmarks, LegacyIs(arxivId)) {
        return None;
      }
      var i :| 0 <= i < |bookmarks| && LegacyIs(arxivId)(bookmarks[i]);
      r := Some(bookmarks[i]);
    }

    /** `updateAISummary` in both forms: sets `ai_summary` on every selected
        row, leaves every other column and row alone, and reports whether
        any row was selected. */
    method UpdateAISummary(sourceOrArxivId: string, sourceIdOrSummary: string, aiSummary: Option<string>, queryFails: bool)
      returns (updated: bool)
      requires Valid()
      modifies this
      ensures Valid() && cache == old(cache)
      ensures var (m, summary) := SummaryTarget(sourceOrArxivId, sourceIdOrSummary, aiSummary);
        (updated <==> !queryFails && old(AnyMatch(bookmarks, m))) &&
        bookmarks == if queryFails then old(bookmarks) else UpdateWhere(old(bookmarks), m, SetSummary(summary))
    {
      if queryFails {
        return false;
      }
      var (m, summary) := SummaryTarget(sourceOrArxivId, sourceIdOrSummary, aiSummary);
      SummaryUpdateKeepsKeys(bookmarks, m, summary);
      updated := AnyMatch(bookmarks, m);
      bookmarks := UpdateWhere(bookmarks, m, SetSummary(summary));
    }

    /** `getPaperCache` in both forms: the row under the exact pair, or,
        for a bare id, some row whose `arxiv_id` or `source_id` is the id
        (of any source; which one is unspecified). */
    method GetPaperCache(sourceOrArxivId: string, sourceId: Option<string>, queryFails: bool) returns (r: Option<CachedPaper>)
      ensures queryFails ==> r == None
      ensures r.Some? ==> r.value.key in cache && cache[r.value.key] == r.value.row
      ensures !queryFails && Truthy(sourceId) ==>
        (r.Some? <==> (sourceOrArxivId, sourceId.value) in cache) &&
        (r.Some? ==> r.value.key == (sourceOrArxivId, sourceId.value))
      ensures !queryFails && !Truthy(sourceId) ==>
        (r.Some? <==> exists k :: k in cache && LegacyHit(k, cache[k], sourceOrArxivId)) &&
        (r.Some? ==> LegacyHit(r.value.key, r.value.row, sourceOrArxivId))
    {
      if queryFails {
        return None;
      }
      if Truthy(sourceId) {
        var key := (sourceOrArxivId, sourceId.value);
        if key in cache {
          return Some(CachedPaper(key, cache[key]));
        }
        return None;
      }
      if k :| k in cache && LegacyHit(k, cache[k], sourceOrArxivId) {
        return Some(CachedPaper(k, cache[k]));
      }
      return None;
    }

    /** The shared body of the three saves: an upsert under the key the
        overload selects. */
    method Save(sourceOrArxivId: string, sourceId: Option<string>, w: CacheWrite, now: Timestamp, queryFails: bool)
      returns (ok: bool)
      requires Valid()
      modifies this
      ensures Valid() && bookmarks == old(bookmarks)
      ensures ok <==> !queryFails
      ensures var (key, arxivId) := SaveTarget(sourceOrArxivId, sourceId);
        cache == if queryFails then old(cache) else Upsert(old(cache), key, arxivId, w, now)
    {
      if queryFails {
        return false;
      }
      var (key, arxivId) := SaveTarget(sourceOrArxivId, sourceId);
      cache := Upsert(cache, key, arxivId, w, now);
      ok := true;
    }

    /** `saveTranslation`: the pair form when the translation is the third
        argument (`sourceId` given here), the bare-id form otherwise. */
    method SaveTranslation(sourceOrArxivId: string, sourceId: Option<string>, translation: string, now: Timestamp, queryFails: bool)
      returns (ok: bool)
      requires Valid()
      modifies this
      ensures Valid() && bookmarks == old(bookmarks)
      ensures ok <==> !queryFails
      ensures var (key, arxivId) := SaveTarget(sourceOrArxivId, sourceId);
        cache == if queryFails then old(cache) else Upsert(old(cache), key, arxivId, WriteTranslation(translation), now)
    {
      ok := Save(sourceOrArxivId, sourceId, WriteTranslation(translation), now, queryFails);
    }

    /** `saveAnalysis`, in the same two forms. */
    method SaveAnalysis(sourceOrArxivId: string, sourceId: Option<string>, analysis: Analysis, now: Timestamp, queryFails: bool)
      returns (ok: bool)
      requires Valid()
      modifies this
      ensures Valid() && bookmarks == old(bookmarks)
      ensures ok <==> !queryFails
      ensures var (key, arxivId) := SaveTarget(sourceOrArxivId, sourceId);
        cache == if queryFails then old(cache) else Upsert(old(cache), key, arxivId, WriteAnalysis(analysis), now)
    {
      ok := Save(sourceOrArxivId, sourceId, WriteAnalysis(analysis), now, queryFails);
    }

    /** `saveInfographicUrl`, in the same two forms. */
    method SaveInfographicUrl(sourceOrArxivId: string, sourceId: Option<string>, url: string, now: Timestamp, queryFails: bool)
      returns (ok: bool)
      requires Valid()
      modifies this
      ensures Valid() && bookmarks == old(bookmarks)
      ensures ok <==> !queryFails
      ensures var (key, arxivId) := SaveTarget(sourceOrArxivId, sourceId);
        cache == if queryFails then old(cache) else Upsert(old(cache), key, arxivId, WriteInfographic(url), now)
    {
      ok := Save(sourceOrArxivId, sourceId, WriteInfographic(url), now, queryFails);
    }
  }
}
