/** The browser-side bookmark list (src/lib/bookmarks.ts): newest first,
    unique by `(source, source_id)`; adding a present paper hands back the
    record already stored. The random id and the current instant are
    parameters. */
module Bookmarks {
  import opened Wrappers
  import opened PaperTypes
  import opened SeqUtil
  import opened KeyedList

  /** A stored bookmark. `source` is a plain string: the lookups compare it
      with whatever string the caller passes. */
  datatype Bookmark = Bookmark(
    id: string,
    source: string,
    sourceId: string,
    arxivId: Option<string>,
    title: string,
    authors: seq<string>,
    abstractText: string,
    categories: seq<string>,
    publishedAt: Timestamp,
    pdfUrl: string,
    sourceUrl: string,
    aiSummary: Option<string>,
    createdAt: Timestamp)

  /** The key the list is unique by. */
  function KeyOf(b: Bookmark): (string, string) {
    (b.source, b.sourceId)
  }

  /** The test `b.source === source && b.source_id === sourceId`. */
  function Is(source: string, sourceId: string): Bookmark -> bool {
    (b: Bookmark) => b.source == source && b.sourceId == sourceId
  }

  /** The record `addBookmark` builds; an empty summary is stored as `null`. */
  function NewBookmark(paper: Paper, aiSummary: Option<string>, uuid: string, now: Timestamp): (b: Bookmark)
    ensures KeyOf(b) == (SourceName(paper.source), paper.sourceId)
    ensures b.aiSummary == None <==> !Truthy(aiSummary)
  {
    Bookmark(uuid, SourceName(paper.source), paper.sourceId, paper.arxivId,
             paper.title, paper.authors, paper.abstractText, paper.categories,
             paper.publishedAt, paper.pdfUrl, paper.sourceUrl, OrNull(aiSummary), now)
  }

  /** The list after adding `b`: unchanged when its key is present,
      otherwise `b` in front. */
  function AfterAdd(s: seq<Bookmark>, b: Bookmark): seq<Bookmark> {
    if AnyMatch(s, Is(b.source, b.sourceId)) then s else [b] + s
  }

  /** The list after setting the summary of the first entry with the key,
      or `None` when there is none. */
  function WithSummary(s: seq<Bookmark>, source: string, sourceId: string, summary: string): Option<seq<Bookmark>> {
    var i := FindIndex(s, Is(source, sourceId));
    if i == -1 then None
    else Some(s[i := s[i].(aiSummary := Some(summary))])
  }

  /** Adding is idempotent: a second add with the same key, whatever its
      other fields, leaves the list as the first add left it. */
  lemma AddIdempotent(s: seq<Bookmark>, b: Bookmark, c: Bookmark)
    requires KeyOf(c) == KeyOf(b)
    ensures AfterAdd(AfterAdd(s, b), c) == AfterAdd(s, b)
  {
    var t := AfterAdd(s, b);
    if t != s {
      assert t[0] == b;
      assert Is(c.source, c.sourceId)(t[0]);
    }
  }

  /** A fresh key goes to the front, the list grows by one, and a lookup of
      the key then finds the new record. */
  lemma AddPutsNewestFirst(s: seq<Bookmark>, b: Bookmark)
    requires !AnyMatch(s, Is(b.source, b.sourceId))
    ensures |AfterAdd(s, b)| == |s| + 1 && AfterAdd(s, b)[0] == b && AfterAdd(s, b)[1..] == s
    ensures Find(AfterAdd(s, b), Is(b.source, b.sourceId)) == Some(b)
  {
    var t := [b] + s;
    assert t[1..] == s;
  }

  /** Adding keeps keys unique. */
  lemma AddKeepsUnique(s: seq<Bookmark>, b: Bookmark)
    requires UniqueBy(s, KeyOf)
    ensures UniqueBy(AfterAdd(s, b), KeyOf)
  {
    if !AnyMatch(s, Is(b.source, b.sourceId)) {
      forall i | 0 <= i < |s|
        ensures KeyOf(s[i]) != KeyOf(b)
      {
        assert !Is(b.source, b.sourceId)(s[i]);
      }
      AppendKeepsUnique(s, b, KeyOf);
    }
  }

  /** Removing the key just added restores the list it was added to. */
  lemma RemoveUndoesAdd(s: seq<Bookmark>, b: Bookmark)
    requires !AnyMatch(s, Is(b.source, b.sourceId))
    ensures RemoveAll(AfterAdd(s, b), Is(b.source, b.sourceId)) == s
  {
    var m := Is(b.source, b.sourceId);
    var t := [b] + s;
    assert t[1..] == s;
    assert Filter(t, Not(m)) == Filter(s, Not(m));
    RemoveAllOfAbsent(s, m);
  }

  /** Setting a summary changes that one field of the first matching entry:
      the keys stay, so uniqueness does, and a lookup of the key then finds
      the old record with the new summary. */
  lemma WithSummaryChangesOneField(s: seq<Bookmark>, source: string, sourceId: string, summary: string)
    requires AnyMatch(s, Is(source, sourceId))
    ensures WithSummary(s, source, sourceId, summary).Some?
    ensures var r := WithSummary(s, source, sourceId, summary).value;
      |r| == |s| &&
      (forall j :: 0 <= j < |s| ==> KeyOf(r[j]) == KeyOf(s[j])) &&
      Find(r, Is(source, sourceId)) == Some(Find(s, Is(source, sourceId)).value.(aiSummary := Some(summary)))
  {
    var m := Is(source, sourceId);
    var i := FindIndex(s, m);
    var x := s[i].(aiSummary := Some(summary));
    FindAtFindIndex(s, m);
    assert KeyOf(x) == KeyOf(s[i]);
    FindAfterReplace(s, m, x);
  }

  /** The bookmarks as the browser holds them. `stored` is what
      `getStoredBookmarks` reads; when storage refuses writes (`writable`
      false) `saveBookmarks` swallows the error and the list stays. */
  class BookmarkStore {
    var stored: seq<Bookmark>
    const writable: bool

    constructor (stored: seq<Bookmark>, writable: bool)
      ensures this.stored == stored && this.writable == writable
    {
      this.stored := stored;
      this.writable := writable;
    }

    /** `saveBookmarks`. */
    method Save(bookmarks: seq<Bookmark>)
      modifies this
      ensures stored == if writable then bookmarks else old(stored)
    {
      if writable {
        stored := bookmarks;
      }
    }

    /** `getBookmarks`. */
    function GetBookmarks(): seq<Bookmark>
      reads this
    {
      stored
    }

    /** `isBookmarked`: some stored entry has the key. */
    function IsBookmarked(source: string, sourceId: string): (b: bool)
      reads this
      ensures b <==> exists i :: 0 <= i < |stored| && KeyOf(stored[i]) == (source, sourceId)
    {
      AnyMatch(stored, Is(source, sourceId))
    }

    /** `getBookmarkBySourceId`: the first entry with the key, or `null`. */
    function GetBookmarkBySourceId(source: string, sourceId: string): (r: Option<Bookmark>)
      reads this
      ensures r.None? <==> !IsBookmarked(source, sourceId)
      ensures r.Some? ==>
        KeyOf(r.value) == (source, sourceId) &&
        exists i :: (0 <= i < |stored| && stored[i] == r.value &&
          forall j :: 0 <= j < i ==> KeyOf(stored[j]) != (source, sourceId))
    {
      var m := Is(source, sourceId);
      FindAtFindIndex(stored, m);
      var i := FindIndex(stored, m);
      assert i >= 0 ==> forall j :: 0 <= j < i ==> !m(stored[j]);
      Find(stored, m)
    }

    /** `addBookmark`: a present key gives back the stored record and
        changes nothing; otherwise the new record goes in front. `uuid` is
        `crypto.randomUUID()`, `None` when it throws (the `catch` returns
        `null`). */
    method AddBookmark(paper: Paper, aiSummary: Option<string>, uuid: Option<string>, now: Timestamp)
      returns (r: Option<Bookmark>)
      modifies this
      ensures old(IsBookmarked(SourceName(paper.source), paper.sourceId)) ==>
        r == old(GetBookmarkBySourceId(SourceName(paper.source), paper.sourceId)) && stored == old(stored)
      ensures !old(IsBookmarked(SourceName(paper.source), paper.sourceId)) && uuid.None? ==>
        r == None && stored == old(stored)
      ensures !old(IsBookmarked(SourceName(paper.source), paper.sourceId)) && uuid.Some? ==>
        r == Some(NewBookmark(paper, aiSummary, uuid.value, now)) &&
        stored == if writable then AfterAdd(old(stored), r.value) else old(stored)
      ensures old(UniqueBy(stored, KeyOf)) ==> UniqueBy(stored, KeyOf)
    {
      var bookmarks := stored;
      var m := Is(SourceName(paper.source), paper.sourceId);
      if AnyMatch(bookmarks, m) {
        return Find(bookmarks, m);
      }
      if uuid.None? {
        return None;
      }
      var b := NewBookmark(paper, aiSummary, uuid.value, now);
      if UniqueBy(bookmarks, KeyOf) {
        AddKeepsUnique(bookmarks, b);
      }
      bookmarks := [b] + bookmarks;
      Save(bookmarks);
      r := Some(b);
    }

    /** `removeBookmark`: deletes every entry with the key; reports and
        saves only when something was deleted. */
    method RemoveBookmark(source: string, sourceId: string) returns (removed: bool)
      modifies this
      ensures removed <==> old(IsBookmarked(source, sourceId))
      ensures stored == if removed && writable then RemoveAll(old(stored), Is(source, sourceId)) else old(stored)
      ensures writable ==> !IsBookmarked(source, sourceId)
      ensures old(UniqueBy(stored, KeyOf)) ==> UniqueBy(stored, KeyOf)
    {
      var bookmarks := stored;
      var filtered := RemoveAll(bookmarks, Is(source, sourceId));
      if UniqueBy(bookmarks, KeyOf) {
        RemoveAllKeepsUnique(bookmarks, Is(source, sourceId), KeyOf);
      }
      if |filtered| == |bookmarks| {
        return false;
      }
      Save(filtered);
      removed := true;
    }

    /** `updateAISummary`: sets the summary of the first entry with the key;
        `false` and no change when there is none. */
    method UpdateAISummary(source: string, sourceId: string, summary: string) returns (updated: bool)
      modifies this
      ensures updated <==> old(IsBookmarked(source, sourceId))
      ensures stored == if updated && writable then WithSummary(old(stored), source, sourceId, summary).value else old(stored)
      ensures updated && writable ==>
        GetBookmarkBySourceId(source, sourceId) ==
          Some(old(GetBookmarkBySourceId(source, sourceId)).value.(aiSummary := Some(summary)))
      ensures old(UniqueBy(stored, KeyOf)) ==> UniqueBy(stored, KeyOf)
    {
      var bookmarks := stored;
      var index := FindIndex(bookmarks, Is(source, sourceId));
      if index == -1 {
        return false;
      }
      WithSummaryChangesOneField(bookmarks, source, sourceId, summary);
      bookmarks := bookmarks[index := bookmarks[index].(aiSummary := Some(summary))];
      Save(bookmarks);
      updated := true;
    }
  }
}
