/** The comparison bucket kept in browser storage (src/lib/bucket.ts): at
    most `MAX_BUCKET_SIZE` papers, unique by `(source, sourceId)`, in the
    order they were added. */
module Bucket {
  import opened Wrappers
  import opened PaperTypes
  import opened SeqUtil
  import opened KeyedList

  const MAX_BUCKET_SIZE: nat := 5

  /** `BucketPaper`: the part of a paper the bucket stores, with the
      instant it was added. */
  datatype BucketPaper = BucketPaper(
    source: Source,
    sourceId: string,
    arxivId: Option<string>,
    title: string,
    authors: seq<string>,
    abstractText: string,
    categories: seq<string>,
    addedAt: Timestamp)

  /** The key the bucket is unique by. */
  function KeyOf(b: BucketPaper): (Source, string) {
    (b.source, b.sourceId)
  }

  /** The test `p.source === source && p.sourceId === sourceId`. */
  function Is(source: Source, sourceId: string): BucketPaper -> bool {
    (b: BucketPaper) => b.source == source && b.sourceId == sourceId
  }

  /** The entry `addToBucket` builds for `paper` at instant `now`. */
  function Entry(paper: Paper, now: Timestamp): BucketPaper {
    BucketPaper(paper.source, paper.sourceId, paper.arxivId, paper.title,
                paper.authors, paper.abstractText, paper.categories, now)
  }

  /** What the bucket keeps true: bounded and unique by key. */
  predicate WellFormed(s: seq<BucketPaper>) {
    |s| <= MAX_BUCKET_SIZE && UniqueBy(s, KeyOf)
  }

  /** `addToBucket` on the stored list `s`: the list to save, or `None`
      when the paper is already present or the bucket is full. */
  function Added(s: seq<BucketPaper>, paper: Paper, now: Timestamp): (r: Option<seq<BucketPaper>>)
    ensures r.None? <==> AnyMatch(s, Is(paper.source, paper.sourceId)) || |s| >= MAX_BUCKET_SIZE
    ensures r.Some? ==> |r.value| == |s| + 1 && r.value[..|s|] == s
  {
    if AnyMatch(s, Is(paper.source, paper.sourceId)) then None
    else if |s| >= MAX_BUCKET_SIZE then None
    else
      var t := s + [Entry(paper, now)];
      assert t[..|s|] == s;
      Some(t)
  }

  /** `removeFromBucket` on the stored list `s`: the entries that do not
      match. */
  function Removed(s: seq<BucketPaper>, source: Source, sourceId: string): seq<BucketPaper> {
    RemoveAll(s, Is(source, sourceId))
  }

  /** A successful add keeps the bucket well formed: the key was absent and
      the bucket had room. */
  lemma AddKeepsWellFormed(s: seq<BucketPaper>, paper: Paper, now: Timestamp)
    requires WellFormed(s)
    ensures Added(s, paper, now).Some? ==> WellFormed(Added(s, paper, now).value)
  {
    if Added(s, paper, now).Some? {
      var x := Entry(paper, now);
      forall i | 0 <= i < |s|
        ensures KeyOf(s[i]) != KeyOf(x)
      {
        assert !Is(paper.source, paper.sourceId)(s[i]);
      }
      AppendKeepsUnique(s, x, KeyOf);
    }
  }

  /** The new entry is at the end, carries the paper's key, and makes the
      key present. */
  lemma AddedIsInBucket(s: seq<BucketPaper>, paper: Paper, now: Timestamp)
    requires Added(s, paper, now).Some?
    ensures Added(s, paper, now).value[|s|] == Entry(paper, now)
    ensures AnyMatch(Added(s, paper, now).value, Is(paper.source, paper.sourceId))
  {
    var t := Added(s, paper, now).value;
    assert t[|s|] == Entry(paper, now);
    assert Is(paper.source, paper.sourceId)(t[|s|]);
  }

  /** Removing the paper just added gives back the bucket it was added to. */
  lemma RemoveUndoesAdd(s: seq<BucketPaper>, paper: Paper, now: Timestamp)
    requires Added(s, paper, now).Some?
    ensures Removed(Added(s, paper, now).value, paper.source, paper.sourceId) == s
  {
    var m := Is(paper.source, paper.sourceId);
    var x := Entry(paper, now);
    assert Added(s, paper, now).value == s + [x];
    assert m(x) && !AnyMatch(s, m);
    RemoveAllAppend(s, x, m);
    RemoveAllOfAbsent(s, m);
    assert RemoveAll(s + [x], m) == RemoveAll(s, m) + [];
  }

  /** A removal keeps the bucket well formed and leaves no matching entry;
      it shortens the bucket exactly when some entry matched. */
  lemma RemoveKeepsWellFormed(s: seq<BucketPaper>, source: Source, sourceId: string)
    requires WellFormed(s)
    ensures WellFormed(Removed(s, source, sourceId))
    ensures !AnyMatch(Removed(s, source, sourceId), Is(source, sourceId))
    ensures |Removed(s, source, sourceId)| < |s| <==> AnyMatch(s, Is(source, sourceId))
  {
    RemoveAllKeepsUnique(s, Is(source, sourceId), KeyOf);
  }

  /** The bucket as the browser holds it. `items` is what `getBucket` reads;
      when storage refuses writes (`writable` false) `saveBucket` swallows
      the error and the stored list stays as it was. */
  class BucketStore {
    var items: seq<BucketPaper>
    const writable: bool

    constructor (stored: seq<BucketPaper>, writable: bool)
      ensures items == stored && this.writable == writable
    {
      items := stored;
      this.writable := writable;
    }

    /** `saveBucket`. */
    method Save(bucket: seq<BucketPaper>)
      modifies this
      ensures items == if writable then bucket else old(items)
    {
      if writable {
        items := bucket;
      }
    }

    /** `isInBucket`: some stored entry has the key. */
    function IsInBucket(source: Source, sourceId: string): (b: bool)
      reads this
      ensures b <==> exists i :: 0 <= i < |items| && KeyOf(items[i]) == (source, sourceId)
    {
      AnyMatch(items, Is(source, sourceId))
    }

    /** `addToBucket`: refuses a present key or a full bucket, otherwise
        appends the paper's entry and saves. */
    method AddToBucket(paper: Paper, now: Timestamp) returns (added: bool)
      modifies this
      ensures added <==> Added(old(items), paper, now).Some?
      ensures items == if added && writable then Added(old(items), paper, now).value else old(items)
      ensures added && writable ==> IsInBucket(paper.source, paper.sourceId)
      ensures old(WellFormed(items)) ==> WellFormed(items)
    {
      var bucket := items;
      if WellFormed(bucket) {
        AddKeepsWellFormed(bucket, paper, now);
      }
      if AnyMatch(bucket, Is(paper.source, paper.sourceId)) {
        return false;
      }
      if |bucket| >= MAX_BUCKET_SIZE {
        return false;
      }
      AddedIsInBucket(bucket, paper, now);
      bucket := bucket + [Entry(paper, now)];
      Save(bucket);
      added := true;
    }

    /** `removeFromBucket`: deletes every matching entry; reports and saves
        only when something was deleted. */
    method RemoveFromBucket(source: Source, sourceId: string) returns (removed: bool)
      modifies this
      ensures removed <==> exists i :: 0 <= i < |old(items)| && KeyOf(old(items)[i]) == (source, sourceId)
      ensures items == if removed && writable then Removed(old(items), source, sourceId) else old(items)
      ensures writable ==> !IsInBucket(source, sourceId)
      ensures old(WellFormed(items)) ==> WellFormed(items)
    {
      var bucket := items;
      if WellFormed(bucket) {
        RemoveKeepsWellFormed(bucket, source, sourceId);
      }
      var filtered := Removed(bucket, source, sourceId);
      if |filtered| == |bucket| {
        assert !AnyMatch(bucket, Is(source, sourceId));
        return false;
      }
      Save(filtered);
      removed := true;
    }

    /** `clearBucket`. */
    method ClearBucket()
      modifies this
      ensures items == if writable then [] else old(items)
      ensures old(WellFormed(items)) ==> WellFormed(items)
    {
      Save([]);
    }
  }
}
