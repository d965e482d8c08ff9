/** The array built-ins the keyed stores are written with (`some`, `find`,
    `findIndex`, `filter` with a negated test, and an in-place update of
    the matching rows), over an arbitrary match test, together with the
    uniqueness invariant the stores keep. */
module KeyedList {
  import opened Wrappers
  import opened SeqUtil

  /** `s.some(m)`. */
  predicate AnyMatch<T>(s: seq<T>, m: T -> bool) {
    exists i :: 0 <= i < |s| && m(s[i])
  }

  /** `s.findIndex(m)`: the first matching index, or -1. */
  function FindIndex<T>(s: seq<T>, m: T -> bool): (i: int)
    ensures -1 <= i < |s|
    ensures i == -1 <==> !AnyMatch(s, m)
    ensures 0 <= i ==> m(s[i]) && forall j :: 0 <= j < i ==> !m(s[j])
  {
    if s == [] then -1
    else if m(s[0]) then 0
    else
      var k := FindIndex(s[1..], m);
      assert forall j :: 1 <= j < |s| ==> s[j] == s[1..][j - 1];
      if k == -1 then -1 else k + 1
  }

  /** `s.find(m)`: the first matching element, if any. */
  function Find<T>(s: seq<T>, m: T -> bool): (r: Option<T>)
    ensures r.None? <==> !AnyMatch(s, m)
    ensures r.Some? ==> r.value in s && m(r.value)
  {
    if s == [] then None
    else if m(s[0]) then Some(s[0])
    else
      var r := Find(s[1..], m);
      assert forall j :: 1 <= j < |s| ==> s[j] == s[1..][j - 1];
      r
  }

  /** `find` returns the element at the index `findIndex` reports. */
  lemma {:induction false} FindAtFindIndex<T>(s: seq<T>, m: T -> bool)
    ensures FindIndex(s, m) == -1 ==> Find(s, m) == None
    ensures 0 <= FindIndex(s, m) ==> Find(s, m) == Some(s[FindIndex(s, m)])
    decreases |s|
  {
    if s != [] && !m(s[0]) {
      FindAtFindIndex(s[1..], m);
    }
  }

  /** An index whose element matches and before which nothing matches is
      what `findIndex` returns. */
  lemma {:induction false} FindIndexIsFirst<T>(s: seq<T>, m: T -> bool, i: int)
    requires 0 <= i < |s| && m(s[i])
    requires forall j :: 0 <= j < i ==> !m(s[j])
    ensures FindIndex(s, m) == i
    decreases i
  {
    if i > 0 {
      assert forall j :: 0 <= j < i - 1 ==> s[1..][j] == s[j + 1];
      FindIndexIsFirst(s[1..], m, i - 1);
    }
  }

  /** Replacing the first match by another match leaves it the first
      match. */
  lemma FindAfterReplace<T>(s: seq<T>, m: T -> bool, x: T)
    requires 0 <= FindIndex(s, m) && m(x)
    ensures FindIndex(s[FindIndex(s, m) := x], m) == FindIndex(s, m)
    ensures Find(s[FindIndex(s, m) := x], m) == Some(x)
  {
    var i := FindIndex(s, m);
    var r := s[i := x];
    assert forall j :: 0 <= j < i ==> r[j] == s[j];
    FindIndexIsFirst(r, m, i);
    FindAtFindIndex(r, m);
  }

  /** The negated test of a `filter(x => !m(x))`. */
  function Not<T>(m: T -> bool): T -> bool {
    x => !m(x)
  }

  /** A `filter` drops an element exactly when some element fails the test. */
  lemma {:induction false} FilterShrinks<T(!new)>(s: seq<T>, keep: T -> bool)
    ensures |Filter(s, keep)| < |s| <==> exists i :: 0 <= i < |s| && !keep(s[i])
    decreases |s|
  {
    if s != [] {
      FilterShrinks(s[1..], keep);
      assert forall j :: 1 <= j < |s| ==> s[j] == s[1..][j - 1];
      if !keep(s[0]) {
        assert 0 <= 0 < |s| && !keep(s[0]);
      } else if exists i :: 0 <= i < |s| && !keep(s[i]) {
        var i :| 0 <= i < |s| && !keep(s[i]);
        assert 0 <= i - 1 < |s[1..]| && !keep(s[1..][i - 1]);
      }
    }
  }

  /** Filtering with a test every element passes changes nothing. */
  lemma {:induction false} FilterKeepsAll<T(!new)>(s: seq<T>, keep: T -> bool)
    requires forall i :: 0 <= i < |s| ==> keep(s[i])
    ensures Filter(s, keep) == s
    decreases |s|
  {
    if s != [] {
      assert forall j :: 1 <= j < |s| ==> s[j] == s[1..][j - 1];
      FilterKeepsAll(s[1..], keep);
    }
  }

  /** Deleting every element `m` accepts: what `filter(x => !m(x))` keeps. */
  function RemoveAll<T(==,!new)>(s: seq<T>, m: T -> bool): (r: seq<T>)
    ensures !AnyMatch(r, m)
    ensures |r| < |s| <==> AnyMatch(s, m)
    ensures IsSubsequence(r, s)
    ensures forall x :: !m(x) ==> multiset(r)[x] == multiset(s)[x]
  {
    var r := Filter(s, Not(m));
    FilterShrinks(s, Not(m));
    assert forall i :: 0 <= i < |r| ==> !m(r[i]);
    r
  }

  /** Nothing to delete leaves the list as it was. */
  lemma RemoveAllOfAbsent<T(!new)>(s: seq<T>, m: T -> bool)
    requires !AnyMatch(s, m)
    ensures RemoveAll(s, m) == s
  {
    FilterKeepsAll(s, Not(m));
  }

  /** Deleting from a list with one more element at its end deletes from the
      list and then from that element. */
  lemma RemoveAllAppend<T(!new)>(s: seq<T>, x: T, m: T -> bool)
    ensures RemoveAll(s + [x], m) == RemoveAll(s, m) + (if m(x) then [] else [x])
  {
    FilterAppend(s, [x], Not(m));
    FilterSingle(x, Not(m));
  }

  /** No two elements share a key. */
  predicate UniqueBy<T, K(==)>(s: seq<T>, key: T -> K) {
    forall i, j :: 0 <= i < j < |s| ==> key(s[i]) != key(s[j])
  }

  /** A filter keeps uniqueness: it only deletes. */
  lemma {:induction false} UniqueFilter<T(!new), K>(s: seq<T>, keep: T -> bool, key: T -> K)
    requires UniqueBy(s, key)
    ensures UniqueBy(Filter(s, keep), key)
    decreases |s|
  {
    if s != [] {
      var tail := s[1..];
      var rest := Filter(tail, keep);
      forall i, j | 0 <= i < j < |tail|
        ensures key(tail[i]) != key(tail[j])
      {
        assert tail[i] == s[i + 1] && tail[j] == s[j + 1];
      }
      UniqueFilter(tail, keep, key);
      if keep(s[0]) {
        var r := [s[0]] + rest;
        assert Filter(s, keep) == r;
        forall i, j | 0 <= i < j < |r|
          ensures key(r[i]) != key(r[j])
        {
          assert r[j] == rest[j - 1];
          if i == 0 {
            var m := FilteredFrom(tail, keep, j - 1);
            assert tail[m] == s[m + 1];
          } else {
            assert r[i] == rest[i - 1];
          }
        }
      } else {
        assert Filter(s, keep) == rest;
      }
    }
  }

  /** Every element a filter keeps stands somewhere in the input. */
  lemma FilteredFrom<T(!new)>(s: seq<T>, keep: T -> bool, k: nat) returns (m: nat)
    requires k < |Filter(s, keep)|
    ensures m < |s| && s[m] == Filter(s, keep)[k]
  {
    var r := Filter(s, keep);
    assert multiset(r)[r[k]] > 0;
    assert r[k] in multiset(s);
    m :| m < |s| && s[m] == r[k];
  }

  /** Removing rows keeps the keys of the rest distinct. */
  lemma RemoveAllKeepsUnique<T(!new), K>(s: seq<T>, m: T -> bool, key: T -> K)
    requires UniqueBy(s, key)
    ensures UniqueBy(RemoveAll(s, m), key)
  {
    UniqueFilter(s, Not(m), key);
  }

  /** Adding an element whose key is not yet present keeps uniqueness, at
      either end. */
  lemma AppendKeepsUnique<T, K>(s: seq<T>, x: T, key: T -> K)
    requires UniqueBy(s, key)
    requires forall i :: 0 <= i < |s| ==> key(s[i]) != key(x)
    ensures UniqueBy(s + [x], key)
    ensures UniqueBy([x] + s, key)
  {
    var a := s + [x];
    forall i, j | 0 <= i < j < |a|
      ensures key(a[i]) != key(a[j])
    {
      assert a[i] == s[i];
      if j < |s| {
        assert a[j] == s[j];
      }
    }
    var b := [x] + s;
    forall i, j | 0 <= i < j < |b|
      ensures key(b[i]) != key(b[j])
    {
      assert b[j] == s[j - 1];
      if i > 0 {
        assert b[i] == s[i - 1];
      }
    }
  }

  /** Applying `f` to the matching elements, the rest left alone: an SQL
      `UPDATE ... WHERE m`. */
  function UpdateWhere<T>(s: seq<T>, m: T -> bool, f: T -> T): (r: seq<T>)
    ensures |r| == |s|
    ensures forall i :: 0 <= i < |s| ==> r[i] == if m(s[i]) then f(s[i]) else s[i]
  {
    if s == [] then []
    else
      var rest := UpdateWhere(s[1..], m, f);
      [if m(s[0]) then f(s[0]) else s[0]] + rest
  }

  /** An update that leaves every key alone keeps uniqueness. */
  lemma UpdateWhereKeepsUnique<T, K>(s: seq<T>, m: T -> bool, f: T -> T, key: T -> K)
    requires UniqueBy(s, key)
    requires forall x :: key(f(x)) == key(x)
    ensures UniqueBy(UpdateWhere(s, m, f), key)
  {
  }
}
