/** A stable sort, newest first, as `Array.prototype.sort` with the
    comparator `(a, b) => key(b) - key(a)` performs it: the result is
    ordered by descending key, is a permutation of the input, and keeps
    elements with equal keys in their input order. */
module StableSort {
  predicate SortedDesc<T>(s: seq<T>, key: T -> int) {
    forall i, j :: 0 <= i < j < |s| ==> key(s[i]) >= key(s[j])
  }

  /** Places `x` before the first element whose key does not exceed its own. */
  function Insert<T>(x: T, s: seq<T>, key: T -> int): (r: seq<T>)
    requires SortedDesc(s, key)
    ensures SortedDesc(r, key)
    ensures multiset(r) == multiset(s) + multiset{x}
    ensures |r| == |s| + 1 && (r[0] == x || (s != [] && r[0] == s[0]))
  {
    if s == [] || key(s[0]) <= key(x) then
      PrependSorted(x, s, key);
      [x] + s
    else
      SortedTail(s, key);
      var tail := Insert(x, s[1..], key);
      PrependSorted(s[0], tail, key);
      assert s == [s[0]] + s[1..];
      [s[0]] + tail
  }

  /** The tail of a sorted list is sorted, below its head. */
  lemma SortedTail<T>(s: seq<T>, key: T -> int)
    requires SortedDesc(s, key) && s != []
    ensures SortedDesc(s[1..], key) && (|s| > 1 ==> key(s[0]) >= key(s[1]))
  {
    forall i, j | 0 <= i < j < |s| - 1
      ensures key(s[1..][i]) >= key(s[1..][j])
    {
      assert s[1..][i] == s[i + 1] && s[1..][j] == s[j + 1];
    }
  }

  /** An element no smaller than the head of a sorted list can go before it. */
  lemma PrependSorted<T>(y: T, t: seq<T>, key: T -> int)
    requires SortedDesc(t, key) && (t != [] ==> key(y) >= key(t[0]))
    ensures SortedDesc([y] + t, key)
  {
    var r := [y] + t;
    forall i, j | 0 <= i < j < |r|
      ensures key(r[i]) >= key(r[j])
    {
      assert r[j] == t[j - 1];
      if i == 0 {
        assert key(t[0]) >= key(t[j - 1]) || j == 1;
      } else {
        assert r[i] == t[i - 1];
      }
    }
  }

  /** The sort, by insertion from the back so that of two equal keys the
      earlier element ends up first. */
  function SortDesc<T>(s: seq<T>, key: T -> int): (r: seq<T>)
    ensures SortedDesc(r, key)
    ensures multiset(r) == multiset(s)
    ensures |r| == |s|
  {
    if s == [] then []
    else
      assert s == [s[0]] + s[1..];
      var r := Insert(s[0], SortDesc(s[1..], key), key);
      assert |r| == |multiset(r)|;
      r
  }

  /** The elements carrying key `k`, in their order. */
  function WithKey<T>(s: seq<T>, key: T -> int, k: int): seq<T> {
    if s == [] then []
    else (if key(s[0]) == k then [s[0]] else []) + WithKey(s[1..], key, k)
  }

  lemma {:induction false} WithKeyAppend<T>(a: seq<T>, b: seq<T>, key: T -> int, k: int)
    ensures WithKey(a + b, key, k) == WithKey(a, key, k) + WithKey(b, key, k)
    decreases |a|
  {
    if a == [] {
      assert a + b == b;
    } else {
      var ab := a + b;
      assert ab[0] == a[0] && ab[1..] == a[1..] + b;
      var c := if key(a[0]) == k then [a[0]] else [];
      assert WithKey(a, key, k) == c + WithKey(a[1..], key, k);
      assert WithKey(ab, key, k) == c + WithKey(a[1..] + b, key, k);
      WithKeyAppend(a[1..], b, key, k);
      assert c + (WithKey(a[1..], key, k) + WithKey(b, key, k)) == (c + WithKey(a[1..], key, k)) + WithKey(b, key, k);
    }
  }

  /** The elements of a one-element list carrying key `k`. */
  lemma WithKeyOne<T>(y: T, key: T -> int, k: int)
    ensures WithKey([y], key, k) == if key(y) == k then [y] else []
  {
    assert [y][1..] == [];
  }

  lemma {:induction false} InsertStable<T>(x: T, s: seq<T>, key: T -> int, k: int)
    requires SortedDesc(s, key)
    ensures WithKey(Insert(x, s, key), key, k) == WithKey([x], key, k) + WithKey(s, key, k)
    decreases |s|
  {
    if s == [] || key(s[0]) <= key(x) {
      WithKeyAppend([x], s, key, k);
    } else {
      SortedTail(s, key);
      var tail := Insert(x, s[1..], key);
      InsertStable(x, s[1..], key, k);
      var a0, ax, rest := WithKey([s[0]], key, k), WithKey([x], key, k), WithKey(s[1..], key, k);
      assert Insert(x, s, key) == [s[0]] + tail;
      WithKeyAppend([s[0]], tail, key, k);
      assert WithKey(Insert(x, s, key), key, k) == a0 + (ax + rest);
      WithKeyOne(s[0], key, k);
      assert WithKey(s, key, k) == a0 + rest;
      assert a0 == [] || ax == [];
      assert a0 + (ax + rest) == ax + (a0 + rest);
    }
  }

  /** Stability: among the elements with any one key, the sort keeps the
      input order. */
  lemma {:induction false} SortDescStable<T>(s: seq<T>, key: T -> int, k: int)
    ensures WithKey(SortDesc(s, key), key, k) == WithKey(s, key, k)
    decreases |s|
  {
    if s != [] {
      SortDescStable(s[1..], key, k);
      InsertStable(s[0], SortDesc(s[1..], key), key, k);
      assert s == [s[0]] + s[1..];
      WithKeyAppend([s[0]], s[1..], key, k);
    }
  }

  /** A list already in order is left as it is. */
  lemma {:induction false} SortDescOfSorted<T>(s: seq<T>, key: T -> int)
    requires SortedDesc(s, key)
    ensures SortDesc(s, key) == s
    decreases |s|
  {
    if s != [] {
      assert SortedDesc(s[1..], key);
      SortDescOfSorted(s[1..], key);
      assert s == [s[0]] + s[1..];
    }
  }
}
