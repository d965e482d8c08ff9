/** `Array.prototype.filter` and the subsequence relation, shared by the
    adapters, the merge and the stores. */
module SeqUtil {
  import opened Wrappers

  /** `a` is `b` with some elements deleted, the rest kept in order. */
  predicate IsSubsequence<T(==)>(a: seq<T>, b: seq<T>)
    decreases |b|
  {
    if a == [] then true
    else if b == [] then false
    else if a[0] == b[0] then IsSubsequence(a[1..], b[1..])
    else IsSubsequence(a, b[1..])
  }

  /** Putting one more element in front of the longer sequence keeps the
      relation, and so does putting it in front of both. */
  lemma {:induction false} SubsequenceOfPrepend<T>(x: T, a: seq<T>, b: seq<T>)
    requires IsSubsequence(a, b)
    ensures IsSubsequence([x] + a, [x] + b)
    ensures IsSubsequence(a, [x] + b)
    decreases |b|, 1
  {
    assert ([x] + a)[1..] == a && ([x] + b)[1..] == b;
    if a != [] && a[0] == x {
      SubsequenceDropHead(a, b);
    }
  }

  lemma {:induction false} SubsequenceDropHead<T>(a: seq<T>, b: seq<T>)
    requires a != [] && IsSubsequence(a, b)
    ensures IsSubsequence(a[1..], b)
    decreases |b|, 0
  {
    assert b != [];
    assert b == [b[0]] + b[1..];
    if a[0] != b[0] {
      SubsequenceDropHead(a, b[1..]);
    }
    SubsequenceOfPrepend(b[0], a[1..], b[1..]);
  }

  lemma {:induction false} SubsequenceReflexive<T>(a: seq<T>)
    ensures IsSubsequence(a, a)
    decreases |a|
  {
    if a != [] {
      SubsequenceReflexive(a[1..]);
    }
  }

  /** Everything in a subsequence occurs in the sequence it was taken from. */
  lemma {:induction false} SubsequenceMembers<T>(a: seq<T>, b: seq<T>)
    requires IsSubsequence(a, b)
    ensures forall x :: x in a ==> x in b
    decreases |b|
  {
    if a != [] && b != [] {
      if a[0] == b[0] {
        SubsequenceMembers(a[1..], b[1..]);
        assert a == [a[0]] + a[1..];
      } else {
        SubsequenceMembers(a, b[1..]);
      }
    }
  }

  /** `s.filter(keep)`: the elements `keep` accepts, in their order, each
      as often as in `s`. */
  function Filter<T(==,!new)>(s: seq<T>, keep: T -> bool): (r: seq<T>)
    ensures |r| <= |s|
    ensures forall i :: 0 <= i < |r| ==> keep(r[i])
    ensures forall x :: multiset(r)[x] == if keep(x) then multiset(s)[x] else 0
    ensures IsSubsequence(r, s)
  {
    if s == [] then []
    else
      var rest := Filter(s[1..], keep);
      assert s == [s[0]] + s[1..];
      if keep(s[0]) then
        SubsequenceOfPrepend(s[0], rest, s[1..]);
        [s[0]] + rest
      else
        SubsequenceOfPrepend(s[0], rest, s[1..]);
        rest
  }

  /** Every element that passes the test is kept. */
  lemma FilterKeepsPassing<T(!new)>(s: seq<T>, keep: T -> bool)
    ensures forall x :: x in s && keep(x) ==> x in Filter(s, keep)
  {
    forall x | x in s && keep(x)
      ensures x in Filter(s, keep)
    {
      assert multiset(Filter(s, keep))[x] == multiset(s)[x];
    }
  }

  /** Filtering a concatenation filters each part. */
  lemma {:induction false} FilterAppend<T(!new)>(a: seq<T>, b: seq<T>, keep: T -> bool)
    ensures Filter(a + b, keep) == Filter(a, keep) + Filter(b, keep)
    decreases |a|
  {
    if a == [] {
      assert a + b == b;
    } else {
      assert (a + b)[1..] == a[1..] + b;
      FilterAppend(a[1..], b, keep);
    }
  }

  /** A one-element list is kept exactly when its element is. */
  lemma FilterSingle<T(!new)>(x: T, keep: T -> bool)
    ensures Filter([x], keep) == if keep(x) then [x] else []
  {
    assert [x][1..] == [];
  }

  /** Each value wrapped as a present option. */
  function Somes<T>(r: seq<T>): (w: seq<Option<T>>)
    ensures |w| == |r| && forall i :: 0 <= i < |r| ==> w[i] == Some(r[i])
  {
    seq(|r|, i requires 0 <= i < |r| => Some(r[i]))
  }

  /** `s.filter(p => p !== null)`: the values present in a sequence of
      options, in their order, each as often as it occurs. */
  function PresentValues<T(==,!new)>(s: seq<Option<T>>): (r: seq<T>)
    ensures |r| <= |s|
    ensures forall i :: 0 <= i < |s| && s[i].Some? ==> s[i].value in r
    ensures forall x :: x in r ==> Some(x) in s
    ensures forall x :: multiset(r)[x] == multiset(s)[Some(x)]
    ensures IsSubsequence(Somes(r), s)
  {
    if s == [] then []
    else
      var rest := PresentValues(s[1..]);
      var r := if s[0].Some? then [s[0].value] + rest else rest;
      PresentCountStep(s, rest, r);
      PresentOrderStep(s, rest, r);
      r
  }

  lemma PresentCountStep<T(!new)>(s: seq<Option<T>>, rest: seq<T>, r: seq<T>)
    requires s != [] && forall x :: multiset(rest)[x] == multiset(s[1..])[Some(x)]
    requires r == if s[0].Some? then [s[0].value] + rest else rest
    ensures forall x :: multiset(r)[x] == multiset(s)[Some(x)]
  {
    assert s == [s[0]] + s[1..];
  }

  lemma PresentOrderStep<T>(s: seq<Option<T>>, rest: seq<T>, r: seq<T>)
    requires s != [] && IsSubsequence(Somes(rest), s[1..])
    requires r == if s[0].Some? then [s[0].value] + rest else rest
    ensures IsSubsequence(Somes(r), s)
  {
    assert s == [s[0]] + s[1..];
    if s[0].Some? {
      assert Somes(r) == [s[0]] + Somes(rest);
    }
    SubsequenceOfPrepend(s[0], Somes(rest), s[1..]);
  }
}
