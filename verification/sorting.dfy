/** `ORDER BY column [ASC|DESC]`: a stable insertion sort on an integer sort key.
    A descending order is an ascending order on the negated key. */
module Sorting {

  /** Every earlier element's key is at most every later element's key. */
  ghost predicate SortedBy<T>(s: seq<T>, key: T -> int) {
    forall i, j :: 0 <= i < j < |s| ==> key(s[i]) <= key(s[j])
  }

  /** The key of `ORDER BY column DESC`. */
  function Desc<T>(key: T -> int): T -> int {
    x => -key(x)
  }

  /** Puts `x` before the first element whose key is not smaller than its own. */
  function Insert<T>(x: T, s: seq<T>, key: T -> int): (r: seq<T>)
    requires SortedBy(s, key)
    ensures SortedBy(r, key)
    ensures multiset(r) == multiset(s) + multiset{x}
    ensures |r| == |s| + 1
  {
    if |s| == 0 then [x]
    else if key(x) <= key(s[0]) then [x] + s
    else
      var t := Insert(x, s[1..], key);
      LowerBound(t, s[1..], x, key, key(s[0]));
      assert s == [s[0]] + s[1..];
      [s[0]] + t
  }

  /** A lower bound on the keys of `s` and of `x` bounds every key of a permutation of
      `s` plus `x`. */
  lemma LowerBound<T>(t: seq<T>, s: seq<T>, x: T, key: T -> int, b: int)
    requires multiset(t) == multiset(s) + multiset{x}
    requires b <= key(x) && forall i :: 0 <= i < |s| ==> b <= key(s[i])
    ensures forall j :: 0 <= j < |t| ==> b <= key(t[j])
  {
    forall j | 0 <= j < |t|
      ensures b <= key(t[j])
    {
      assert t[j] in multiset(t);
      if t[j] != x {
        assert t[j] in multiset(s);
        var m :| 0 <= m < |s| && s[m] == t[j];
      }
    }
  }

  /** The rows in ascending order of `key`: a permutation of `s` that is sorted. */
  function SortBy<T>(s: seq<T>, key: T -> int): (r: seq<T>)
    ensures SortedBy(r, key)
    ensures multiset(r) == multiset(s)
    ensures |r| == |s|
  {
    if |s| == 0 then []
    else
      assert s == [s[0]] + s[1..];
      Insert(s[0], SortBy(s[1..], key), key)
  }

  /** Rows already in order come back from the sort unchanged. */
  lemma {:induction false} SortSorted<T>(s: seq<T>, key: T -> int)
    requires SortedBy(s, key)
    ensures SortBy(s, key) == s
  {
    if |s| > 0 {
      assert SortedBy(s[1..], key);
      SortSorted(s[1..], key);
      if |s| > 1 {
        assert key(s[0]) <= key(s[1..][0]);
      }
      assert [s[0]] + s[1..] == s;
    }
  }

  /** `ORDER BY key DESC`: a permutation of `s` whose keys never increase. */
  function SortDescBy<T>(s: seq<T>, key: T -> int): (r: seq<T>)
    ensures forall i, j :: 0 <= i < j < |r| ==> key(r[i]) >= key(r[j])
    ensures multiset(r) == multiset(s)
    ensures |r| == |s|
    ensures r == SortBy(s, Desc(key))
  {
    var r := SortBy(s, Desc(key));
    assert forall i, j :: 0 <= i < j < |r| ==> Desc(key)(r[i]) <= Desc(key)(r[j]);
    r
  }

  /** No two elements share a `tag`. */
  ghost predicate Distinct<T, U>(s: seq<T>, tag: T -> U) {
    forall i, j :: 0 <= i < j < |s| ==> tag(s[i]) != tag(s[j])
  }

  lemma {:induction false} InsertKeepsDistinct<T, U>(x: T, s: seq<T>, key: T -> int, tag: T -> U)
    requires SortedBy(s, key) && Distinct(s, tag)
    requires forall i :: 0 <= i < |s| ==> tag(s[i]) != tag(x)
    ensures Distinct(Insert(x, s, key), tag)
  {
    if |s| > 0 && key(x) > key(s[0]) {
      var t := Insert(x, s[1..], key);
      InsertKeepsDistinct(x, s[1..], key, tag);
      forall j | 0 <= j < |t|
        ensures tag(s[0]) != tag(t[j])
      {
        assert t[j] in multiset(t);
        if t[j] != x {
          assert t[j] in multiset(s[1..]);
          var m :| 0 <= m < |s[1..]| && s[1..][m] == t[j];
          assert s[m + 1] == t[j];
        }
      }
    }
  }

  /** Sorting a sequence whose elements have pairwise distinct tags keeps them distinct. */
  lemma {:induction false} SortKeepsDistinct<T, U>(s: seq<T>, key: T -> int, tag: T -> U)
    requires Distinct(s, tag)
    ensures Distinct(SortBy(s, key), tag)
  {
    if |s| > 0 {
      SortKeepsDistinct(s[1..], key, tag);
      var t := SortBy(s[1..], key);
      forall i | 0 <= i < |t|
        ensures tag(t[i]) != tag(s[0])
      {
        assert t[i] in multiset(s[1..]);
        var m :| 0 <= m < |s[1..]| && s[1..][m] == t[i];
        assert s[m + 1] == t[i];
      }
      InsertKeepsDistinct(s[0], t, key, tag);
    }
  }

  /** Every element of `s` sits at some position of its sorted permutation. */
  lemma PositionInSorted<T>(s: seq<T>, key: T -> int, x: T) returns (p: nat)
    requires x in s
    ensures p < |SortBy(s, key)| && SortBy(s, key)[p] == x
  {
    var r := SortBy(s, key);
    assert x in multiset(s);
    assert x in multiset(r);
    p :| 0 <= p < |r| && r[p] == x;
  }
}
