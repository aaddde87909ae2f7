/**
  The stable descending sort behind `sort_by(|a, b| key(b).partial_cmp(key(a)))`:
  an insertion sort that places each element after every element already
  placed whose key is at least as large, so equal keys keep their input order.
 */
module Sorting {

  ghost predicate SortedDesc<T>(s: seq<T>, key: T -> real) {
    forall a, b :: 0 <= a < b < |s| ==> key(s[a]) >= key(s[b])
  }

  function Insert<T>(x: T, s: seq<T>, key: T -> real): (r: seq<T>)
    requires SortedDesc(s, key)
    ensures multiset(r) == multiset(s) + multiset{x}
    ensures SortedDesc(r, key)
    ensures |r| == |s| + 1
  {
    if |s| == 0 then [x]
    else if key(s[0]) >= key(x) then
      var rest := Insert(x, s[1..], key);
      assert s == [s[0]] + s[1..];
      HeadDominates(s, x, rest, key);
      ConsSorted(s[0], rest, key);
      [s[0]] + rest
    else
      ConsSorted(x, s, key);
      [x] + s
  }

  /** An element at least as large as every element of a sorted sequence can lead it. */
  lemma ConsSorted<T>(y: T, s: seq<T>, key: T -> real)
    requires SortedDesc(s, key)
    requires forall k :: 0 <= k < |s| ==> key(y) >= key(s[k])
    ensures SortedDesc([y] + s, key)
  {
    var r := [y] + s;
    forall a, b | 0 <= a < b < |r|
      ensures key(r[a]) >= key(r[b])
    {
      assert r[b] == s[b - 1];
      if a > 0 {
        assert r[a] == s[a - 1];
      }
    }
  }

  /** The head of a sorted sequence bounds every element of the tail with `x` inserted. */
  lemma HeadDominates<T>(s: seq<T>, x: T, rest: seq<T>, key: T -> real)
    requires |s| > 0 && SortedDesc(s, key) && key(s[0]) >= key(x)
    requires multiset(rest) == multiset(s[1..]) + multiset{x}
    ensures forall k :: 0 <= k < |rest| ==> key(s[0]) >= key(rest[k])
  {
    forall k | 0 <= k < |rest|
      ensures key(s[0]) >= key(rest[k])
    {
      assert rest[k] in multiset(rest);
      if rest[k] in multiset(s[1..]) {
        var m :| 0 <= m < |s[1..]| && s[1..][m] == rest[k];
        assert s[1 + m] == rest[k];
      }
    }
  }

  function SortDesc<T>(s: seq<T>, key: T -> real): (r: seq<T>)
    ensures multiset(r) == multiset(s)
    ensures SortedDesc(r, key)
    ensures |r| == |s|
  {
    if |s| == 0 then []
    else
      assert s == s[..|s| - 1] + [s[|s| - 1]];
      Insert(s[|s| - 1], SortDesc(s[..|s| - 1], key), key)
  }

  ghost predicate IncreasingBy<T>(s: seq<T>, tie: T -> int) {
    forall a, b :: 0 <= a < b < |s| ==> tie(s[a]) < tie(s[b])
  }

  /** Sorted by descending `key`, equal keys in ascending `tie` order. */
  ghost predicate RankedDesc<T>(s: seq<T>, key: T -> real, tie: T -> int) {
    forall a, b :: 0 <= a < b < |s| ==>
      key(s[a]) > key(s[b]) || (key(s[a]) == key(s[b]) && tie(s[a]) < tie(s[b]))
  }

  lemma {:induction false} InsertStable<T>(x: T, s: seq<T>, key: T -> real, tie: T -> int)
    requires SortedDesc(s, key) && RankedDesc(s, key, tie)
    requires forall k :: 0 <= k < |s| ==> tie(s[k]) < tie(x)
    ensures RankedDesc(Insert(x, s, key), key, tie)
  {
    if |s| > 0 && key(s[0]) >= key(x) {
      var rest := Insert(x, s[1..], key);
      InsertStable(x, s[1..], key, tie);
      var r := [s[0]] + rest;
      assert r == Insert(x, s, key);
      HeadRanks(s, x, rest, key, tie);
      assert forall a, b :: 0 < a < b < |r| ==> r[a] == rest[a - 1] && r[b] == rest[b - 1];
    }
  }

  /** The head of a ranked sequence ranks before every element of the tail with `x` inserted. */
  lemma HeadRanks<T>(s: seq<T>, x: T, rest: seq<T>, key: T -> real, tie: T -> int)
    requires |s| > 0 && RankedDesc(s, key, tie) && key(s[0]) >= key(x) && tie(s[0]) < tie(x)
    requires multiset(rest) == multiset(s[1..]) + multiset{x}
    ensures forall k :: 0 <= k < |rest| ==>
      key(s[0]) > key(rest[k]) || (key(s[0]) == key(rest[k]) && tie(s[0]) < tie(rest[k]))
  {
    forall k | 0 <= k < |rest|
      ensures key(s[0]) > key(rest[k]) || (key(s[0]) == key(rest[k]) && tie(s[0]) < tie(rest[k]))
    {
      assert rest[k] in multiset(rest);
      if rest[k] in multiset(s[1..]) {
        var m :| 0 <= m < |s[1..]| && s[1..][m] == rest[k];
        assert s[1 + m] == rest[k];
      } else {
        assert rest[k] == x;
      }
    }
  }

  /**
    Stability: when the input is in ascending `tie` order, the sort output
    orders equal keys by ascending `tie`, i.e. by input position.
   */
  lemma {:induction false} SortStable<T>(s: seq<T>, key: T -> real, tie: T -> int)
    requires IncreasingBy(s, tie)
    ensures RankedDesc(SortDesc(s, key), key, tie)
  {
    if |s| > 0 {
      var init := s[..|s| - 1];
      var last := s[|s| - 1];
      var sorted := SortDesc(init, key);
      SortStable(init, key, tie);
      forall k | 0 <= k < |sorted|
        ensures tie(sorted[k]) < tie(last)
      {
        assert sorted[k] in multiset(init);
        var m :| 0 <= m < |init| && init[m] == sorted[k];
      }
      InsertStable(last, sorted, key, tie);
    }
  }
}
