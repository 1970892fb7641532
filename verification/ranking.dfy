/** `ORDER BY key DESC` and `LIMIT k` over a result set. SQL leaves the
    order of rows with equal keys open; `IsOrderedBy` and `IsTopK` admit
    every tie order, and `SortDesc` is one deterministic result among them. */
module Ranking {

  /** Rows ordered by `key`, highest first. */
  ghost predicate SortedDesc<T>(s: seq<T>, key: T -> int)
  {
    forall i, j :: 0 <= i < j < |s| ==> key(s[i]) >= key(s[j])
  }

  /** `r` is an admissible answer to `... ORDER BY key DESC` over `s`:
      the same rows, highest key first, ties in any order. */
  ghost predicate IsOrderedBy<T>(r: seq<T>, s: seq<T>, key: T -> int)
  {
    multiset(r) == multiset(s) && SortedDesc(r, key)
  }

  /** `r` is an admissible answer to `... ORDER BY key DESC LIMIT k` over `s`:
      min(k, |s|) of its rows, highest first, and no row left out ranks
      above a row kept. */
  ghost predicate IsTopK<T>(r: seq<T>, s: seq<T>, k: nat, key: T -> int)
  {
    && |r| == (if |s| < k then |s| else k)
    && SortedDesc(r, key)
    && multiset(r) <= multiset(s)
    && forall x, y :: x in multiset(r) && y in multiset(s) - multiset(r) ==> key(x) >= key(y)
  }

  /** A row placed in front of a sorted sequence whose rows it all
      outranks keeps it sorted. */
  lemma ConsSorted<T>(h: T, t: seq<T>, key: T -> int)
    requires SortedDesc(t, key)
    requires forall j :: 0 <= j < |t| ==> key(h) >= key(t[j])
    ensures SortedDesc([h] + t, key)
  {
    var r := [h] + t;
    forall i, j | 0 <= i < j < |r| ensures key(r[i]) >= key(r[j]) {
      assert r[j] == t[j - 1];
      if i > 0 {
        assert r[i] == t[i - 1];
      }
    }
  }

  /** The front of a sorted sequence outranks every row of a sequence made
      of its other rows and one lower row. */
  lemma FrontOutranks<T>(s: seq<T>, x: T, tail: seq<T>, key: T -> int)
    requires |s| > 0 && SortedDesc(s, key) && key(x) < key(s[0])
    requires multiset(tail) == multiset(s[1..]) + multiset{x}
    ensures forall j :: 0 <= j < |tail| ==> key(s[0]) >= key(tail[j])
  {
    forall j | 0 <= j < |tail| ensures key(s[0]) >= key(tail[j]) {
      assert tail[j] in multiset(tail);
      if tail[j] != x {
        assert tail[j] in multiset(s[1..]);
        var m :| 0 <= m < |s[1..]| && s[1..][m] == tail[j];
        assert s[m + 1] == tail[j];
      }
    }
  }

  /** Places `x` into a sorted sequence before the first row whose key is
      not above its own. */
  function Insert<T>(x: T, s: seq<T>, key: T -> int): (r: seq<T>)
    requires SortedDesc(s, key)
    ensures multiset(r) == multiset(s) + multiset{x}
    ensures SortedDesc(r, key)
  {
    if s == [] || key(x) >= key(s[0]) then
      assert forall j :: 0 <= j < |s| ==> key(x) >= key(s[j]);
      ConsSorted(x, s, key);
      [x] + s
    else
      var tail := Insert(x, s[1..], key);
      assert s == [s[0]] + s[1..];
      FrontOutranks(s, x, tail, key);
      ConsSorted(s[0], tail, key);
      [s[0]] + tail
  }

  /** Insertion sort, highest key first. */
  function SortDesc<T>(s: seq<T>, key: T -> int): (r: seq<T>)
    ensures IsOrderedBy(r, s, key)
  {
    if s == [] then []
    else
      assert s == [s[0]] + s[1..];
      Insert(s[0], SortDesc(s[1..], key), key)
  }

  /** `LIMIT k`: the first k rows, or all of them when there are fewer. */
  function Take<T>(s: seq<T>, k: nat): (r: seq<T>)
    ensures |r| == (if |s| < k then |s| else k)
    ensures r == s[..|r|]
  {
    if |s| < k then s else s[..k]
  }

  /** In a sorted sequence, no row after position n ranks above a row before it. */
  lemma PrefixOutranksRest<T>(r: seq<T>, n: nat, key: T -> int)
    requires SortedDesc(r, key) && n <= |r|
    ensures forall x, y :: x in multiset(r[..n]) && y in multiset(r[n..]) ==> key(x) >= key(y)
  {
    forall x, y | x in multiset(r[..n]) && y in multiset(r[n..]) ensures key(x) >= key(y) {
      var i :| 0 <= i < n && r[..n][i] == x;
      var j :| 0 <= j < |r| - n && r[n..][j] == y;
      assert r[i] == x && r[n + j] == y;
    }
  }

  /** A prefix of a sorted sequence is sorted. */
  lemma PrefixSorted<T>(r: seq<T>, n: nat, key: T -> int)
    requires SortedDesc(r, key) && n <= |r|
    ensures SortedDesc(r[..n], key)
  {
    forall i, j | 0 <= i < j < n ensures key(r[..n][i]) >= key(r[..n][j]) {
      assert r[..n][i] == r[i] && r[..n][j] == r[j];
    }
  }

  /** Cutting a sorted result after k rows keeps the k highest. */
  lemma TakeOfSortedIsTopK<T>(r: seq<T>, s: seq<T>, k: nat, key: T -> int)
    requires IsOrderedBy(r, s, key)
    ensures IsTopK(Take(r, k), s, k, key)
  {
    var t := Take(r, k);
    var n := |t|;
    assert r == t + r[n..];
    assert multiset(s) - multiset(t) == multiset(r[n..]) by {
      assert multiset(r) == multiset(t) + multiset(r[n..]);
    }
    PrefixSorted(r, n, key);
    PrefixOutranksRest(r, n, key);
  }

  /** Dropping one row keeps a sorted sequence sorted. */
  lemma SortedRemove<T>(s: seq<T>, b: nat, key: T -> int) returns (t: seq<T>)
    requires b < |s| && SortedDesc(s, key)
    ensures t == s[..b] + s[b + 1..] && |t| == |s| - 1
    ensures SortedDesc(t, key)
    ensures multiset(t) == multiset(s) - multiset{s[b]}
  {
    t := s[..b] + s[b + 1..];
    forall i, j | 0 <= i < j < |t| ensures key(t[i]) >= key(t[j]) {
      var i' := if i < b then i else i + 1;
      var j' := if j < b then j else j + 1;
      assert t[i] == s[i'] && t[j] == s[j'];
    }
    assert s == s[..b] + [s[b]] + s[b + 1..];
  }

  /** The first row of a sorted sequence carries its highest key. */
  lemma SortedFrontIsMax<T>(r: seq<T>, y: T, key: T -> int)
    requires SortedDesc(r, key) && y in multiset(r)
    ensures key(r[0]) >= key(y)
  {
    var m :| 0 <= m < |r| && r[m] == y;
    if m > 0 { assert key(r[0]) >= key(r[m]); }
  }

  /** Position-wise key agreement after taking r1's front row out of both. */
  lemma KeysAlign<T>(r1: seq<T>, r2: seq<T>, b: nat, key: T -> int)
    requires |r1| == |r2| && b < |r2|
    requires forall i :: 0 <= i <= b ==> key(r2[i]) == key(r1[0])
    requires forall i :: 0 <= i < |r1| - 1 ==> key(r1[1..][i]) == key((r2[..b] + r2[b + 1..])[i])
    ensures forall i :: 0 <= i < |r1| ==> key(r1[i]) == key(r2[i])
  {
    var t1, t2 := r1[1..], r2[..b] + r2[b + 1..];
    forall i | 0 <= i < |r1| ensures key(r1[i]) == key(r2[i]) {
      if 0 < i <= b {
        assert t1[i - 1] == r1[i] && t2[i - 1] == r2[i - 1];
      } else if i > b {
        assert t1[i - 1] == r1[i] && t2[i - 1] == r2[i];
      }
    }
  }

  /** In a sorted sequence, every row up to one that shares the front
      row's key shares it too. */
  lemma SortedPrefixTies<T>(r: seq<T>, b: nat, top: int, key: T -> int)
    requires SortedDesc(r, key) && b < |r|
    requires key(r[b]) == top && key(r[0]) <= top
    ensures forall i :: 0 <= i <= b ==> key(r[i]) == top
  {
    forall i | 0 <= i <= b ensures key(r[i]) == top {
      assert key(r[0]) >= key(r[i]) >= key(r[b]);
    }
  }

  /** Two admissible answers to `ORDER BY key DESC` differ only in the
      order of rows with equal keys: position by position, their keys agree. */
  lemma {:induction false} OrderedKeysUnique<T>(r1: seq<T>, r2: seq<T>, key: T -> int)
    requires multiset(r1) == multiset(r2)
    requires SortedDesc(r1, key) && SortedDesc(r2, key)
    ensures |r1| == |r2|
    ensures forall i :: 0 <= i < |r1| ==> key(r1[i]) == key(r2[i])
    decreases |r1|
  {
    assert |r1| == |multiset(r1)| == |multiset(r2)| == |r2|;
    if r1 != [] {
      // r2 holds r1's front row at some position b, and its own front row
      // is in r1, so neither front ranks above the other.
      assert r1[0] in multiset(r2) by { assert r1[0] in multiset(r1); }
      var b :| 0 <= b < |r2| && r2[b] == r1[0];
      assert r2[0] in multiset(r1) by { assert r2[0] in multiset(r2); }
      SortedFrontIsMax(r1, r2[0], key);
      SortedPrefixTies(r2, b, key(r1[0]), key);
      // Take that row out of both and compare the rest.
      var t1 := SortedRemove(r1, 0, key);
      var t2 := SortedRemove(r2, b, key);
      assert multiset(t1) == multiset(t2);
      OrderedKeysUnique(t1, t2, key);
      assert t1 == r1[1..];
      KeysAlign(r1, r2, b, key);
    }
  }
}
