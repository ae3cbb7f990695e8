/**
 * Python's `list.sort(key=...)` on a list of (key, payload) pairs, sorting by the key.
 *
 * The library sort is stable: entries with equal keys keep their relative order. It is
 * modelled here by a stable insertion sort, and the properties the callers rely on
 * (sorted, a permutation, equal keys in their original order, the head holds the least
 * key) are proved about it.
 */
module Sorting {

  /** Keys ascend along `s`. */
  predicate SortedByKey<T>(s: seq<(int, T)>)
  {
    forall i, j :: 0 <= i < j < |s| ==> s[i].0 <= s[j].0
  }

  /** `e` goes before the first entry whose key is not smaller than its own. */
  function Insert<T>(e: (int, T), s: seq<(int, T)>): (r: seq<(int, T)>)
    ensures |r| == |s| + 1
    decreases |s|
  {
    if s == [] || e.0 <= s[0].0 then [e] + s else [s[0]] + Insert(e, s[1..])
  }

  /** `sorted(s, key=lambda x: x[0])`. */
  function SortByKey<T>(s: seq<(int, T)>): (r: seq<(int, T)>)
    ensures |r| == |s|
    decreases |s|
  {
    if s == [] then [] else Insert(s[0], SortByKey(s[1..]))
  }

  /** The entries of `s` whose key is `k`, in order. */
  function WithKey<T>(s: seq<(int, T)>, k: int): (r: seq<(int, T)>)
    ensures |r| <= |s|
    decreases |s|
  {
    if s == [] then []
    else (if s[0].0 == k then [s[0]] else []) + WithKey(s[1..], k)
  }

  /** The least key of a non-empty sequence. */
  function MinKey<T>(s: seq<(int, T)>): int
    requires s != []
    decreases |s|
  {
    if |s| == 1 then s[0].0
    else
      var m := MinKey(s[1..]);
      if s[0].0 <= m then s[0].0 else m
  }

  lemma {:induction false} MinKeyIsLeast<T>(s: seq<(int, T)>)
    requires s != []
    ensures forall i :: 0 <= i < |s| ==> MinKey(s) <= s[i].0
    ensures exists i :: 0 <= i < |s| && s[i].0 == MinKey(s)
    decreases |s|
  {
    if |s| == 1 {
      assert s[0].0 == MinKey(s);
    } else {
      MinKeyIsLeast(s[1..]);
      var j :| 0 <= j < |s[1..]| && s[1..][j].0 == MinKey(s[1..]);
      assert s[j + 1].0 == MinKey(s[1..]);
      if s[0].0 > MinKey(s[1..]) {
        assert s[j + 1].0 == MinKey(s);
      }
      forall i | 0 < i < |s| ensures MinKey(s) <= s[i].0 {
        assert s[i] == s[1..][i - 1];
      }
    }
  }

  lemma {:induction false} InsertSorted<T>(e: (int, T), s: seq<(int, T)>)
    requires SortedByKey(s)
    ensures SortedByKey(Insert(e, s))
    ensures Insert(e, s)[0].0 == if s == [] || e.0 <= s[0].0 then e.0 else s[0].0
    decreases |s|
  {
    if s != [] && e.0 > s[0].0 {
      InsertSorted(e, s[1..]);
      var t := Insert(e, s[1..]);
      forall j | 0 < j < |[s[0]] + t| ensures s[0].0 <= ([s[0]] + t)[j].0 {
        InsertMembers(e, s[1..], j - 1);
      }
    }
  }

  /** Every entry of `Insert(e, s)` is `e` or an entry of `s`. */
  lemma {:induction false} InsertMembers<T>(e: (int, T), s: seq<(int, T)>, j: nat)
    requires j < |Insert(e, s)|
    ensures Insert(e, s)[j] == e || exists i :: 0 <= i < |s| && Insert(e, s)[j] == s[i]
    decreases |s|
  {
    if s != [] && e.0 > s[0].0 && j > 0 {
      InsertMembers(e, s[1..], j - 1);
      if Insert(e, s[1..])[j - 1] != e {
        var i :| 0 <= i < |s[1..]| && Insert(e, s[1..])[j - 1] == s[1..][i];
        assert Insert(e, s)[j] == s[i + 1];
      }
    } else if s != [] && e.0 <= s[0].0 && j > 0 {
      assert Insert(e, s)[j] == s[j - 1];
    }
  }

  /** The result is sorted by key. */
  lemma {:induction false} SortByKeySorted<T>(s: seq<(int, T)>)
    ensures SortedByKey(SortByKey(s))
    decreases |s|
  {
    if s != [] {
      SortByKeySorted(s[1..]);
      InsertSorted(s[0], SortByKey(s[1..]));
    }
  }

  lemma {:induction false} InsertPermutes<T>(e: (int, T), s: seq<(int, T)>)
    ensures multiset(Insert(e, s)) == multiset(s) + multiset{e}
    decreases |s|
  {
    if s != [] && e.0 > s[0].0 {
      InsertPermutes(e, s[1..]);
      assert s == [s[0]] + s[1..];
    }
  }

  /** The result holds the same entries, each as many times. */
  lemma {:induction false} SortByKeyPermutes<T>(s: seq<(int, T)>)
    ensures multiset(SortByKey(s)) == multiset(s)
    decreases |s|
  {
    if s != [] {
      SortByKeyPermutes(s[1..]);
      InsertPermutes(s[0], SortByKey(s[1..]));
      assert s == [s[0]] + s[1..];
    }
  }

  lemma {:induction false} InsertWithKey<T>(e: (int, T), s: seq<(int, T)>, k: int)
    ensures WithKey(Insert(e, s), k) == (if e.0 == k then [e] else []) + WithKey(s, k)
    decreases |s|
  {
    if s != [] && e.0 > s[0].0 {
      InsertWithKey(e, s[1..], k);
      var r := Insert(e, s);
      assert r[0] == s[0] && r[1..] == Insert(e, s[1..]);
      if e.0 == k {
        assert s[0].0 != k;
      }
    } else {
      var r := Insert(e, s);
      assert r[0] == e && r[1..] == s;
    }
  }

  /** Stability: the entries with any one key come out in the order they went in. */
  lemma {:induction false} SortByKeyStable<T>(s: seq<(int, T)>, k: int)
    ensures WithKey(SortByKey(s), k) == WithKey(s, k)
    decreases |s|
  {
    if s != [] {
      SortByKeyStable(s[1..], k);
      InsertWithKey(s[0], SortByKey(s[1..]), k);
    }
  }

  /** The first entry of the sorted list carries the least key. */
  lemma {:induction false} SortByKeyHead<T>(s: seq<(int, T)>)
    requires s != []
    ensures SortByKey(s)[0].0 == MinKey(s)
    decreases |s|
  {
    SortByKeySorted(s[1..]);
    InsertSorted(s[0], SortByKey(s[1..]));
    if |s| > 1 {
      SortByKeyHead(s[1..]);
    }
  }
}
