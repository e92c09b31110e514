/** The reference definition of the list sort: a top-down merge sort that
    splits after the first ceil(n/2) elements and, on ties, takes from the
    left run. Elements are ordered by the comparator applied to their keys
    (for list nodes: their payloads). */
module StableSort {

  /** `x` may precede `y`: compare(key x, key y) <= 0. */
  predicate Le<X, K>(key: map<X, K>, cmp: (K, K) -> int, x: X, y: X)
  {
    x in key && y in key && cmp(key[x], key[y]) <= 0
  }

  /** Merge two runs, preferring the left run while its head compares <= 0. */
  function Merge<X, K>(a: seq<X>, b: seq<X>, key: map<X, K>, cmp: (K, K) -> int): seq<X>
    decreases |a| + |b|
  {
    if |a| == 0 then b
    else if |b| == 0 then a
    else if Le(key, cmp, a[0], b[0]) then [a[0]] + Merge(a[1..], b, key, cmp)
    else [b[0]] + Merge(a, b[1..], key, cmp)
  }

  /** The length of the first half: the slow/fast pointer walk stops on the
      ceil(n/2)-th node. */
  function FirstHalf(n: nat): (m: nat)
    ensures 0 < n ==> 0 < m <= n
    ensures 1 < n ==> m < n
  {
    (n + 1) / 2
  }

  function MergeSort<X, K>(s: seq<X>, key: map<X, K>, cmp: (K, K) -> int): seq<X>
    decreases |s|
  {
    if |s| <= 1 then s
    else
      var m := FirstHalf(|s|);
      Merge(MergeSort(s[..m], key, cmp), MergeSort(s[m..], key, cmp), key, cmp)
  }

  /** Every element has a key. */
  ghost predicate Keyed<X, K>(s: seq<X>, key: map<X, K>)
  {
    forall x | x in s :: x in key
  }

  /** The comparator is a total preorder on the keys in use. */
  ghost predicate TotalPreorder<X, K>(key: map<X, K>, cmp: (K, K) -> int)
  {
    && (forall x, y | x in key && y in key :: Le(key, cmp, x, y) || Le(key, cmp, y, x))
    && (forall x, y, z | x in key && y in key && z in key && Le(key, cmp, x, y) && Le(key, cmp, y, z) :: Le(key, cmp, x, z))
  }

  /** Non-decreasing under the comparator. */
  ghost predicate Sorted<X, K>(s: seq<X>, key: map<X, K>, cmp: (K, K) -> int)
  {
    forall i, j | 0 <= i < j < |s| :: Le(key, cmp, s[i], s[j])
  }

  /** Neither of `x` and `e` sorts strictly before the other. */
  predicate Equivalent<X, K>(key: map<X, K>, cmp: (K, K) -> int, x: X, e: X)
  {
    Le(key, cmp, x, e) && Le(key, cmp, e, x)
  }

  /** The elements of `s` equivalent to `e`, in their order in `s`. A sort is
      stable when it leaves every such subsequence as it was. */
  function Class<X, K>(s: seq<X>, key: map<X, K>, cmp: (K, K) -> int, e: X): seq<X>
    decreases |s|
  {
    if |s| == 0 then []
    else (if Equivalent(key, cmp, s[0], e) then [s[0]] else []) + Class(s[1..], key, cmp, e)
  }

  lemma HeadTail<X>(s: seq<X>)
    requires |s| > 0
    ensures s == [s[0]] + s[1..]
  {
  }

  lemma AppendAssoc<X>(x: seq<X>, y: seq<X>, z: seq<X>)
    ensures x + (y + z) == (x + y) + z
  {
  }

  lemma SplitAt<X>(s: seq<X>, m: nat)
    requires m <= |s|
    ensures s == s[..m] + s[m..]
  {
  }

  lemma DropAppend<X>(a: seq<X>, b: seq<X>)
    requires |a| > 0
    ensures (a + b)[1..] == a[1..] + b
  {
  }

  lemma {:induction false} MergePermutation<X, K>(a: seq<X>, b: seq<X>, key: map<X, K>, cmp: (K, K) -> int)
    ensures multiset(Merge(a, b, key, cmp)) == multiset(a) + multiset(b)
    decreases |a| + |b|
  {
    if |a| == 0 || |b| == 0 {
    } else if Le(key, cmp, a[0], b[0]) {
      MergePermutation(a[1..], b, key, cmp);
      HeadTail(a);
    } else {
      MergePermutation(a, b[1..], key, cmp);
      HeadTail(b);
    }
  }

  /** The sort only reorders: the output is a permutation of the input. */
  lemma {:induction false} MergeSortPermutation<X, K>(s: seq<X>, key: map<X, K>, cmp: (K, K) -> int)
    ensures multiset(MergeSort(s, key, cmp)) == multiset(s)
    decreases |s|
  {
    if |s| > 1 {
      var m := FirstHalf(|s|);
      MergeSortPermutation(s[..m], key, cmp);
      MergeSortPermutation(s[m..], key, cmp);
      MergePermutation(MergeSort(s[..m], key, cmp), MergeSort(s[m..], key, cmp), key, cmp);
      SplitAt(s, m);
    }
  }

  lemma SortedTail<X, K>(s: seq<X>, key: map<X, K>, cmp: (K, K) -> int)
    requires Sorted(s, key, cmp) && |s| > 0
    ensures Sorted(s[1..], key, cmp)
  {
    forall i, j | 0 <= i < j < |s| - 1 ensures Le(key, cmp, s[1..][i], s[1..][j]) {
      assert s[1..][i] == s[i + 1] && s[1..][j] == s[j + 1];
    }
  }

  lemma SortedCons<X, K>(x: X, s: seq<X>, key: map<X, K>, cmp: (K, K) -> int)
    requires Sorted(s, key, cmp)
    requires forall y | y in s :: Le(key, cmp, x, y)
    ensures Sorted([x] + s, key, cmp)
  {
    var r := [x] + s;
    forall i, j | 0 <= i < j < |r| ensures Le(key, cmp, r[i], r[j]) {
      if i == 0 {
        assert r[j] == s[j - 1];
      } else {
        assert r[i] == s[i - 1] && r[j] == s[j - 1];
      }
    }
  }

  lemma {:induction false} MergeSorted<X, K>(a: seq<X>, b: seq<X>, key: map<X, K>, cmp: (K, K) -> int)
    requires TotalPreorder(key, cmp)
    requires Keyed(a, key) && Keyed(b, key)
    requires Sorted(a, key, cmp) && Sorted(b, key, cmp)
    ensures Sorted(Merge(a, b, key, cmp), key, cmp)
    decreases |a| + |b|
  {
    if |a| == 0 || |b| == 0 {
    } else if Le(key, cmp, a[0], b[0]) {
      var rest := Merge(a[1..], b, key, cmp);
      MergeSorted(a[1..], b, key, cmp);
      MergePermutation(a[1..], b, key, cmp);
      forall y | y in rest ensures Le(key, cmp, a[0], y) {
        assert y in multiset(rest);
        if y in a[1..] {
          var k :| 0 <= k < |a[1..]| && a[1..][k] == y;
          assert a[k + 1] == y;
        } else {
          assert y in b;
          var k :| 0 <= k < |b| && b[k] == y;
          if k > 0 {
            assert Le(key, cmp, b[0], b[k]);
          }
        }
      }
      SortedCons(a[0], rest, key, cmp);
    } else {
      assert Le(key, cmp, b[0], a[0]);
      var rest := Merge(a, b[1..], key, cmp);
      MergeSorted(a, b[1..], key, cmp);
      MergePermutation(a, b[1..], key, cmp);
      forall y | y in rest ensures Le(key, cmp, b[0], y) {
        assert y in multiset(rest);
        if y in b[1..] {
          var k :| 0 <= k < |b[1..]| && b[1..][k] == y;
          assert b[k + 1] == y;
        } else {
          assert y in a;
          var k :| 0 <= k < |a| && a[k] == y;
          if k > 0 {
            assert Le(key, cmp, a[0], a[k]);
          }
        }
      }
      SortedCons(b[0], rest, key, cmp);
    }
  }

  lemma KeyedPermutation<X, K>(s: seq<X>, t: seq<X>, key: map<X, K>)
    requires Keyed(s, key) && multiset(t) == multiset(s)
    ensures Keyed(t, key)
  {
    forall x | x in t ensures x in key {
      assert x in multiset(t);
    }
  }

  /** Under a total preorder the sort's output is non-decreasing. */
  lemma {:induction false} MergeSortSorted<X, K>(s: seq<X>, key: map<X, K>, cmp: (K, K) -> int)
    requires TotalPreorder(key, cmp) && Keyed(s, key)
    ensures Sorted(MergeSort(s, key, cmp), key, cmp)
    decreases |s|
  {
    if |s| > 1 {
      var m := FirstHalf(|s|);
      var l, r := MergeSort(s[..m], key, cmp), MergeSort(s[m..], key, cmp);
      MergeSortSorted(s[..m], key, cmp);
      MergeSortSorted(s[m..], key, cmp);
      MergeSortPermutation(s[..m], key, cmp);
      MergeSortPermutation(s[m..], key, cmp);
      KeyedPermutation(s[..m], l, key);
      KeyedPermutation(s[m..], r, key);
      MergeSorted(l, r, key, cmp);
    }
  }

  lemma {:induction false} ClassAppend<X, K>(a: seq<X>, b: seq<X>, key: map<X, K>, cmp: (K, K) -> int, e: X)
    ensures Class(a + b, key, cmp, e) == Class(a, key, cmp, e) + Class(b, key, cmp, e)
    decreases |a|
  {
    if |a| > 0 {
      ClassAppend(a[1..], b, key, cmp, e);
      DropAppend(a, b);
    } else {
      assert a + b == b;
    }
  }

  lemma {:induction false} ClassEmpty<X, K>(a: seq<X>, key: map<X, K>, cmp: (K, K) -> int, e: X)
    requires forall x | x in a :: !Equivalent(key, cmp, x, e)
    ensures Class(a, key, cmp, e) == []
    decreases |a|
  {
    if |a| > 0 {
      assert a[0] in a;
      ClassEmpty(a[1..], key, cmp, e);
    }
  }

  lemma KeyedTail<X, K>(s: seq<X>, key: map<X, K>)
    requires Keyed(s, key) && |s| > 0
    ensures Keyed(s[1..], key)
  {
    forall x | x in s[1..] ensures x in key {
      var k :| 0 <= k < |s| - 1 && s[1..][k] == x;
      assert s[k + 1] in s;
    }
  }

  /** Taking the left head keeps the class equation of the rest. */
  lemma MergeStableLeft<X, K>(a: seq<X>, b: seq<X>, key: map<X, K>, cmp: (K, K) -> int, e: X)
    requires |a| > 0 && |b| > 0 && Le(key, cmp, a[0], b[0])
    requires Class(Merge(a[1..], b, key, cmp), key, cmp, e) == Class(a[1..], key, cmp, e) + Class(b, key, cmp, e)
    ensures Class(Merge(a, b, key, cmp), key, cmp, e) == Class(a, key, cmp, e) + Class(b, key, cmp, e)
  {
    HeadTail(a);
    ClassAppend([a[0]], Merge(a[1..], b, key, cmp), key, cmp, e);
    ClassAppend([a[0]], a[1..], key, cmp, e);
    AppendAssoc(Class([a[0]], key, cmp, e), Class(a[1..], key, cmp, e), Class(b, key, cmp, e));
  }

  /** Taking the right head keeps the class equation of the rest, provided
      the head is not in the class or the left run has nothing in it. */
  lemma MergeStableRight<X, K>(a: seq<X>, b: seq<X>, key: map<X, K>, cmp: (K, K) -> int, e: X)
    requires |a| > 0 && |b| > 0 && !Le(key, cmp, a[0], b[0])
    requires Class(Merge(a, b[1..], key, cmp), key, cmp, e) == Class(a, key, cmp, e) + Class(b[1..], key, cmp, e)
    requires Equivalent(key, cmp, b[0], e) ==> Class(a, key, cmp, e) == []
    ensures Class(Merge(a, b, key, cmp), key, cmp, e) == Class(a, key, cmp, e) + Class(b, key, cmp, e)
  {
    HeadTail(b);
    var c0, ca, cb := Class([b[0]], key, cmp, e), Class(a, key, cmp, e), Class(b[1..], key, cmp, e);
    ClassAppend([b[0]], Merge(a, b[1..], key, cmp), key, cmp, e);
    ClassAppend([b[0]], b[1..], key, cmp, e);
    if Equivalent(key, cmp, b[0], e) {
      assert ca == [];
      assert ca + (c0 + cb) == c0 + cb && ca + cb == cb;
    } else {
      assert c0 == [];
      assert c0 + (ca + cb) == ca + cb && c0 + cb == cb;
    }
  }

  /** Merging two sorted runs keeps, within each equivalence class, all of
      the left run's elements ahead of the right run's. */
  lemma {:induction false} MergeStable<X, K>(a: seq<X>, b: seq<X>, key: map<X, K>, cmp: (K, K) -> int, e: X)
    requires TotalPreorder(key, cmp)
    requires Keyed(a, key) && Keyed(b, key)
    requires Sorted(a, key, cmp) && Sorted(b, key, cmp)
    ensures Class(Merge(a, b, key, cmp), key, cmp, e) == Class(a, key, cmp, e) + Class(b, key, cmp, e)
    decreases |a| + |b|
  {
    if |a| == 0 {
    } else if |b| == 0 {
    } else if Le(key, cmp, a[0], b[0]) {
      SortedTail(a, key, cmp);
      KeyedTail(a, key);
      MergeStable(a[1..], b, key, cmp, e);
      MergeStableLeft(a, b, key, cmp, e);
    } else {
      SortedTail(b, key, cmp);
      KeyedTail(b, key);
      MergeStable(a, b[1..], key, cmp, e);
      if Equivalent(key, cmp, b[0], e) {
        PassedOverNotEquivalent(a, b[0], key, cmp, e);
      }
      MergeStableRight(a, b, key, cmp, e);
    }
  }

  /** When the right run's head `y` strictly precedes the head of the sorted
      left run, no element of the left run is equivalent to anything
      equivalent to `y`. */
  lemma PassedOverNotEquivalent<X, K>(a: seq<X>, y: X, key: map<X, K>, cmp: (K, K) -> int, e: X)
    requires TotalPreorder(key, cmp)
    requires Keyed(a, key) && Sorted(a, key, cmp) && |a| > 0
    requires !Le(key, cmp, a[0], y) && Equivalent(key, cmp, y, e)
    ensures Class(a, key, cmp, e) == []
  {
    forall x | x in a ensures !Equivalent(key, cmp, x, e) {
      var k :| 0 <= k < |a| && a[k] == x;
      if k > 0 {
        assert Le(key, cmp, a[0], a[k]);
      }
      assert Le(key, cmp, a[0], x);
    }
    ClassEmpty(a, key, cmp, e);
  }

  /** The sort is stable: for every element `e`, the elements equivalent to
      `e` come out in the order they went in. */
  lemma {:induction false} MergeSortStable<X, K>(s: seq<X>, key: map<X, K>, cmp: (K, K) -> int, e: X)
    requires TotalPreorder(key, cmp) && Keyed(s, key)
    ensures Class(MergeSort(s, key, cmp), key, cmp, e) == Class(s, key, cmp, e)
    decreases |s|
  {
    if |s| > 1 {
      var m := FirstHalf(|s|);
      var l, r := MergeSort(s[..m], key, cmp), MergeSort(s[m..], key, cmp);
      MergeSortStable(s[..m], key, cmp, e);
      MergeSortStable(s[m..], key, cmp, e);
      MergeSortSorted(s[..m], key, cmp);
      MergeSortSorted(s[m..], key, cmp);
      MergeSortPermutation(s[..m], key, cmp);
      MergeSortPermutation(s[m..], key, cmp);
      KeyedPermutation(s[..m], l, key);
      KeyedPermutation(s[m..], r, key);
      MergeStable(l, r, key, cmp, e);
      ClassAppend(s[..m], s[m..], key, cmp, e);
      SplitAt(s, m);
    }
  }
}
