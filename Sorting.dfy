/**
 * The insertion sort the system writes out three times (twice in
 * models/GraphNavigation, once in core/Entailment): for i = 1 .. n-1, walk
 * j from i down to 1 and swap a[j-1] and a[j] whenever a[j] ranks strictly
 * before a[j-1]. Ranking is by a key: ascending |score| is the key |score|,
 * descending |score| is the key -|score|. Because only a strict comparison
 * swaps, elements of equal key keep their relative order.
 */
module Sorting {
  /** Non-decreasing by key. */
  predicate SortedBy<T>(s: seq<T>, key: T -> real) {
    forall i, j :: 0 <= i < j < |s| ==> key(s[i]) <= key(s[j])
  }

  /** `sorted` with `x` moved in from the right past every element of strictly greater key. */
  function InsertByKey<T>(sorted: seq<T>, x: T, key: T -> real): (r: seq<T>)
    ensures |r| == |sorted| + 1
  {
    if sorted == [] then [x]
    else if key(x) < key(sorted[|sorted| - 1]) then InsertByKey(sorted[..|sorted| - 1], x, key) + [sorted[|sorted| - 1]]
    else sorted + [x]
  }

  /** The list the in-place sort leaves: each element inserted in turn into the sorted prefix. */
  function InsertionSorted<T>(s: seq<T>, key: T -> real): (r: seq<T>)
    ensures |r| == |s|
  {
    if s == [] then [] else InsertByKey(InsertionSorted(s[..|s| - 1], key), s[|s| - 1], key)
  }

  /** The elements of s whose key is k, in order. */
  function WithKey<T>(s: seq<T>, key: T -> real, k: real): (r: seq<T>)
    ensures |r| <= |s|
  {
    if s == [] then []
    else WithKey(s[..|s| - 1], key, k) + (if key(s[|s| - 1]) == k then [s[|s| - 1]] else [])
  }

  lemma {:induction false} InsertByKeyMultiset<T>(sorted: seq<T>, x: T, key: T -> real)
    ensures multiset(InsertByKey(sorted, x, key)) == multiset(sorted) + multiset{x}
  {
    if sorted != [] && key(x) < key(sorted[|sorted| - 1]) {
      var init := sorted[..|sorted| - 1];
      InsertByKeyMultiset(init, x, key);
      assert sorted == init + [sorted[|sorted| - 1]];
    }
  }

  /** A sorted list stays sorted when an element not below any of its keys is appended. */
  lemma SortedSnoc<T>(s: seq<T>, y: T, key: T -> real)
    requires SortedBy(s, key)
    requires forall i :: 0 <= i < |s| ==> key(s[i]) <= key(y)
    ensures SortedBy(s + [y], key)
  {
    var t := s + [y];
    forall i, j | 0 <= i < j < |t| ensures key(t[i]) <= key(t[j]) {
      assert t[i] == s[i];
      if j < |s| {
        assert t[j] == s[j];
      }
    }
  }

  lemma {:induction false} InsertByKeySorted<T>(sorted: seq<T>, x: T, key: T -> real)
    requires SortedBy(sorted, key)
    ensures SortedBy(InsertByKey(sorted, x, key), key)
  {
    if sorted != [] {
      var last := sorted[|sorted| - 1];
      var init := sorted[..|sorted| - 1];
      assert sorted == init + [last];
      if key(x) < key(last) {
        assert SortedBy(init, key);
        InsertByKeySorted(init, x, key);
        var r := InsertByKey(init, x, key);
        InsertByKeyMultiset(init, x, key);
        forall i | 0 <= i < |r| ensures key(r[i]) <= key(last) {
          assert r[i] in multiset(r);
          if r[i] != x {
            assert r[i] in multiset(init);
            var k :| 0 <= k < |init| && init[k] == r[i];
            assert sorted[k] == r[i];
          }
        }
        SortedSnoc(r, last, key);
      } else {
        forall i | 0 <= i < |sorted| ensures key(sorted[i]) <= key(x) {
        }
        SortedSnoc(sorted, x, key);
      }
    }
  }

  /** Inserting x at position j is what InsertByKey does when j separates the keys not above x's from those above it. */
  lemma {:induction false} InsertAt<T>(sorted: seq<T>, x: T, key: T -> real, j: nat)
    requires j <= |sorted|
    requires forall m :: j <= m < |sorted| ==> key(x) < key(sorted[m])
    requires j == 0 || key(sorted[j - 1]) <= key(x)
    ensures InsertByKey(sorted, x, key) == sorted[..j] + [x] + sorted[j..]
  {
    if j < |sorted| {
      var init := sorted[..|sorted| - 1];
      InsertAt(init, x, key, j);
      assert sorted[..j] == init[..j];
      assert sorted[j..] == init[j..] + [sorted[|sorted| - 1]];
    } else if sorted != [] {
      assert sorted[..j] == sorted;
    }
  }

  /** The sort yields a sorted list. */
  lemma {:induction false} InsertionSortedSorted<T>(s: seq<T>, key: T -> real)
    ensures SortedBy(InsertionSorted(s, key), key)
  {
    if s != [] {
      InsertionSortedSorted(s[..|s| - 1], key);
      InsertByKeySorted(InsertionSorted(s[..|s| - 1], key), s[|s| - 1], key);
    }
  }

  /** The sort yields a permutation of its input. */
  lemma {:induction false} InsertionSortedPermutation<T>(s: seq<T>, key: T -> real)
    ensures multiset(InsertionSorted(s, key)) == multiset(s)
  {
    if s != [] {
      var init := s[..|s| - 1];
      InsertionSortedPermutation(init, key);
      InsertByKeyMultiset(InsertionSorted(init, key), s[|s| - 1], key);
      assert s == init + [s[|s| - 1]];
    }
  }

  lemma {:induction false} WithKeyAppend<T>(a: seq<T>, b: seq<T>, key: T -> real, k: real)
    ensures WithKey(a + b, key, k) == WithKey(a, key, k) + WithKey(b, key, k)
  {
    if b != [] {
      WithKeyAppend(a, b[..|b| - 1], key, k);
      assert (a + b)[..|a + b| - 1] == a + b[..|b| - 1];
    } else {
      assert a + b == a;
    }
  }

  lemma {:induction false} InsertByKeyWithKey<T>(sorted: seq<T>, x: T, key: T -> real, k: real)
    ensures WithKey(InsertByKey(sorted, x, key), key, k) == WithKey(sorted, key, k) + (if key(x) == k then [x] else [])
  {
    if sorted != [] && key(x) < key(sorted[|sorted| - 1]) {
      var init := sorted[..|sorted| - 1];
      var last := sorted[|sorted| - 1];
      InsertByKeyWithKey(init, x, key, k);
      WithKeyAppend(InsertByKey(init, x, key), [last], key, k);
    } else if sorted != [] {
      WithKeyAppend(sorted, [x], key, k);
    }
  }

  /** Stability: for every key, the elements of that key appear in the sorted list in their original order. */
  lemma {:induction false} InsertionSortedStable<T>(s: seq<T>, key: T -> real, k: real)
    ensures WithKey(InsertionSorted(s, key), key, k) == WithKey(s, key, k)
  {
    if s != [] {
      InsertionSortedStable(s[..|s| - 1], key, k);
      InsertByKeyWithKey(InsertionSorted(s[..|s| - 1], key), s[|s| - 1], key, k);
    }
  }

  /**
   * The inner loop: a[..i] is sorted, and a[i] sinks left by adjacent swaps
   * while it ranks strictly before its left neighbour. The loop still runs
   * down to j = 1 once a[i] has settled; those steps swap nothing.
   */
  method SinkLast<T>(a: array<T>, i: nat, key: T -> real)
    requires i < a.Length
    requires SortedBy(a[..i], key)
    modifies a
    ensures a[..i + 1] == InsertByKey(old(a[..i]), old(a[i]), key)
    ensures a[i + 1..] == old(a[i + 1..])
  {
    ghost var t := a[..i];
    ghost var x := a[i];
    ghost var placed := false;
    InsertByKeySorted(t, x, key);
    var j := i;
    while j > 0
      invariant 0 <= j <= i
      invariant a[i + 1..] == old(a[i + 1..])
      invariant !placed ==> a[..i + 1] == t[..j] + [x] + t[j..]
      invariant !placed ==> forall m :: j <= m < i ==> key(x) < key(t[m])
      invariant placed ==> a[..i + 1] == InsertByKey(t, x, key)
    {
      ghost var cur := a[..i + 1];
      assert a[j] == cur[j] && a[j - 1] == cur[j - 1];
      if key(a[j]) < key(a[j - 1]) {
        if placed {
          assert false;
        }
        SwapShape(t, x, j);
        SwapBack(a, j, i);
      } else if !placed {
        SwapShape(t, x, j);
        InsertAt(t, x, key, j);
        placed := true;
      }
      j := j - 1;
    }
    if !placed {
      InsertAt(t, x, key, 0);
    }
  }

  /** One swap of the inner loop: a[j] and its left neighbour change places. */
  method SwapBack<T>(a: array<T>, j: nat, i: nat)
    requires 0 < j <= i < a.Length
    modifies a
    ensures a[..i + 1] == old(a[..i + 1])[j - 1 := old(a[j])][j := old(a[j - 1])]
    ensures a[i + 1..] == old(a[i + 1..])
  {
    a[j - 1], a[j] := a[j], a[j - 1];
  }

  /** Swapping x with its left neighbour moves it one place left among the elements of t. */
  lemma SwapShape<T>(t: seq<T>, x: T, j: nat)
    requires 0 < j <= |t|
    ensures var s := t[..j] + [x] + t[j..]; s[j] == x && s[j - 1] == t[j - 1]
    ensures var s := t[..j] + [x] + t[j..]; s[j - 1 := x][j := t[j - 1]] == t[..j - 1] + [x] + t[j - 1..]
  {
    var s := t[..j] + [x] + t[j..];
    var u := t[..j - 1] + [x] + t[j - 1..];
    forall k | 0 <= k < |u| ensures s[j - 1 := x][j := t[j - 1]][k] == u[k] {
      if k < j - 1 {
        assert s[k] == t[k];
      } else if j < k {
        assert s[k] == t[k - 1];
      }
    }
  }

  /** The outer loop: after round i the first i + 1 elements are the sorted first i + 1 of the input. */
  method InsertionSort<T>(a: array<T>, key: T -> real)
    modifies a
    ensures a[..] == InsertionSorted(old(a[..]), key)
  {
    ghost var s := a[..];
    var i := 1;
    while i < a.Length
      invariant a.Length == 0 || 1 <= i <= a.Length
      invariant a.Length > 0 ==> a[..i] == InsertionSorted(s[..i], key)
      invariant a.Length > 0 ==> a[i..] == s[i..]
    {
      InsertionSortedSorted(s[..i], key);
      assert a[i] == s[i];
      SinkLast(a, i, key);
      assert s[..i + 1][..i] == s[..i];
      assert a[i + 1..] == s[i + 1..];
      i := i + 1;
    }
    if a.Length > 0 {
      assert s[..1] == [s[0]];
      assert a[..] == a[..i];
      assert s[..i] == s;
    } else {
      assert a[..] == [] == s;
    }
  }
}
