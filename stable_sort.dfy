/** Python's stable sort with `reverse=True`: elements end up in non-increasing
    order of their key, and elements whose keys are equal keep their original
    relative order. `list.sort` does this in place; `sorted` and
    `heapq.nlargest` (behind `Counter.most_common`) return the same order.

    `Sort` is the specification (an insertion sort written as a function);
    `SortInPlace` is the in-place sort on an array, proved to produce it;
    `SortIsUnique` shows that any order that is sorted and stable is `Sort`. */
module StableSort {

  /** Non-increasing by key. */
  predicate SortedDesc<T>(s: seq<T>, key: T -> int) {
    forall i, j :: 0 <= i < j < |s| ==> key(s[i]) >= key(s[j])
  }

  /** The elements of `s` whose key is `k`, in their order in `s`. */
  function WithKey<T>(s: seq<T>, key: T -> int, k: int): seq<T> {
    if s == [] then []
    else WithKey(s[..|s| - 1], key, k) + (if key(s[|s| - 1]) == k then [s[|s| - 1]] else [])
  }

  /** Stable: for every key, the elements carrying it appear in the same order. */
  ghost predicate SameOrderPerKey<T>(s: seq<T>, t: seq<T>, key: T -> int) {
    forall k :: WithKey(s, key, k) == WithKey(t, key, k)
  }

  /** Inserts `x` into `s` just after the last element whose key is at least key(x). */
  function Insert<T>(s: seq<T>, x: T, key: T -> int): seq<T> {
    if s == [] || key(s[|s| - 1]) >= key(x) then s + [x]
    else Insert(s[..|s| - 1], x, key) + [s[|s| - 1]]
  }

  function Sort<T>(s: seq<T>, key: T -> int): seq<T> {
    if s == [] then [] else Insert(Sort(s[..|s| - 1], key), s[|s| - 1], key)
  }

  lemma {:induction false} InsertPermutes<T>(s: seq<T>, x: T, key: T -> int)
    ensures multiset(Insert(s, x, key)) == multiset(s) + multiset{x}
  {
    if s != [] && key(s[|s| - 1]) < key(x) {
      var init := s[..|s| - 1];
      InsertPermutes(init, x, key);
      assert s == init + [s[|s| - 1]];
    }
  }

  /** A lower bound on every key survives insertion of an element that also meets it. */
  lemma {:induction false} InsertKeepsLowerBound<T>(s: seq<T>, x: T, key: T -> int, b: int)
    requires forall i :: 0 <= i < |s| ==> key(s[i]) >= b
    requires key(x) >= b
    ensures forall i :: 0 <= i < |Insert(s, x, key)| ==> key(Insert(s, x, key)[i]) >= b
  {
    if s != [] && key(s[|s| - 1]) < key(x) {
      InsertKeepsLowerBound(s[..|s| - 1], x, key, b);
    }
  }

  lemma {:induction false} InsertKeepsSorted<T>(s: seq<T>, x: T, key: T -> int)
    requires SortedDesc(s, key)
    ensures SortedDesc(Insert(s, x, key), key)
  {
    if s != [] && key(s[|s| - 1]) < key(x) {
      var init, last := s[..|s| - 1], s[|s| - 1];
      InsertKeepsSorted(init, x, key);
      InsertKeepsLowerBound(init, x, key, key(last));
    }
  }

  lemma {:induction false} WithKeyAppend<T>(s: seq<T>, t: seq<T>, key: T -> int, k: int)
    ensures WithKey(s + t, key, k) == WithKey(s, key, k) + WithKey(t, key, k)
  {
    if t != [] {
      var init, last := t[..|t| - 1], t[|t| - 1];
      var tail := if key(last) == k then [last] else [];
      WithKeyAppend(s, init, key, k);
      assert (s + t)[..|s + t| - 1] == s + init;
      assert (s + t)[|s + t| - 1] == last;
      assert WithKey(s + t, key, k) == WithKey(s + init, key, k) + tail;
      assert WithKey(t, key, k) == WithKey(init, key, k) + tail;
    } else {
      assert s + t == s;
    }
  }

  lemma {:induction false} InsertIsStable<T>(s: seq<T>, x: T, key: T -> int, k: int)
    ensures WithKey(Insert(s, x, key), key, k) == WithKey(s, key, k) + WithKey([x], key, k)
  {
    if s == [] || key(s[|s| - 1]) >= key(x) {
      WithKeyAppend(s, [x], key, k);
    } else {
      var init, last := s[..|s| - 1], s[|s| - 1];
      var wi, wx, wl := WithKey(init, key, k), WithKey([x], key, k), WithKey([last], key, k);
      assert WithKey(Insert(s, x, key), key, k) == wi + wx + wl by {
        InsertIsStable(init, x, key, k);
        WithKeyAppend(Insert(init, x, key), [last], key, k);
      }
      assert WithKey(s, key, k) == wi + wl by {
        assert s == init + [last];
        WithKeyAppend(init, [last], key, k);
      }
      assert wx == [] || wl == [];
    }
  }

  lemma {:induction false} SortPermutes<T>(s: seq<T>, key: T -> int)
    ensures multiset(Sort(s, key)) == multiset(s)
    ensures |Sort(s, key)| == |s|
  {
    if s != [] {
      var init, last := s[..|s| - 1], s[|s| - 1];
      SortPermutes(init, key);
      InsertPermutes(Sort(init, key), last, key);
      assert s == init + [last];
      assert |multiset(Sort(s, key))| == |multiset(s)|;
    }
  }

  lemma {:induction false} SortIsSorted<T>(s: seq<T>, key: T -> int)
    ensures SortedDesc(Sort(s, key), key)
  {
    if s != [] {
      SortIsSorted(s[..|s| - 1], key);
      InsertKeepsSorted(Sort(s[..|s| - 1], key), s[|s| - 1], key);
    }
  }

  lemma {:induction false} SortIsStable<T>(s: seq<T>, key: T -> int)
    ensures SameOrderPerKey(Sort(s, key), s, key)
  {
    if s != [] {
      var init, last := s[..|s| - 1], s[|s| - 1];
      SortIsStable(init, key);
      forall k ensures WithKey(Sort(s, key), key, k) == WithKey(s, key, k) {
        InsertIsStable(Sort(init, key), last, key, k);
        WithKeyAppend(init, [last], key, k);
        assert s == init + [last];
      }
    }
  }

  /** The specification sort is a sorted, stable permutation of its input. */
  lemma SortIsStableSortedPermutation<T>(s: seq<T>, key: T -> int)
    ensures |Sort(s, key)| == |s|
    ensures multiset(Sort(s, key)) == multiset(s)
    ensures SortedDesc(Sort(s, key), key)
    ensures SameOrderPerKey(Sort(s, key), s, key)
  {
    SortPermutes(s, key);
    SortIsSorted(s, key);
    SortIsStable(s, key);
  }

  lemma {:induction false} WithKeyMember<T>(s: seq<T>, key: T -> int, k: int)
    requires WithKey(s, key, k) != []
    ensures exists i :: 0 <= i < |s| && key(s[i]) == k
  {
    var init := s[..|s| - 1];
    if key(s[|s| - 1]) != k {
      WithKeyMember(init, key, k);
      var i :| 0 <= i < |init| && key(init[i]) == k;
      assert s[i] == init[i];
    }
  }

  /** A sorted, stable rearrangement is unique: any two agree. */
  lemma {:induction false} SortedStableUnique<T>(t: seq<T>, u: seq<T>, key: T -> int)
    requires SortedDesc(t, key) && SortedDesc(u, key)
    requires SameOrderPerKey(t, u, key)
    ensures t == u
    decreases |t| + |u|
  {
    if t != [] {
      assert WithKey(t, key, key(t[|t| - 1])) != [];
    }
    if u != [] {
      assert WithKey(u, key, key(u[|u| - 1])) != [];
    }
    if t != [] && u != [] {
      var m, n := key(t[|t| - 1]), key(u[|u| - 1]);
      if m < n {
        assert WithKey(t, key, m) != [];
        WithKeyMember(u, key, m);
        assert false;
      } else if n < m {
        assert WithKey(u, key, n) != [];
        WithKeyMember(t, key, n);
        assert false;
      }
      var t', u' := t[..|t| - 1], u[..|u| - 1];
      var tm, um := WithKey(t', key, m), WithKey(u', key, m);
      assert WithKey(t, key, m) == tm + [t[|t| - 1]];
      assert WithKey(u, key, m) == um + [u[|u| - 1]];
      assert tm + [t[|t| - 1]] == um + [u[|u| - 1]];
      assert (tm + [t[|t| - 1]])[|tm|] == t[|t| - 1];
      assert (um + [u[|u| - 1]])[|um|] == u[|u| - 1];
      assert (tm + [t[|t| - 1]])[..|tm|] == tm;
      assert (um + [u[|u| - 1]])[..|um|] == um;
      forall k ensures WithKey(t', key, k) == WithKey(u', key, k) {
        assert WithKey(t, key, k) == WithKey(u, key, k);
        if k != m {
          assert WithKey(t, key, k) == WithKey(t', key, k);
          assert WithKey(u, key, k) == WithKey(u', key, k);
        }
      }
      SortedStableUnique(t', u', key);
      assert t == t' + [t[|t| - 1]];
      assert u == u' + [u[|u| - 1]];
    }
  }

  /** Whatever algorithm a stable sort uses (Python's is Timsort), its result is `Sort`. */
  lemma SortIsUnique<T>(s: seq<T>, t: seq<T>, key: T -> int)
    requires SortedDesc(t, key) && SameOrderPerKey(t, s, key)
    ensures t == Sort(s, key)
  {
    SortIsStableSortedPermutation(s, key);
    SortedStableUnique(t, Sort(s, key), key);
  }

  /** Moving `x` one place further left, past an element with a smaller key. */
  lemma InsertStep<T>(sorted: seq<T>, j: nat, x: T, key: T -> int)
    requires 0 < j <= |sorted| && key(sorted[j - 1]) < key(x)
    ensures Insert(sorted[..j], x, key) + sorted[j..] == Insert(sorted[..j - 1], x, key) + sorted[j - 1..]
  {
    assert sorted[..j][..j - 1] == sorted[..j - 1];
    assert sorted[j - 1..] == [sorted[j - 1]] + sorted[j..];
  }

  /** The array contents after the inner loop, assembled position by position. */
  lemma InsertAssembled<T>(arr: seq<T>, sorted: seq<T>, x: T, rest: seq<T>, j: nat)
    requires j <= |sorted| && |arr| == |sorted| + 1 + |rest|
    requires forall k :: 0 <= k < j ==> arr[k] == sorted[k]
    requires arr[j] == x
    requires forall k :: j < k <= |sorted| ==> arr[k] == sorted[k - 1]
    requires forall k :: |sorted| < k < |arr| ==> arr[k] == rest[k - |sorted| - 1]
    ensures arr == sorted[..j] + [x] + sorted[j..] + rest
  {
    var want := sorted[..j] + [x] + sorted[j..] + rest;
    forall k | 0 <= k < |arr| ensures arr[k] == want[k] {
      if j < k <= |sorted| {
        assert want[k] == sorted[k - 1];
      } else if |sorted| < k {
        assert want[k] == rest[k - |sorted| - 1];
      }
    }
  }

  /** One step of insertion sort: a[i] moves left past every element with a
      smaller key, by adjacent swaps. */
  method InsertAt<T>(a: array<T>, i: nat, key: T -> int)
    requires i < a.Length
    modifies a
    ensures a[..] == Insert(old(a[..i]), old(a[i]), key) + old(a[i + 1..])
  {
    ghost var sorted, rest := a[..i], a[i + 1..];
    var x := a[i];
    var j := i;
    assert sorted[..j] == sorted && sorted[j..] == [];
    while j > 0 && key(a[j - 1]) < key(x)
      invariant 0 <= j <= i
      invariant forall k :: 0 <= k < j ==> a[k] == sorted[k]
      invariant a[j] == x
      invariant forall k :: j < k <= i ==> a[k] == sorted[k - 1]
      invariant forall k :: i < k < a.Length ==> a[k] == rest[k - i - 1]
      invariant Insert(sorted, x, key) == Insert(sorted[..j], x, key) + sorted[j..]
    {
      assert Insert(sorted, x, key) == Insert(sorted[..j - 1], x, key) + sorted[j - 1..] by {
        InsertStep(sorted, j, x, key);
      }
      a[j - 1], a[j] := a[j], a[j - 1];
      j := j - 1;
    }
    assert Insert(sorted[..j], x, key) == sorted[..j] + [x];
    InsertAssembled(a[..], sorted, x, rest, j);
  }

  /** `list.sort(key=key, reverse=True)`: insertion sort by adjacent swaps. */
  method SortInPlace<T>(a: array<T>, key: T -> int)
    modifies a
    ensures a[..] == Sort(old(a[..]), key)
  {
    ghost var orig := a[..];
    var i := 0;
    while i < a.Length
      invariant 0 <= i <= a.Length
      invariant a[..] == Sort(orig[..i], key) + orig[i..]
    {
      SortPermutes(orig[..i], key);
      assert a[..i] == Sort(orig[..i], key);
      assert a[i] == orig[i];
      assert a[i + 1..] == orig[i + 1..];
      InsertAt(a, i, key);
      assert orig[..i + 1] == orig[..i] + [orig[i]];
      assert orig[..i + 1][..i] == orig[..i];
      i := i + 1;
    }
    assert orig[..a.Length] == orig;
  }
}
