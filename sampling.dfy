/** The stratified sample of the data-preparation step. Rows are identified by
    their position in the frame; the label column is a sequence of strings.
    Each label's group contributes `int(n * size / total)` rows chosen at
    random, and when rounding down leaves the sample short, the missing rows
    are drawn at random from the rows not yet chosen. Random choice is modelled
    as nondeterministic choice: any draw of the right size is allowed. */
module Sampling {
  import opened Wrappers

  /** Sampling without replacement refuses to draw more rows than there are. */
  datatype SampleError = LargerThanPopulation(requested: nat, available: nat)

  /** `int(groupSize * sampleSize / total)`: the operands are non-negative, so
      truncation is rounding down. An empty group draws nothing (pandas forms
      no group for a label that does not occur). */
  function Quota(groupSize: nat, sampleSize: nat, total: nat): nat
    requires groupSize <= total
  {
    if groupSize == 0 then 0 else groupSize * sampleSize / total
  }

  lemma MulMonotone(a: int, b: int, c: nat)
    requires a <= b
    ensures a * c <= b * c
  {
  }

  /** The quota is the group's share of the sample, rounded down. */
  lemma QuotaIsFloor(groupSize: nat, sampleSize: nat, total: nat)
    requires groupSize <= total
    ensures Quota(groupSize, sampleSize, total) * total <= groupSize * sampleSize
    ensures groupSize > 0 ==> groupSize * sampleSize < (Quota(groupSize, sampleSize, total) + 1) * total
  {
    if groupSize > 0 {
      var p := groupSize * sampleSize;
      var q := p / total;
      assert p == q * total + p % total;
      assert (q + 1) * total == q * total + total;
    }
  }

  /** When the sample is no larger than the frame, no group is asked for more
      rows than it has. */
  lemma QuotaWithinGroup(groupSize: nat, sampleSize: nat, total: nat)
    requires groupSize <= total && sampleSize <= total
    ensures Quota(groupSize, sampleSize, total) <= groupSize
  {
    var q := Quota(groupSize, sampleSize, total);
    QuotaIsFloor(groupSize, sampleSize, total);
    if q > groupSize {
      MulMonotone(groupSize + 1, q, total);
      MulMonotone(sampleSize, total, groupSize);
      assert false;
    }
  }

  lemma ScaledSumStep(qs: nat, q: nat, gs: nat, g: nat, n: nat, size: nat, total: nat, groups: nat)
    requires qs * n <= size * gs && q * n <= g * size
    requires total == qs + q && groups == gs + g
    ensures total * n <= size * groups
  {
    assert (qs + q) * n == qs * n + q * n;
    assert size * (gs + g) == size * gs + size * g;
  }

  lemma CancelFactor(a: nat, b: nat, n: nat)
    requires n > 0 && a * n <= b * n
    ensures a <= b
  {
    if a > b {
      MulMonotone(b + 1, a, n);
      assert false;
    }
  }

  /** The rows whose label is `l`. */
  function Group(labels: seq<string>, l: string): (g: set<nat>)
    ensures forall i: nat :: i in g <==> i < |labels| && labels[i] == l
    ensures |g| <= |labels|
  {
    if labels == [] then {}
    else
      var init := labels[..|labels| - 1];
      var g := Group(init, l);
      assert |labels| - 1 !in g;
      g + (if labels[|labels| - 1] == l then {|labels| - 1} else {})
  }

  /** The quota of the group labelled `l`. */
  function GroupQuota(labels: seq<string>, l: string, sampleSize: nat): nat {
    Quota(|Group(labels, l)|, sampleSize, |labels|)
  }

  function Sum(xs: seq<nat>): nat {
    if xs == [] then 0 else Sum(xs[..|xs| - 1]) + xs[|xs| - 1]
  }

  function Concat(parts: seq<seq<nat>>): seq<nat> {
    if parts == [] then [] else Concat(parts[..|parts| - 1]) + parts[|parts| - 1]
  }

  function GroupSizes(labels: seq<string>, keys: seq<string>): seq<nat> {
    seq(|keys|, j requires 0 <= j < |keys| => |Group(labels, keys[j])|)
  }

  function Quotas(labels: seq<string>, keys: seq<string>, sampleSize: nat): seq<nat> {
    seq(|keys|, j requires 0 <= j < |keys| => GroupQuota(labels, keys[j], sampleSize))
  }

  /** The rows whose label is one of `keys`. */
  function Covered(labels: seq<string>, keys: seq<string>): set<nat> {
    set i: nat | i < |labels| && labels[i] in keys
  }

  /** `s` is a draw of `k` distinct rows of `pool`. */
  predicate Drawn(s: seq<nat>, pool: set<nat>, k: nat) {
    |s| == k && NoDuplicates(s) && forall x :: x in s ==> x in pool
  }

  /** One draw per group, in the order of `keys`, each of its group's quota. */
  ghost predicate Stratified(labels: seq<string>, keys: seq<string>, sampleSize: nat, parts: seq<seq<nat>>) {
    && |parts| == |keys|
    && forall j :: 0 <= j < |keys| ==>
         Drawn(parts[j], Group(labels, keys[j]), GroupQuota(labels, keys[j], sampleSize))
  }

  lemma SubsetCardinality<T>(a: set<T>, b: set<T>)
    requires a <= b
    ensures |b - a| == |b| - |a|
  {
    assert b == a + (b - a);
  }

  lemma {:induction false} DistinctAppend(a: seq<nat>, b: seq<nat>)
    requires NoDuplicates(a) && NoDuplicates(b)
    requires forall x :: x in a ==> x !in b
    ensures NoDuplicates(a + b)
  {
    forall i, j | 0 <= i < j < |a + b| ensures (a + b)[i] != (a + b)[j] {
      if i < |a| && |a| <= j {
        assert (a + b)[i] in a && (a + b)[j] in b;
      }
    }
  }

  /** A distinct sequence inside [0, n) has at most n elements. */
  lemma DistinctBelowBound(s: seq<nat>, n: nat)
    requires NoDuplicates(s) && forall x :: x in s ==> x < n
    ensures |s| <= n
  {
    DistinctCardinality(s);
    assert Elems(s) <= Range(n);
    SubsetCardinality(Elems(s), Range(n));
  }

  /** A random draw of any size up to the pool's is possible. */
  lemma {:induction false} DrawPossible(pool: set<nat>, k: nat)
    requires k <= |pool|
    ensures exists s :: Drawn(s, pool, k)
  {
    if k == 0 {
      assert Drawn([], pool, 0);
    } else {
      var x :| x in pool;
      DrawPossible(pool - {x}, k - 1);
      var s :| Drawn(s, pool - {x}, k - 1);
      assert Drawn([x] + s, pool, k);
    }
  }

  /** `frame.sample(k)`: k distinct rows of the pool in random order; an error
      when the pool has fewer than k rows. */
  method Sample(pool: set<nat>, k: nat) returns (r: Result<seq<nat>, SampleError>)
    ensures r.Ok? <==> k <= |pool|
    ensures r.Ok? ==> Drawn(r.value, pool, k)
    ensures r.Err? ==> r.error == LargerThanPopulation(k, |pool|)
  {
    if k > |pool| {
      return Err(LargerThanPopulation(k, |pool|));
    }
    DrawPossible(pool, k);
    var s :| Drawn(s, pool, k);
    r := Ok(s);
  }

  /** Rows drawn from the group of a key not seen before are not among the
      rows drawn for earlier keys. */
  lemma FreshGroupDisjoint(labels: seq<string>, seen: seq<string>, key: string, acc: seq<nat>, drawn: seq<nat>)
    requires forall x :: x in acc ==> x < |labels| && labels[x] in seen
    requires key !in seen
    requires forall x :: x in drawn ==> x in Group(labels, key)
    ensures forall x :: x in acc ==> x !in drawn
  {
    forall x | x in acc ensures x !in drawn {
      assert labels[x] != key;
    }
  }

  lemma GroupRowsBelow(labels: seq<string>, seen: seq<string>, key: string, acc: seq<nat>, drawn: seq<nat>)
    requires forall x :: x in acc ==> x < |labels| && labels[x] in seen
    requires forall x :: x in drawn ==> x in Group(labels, key)
    ensures forall x :: x in acc + drawn ==> x < |labels| && labels[x] in seen + [key]
  {
  }

  lemma TakeOneMore<T>(s: seq<T>, k: nat)
    requires k < |s|
    ensures s[..k + 1] == s[..k] + [s[k]] && s[..k + 1][..k] == s[..k]
  {
  }

  /** One group's draw extends the sample so far without repeating a row. */
  lemma SampleGroupsStep(labels: seq<string>, keys: seq<string>, k: nat, sampleSize: nat, acc: seq<nat>, drawn: seq<nat>)
    requires k < |keys|
    requires NoDuplicates(acc) && forall x :: x in acc ==> x < |labels| && labels[x] in keys[..k]
    requires |acc| == Sum(Quotas(labels, keys[..k], sampleSize))
    requires Drawn(drawn, Group(labels, keys[k]), GroupQuota(labels, keys[k], sampleSize))
    requires keys[k] !in keys[..k]
    ensures NoDuplicates(acc + drawn)
    ensures forall x :: x in acc + drawn ==> x < |labels| && labels[x] in keys[..k + 1]
    ensures |acc + drawn| == Sum(Quotas(labels, keys[..k + 1], sampleSize))
  {
    assert NoDuplicates(acc + drawn) by {
      FreshGroupDisjoint(labels, keys[..k], keys[k], acc, drawn);
      DistinctAppend(acc, drawn);
    }
    TakeOneMore(keys, k);
    GroupRowsBelow(labels, keys[..k], keys[k], acc, drawn);
    assert |acc + drawn| == Sum(Quotas(labels, keys[..k + 1], sampleSize)) by {
      SumsSplit(labels, keys[..k + 1], sampleSize);
    }
  }

  /** `df.groupby('label', group_keys=False).apply(lambda x: x.sample(quota))`:
      every group draws its quota; the first group whose quota exceeds its size
      raises. `keys` lists each label once, and every row carries one of them. */
  method SampleGroups(labels: seq<string>, keys: seq<string>, sampleSize: nat)
    returns (r: Result<seq<nat>, SampleError>, ghost parts: seq<seq<nat>>)
    requires NoDuplicates(keys)
    requires forall i :: 0 <= i < |labels| ==> labels[i] in keys
    ensures r.Ok? <==> forall j :: 0 <= j < |keys| ==>
      GroupQuota(labels, keys[j], sampleSize) <= |Group(labels, keys[j])|
    ensures r.Ok? ==> Stratified(labels, keys, sampleSize, parts) && r.value == Concat(parts)
    ensures r.Ok? ==> |r.value| == Sum(Quotas(labels, keys, sampleSize))
    ensures r.Ok? ==> NoDuplicates(r.value) && forall x :: x in r.value ==> x < |labels|
  {
    var acc: seq<nat> := [];
    parts := [];
    var k := 0;
    while k < |keys|
      invariant 0 <= k <= |keys|
      invariant |parts| == k && acc == Concat(parts)
      invariant forall j :: 0 <= j < k ==>
        Drawn(parts[j], Group(labels, keys[j]), GroupQuota(labels, keys[j], sampleSize))
      invariant forall j :: 0 <= j < k ==> GroupQuota(labels, keys[j], sampleSize) <= |Group(labels, keys[j])|
      invariant |acc| == Sum(Quotas(labels, keys[..k], sampleSize))
      invariant NoDuplicates(acc)
      invariant forall x :: x in acc ==> x < |labels| && labels[x] in keys[..k]
    {
      var group := Group(labels, keys[k]);
      var drawn := Sample(group, GroupQuota(labels, keys[k], sampleSize));
      if drawn.Err? {
        return Err(drawn.error), parts;
      }
      assert keys[k] !in keys[..k];
      SampleGroupsStep(labels, keys, k, sampleSize, acc, drawn.value);
      assert (parts + [drawn.value])[..k] == parts;
      acc, parts := acc + drawn.value, parts + [drawn.value];
      k := k + 1;
    }
    assert keys[..k] == keys;
    r := Ok(acc);
  }

  /** The group sizes add up to the rows the groups cover. */
  lemma {:induction false} GroupSizesSum(labels: seq<string>, keys: seq<string>)
    requires NoDuplicates(keys)
    ensures Sum(GroupSizes(labels, keys)) == |Covered(labels, keys)|
  {
    if keys != [] {
      var init, l := keys[..|keys| - 1], keys[|keys| - 1];
      GroupSizesSum(labels, init);
      assert GroupSizes(labels, keys)[..|keys| - 1] == GroupSizes(labels, init);
      assert Covered(labels, keys) == Covered(labels, init) + Group(labels, l);
      assert Covered(labels, init) * Group(labels, l) == {};
    } else {
      assert Covered(labels, keys) == {};
    }
  }

  /** The quotas and the group sizes of `keys`, split off at the last key. */
  lemma SumsSplit(labels: seq<string>, keys: seq<string>, sampleSize: nat)
    requires keys != []
    ensures Sum(Quotas(labels, keys, sampleSize)) ==
      Sum(Quotas(labels, keys[..|keys| - 1], sampleSize)) + GroupQuota(labels, keys[|keys| - 1], sampleSize)
    ensures Sum(GroupSizes(labels, keys)) ==
      Sum(GroupSizes(labels, keys[..|keys| - 1])) + |Group(labels, keys[|keys| - 1])|
  {
    var init := keys[..|keys| - 1];
    assert Quotas(labels, keys, sampleSize)[..|keys| - 1] == Quotas(labels, init, sampleSize);
    assert GroupSizes(labels, keys)[..|keys| - 1] == GroupSizes(labels, init);
  }

  /** Rounding down each quota: together they ask for at most the sample's
      share of the rows they come from. */
  lemma {:induction false} QuotaSumScaled(labels: seq<string>, keys: seq<string>, sampleSize: nat)
    ensures Sum(Quotas(labels, keys, sampleSize)) * |labels| <= sampleSize * Sum(GroupSizes(labels, keys))
  {
    if keys != [] {
      var init, last := keys[..|keys| - 1], keys[|keys| - 1];
      var g, n := |Group(labels, last)|, |labels|;
      var q := GroupQuota(labels, last, sampleSize);
      var qs, gs := Sum(Quotas(labels, init, sampleSize)), Sum(GroupSizes(labels, init));
      assert qs * n <= sampleSize * gs by {
        QuotaSumScaled(labels, init, sampleSize);
      }
      assert q * n <= g * sampleSize by {
        QuotaIsFloor(g, sampleSize, n);
      }
      var total, groups := Sum(Quotas(labels, keys, sampleSize)), Sum(GroupSizes(labels, keys));
      assert total == qs + q && groups == gs + g by {
        SumsSplit(labels, keys, sampleSize);
      }
      ScaledSumStep(qs, q, gs, g, n, sampleSize, total, groups);
    }
  }

  /** When every row belongs to a group, the quotas add up to at most the
      sample size. */
  lemma QuotasSumAtMostSampleSize(labels: seq<string>, keys: seq<string>, sampleSize: nat)
    requires NoDuplicates(keys)
    requires forall i :: 0 <= i < |labels| ==> labels[i] in keys
    ensures Sum(Quotas(labels, keys, sampleSize)) <= sampleSize
  {
    GroupSizesSum(labels, keys);
    QuotaSumScaled(labels, keys, sampleSize);
    var n := |labels|;
    assert Covered(labels, keys) == Range(n);
    if n > 0 {
      CancelFactor(Sum(Quotas(labels, keys, sampleSize)), sampleSize, n);
    } else {
      assert forall j :: 0 <= j < |keys| ==> Quotas(labels, keys, sampleSize)[j] == 0;
      ZeroSum(Quotas(labels, keys, sampleSize));
    }
  }

  lemma {:induction false} ZeroSum(xs: seq<nat>)
    requires forall j :: 0 <= j < |xs| ==> xs[j] == 0
    ensures Sum(xs) == 0
  {
    if xs != [] {
      ZeroSum(xs[..|xs| - 1]);
    }
  }

  /** Lines that complete the sample: if it is short of `sampleSize`, the
      missing rows are drawn from the rows not sampled yet; an error when too
      few of those remain. */
  method TopUp(total: nat, sampled: seq<nat>, sampleSize: nat) returns (r: Result<seq<nat>, SampleError>)
    requires NoDuplicates(sampled) && forall x :: x in sampled ==> x < total
    ensures r.Ok? <==> |sampled| >= sampleSize || sampleSize <= total
    ensures r.Ok? ==> |r.value| == (if |sampled| < sampleSize then sampleSize else |sampled|)
    ensures r.Ok? ==> r.value[..|sampled|] == sampled
    ensures r.Ok? ==> forall x :: x in r.value[|sampled|..] ==> x !in sampled
    ensures r.Ok? ==> NoDuplicates(r.value) && forall x :: x in r.value ==> x < total
  {
    if |sampled| >= sampleSize {
      return Ok(sampled);
    }
    var rest := Range(total) - Elems(sampled);
    DistinctCardinality(sampled);
    SubsetCardinality(Elems(sampled), Range(total));
    var extra := Sample(rest, sampleSize - |sampled|);
    if extra.Err? {
      return Err(extra.error);
    }
    DistinctAppend(sampled, extra.value);
    r := Ok(sampled + extra.value);
    assert r.value[..|sampled|] == sampled && r.value[|sampled|..] == extra.value;
  }
}
