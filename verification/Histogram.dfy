/** Bucket counts and their meaning: bounds, the bucket of an observation, prefix sums, the scan of
    `percentile`, and ranks in the sorted list of observations. f64 is modelled as real. */
module Histogram {
  import opened LittleEndian

  const FIRST_BOUND: real := 0.000001
  const LIMIT: real := 10.0

  /** How much room is left below the limit, in units of the first bound. */
  function Room(x: real): nat {
    if x < LIMIT then ((LIMIT - x) * 1000000.0).Floor + 1 else 0
  }

  /** Doubling from `x` until the limit is reached or passed. */
  function BoundsFrom(x: real): (b: seq<real>)
    requires x >= FIRST_BOUND
    ensures |b| > 0
    decreases Room(x)
  {
    if x < LIMIT then [x] + BoundsFrom(x * 2.0) else [x]
  }

  ghost predicate Doubling(b: seq<real>) {
    && |b| > 0 && b[|b| - 1] >= LIMIT
    && (forall i :: 0 <= i < |b| ==> b[i] > 0.0)
    && forall i :: 0 <= i < |b| - 1 ==> b[i] < LIMIT && b[i + 1] == 2.0 * b[i]
  }

  lemma {:induction false} BoundsDouble(x: real)
    requires x >= FIRST_BOUND
    ensures Doubling(BoundsFrom(x)) && BoundsFrom(x)[0] == x
    decreases Room(x)
  {
    if x < LIMIT {
      BoundsDouble(x * 2.0);
      var b, rest := BoundsFrom(x), BoundsFrom(x * 2.0);
      forall i | 0 <= i < |b| - 1 ensures b[i] < LIMIT && b[i + 1] == 2.0 * b[i] {
        if i > 0 {
          assert b[i] == rest[i - 1] && b[i + 1] == rest[i];
        }
      }
    }
  }

  predicate Ascending(b: seq<real>) {
    forall i, j :: 0 <= i < j < |b| ==> b[i] < b[j]
  }

  lemma {:induction false} DoublingAscends(b: seq<real>, i: nat, j: nat)
    requires Doubling(b) && i < j < |b|
    ensures b[i] < b[j]
    decreases j
  {
    assert b[j] == 2.0 * b[j - 1];
    if i < j - 1 {
      DoublingAscends(b, i, j - 1);
    }
  }

  lemma DoublingIsAscending(b: seq<real>)
    requires Doubling(b)
    ensures Ascending(b)
  {
    forall i, j | 0 <= i < j < |b| ensures b[i] < b[j] { DoublingAscends(b, i, j); }
  }

  // ---------- from observations to counts ----------

  /** The first bucket whose bound is not below `x`; `|b|` when there is none. */
  function BucketOf(b: seq<real>, x: real): (k: nat)
    ensures k <= |b|
    ensures k < |b| ==> x <= b[k]
    ensures forall i :: 0 <= i < k ==> b[i] < x
  {
    if b == [] then 0 else if x <= b[0] then 0
    else
      var k := 1 + BucketOf(b[1..], x);
      assert forall i :: 1 <= i < |b| ==> b[i] == b[1..][i - 1];
      k
  }

  function CountIn(b: seq<real>, obs: seq<real>, k: nat): nat {
    if obs == [] then 0
    else CountIn(b, obs[..|obs| - 1], k) + if BucketOf(b, obs[|obs| - 1]) == k then 1 else 0
  }

  function Counts(b: seq<real>, obs: seq<real>): (c: seq<nat>)
    ensures |c| == |b|
  {
    seq(|b|, k requires 0 <= k < |b| => CountIn(b, obs, k))
  }

  function Prefix(c: seq<nat>, n: nat): nat
    requires n <= |c|
  {
    if n == 0 then 0 else Prefix(c, n - 1) + c[n - 1]
  }

  function CountLe(obs: seq<real>, x: real): (n: nat)
    ensures n <= |obs|
  {
    if obs == [] then 0 else CountLe(obs[..|obs| - 1], x) + if obs[|obs| - 1] <= x then 1 else 0
  }

  lemma {:induction false} PrefixBump(c: seq<nat>, c': seq<nat>, k: nat, n: nat)
    requires |c'| == |c| && n <= |c|
    requires forall i :: 0 <= i < |c| ==> c'[i] == c[i] + if i == k then 1 else 0
    ensures Prefix(c', n) == Prefix(c, n) + if k < n then 1 else 0
  {
    if n > 0 {
      PrefixBump(c, c', k, n - 1);
    }
  }

  lemma {:induction false} PrefixGrows(c: seq<nat>, m: nat, n: nat)
    requires m <= n <= |c|
    ensures Prefix(c, m) <= Prefix(c, n)
    decreases n
  {
    if m < n {
      PrefixGrows(c, m, n - 1);
    }
  }

  /** The first i + 1 buckets hold exactly the observations up to bound i. */
  lemma {:induction false} PrefixCountsUpToBound(b: seq<real>, obs: seq<real>, i: nat)
    requires Ascending(b) && i < |b|
    ensures Prefix(Counts(b, obs), i + 1) == CountLe(obs, b[i])
    decreases |obs|
  {
    if obs == [] {
      EmptyPrefix(Counts(b, obs), i + 1);
    } else {
      var front, x := obs[..|obs| - 1], obs[|obs| - 1];
      PrefixCountsUpToBound(b, front, i);
      var k := BucketOf(b, x);
      PrefixBump(Counts(b, front), Counts(b, obs), k, i + 1);
      assert k <= i <==> x <= b[i];
    }
  }

  lemma {:induction false} EmptyPrefix(c: seq<nat>, n: nat)
    requires n <= |c| && forall i :: 0 <= i < |c| ==> c[i] == 0
    ensures Prefix(c, n) == 0
  {
    if n > 0 {
      EmptyPrefix(c, n - 1);
    }
  }

  lemma CountsAppend(b: seq<real>, obs: seq<real>, x: real, k: nat)
    ensures CountIn(b, obs + [x], k) == CountIn(b, obs, k) + if BucketOf(b, x) == k then 1 else 0
  {
    assert (obs + [x])[..|obs|] == obs;
  }

  // ---------- the scan of `percentile` ----------

  /** `x as u64`: truncating and saturating. */
  function ToU64(x: real): (n: nat)
    ensures n < U64
  {
    if x < 0.0 then 0 else if x.Floor >= U64 then U64 - 1 else x.Floor
  }

  function Target(total: nat, p: real): nat {
    ToU64(total as real * p / 100.0)
  }

  /** Bucket at which the running 64-bit sum first reaches the target, from bucket `i` on. */
  function Scan(c: seq<nat>, i: nat, cumulative: nat, target: nat): (k: nat)
    requires i <= |c|
    ensures i <= k <= |c|
    decreases |c| - i
  {
    if i == |c| then i
    else
      var sum := (cumulative + c[i]) % U64;
      if sum >= target then i else Scan(c, i + 1, sum, target)
  }

  function BoundAt(b: seq<real>, k: nat): real
    requires |b| > 0
  {
    if k < |b| then b[k] else b[|b| - 1]
  }

  /** What `percentile` answers for these counts. */
  function Answer(b: seq<real>, c: seq<nat>, total: nat, p: real): real
    requires |b| > 0
  {
    if total == 0 then 0.0 else BoundAt(b, Scan(c, 0, 0, Target(total, p)))
  }

  /** `k` is the first bucket whose prefix sum reaches the target. */
  ghost predicate Reaches(c: seq<nat>, target: nat, k: nat) {
    && k <= |c|
    && (forall n :: 1 <= n <= k ==> Prefix(c, n) < target)
    && (k < |c| ==> Prefix(c, k + 1) >= target)
  }

  lemma {:induction false} ScanReaches(c: seq<nat>, i: nat, target: nat)
    requires i <= |c| && Prefix(c, |c|) < U64
    requires forall n :: 1 <= n <= i ==> Prefix(c, n) < target
    ensures Reaches(c, target, Scan(c, i, Prefix(c, i), target))
    decreases |c| - i
  {
    if i < |c| {
      PrefixGrows(c, i + 1, |c|);
      assert Prefix(c, i + 1) == Prefix(c, i) + c[i];
      if Prefix(c, i + 1) < target {
        ScanReaches(c, i + 1, target);
      }
    }
  }

  /** A larger target, or smaller counts, is reached no earlier. */
  lemma ReachesMonotone(c: seq<nat>, c': seq<nat>, t: nat, t': nat, k: nat, k': nat)
    requires |c| == |c'| && t <= t' && Reaches(c, t, k) && Reaches(c', t', k')
    requires forall n :: 0 <= n <= |c| ==> Prefix(c', n) <= Prefix(c, n)
    ensures k <= k'
  {
    var n := if k' < |c| then k' + 1 else |c|;
    assert Prefix(c', n) <= Prefix(c, n);
  }

  // ---------- ranks ----------

  predicate SortedList(s: seq<real>) {
    forall i, j :: 0 <= i < j < |s| ==> s[i] <= s[j]
  }

  lemma {:induction false} CountLeAppend(a: seq<real>, b: seq<real>, x: real)
    ensures CountLe(a + b, x) == CountLe(a, x) + CountLe(b, x)
    decreases |b|
  {
    if b == [] {
      assert a + b == a;
    } else {
      assert (a + b)[..|a + b| - 1] == a + b[..|b| - 1];
      CountLeAppend(a, b[..|b| - 1], x);
    }
  }

  lemma {:induction false} CountLeAll(s: seq<real>, x: real)
    ensures (forall y :: y in s ==> y <= x) ==> CountLe(s, x) == |s|
    ensures (forall y :: y in s ==> y > x) ==> CountLe(s, x) == 0
  {
    if s != [] {
      var front := s[..|s| - 1];
      CountLeAll(front, x);
      assert s[|s| - 1] in s && forall y :: y in front ==> y in s;
    }
  }

  lemma CountLeSplit(s: seq<real>, x: real, i: nat)
    requires i <= |s|
    ensures CountLe(s, x) == CountLe(s[..i], x) + CountLe(s[i..], x)
  {
    assert s == s[..i] + s[i..];
    CountLeAppend(s[..i], s[i..], x);
  }

  /** Rank and count are two views of one thing: the k-th smallest is at most x iff at least k
      observations are. */
  lemma RankIsCount(s: seq<real>, x: real, k: nat)
    requires SortedList(s) && 1 <= k <= |s|
    ensures s[k - 1] <= x <==> CountLe(s, x) >= k
  {
    if s[k - 1] <= x {
      CountLeSplit(s, x, k);
      assert forall y :: y in s[..k] ==> y <= s[k - 1];
      CountLeAll(s[..k], x);
    } else {
      var tail := s[k - 1..];
      CountLeSplit(s, x, k - 1);
      assert forall y :: y in tail ==> y >= s[k - 1];
      CountLeAll(tail, x);
    }
  }

  lemma MultisetWithout(s: seq<real>, i: nat)
    requires i < |s|
    ensures multiset(s[..i] + s[i + 1..]) == multiset(s) - multiset{s[i]}
  {
    assert s == s[..i] + [s[i]] + s[i + 1..];
  }

  lemma CountLeWithout(s: seq<real>, i: nat, x: real)
    requires i < |s|
    ensures CountLe(s, x) == CountLe(s[..i] + s[i + 1..], x) + if s[i] <= x then 1 else 0
  {
    CountLeSplit(s, x, i);
    CountLeSplit(s[i..], x, 1);
    CountLeAppend(s[..i], s[i + 1..], x);
    assert s[i..][..1] == [s[i]] && s[i..][1..] == s[i + 1..];
    assert [s[i]][..0] == [];
  }

  /** Counting does not depend on the order of the observations. */
  lemma {:induction false} CountLePermutation(a: seq<real>, s: seq<real>, x: real)
    requires multiset(a) == multiset(s)
    ensures CountLe(a, x) == CountLe(s, x) && |a| == |s|
    decreases |a|
  {
    assert |multiset(a)| == |a| && |multiset(s)| == |s|;
    if a != [] {
      var last := |a| - 1;
      assert a[last] in multiset(s);
      var i :| 0 <= i < |s| && s[i] == a[last];
      MultisetWithout(a, last);
      MultisetWithout(s, i);
      CountLeWithout(a, last, x);
      CountLeWithout(s, i, x);
      CountLePermutation(a[..last] + a[last + 1..], s[..i] + s[i + 1..], x);
    }
  }

  // ---------- the percentile theorem ----------

  ghost predicate SortedOf(s: seq<real>, obs: seq<real>) {
    SortedList(s) && multiset(s) == multiset(obs)
  }

  lemma {:induction false} TotalBelow(b: seq<real>, obs: seq<real>)
    requires Ascending(b) && |b| > 0
    ensures Prefix(Counts(b, obs), |b|) <= |obs|
  {
    PrefixCountsUpToBound(b, obs, |b| - 1);
  }

  lemma SignOfProduct(x: real, y: real)
    ensures x > 0.0 ==> (x * y >= 0.0 <==> y >= 0.0)
    ensures x == 0.0 ==> x * y == 0.0
  {
    if y >= 0.0 {
      assert x > 0.0 ==> x * y >= 0.0;
    } else {
      assert x > 0.0 ==> x * y < 0.0;
    }
  }

  lemma TargetWithinTotal(total: nat, p: real)
    requires 0.0 <= p <= 100.0 && total < U64
    ensures Target(total, p) <= total
    ensures Target(total, p) == (total as real * p / 100.0).Floor
  {
    var t := total as real;
    SignOfProduct(t, p);
    SignOfProduct(t, 100.0 - p);
    assert t * p == t * 100.0 - t * (100.0 - p);
    assert 0.0 <= t * p / 100.0 <= t;
  }

  /** The bucket found by the scan is the first one whose bound is at least the target-th smallest
      observation. */
  lemma ScanFindsRank(b: seq<real>, obs: seq<real>, s: seq<real>, target: nat)
    requires Ascending(b) && |b| > 0 && SortedOf(s, obs)
    requires |obs| < U64 && 1 <= target <= |obs|
    ensures |s| == |obs|
    ensures Scan(Counts(b, obs), 0, 0, target) == BucketOf(b, s[target - 1])
  {
    CountLePermutation(obs, s, 0.0);
    var c, v := Counts(b, obs), s[target - 1];
    TotalBelow(b, obs);
    ScanReaches(c, 0, target);
    var k := Scan(c, 0, 0, target);
    forall i | 0 <= i < |b| ensures Prefix(c, i + 1) >= target <==> v <= b[i] {
      PrefixCountsUpToBound(b, obs, i);
      CountLePermutation(obs, s, b[i]);
      RankIsCount(s, b[i], target);
    }
    if k < |b| {
      assert v <= b[k];
    }
    var n := if BucketOf(b, v) < |b| then BucketOf(b, v) + 1 else |b|;
    assert Prefix(c, n) <= Prefix(c, |b|) by { PrefixGrows(c, n, |b|); }
  }

  /** `percentile` answers with the least bound that is at least the target-th smallest observation,
      or with the last bound when that observation exceeds them all. */
  lemma PercentileIsLeastBound(b: seq<real>, obs: seq<real>, s: seq<real>, p: real)
    requires Ascending(b) && |b| > 0 && SortedOf(s, obs)
    requires |obs| < U64 && 1 <= Target(|obs|, p) <= |obs|
    ensures |s| == |obs|
    ensures var v, r := s[Target(|obs|, p) - 1], Answer(b, Counts(b, obs), |obs|, p);
      if v > b[|b| - 1] then r == b[|b| - 1]
      else r in b && v <= r && forall x :: x in b && v <= x ==> r <= x
  {
    ScanFindsRank(b, obs, s, Target(|obs|, p));
  }

  /** With doubling bounds the answer overestimates by less than a factor of two. */
  lemma PercentileWithinFactorTwo(b: seq<real>, obs: seq<real>, s: seq<real>, p: real)
    requires Doubling(b) && SortedOf(s, obs)
    requires |obs| < U64 && 1 <= Target(|obs|, p) <= |obs|
    ensures |s| == |obs|
    ensures var v, r := s[Target(|obs|, p) - 1], Answer(b, Counts(b, obs), |obs|, p);
      b[0] < v <= b[|b| - 1] ==> v <= r < 2.0 * v
  {
    DoublingIsAscending(b);
    ScanFindsRank(b, obs, s, Target(|obs|, p));
    var k := BucketOf(b, s[Target(|obs|, p) - 1]);
    if 0 < k < |b| {
      assert b[k - 1 + 1] == 2.0 * b[k - 1];
    }
  }

  lemma TargetMonotone(total: nat, p: real, p': real)
    requires p <= p'
    ensures Target(total, p) <= Target(total, p')
  {
    assert total as real * p <= total as real * p';
  }

  /** A higher percentile is never answered with a lower bound, whatever the counts. */
  lemma PercentileMonotone(b: seq<real>, c: seq<nat>, total: nat, p: real, p': real)
    requires Ascending(b) && |b| > 0 && |c| == |b| && Prefix(c, |c|) < U64 && p <= p'
    ensures Answer(b, c, total, p) <= Answer(b, c, total, p')
  {
    TargetMonotone(total, p, p');
    ScanReaches(c, 0, Target(total, p));
    ScanReaches(c, 0, Target(total, p'));
    ReachesMonotone(c, c, Target(total, p), Target(total, p'),
                    Scan(c, 0, 0, Target(total, p)), Scan(c, 0, 0, Target(total, p')));
  }

  /** At the edges: nothing observed answers 0, a target below one observation the first bound, and
      a target beyond all observations the last bound. */
  lemma PercentileAtTheEdges(b: seq<real>, obs: seq<real>, p: real)
    requires Ascending(b) && |b| > 0 && |obs| < U64
    ensures obs == [] ==> Answer(b, Counts(b, obs), |obs|, p) == 0.0
    ensures obs != [] && |obs| as real * p < 100.0 ==> Answer(b, Counts(b, obs), |obs|, p) == b[0]
    ensures obs != [] && p > 100.0 && Target(|obs|, p) > |obs| ==>
      Answer(b, Counts(b, obs), |obs|, p) == b[|b| - 1]
  {
    TotalBelow(b, obs);
    var t := Target(|obs|, p);
    ScanReaches(Counts(b, obs), 0, t);
    if Scan(Counts(b, obs), 0, 0, t) < |b| {
      PrefixGrows(Counts(b, obs), Scan(Counts(b, obs), 0, 0, t) + 1, |b|);
    }
  }

  // ---------- the mean ----------

  /** `(latency_secs * 1e9) as u64`. */
  function Nanos(x: real): (n: nat)
    ensures n < U64
  {
    ToU64(x * 1000000000.0)
  }

  function NanoSum(obs: seq<real>): nat {
    if obs == [] then 0 else NanoSum(obs[..|obs| - 1]) + Nanos(obs[|obs| - 1])
  }

  lemma NanoSumAppend(obs: seq<real>, x: real)
    ensures NanoSum(obs + [x]) == NanoSum(obs) + Nanos(x)
  {
    assert (obs + [x])[..|obs|] == obs;
  }

  function Sum(obs: seq<real>): real {
    if obs == [] then 0.0 else Sum(obs[..|obs| - 1]) + obs[|obs| - 1]
  }

  function Mean(sum: nat, total: nat): real {
    if total == 0 then 0.0 else sum as real / total as real / 1000000000.0
  }

  /** All observations are non-negative and together stay below 2^64 nanoseconds. */
  ghost predicate Representable(obs: seq<real>) {
    (forall x :: x in obs ==> x >= 0.0) && Sum(obs) * 1000000000.0 < U64 as real
  }

  lemma {:induction false} SumNonNegative(obs: seq<real>)
    requires forall x :: x in obs ==> x >= 0.0
    ensures Sum(obs) >= 0.0
  {
    if obs != [] {
      var front := obs[..|obs| - 1];
      assert obs[|obs| - 1] in obs && forall x :: x in front ==> x in obs;
      SumNonNegative(front);
    }
  }

  lemma {:induction false} NanoSumError(obs: seq<real>)
    requires Representable(obs)
    ensures NanoSum(obs) as real <= Sum(obs) * 1000000000.0
    ensures NanoSum(obs) < U64
    ensures obs != [] ==> Sum(obs) * 1000000000.0 < NanoSum(obs) as real + |obs| as real
  {
    if obs != [] {
      var front, x := obs[..|obs| - 1], obs[|obs| - 1];
      assert x in obs && forall y :: y in front ==> y in obs;
      SumNonNegative(front);
      NanoSumError(front);
    }
  }

  /** With nothing counted the mean is 0, whatever the sum holds. */
  lemma MeanOfNothing(sum: nat)
    ensures Mean(sum, 0) == 0.0
  {}

  /** The reported mean is at most the true average and less than one nanosecond below it. */
  lemma MeanError(obs: seq<real>)
    requires obs != [] && Representable(obs)
    ensures var average := Sum(obs) / |obs| as real;
      Mean(NanoSum(obs), |obs|) <= average < Mean(NanoSum(obs), |obs|) + 0.000000001
  {
    NanoSumError(obs);
    MeanArithmetic(NanoSum(obs) as real, Sum(obs), |obs| as real);
  }

  lemma MeanArithmetic(nanos: real, sum: real, n: real)
    requires n >= 1.0 && nanos <= sum * 1000000000.0 < nanos + n
    ensures nanos / n / 1000000000.0 <= sum / n < nanos / n / 1000000000.0 + 0.000000001
  {
    var m, a := nanos / n, sum / n;
    var d, total := a * 1000000000.0 - m, sum * 1000000000.0;
    assert m * n == nanos && a * n == sum;
    assert d * n == total - nanos by {
      assert d * n == 1000000000.0 * (a * n) - m * n;
    }
    assert n * (d - 1.0) == d * n - n;
    SignOfProduct(n, d);
    SignOfProduct(n, d - 1.0);
  }
}
