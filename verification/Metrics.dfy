/** `LatencyHistogram` as the object `observe` updates in place; counters are 64-bit and wrap. */
module Metrics {
  import opened LittleEndian
  import H = Histogram

  class LatencyHistogram {
    const bucketBounds: seq<real>
    const buckets: array<nat>
    var total: nat
    var sum: nat
    /** Everything observed so far. */
    ghost var observed: seq<real>

    ghost predicate Valid()
      reads this, buckets
    {
      && H.Doubling(bucketBounds)
      && buckets.Length == |bucketBounds|
      && total == |observed| % U64
      && sum == H.NanoSum(observed) % U64
      && forall k :: 0 <= k < |bucketBounds| ==> buckets[k] == H.CountIn(bucketBounds, observed, k) % U64
    }

    constructor ()
      ensures Valid() && fresh(buckets) && observed == [] && bucketBounds[0] == 0.000001
      ensures forall i :: 0 <= i < |bucketBounds| ==> (bucketBounds[i] < 10.0 <==> i < |bucketBounds| - 1)
    {
      var bounds := H.BoundsFrom(H.FIRST_BOUND);
      H.BoundsDouble(H.FIRST_BOUND);
      bucketBounds := bounds;
      buckets := new nat[|bounds|](_ => 0);
      total, sum, observed := 0, 0, [];
    }

    method Observe(latency: real)
      requires Valid()
      modifies this, buckets
      ensures Valid() && observed == old(observed) + [latency]
    {
      ghost var before := observed;
      observed := observed + [latency];
      AddToTotals(latency, before);
      CountInBucket(latency);
      forall k | 0 <= k < |bucketBounds|
        ensures buckets[k] == H.CountIn(bucketBounds, observed, k) % U64
      {
        H.CountsAppend(bucketBounds, before, latency, k);
        WrapAdd(H.CountIn(bucketBounds, before, k), 1);
      }
    }

    /** The two unconditional counters of `observe`. */
    method AddToTotals(latency: real, ghost before: seq<real>)
      requires total == |before| % U64 && sum == H.NanoSum(before) % U64
      modifies this`total, this`sum
      ensures total == |before + [latency]| % U64 && sum == H.NanoSum(before + [latency]) % U64
    {
      H.NanoSumAppend(before, latency);
      WrapAdd(|before|, 1);
      WrapAdd(H.NanoSum(before), H.Nanos(latency));
      total := (total + 1) % U64;
      sum := (sum + H.Nanos(latency)) % U64;
    }

    /** The loop of `observe`: adds one to the first bucket whose bound is not below the latency. */
    method CountInBucket(latency: real)
      requires buckets.Length == |bucketBounds|
      modifies buckets
      ensures forall k :: 0 <= k < buckets.Length ==>
        buckets[k] == if k == H.BucketOf(bucketBounds, latency) then (old(buckets[k]) + 1) % U64 else old(buckets[k])
    {
      for i := 0 to |bucketBounds|
        invariant forall j :: 0 <= j < i ==> bucketBounds[j] < latency
        invariant forall k :: 0 <= k < buckets.Length ==> buckets[k] == old(buckets[k])
      {
        if latency <= bucketBounds[i] {
          buckets[i] := (buckets[i] + 1) % U64;
          return;
        }
      }
    }

    /** The scan of the cumulative counts; with fewer than 2^64 observations it is the answer for
        the observations themselves. */
    method Percentile(p: real) returns (r: real)
      requires Valid()
      ensures r == H.Answer(bucketBounds, buckets[..], total, p)
      ensures |observed| < U64 ==> r == H.Answer(bucketBounds, H.Counts(bucketBounds, observed), |observed|, p)
      ensures observed == [] ==> r == 0.0
    {
      if |observed| < U64 {
        CountsExact();
      }
      if total == 0 {
        return 0.0;
      }
      var target := H.Target(total, p);
      var cumulative: nat := 0;
      for i := 0 to buckets.Length
        invariant H.Scan(buckets[..], 0, 0, target) == H.Scan(buckets[..], i, cumulative, target)
      {
        cumulative := (cumulative + buckets[i]) % U64;
        if cumulative >= target {
          return bucketBounds[i];
        }
      }
      r := bucketBounds[|bucketBounds| - 1];
    }

    method MeanLatency() returns (r: real)
      requires Valid()
      ensures r == H.Mean(sum, total)
      ensures observed == [] ==> r == 0.0
      ensures observed != [] && |observed| < U64 && H.Representable(observed) ==>
        var average := H.Sum(observed) / |observed| as real;
        r <= average < r + 0.000000001
    {
      if observed != [] && |observed| < U64 && H.Representable(observed) {
        SumExact();
        H.MeanError(observed);
      }
      if total == 0 {
        return 0.0;
      }
      r := sum as real / total as real / 1000000000.0;
    }

    lemma SumExact()
      requires Valid() && |observed| < U64 && H.Representable(observed)
      ensures sum == H.NanoSum(observed) && total == |observed|
    {
      H.NanoSumError(observed);
    }

    lemma CountsExact()
      requires Valid() && |observed| < U64
      ensures buckets[..] == H.Counts(bucketBounds, observed) && total == |observed|
    {
      forall k | 0 <= k < |bucketBounds| ensures H.CountIn(bucketBounds, observed, k) < U64 {
        CountInBound(bucketBounds, observed, k);
      }
    }
  }

  lemma WrapAdd(a: nat, b: nat)
    ensures (a % U64 + b) % U64 == (a + b) % U64
  {}

  lemma {:induction false} CountInBound(b: seq<real>, obs: seq<real>, k: nat)
    ensures H.CountIn(b, obs, k) <= |obs|
  {
    if obs != [] {
      CountInBound(b, obs[..|obs| - 1], k);
    }
  }
}
