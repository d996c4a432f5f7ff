/** `observe` by many threads interleaved with one `percentile` scan, one atomic access per step.
    The counters are 64-bit and wrap; each access is sequentially consistent. */
module HistogramScan {
  import opened Histogram
  import opened LittleEndian

  /** The scan has loaded `target` from the total, and summed `cumulative` over the first `i`
      buckets; `start` is history: the buckets when the total was loaded. */
  datatype Scanner =
    | Idle
    | Scanning(target: nat, i: nat, cumulative: nat, start: seq<nat>)
    | Found(target: nat, k: nat, start: seq<nat>, end: seq<nat>)

  /** Observers between their first and second update hold their observation in `toSum`, those
      between the second and third in `toPlace`. `begun`, `summed`, `placed` and `over` are history:
      the observations whose first, second and third update is done, in the order of that update,
      and how many of the placed ones were above every bound. */
  datatype State = State(bounds: seq<real>, counts: seq<nat>, total: nat, sum: nat,
                         toSum: seq<real>, toPlace: seq<real>,
                         begun: seq<real>, summed: seq<real>, placed: seq<real>, over: nat, scanner: Scanner)

  datatype Action =
    | AddToTotal(latency: real)
    | AddToSum(j: nat)
    | AddToBucket(j: nat)
    | LoadTotal(p: real)
    | LoadBucket

  predicate CanTake(s: State, a: Action) {
    match a
    case AddToTotal(_) => true
    case AddToSum(j) => j < |s.toSum|
    case AddToBucket(j) => j < |s.toPlace|
    case LoadTotal(_) => s.total > 0 && !s.scanner.Scanning?
    case LoadBucket => s.scanner.Scanning? && s.scanner.i <= |s.counts|
  }

  function Without(s: seq<real>, j: nat): (r: seq<real>)
    requires j < |s|
    ensures |r| == |s| - 1
  {
    s[..j] + s[j + 1..]
  }

  function Bump(counts: seq<nat>, k: nat): (c: seq<nat>)
    ensures |c| == |counts|
  {
    if k < |counts| then counts[k := (counts[k] + 1) % U64] else counts
  }

  function StepAddToSum(s: State, j: nat): State
    requires j < |s.toSum|
  {
    s.(sum := (s.sum + Nanos(s.toSum[j])) % U64, summed := s.summed + [s.toSum[j]],
       toSum := Without(s.toSum, j), toPlace := s.toPlace + [s.toSum[j]])
  }

  function StepAddToBucket(s: State, j: nat): State
    requires j < |s.toPlace|
  {
    var k := BucketOf(s.bounds, s.toPlace[j]);
    s.(counts := Bump(s.counts, k), toPlace := Without(s.toPlace, j), placed := s.placed + [s.toPlace[j]],
       over := s.over + if k < |s.counts| then 0 else 1)
  }

  function StepLoadBucket(s: State): State
    requires CanTake(s, LoadBucket)
  {
    var t := s.scanner;
    if t.i == |s.counts| then s.(scanner := Found(t.target, t.i, t.start, s.counts))
    else
      var sum := (t.cumulative + s.counts[t.i]) % U64;
      if sum >= t.target then s.(scanner := Found(t.target, t.i, t.start, s.counts))
      else s.(scanner := Scanning(t.target, t.i + 1, sum, t.start))
  }

  /** The state after action `a`; an action that cannot be taken leaves it alone. */
  function Next(s: State, a: Action): (s': State)
    ensures s'.bounds == s.bounds && |s'.counts| == |s.counts| && s.begun <= s'.begun
  {
    if !CanTake(s, a) then s else
    match a
    case AddToTotal(x) => s.(total := (s.total + 1) % U64, begun := s.begun + [x], toSum := s.toSum + [x])
    case AddToSum(j) => StepAddToSum(s, j)
    case AddToBucket(j) => StepAddToBucket(s, j)
    case LoadTotal(p) => s.(scanner := Scanning(Target(s.total, p), 0, 0, s.counts))
    case LoadBucket => StepLoadBucket(s)
  }

  function Exec(s: State, acts: seq<Action>): (s': State)
    ensures s'.bounds == s.bounds && |s'.counts| == |s.counts| && s.begun <= s'.begun
    decreases |acts|
  {
    if acts == [] then s else Exec(Next(s, acts[0]), acts[1..])
  }

  // ---------- the invariant ----------

  predicate Below(c: seq<nat>, c': seq<nat>) {
    |c| == |c'| && forall k :: 0 <= k < |c| ==> c[k] <= c'[k]
  }

  ghost predicate ScanInv(counts: seq<nat>, t: Scanner) {
    match t
    case Idle => true
    case Scanning(target, i, cumulative, start) =>
      && Below(start, counts) && i <= |counts|
      && Prefix(start, i) <= cumulative <= Prefix(counts, i)
      && forall n :: 1 <= n <= i ==> Prefix(start, n) < target
    case Found(target, k, start, end) =>
      && Below(start, end) && Below(end, counts) && k <= |counts|
      && (forall n :: 1 <= n <= k ==> Prefix(start, n) < target)
      && (k < |end| ==> Prefix(end, k + 1) >= target)
  }

  /** Every observation begun is in one place: about to be summed, about to be placed, or placed. */
  ghost predicate Tracked(s: State) {
    && multiset(s.begun) == multiset(s.toSum) + multiset(s.toPlace) + multiset(s.placed)
    && multiset(s.begun) == multiset(s.toSum) + multiset(s.summed)
  }

  /** The three counters hold, modulo 2^64, what the observations that reached them amount to. */
  ghost predicate Counted(s: State) {
    && s.total == |s.begun| % U64
    && s.sum == NanoSum(s.summed) % U64
    && |s.counts| == |s.bounds|
    && (forall k :: 0 <= k < |s.counts| ==> s.counts[k] == CountIn(s.bounds, s.placed, k) % U64)
    && s.over == CountIn(s.bounds, s.placed, |s.bounds|)
  }

  /** Observations and counters match at all times; the scan is right until 2^64 observers have begun. */
  ghost predicate Inv(s: State) {
    Tracked(s) && Counted(s) && (|s.begun| < U64 ==> ScanInv(s.counts, s.scanner))
  }

  lemma {:induction false} PrefixBelow(c: seq<nat>, c': seq<nat>, n: nat)
    requires Below(c, c') && n <= |c|
    ensures Prefix(c, n) <= Prefix(c', n)
  {
    if n > 0 {
      PrefixBelow(c, c', n - 1);
    }
  }

  lemma {:induction false} CountInBound(b: seq<real>, obs: seq<real>, k: nat)
    ensures CountIn(b, obs, k) <= |obs|
  {
    if obs != [] {
      CountInBound(b, obs[..|obs| - 1], k);
    }
  }

  lemma BumpKeepsScan(counts: seq<nat>, k: nat, t: Scanner)
    requires ScanInv(counts, t) && (k < |counts| ==> counts[k] + 1 < U64)
    ensures ScanInv(Bump(counts, k), t)
  {
    if t.Scanning? {
      PrefixBelow(counts, Bump(counts, k), t.i);
    }
  }

  lemma WithoutTracked(s: seq<real>, j: nat)
    requires j < |s|
    ensures multiset(s) == multiset(Without(s, j)) + multiset{s[j]}
  {
    assert s == s[..j] + [s[j]] + s[j + 1..];
  }

  lemma WrapAdd(a: nat, b: nat)
    ensures (a % U64 + b) % U64 == (a + b) % U64
  {}

  lemma AddToTotalKeepsInv(s: State, x: real)
    requires Inv(s)
    ensures Inv(Next(s, AddToTotal(x)))
  {
    AddToTotalTracked(s, x);
    WrapAdd(|s.begun|, 1);
    assert Counted(Next(s, AddToTotal(x)));
  }

  lemma AddToTotalTracked(s: State, x: real)
    requires Tracked(s)
    ensures Tracked(Next(s, AddToTotal(x)))
  {
    assert multiset(s.begun + [x]) == multiset(s.begun) + multiset{x};
    assert multiset(s.toSum + [x]) == multiset(s.toSum) + multiset{x};
  }

  lemma AddToSumTracked(s: State, j: nat)
    requires Tracked(s) && j < |s.toSum|
    ensures Tracked(Next(s, AddToSum(j)))
  {
    WithoutTracked(s.toSum, j);
  }

  lemma AddToSumKeepsInv(s: State, j: nat)
    requires Inv(s) && j < |s.toSum|
    ensures Inv(Next(s, AddToSum(j)))
  {
    AddToSumTracked(s, j);
    AddToSumCounted(s, j);
  }

  lemma AddToSumCounted(s: State, j: nat)
    requires Counted(s) && j < |s.toSum|
    ensures Counted(Next(s, AddToSum(j)))
  {
    NanoSumAppend(s.summed, s.toSum[j]);
    WrapAdd(NanoSum(s.summed), Nanos(s.toSum[j]));
  }

  lemma PlacedFewer(s: State)
    requires Tracked(s) && s.toPlace != []
    ensures |s.placed| < |s.begun|
  {
    assert |multiset(s.begun)| == |s.begun|;
    assert |multiset(s.toSum) + multiset(s.toPlace) + multiset(s.placed)| == |s.toSum| + |s.toPlace| + |s.placed|;
  }

  lemma BumpCounts(s: State, x: real)
    requires Counted(s)
    ensures var k := BucketOf(s.bounds, x);
      && (forall i :: 0 <= i < |s.counts| ==>
           Bump(s.counts, k)[i] == CountIn(s.bounds, s.placed + [x], i) % U64)
      && s.over + (if k < |s.counts| then 0 else 1) == CountIn(s.bounds, s.placed + [x], |s.bounds|)
  {
    forall i: nat ensures CountIn(s.bounds, s.placed + [x], i)
      == CountIn(s.bounds, s.placed, i) + if BucketOf(s.bounds, x) == i then 1 else 0
    {
      CountsAppend(s.bounds, s.placed, x, i);
    }
    forall i: nat ensures (CountIn(s.bounds, s.placed, i) % U64 + 1) % U64 == (CountIn(s.bounds, s.placed, i) + 1) % U64
    {
      WrapAdd(CountIn(s.bounds, s.placed, i), 1);
    }
  }

  lemma AddToBucketTracked(s: State, j: nat)
    requires Tracked(s) && j < |s.toPlace|
    ensures Tracked(Next(s, AddToBucket(j)))
  {
    WithoutTracked(s.toPlace, j);
    assert multiset(s.placed + [s.toPlace[j]]) == multiset(s.placed) + multiset{s.toPlace[j]};
  }

  lemma AddToBucketCounted(s: State, j: nat)
    requires Counted(s) && j < |s.toPlace|
    ensures Counted(Next(s, AddToBucket(j)))
  {
    BumpCounts(s, s.toPlace[j]);
  }

  lemma AddToBucketKeepsScan(s: State, j: nat)
    requires Tracked(s) && Counted(s) && j < |s.toPlace| && |s.begun| < U64 && ScanInv(s.counts, s.scanner)
    ensures ScanInv(Next(s, AddToBucket(j)).counts, s.scanner)
  {
    var k := BucketOf(s.bounds, s.toPlace[j]);
    PlacedFewer(s);
    CountInBound(s.bounds, s.placed, k);
    BumpKeepsScan(s.counts, k, s.scanner);
  }

  lemma AddToBucketKeepsInv(s: State, j: nat)
    requires Inv(s) && j < |s.toPlace|
    ensures Inv(Next(s, AddToBucket(j)))
  {
    AddToBucketTracked(s, j);
    AddToBucketCounted(s, j);
    if |s.begun| < U64 {
      AddToBucketKeepsScan(s, j);
    }
  }

  /** Below 2^64 observers the buckets are those of the observations placed. */
  lemma CountsExact(s: State)
    requires Inv(s) && |s.begun| < U64
    ensures s.counts == Counts(s.bounds, s.placed) && s.total == |s.begun|
    ensures |s.begun| == |s.toSum| + |s.toPlace| + |s.placed|
  {
    assert |multiset(s.begun)| == |s.begun|;
    assert |multiset(s.toSum) + multiset(s.toPlace) + multiset(s.placed)| == |s.toSum| + |s.toPlace| + |s.placed|;
    forall k | 0 <= k < |s.counts| ensures s.counts[k] == CountIn(s.bounds, s.placed, k) {
      CountInBound(s.bounds, s.placed, k);
    }
  }

  lemma {:induction false} PlacesAddUp(b: seq<real>, obs: seq<real>)
    ensures Prefix(Counts(b, obs), |b|) + CountIn(b, obs, |b|) == |obs|
    decreases |obs|
  {
    if obs == [] {
      EmptyPrefix(Counts(b, obs), |b|);
    } else {
      var front, x := obs[..|obs| - 1], obs[|obs| - 1];
      PlacesAddUp(b, front);
      PrefixBump(Counts(b, front), Counts(b, obs), BucketOf(b, x), |b|);
    }
  }

  /** Nothing is counted twice or forgotten: total = buckets + overflows + observers under way. */
  lemma Conserved(s: State)
    requires Inv(s) && |s.begun| < U64
    ensures s.total == Prefix(s.counts, |s.counts|) + s.over + |s.toSum| + |s.toPlace| < U64
  {
    CountsExact(s);
    PlacesAddUp(s.bounds, s.placed);
  }

  lemma LoadBucketKeepsInv(s: State)
    requires Inv(s) && CanTake(s, LoadBucket)
    ensures Inv(Next(s, LoadBucket))
  {
    if |s.begun| < U64 {
      Conserved(s);
      LoadBucketKeepsScan(s);
    }
  }

  lemma LoadBucketKeepsScan(s: State)
    requires CanTake(s, LoadBucket) && ScanInv(s.counts, s.scanner) && Prefix(s.counts, |s.counts|) < U64
    ensures ScanInv(s.counts, Next(s, LoadBucket).scanner)
  {
    if s.scanner.i < |s.counts| {
      SumAdvances(s.counts, s.scanner);
    }
  }

  lemma SumAdvances(counts: seq<nat>, t: Scanner)
    requires t.Scanning? && ScanInv(counts, t) && t.i < |counts| && Prefix(counts, |counts|) < U64
    ensures Prefix(t.start, t.i + 1) <= t.cumulative + counts[t.i] <= Prefix(counts, t.i + 1) < U64
  {
    assert Prefix(counts, t.i + 1) == Prefix(counts, t.i) + counts[t.i];
    assert Prefix(t.start, t.i + 1) == Prefix(t.start, t.i) + t.start[t.i];
    PrefixGrows(counts, t.i + 1, |counts|);
  }

  lemma StepKeepsInv(s: State, a: Action)
    requires Inv(s)
    ensures Inv(Next(s, a))
  {
    if CanTake(s, a) {
      match a {
        case AddToTotal(x) => AddToTotalKeepsInv(s, x);
        case AddToSum(j) => AddToSumKeepsInv(s, j);
        case AddToBucket(j) => AddToBucketKeepsInv(s, j);
        case LoadTotal(_) =>
        case LoadBucket => LoadBucketKeepsInv(s);
      }
    }
  }

  lemma {:induction false} RunKeepsInv(s: State, acts: seq<Action>)
    requires Inv(s)
    ensures Inv(Exec(s, acts))
    decreases |acts|
  {
    if acts != [] {
      StepKeepsInv(s, acts[0]);
      RunKeepsInv(Next(s, acts[0]), acts[1..]);
    }
  }

  lemma FoundBetween(counts: seq<nat>, f: Scanner)
    requires f.Found? && ScanInv(counts, f) && Prefix(f.end, |f.end|) < U64
    ensures Scan(f.end, 0, 0, f.target) <= f.k <= Scan(f.start, 0, 0, f.target)
  {
    PrefixBelow(f.start, f.end, |f.end|);
    ScanReaches(f.end, 0, f.target);
    ScanReaches(f.start, 0, f.target);
    var before, n := Scan(f.start, 0, 0, f.target), |f.end|;
    var m := if before < n then before + 1 else n;
    assert Prefix(f.start, m) >= f.target || before == n;
  }

  /** As `new` leaves the histogram: the bounds in place and everything zero. */
  function Start(bounds: seq<real>): State {
    State(bounds, seq(|bounds|, _ => 0), 0, 0, [], [], [], [], [], 0, Idle)
  }

  lemma StartHasInv(bounds: seq<real>)
    ensures Inv(Start(bounds))
  {}

  /** While fewer than 2^64 observers have begun: whatever they do during a scan, its answer lies
      between what `percentile` answers for the same target on the buckets at the end of the scan
      and on those at its start. */
  lemma PercentileSandwich(s: State, acts: seq<Action>)
    requires Inv(s) && |s.bounds| > 0 && Ascending(s.bounds)
    requires Exec(s, acts).scanner.Found? && |Exec(s, acts).begun| < U64
    ensures var f := Exec(s, acts).scanner;
      && f.k <= |s.bounds|
      && BoundAt(s.bounds, Scan(f.end, 0, 0, f.target)) <= BoundAt(s.bounds, f.k)
      && BoundAt(s.bounds, f.k) <= BoundAt(s.bounds, Scan(f.start, 0, 0, f.target))
  {
    RunKeepsInv(s, acts);
    AnswerInBetween(Exec(s, acts));
  }

  lemma AnswerInBetween(s: State)
    requires Inv(s) && |s.bounds| > 0 && Ascending(s.bounds) && s.scanner.Found? && |s.begun| < U64
    ensures var f := s.scanner;
      && f.k <= |s.bounds|
      && BoundAt(s.bounds, Scan(f.end, 0, 0, f.target)) <= BoundAt(s.bounds, f.k)
      && BoundAt(s.bounds, f.k) <= BoundAt(s.bounds, Scan(f.start, 0, 0, f.target))
  {
    Conserved(s);
    PrefixBelow(s.scanner.end, s.counts, |s.counts|);
    FoundBetween(s.counts, s.scanner);
    BoundsInOrder(s.bounds, Scan(s.scanner.end, 0, 0, s.scanner.target), s.scanner.k);
    BoundsInOrder(s.bounds, s.scanner.k, Scan(s.scanner.start, 0, 0, s.scanner.target));
  }

  lemma BoundsInOrder(b: seq<real>, j: nat, k: nat)
    requires |b| > 0 && Ascending(b) && j <= k <= |b|
    ensures BoundAt(b, j) <= BoundAt(b, k)
  {}

  // ---------- what was observed, and what was asked ----------

  /** The latencies observers came with, in order. */
  function Latencies(acts: seq<Action>): seq<real> {
    if acts == [] then []
    else (if acts[0].AddToTotal? then [acts[0].latency] else []) + Latencies(acts[1..])
  }

  lemma {:induction false} BegunAreLatencies(s: State, acts: seq<Action>)
    ensures Exec(s, acts).begun == s.begun + Latencies(acts)
    decreases |acts|
  {
    if acts != [] {
      BegunAreLatencies(Next(s, acts[0]), acts[1..]);
    }
  }

  lemma {:induction false} NanoSumPermutation(a: seq<real>, b: seq<real>)
    requires multiset(a) == multiset(b)
    ensures NanoSum(a) == NanoSum(b)
    decreases |a|
  {
    assert |multiset(a)| == |a| && |multiset(b)| == |b|;
    if a != [] {
      var x := a[|a| - 1];
      assert x in multiset(b);
      var i :| 0 <= i < |b| && b[i] == x;
      assert a == a[..|a| - 1] + [x];
      assert multiset(a[..|a| - 1]) == multiset(a) - multiset{x};
      WithoutTracked(b, i);
      NanoSumPermutation(a[..|a| - 1], Without(b, i));
      NanoSumWithout(b, i);
    }
  }

  lemma {:induction false} NanoSumWithout(b: seq<real>, i: nat)
    requires i < |b|
    ensures NanoSum(b) == NanoSum(Without(b, i)) + Nanos(b[i])
    decreases |b|
  {
    var k := |b| - 1;
    if i == k {
      assert Without(b, i) == b[..k];
    } else {
      NanoSumWithout(b[..k], i);
      assert Without(b, i)[..k - 1] == Without(b[..k], i);
      assert Without(b, i)[k - 1] == b[k];
    }
  }

  /** On every run from a new histogram each bucket prefix counts exactly the placed observations up
      to its bound and the overflow those above all bounds, whatever order the updates came in; with
      no observer under way bounds, sum and total are those of all latencies observed. */
  lemma ObservationsAreCounted(bounds: seq<real>, acts: seq<Action>)
    requires bounds == BoundsFrom(FIRST_BOUND) && |Latencies(acts)| < U64
    ensures var s := Exec(Start(bounds), acts);
      && multiset(Latencies(acts)) == multiset(s.toSum) + multiset(s.toPlace) + multiset(s.placed)
      && s.total == |Latencies(acts)| == Prefix(s.counts, |s.counts|) + s.over + |s.toSum| + |s.toPlace|
      && (forall i :: 0 <= i < |bounds| ==> Prefix(s.counts, i + 1) == CountLe(s.placed, bounds[i]))
      && s.over == |s.placed| - CountLe(s.placed, bounds[|bounds| - 1])
      && (s.toSum == [] == s.toPlace ==>
           && (forall i :: 0 <= i < |bounds| ==> Prefix(s.counts, i + 1) == CountLe(Latencies(acts), bounds[i]))
           && s.sum == NanoSum(Latencies(acts)) % U64)
  {
    var s := Exec(Start(bounds), acts);
    NewBounds(bounds);
    StartHasInv(bounds);
    RunKeepsInv(Start(bounds), acts);
    BegunAreLatencies(Start(bounds), acts);
    assert s.begun == Latencies(acts);
    CountsExact(s);
    Conserved(s);
    forall i | 0 <= i < |bounds| ensures Prefix(s.counts, i + 1) == CountLe(s.placed, bounds[i]) {
      PrefixCountsUpToBound(bounds, s.placed, i);
    }
    if s.toSum == [] == s.toPlace {
      assert multiset(s.begun) == multiset(s.placed) && multiset(s.begun) == multiset(s.summed);
      NanoSumPermutation(s.begun, s.summed);
      forall i | 0 <= i < |bounds| ensures CountLe(s.placed, bounds[i]) == CountLe(s.begun, bounds[i]) {
        CountLePermutation(s.begun, s.placed, bounds[i]);
      }
    }
  }

  lemma NewBounds(bounds: seq<real>)
    requires bounds == BoundsFrom(FIRST_BOUND)
    ensures |bounds| > 0 && Ascending(bounds) && bounds[0] == 0.000001
    ensures forall i :: 0 <= i < |bounds| ==> (bounds[i] < 10.0 <==> i < |bounds| - 1)
  {
    BoundsDouble(FIRST_BOUND);
    DoublingIsAscending(bounds);
  }

  /** The percentile a scan was last asked for, how many observers had begun when it loaded the
      total, and the buckets at that moment. */
  datatype Question = Question(p: real, begun: nat, counts: seq<nat>)

  function Ask(s: State, a: Action, asked: seq<Question>): (q: seq<Question>) {
    if a.LoadTotal? && s.total > 0 && !s.scanner.Scanning? then [Question(a.p, |s.begun|, s.counts)] else asked
  }

  function LastAsked(s: State, acts: seq<Action>, asked: seq<Question>): (q: seq<Question>)
    decreases |acts|
  {
    if acts == [] then asked
    else
      LastAsked(Next(s, acts[0]), acts[1..], Ask(s, acts[0], asked))
  }

  /** The scan works for the target of the percentile asked for. */
  ghost predicate Answers(t: Scanner, asked: seq<Question>) {
    if t.Idle? then asked == []
    else
      && |asked| == 1 && asked[0].begun > 0
      && t.target == Target(asked[0].begun, asked[0].p) && t.start == asked[0].counts
  }

  lemma AnswersStep(s: State, a: Action, asked: seq<Question>)
    requires Inv(s) && |s.begun| < U64 && Answers(s.scanner, asked)
    ensures Answers(Next(s, a).scanner, Ask(s, a, asked))
  {
    if a.LoadTotal? {
      CountsExact(s);
    }
  }

  lemma {:induction false} ScansAnswerWhatWasAsked(s: State, acts: seq<Action>, asked: seq<Question>)
    requires Inv(s) && Answers(s.scanner, asked) && |Exec(s, acts).begun| < U64
    ensures Answers(Exec(s, acts).scanner, LastAsked(s, acts, asked))
    decreases |acts|
  {
    if acts != [] {
      StepKeepsInv(s, acts[0]);
      AnswersStep(s, acts[0], asked);
      ScansAnswerWhatWasAsked(Next(s, acts[0]), acts[1..], Ask(s, acts[0], asked));
    }
  }

  lemma AnswersTheQuestion(bounds: seq<real>, f: Scanner, q: Question)
    requires |bounds| > 0 && f.Found? && f.target == Target(q.begun, q.p) && q.begun > 0
    ensures Answer(bounds, f.end, q.begun, q.p) == BoundAt(bounds, Scan(f.end, 0, 0, f.target))
    ensures Answer(bounds, f.start, q.begun, q.p) == BoundAt(bounds, Scan(f.start, 0, 0, f.target))
  {}

  /** A scan works for floor(n * p / 100), where p is the percentile last asked for and n observers
      had begun when it was asked, and a finished scan answered between what `percentile` answers for
      p and n on the buckets at its end and on those when it was asked. */
  ghost predicate AnswersInBetween(bounds: seq<real>, f: Scanner, asked: seq<Question>)
    requires |bounds| > 0
  {
    if f.Idle? then asked == []
    else
      && |asked| == 1
      && var q := asked[0];
      && f.start == q.counts
      && (0.0 <= q.p <= 100.0 ==> f.target == (q.begun as real * q.p / 100.0).Floor)
      && (f.Found? ==>
           && f.k <= |bounds|
           && Answer(bounds, f.end, q.begun, q.p) <= BoundAt(bounds, f.k)
           && BoundAt(bounds, f.k) <= Answer(bounds, f.start, q.begun, q.p))
  }

  lemma QuestionAnswered(s: State, asked: seq<Question>)
    requires Inv(s) && |s.bounds| > 0 && Ascending(s.bounds) && |s.begun| < U64
    requires Answers(s.scanner, asked) && forall q :: q in asked ==> q.begun <= |s.begun|
    ensures AnswersInBetween(s.bounds, s.scanner, asked)
  {
    if !s.scanner.Idle? {
      var q := asked[0];
      assert q in asked;
      if 0.0 <= q.p <= 100.0 {
        TargetWithinTotal(q.begun, q.p);
      }
      if s.scanner.Found? {
        AnswerInBetween(s);
        AnswersTheQuestion(s.bounds, s.scanner, q);
      }
    }
  }

  /** On every run from a new histogram, whatever observers do meanwhile, scans answer what was asked. */
  lemma ScansAreSandwiched(bounds: seq<real>, acts: seq<Action>)
    requires bounds == BoundsFrom(FIRST_BOUND) && |Latencies(acts)| < U64
    ensures AnswersInBetween(bounds, Exec(Start(bounds), acts).scanner, LastAsked(Start(bounds), acts, []))
  {
    NewBounds(bounds);
    StartHasInv(bounds);
    BegunAreLatencies(Start(bounds), acts);
    RunKeepsInv(Start(bounds), acts);
    ScansAnswerWhatWasAsked(Start(bounds), acts, []);
    AskedEarlier(Start(bounds), acts, []);
    QuestionAnswered(Exec(Start(bounds), acts), LastAsked(Start(bounds), acts, []));
  }

  lemma {:induction false} AskedEarlier(s: State, acts: seq<Action>, asked: seq<Question>)
    requires forall q :: q in asked ==> q.begun <= |s.begun|
    ensures forall q :: q in LastAsked(s, acts, asked) ==> q.begun <= |Exec(s, acts).begun|
    decreases |acts|
  {
    if acts != [] {
      AskedEarlier(Next(s, acts[0]), acts[1..], Ask(s, acts[0], asked));
    }
  }

  // ---------- nobody waits ----------

  /** An observer goes through its three updates whatever others have left half done and whatever a
      scan is doing, and touches nothing but the three counters. */
  lemma ObserverNeverWaits(s: State, x: real)
    ensures Exec(s, [AddToTotal(x), AddToSum(|s.toSum|), AddToBucket(|s.toPlace|)]) ==
      s.(total := (s.total + 1) % U64, sum := (s.sum + Nanos(x)) % U64,
         counts := Bump(s.counts, BucketOf(s.bounds, x)),
         begun := s.begun + [x], summed := s.summed + [x], placed := s.placed + [x],
         over := s.over + if BucketOf(s.bounds, x) < |s.counts| then 0 else 1)
  {
    ExecThree(s, AddToTotal(x), AddToSum(|s.toSum|), AddToBucket(|s.toPlace|));
    LastOut(s.toSum, x);
    LastOut(s.toPlace, x);
    var s1 := Next(s, AddToTotal(x));
    var s2 := s.(total := (s.total + 1) % U64, sum := (s.sum + Nanos(x)) % U64, begun := s.begun + [x],
                 summed := s.summed + [x], toPlace := s.toPlace + [x]);
    assert Next(s1, AddToSum(|s.toSum|)) == s2;
    assert s2.toPlace[|s.toPlace|] == x;
  }

  lemma LastOut(s: seq<real>, x: real)
    ensures Without(s + [x], |s|) == s
  {}

  lemma ExecThree(s: State, a: Action, b: Action, c: Action)
    ensures Exec(s, [a, b, c]) == Next(Next(Next(s, a), b), c)
  {
    assert [a, b, c][1..] == [b, c] && [b, c][1..] == [c];
    assert Exec(Next(Next(s, a), b), [c]) == Next(Next(Next(s, a), b), c);
  }

  /** Observers need not keep their order: any of them may make the next update. */
  lemma AnyObserverMayGoNext(s: State, j: nat)
    ensures j < |s.toSum| ==>
      var s' := Next(s, AddToSum(j));
      s'.summed == s.summed + [s.toSum[j]] && s'.toPlace == s.toPlace + [s.toSum[j]]
      && multiset(s.toSum) == multiset(s'.toSum) + multiset{s.toSum[j]}
    ensures j < |s.toPlace| ==>
      var s' := Next(s, AddToBucket(j));
      s'.placed == s.placed + [s.toPlace[j]]
      && multiset(s.toPlace) == multiset(s'.toPlace) + multiset{s.toPlace[j]}
  {
    if j < |s.toSum| {
      WithoutTracked(s.toSum, j);
    }
    if j < |s.toPlace| {
      WithoutTracked(s.toPlace, j);
    }
  }

  lemma {:induction false} ScanRuns(s: State, t: Scanner, acts: seq<Action>)
    requires s.scanner == t && t.Scanning? && t.i <= |s.counts| && |acts| > |s.counts| - t.i
    requires forall a :: a in acts ==> a == LoadBucket
    ensures Exec(s, acts) ==
      s.(scanner := Found(t.target, Scan(s.counts, t.i, t.cumulative, t.target), t.start, s.counts))
    decreases |acts|
  {
    var s' := Next(s, acts[0]);
    assert acts[0] in acts && forall a :: a in acts[1..] ==> a in acts;
    if s'.scanner.Found? {
      StaysFound(s', acts[1..]);
    } else {
      ScanRuns(s', s'.scanner, acts[1..]);
    }
  }

  lemma {:induction false} StaysFound(s: State, acts: seq<Action>)
    requires !s.scanner.Scanning? && forall a :: a in acts ==> a == LoadBucket
    ensures Exec(s, acts) == s
    decreases |acts|
  {
    if acts != [] {
      assert acts[0] in acts && forall a :: a in acts[1..] ==> a in acts;
      StaysFound(s, acts[1..]);
    }
  }

  /** A percentile can be asked whenever no scan is under way, whatever observers have left half
      done; on an unchanging histogram it answers as `percentile` does, and changes no counter. With
      nothing observed there is nothing to scan. */
  lemma ScanNeverWaits(s: State, p: real, acts: seq<Action>)
    requires !s.scanner.Scanning? && |s.bounds| == |s.counts| > 0
    requires |acts| > |s.counts| && forall a :: a in acts ==> a == LoadBucket
    ensures var s' := Exec(s, [LoadTotal(p)] + acts);
      && s' == s.(scanner := s'.scanner)
      && (s.total == 0 ==> s' == s)
      && (s.total > 0 ==>
           s'.scanner.Found? && BoundAt(s.bounds, s'.scanner.k) == Answer(s.bounds, s.counts, s.total, p))
  {
    assert ([LoadTotal(p)] + acts)[1..] == acts;
    var s1 := Next(s, LoadTotal(p));
    if s.total > 0 {
      ScanRuns(s1, s1.scanner, acts);
    } else {
      StaysFound(s, acts);
    }
  }
}
