/** Exactly when a ring can pass for the FIFO: when every accepted write lands. A record whose prefix
    does not land is found out by reading on, whatever else the run does before. */
module RingFidelity {
  import opened LittleEndian
  import opened Fifo
  import opened Positions
  import opened RingModel
  import opened RingRuns

  predicate ReadsOnly(ops: seq<Op>) {
    forall op :: op in ops ==> op.ReadOp?
  }

  /** The run, and every way of reading on after it, gives the results the FIFO gives. */
  ghost predicate PassesForFifo(r: Ring, q: seq<Payload>, ops: seq<Op>)
    requires WellFormed(r)
  {
    forall later: seq<Op> :: ReadsOnly(later) ==> Outcomes(r, ops + later) == FifoOutcomes(r.cap, q, ops + later)
  }

  // ---------- landing suffices ----------

  lemma {:induction false} ReadsLand(r: Ring, later: seq<Op>)
    requires WellFormed(r) && ReadsOnly(later)
    ensures LandsThroughout(r, later)
    decreases |later|
  {
    if later != [] {
      assert later[0] in later && forall op :: op in later[1..] ==> op in later;
      ReadsLand(Step(r, later[0]), later[1..]);
    }
  }

  lemma {:induction false} LandsAppend(r: Ring, ops: seq<Op>, more: seq<Op>)
    requires WellFormed(r) && LandsThroughout(r, ops) && LandsThroughout(Run(r, ops), more)
    ensures LandsThroughout(r, ops + more)
    decreases |ops|
  {
    if ops == [] {
      assert ops + more == more;
    } else {
      assert (ops + more)[1..] == ops[1..] + more;
      LandsAppend(Step(r, ops[0]), ops[1..], more);
    }
  }

  lemma LandingPasses(r: Ring, q: seq<Payload>, ops: seq<Op>)
    requires Represents(r, q) && LandsThroughout(r, ops)
    ensures PassesForFifo(r, q, ops)
  {
    forall later: seq<Op> | ReadsOnly(later)
      ensures Outcomes(r, ops + later) == FifoOutcomes(r.cap, q, ops + later)
    {
      ReadsLand(Run(r, ops), later);
      LandsAppend(r, ops, later);
      RunRefinesFifo(r, q, ops + later);
    }
  }

  // ---------- a record that did not land ----------

  /** The ring up to `n` cells past `rp`, and from there on. */
  function Front(r: Ring, n: nat): (r': Ring)
    requires WellFormed(r) && n < r.cap
    ensures WellFormed(r')
  {
    r.(wp := Wrap(r.rp + n, r.cap))
  }

  function Back(r: Ring, n: nat): (r': Ring)
    requires WellFormed(r) && n < r.cap
    ensures WellFormed(r')
  {
    r.(rp := Wrap(r.rp + n, r.cap))
  }

  /** The records `front`, then `bad`, then `rest`. */
  function Around(front: seq<Payload>, bad: Payload, rest: seq<Payload>): (q: seq<Payload>)
    ensures q != []
  {
    front + [bad] + rest
  }

  /** The ring takes as much space as these records and holds the first ones, but the length decoded
      where `bad` should be is not its length. */
  ghost predicate Poisoned(r: Ring, front: seq<Payload>, bad: Payload, rest: seq<Payload>) {
    && WellFormed(r) && Used(r) == Cost(front) + PREFIX + |bad| + Cost(rest)
    && Represents(Front(r, Cost(front)), front)
    && DecodedLength(Back(r, Cost(front))) != |bad|
  }

  lemma CostAround(front: seq<Payload>, bad: Payload, rest: seq<Payload>)
    ensures Cost(Around(front, bad, rest)) == Cost(front) + PREFIX + |bad| + Cost(rest)
  {
    CostAppend(front, [bad]);
    CostAppend(front + [bad], rest);
    assert [bad][1..] == [];
  }

  /** A write that does not land poisons the ring at its own record. */
  lemma BadWritePoisons(r: Ring, q: seq<Payload>, data: Payload)
    requires Represents(r, q) && Fits(r.cap, q, data) && !(PrefixLands(r, data) && |data| < U32)
    ensures Accepts(r, data) && Poisoned(Write(r, data), q, data, [])
  {
    SpaceAccounting(r, q, data);
    var r' := Write(r, data);
    WriteKeepsOldCells(r, data);
    CellsFrame(r.mem, r'.mem, r.cap, r.rp, Cost(q));
    assert Represents(Front(r', Cost(q)), q);
    assert Back(r', Cost(q)) == AtRecord(r, data);
    DecodedAtRecord(r, data);
    GatheredIsLength(r, data);
  }

  lemma PoisonedSpace(r: Ring, front: seq<Payload>, bad: Payload, rest: seq<Payload>, data: Payload)
    requires Poisoned(r, front, bad, rest)
    ensures Accepts(r, data) <==> Fits(r.cap, Around(front, bad, rest), data)
  {
    CostAround(front, bad, rest);
  }

  /** A stretch inside the used space stays as it is when a record is written. */
  lemma WriteKeepsStretch(r: Ring, data: Payload, m: nat, n: nat)
    requires WellFormed(r) && Accepts(r, data) && m + n <= Used(r)
    ensures Cells(Write(r, data).mem, r.cap, Wrap(r.rp + m, r.cap), n) == Cells(r.mem, r.cap, Wrap(r.rp + m, r.cap), n)
  {
    WriteKeepsOldCells(r, data);
    CellsFrame(r.mem, Write(r, data).mem, r.cap, Wrap(r.rp + m, r.cap), n);
  }

  lemma WriteKeepsStretches(r: Ring, data: Payload, n: nat)
    requires WellFormed(r) && Accepts(r, data) && n + PREFIX <= Used(r)
    ensures Used(Write(r, data)) == Used(r) + PREFIX + |data|
    ensures Cells(Write(r, data).mem, r.cap, r.rp, n) == Cells(r.mem, r.cap, r.rp, n)
    ensures DecodedLength(Back(Write(r, data), n)) == DecodedLength(Back(r, n))
  {
    WriteKeepsOldCells(r, data);
    WriteKeepsStretch(r, data, 0, n);
    WriteKeepsStretch(r, data, n, PREFIX);
  }

  lemma WriteKeepsPoison(r: Ring, front: seq<Payload>, bad: Payload, rest: seq<Payload>, data: Payload)
    requires Poisoned(r, front, bad, rest) && Accepts(r, data)
    ensures Poisoned(Write(r, data), front, bad, rest + [data])
  {
    WriteKeepsStretches(r, data, Cost(front));
    CostAppend(rest, [data]);
    assert [data][1..] == [];
  }

  /** What a read does depends on `wp` only in whether there is anything to read. */
  lemma SameRead(r: Ring, r': Ring, n: nat)
    requires WellFormed(r) && WellFormed(r') && r' == r.(wp := r'.wp) && r.wp != r.rp && r'.wp != r'.rp
    ensures ReadOutcome(r, n) == ReadOutcome(r', n) && Read(r, n).rp == Read(r', n).rp
  {
    assert DecodedLength(r) == DecodedLength(r');
  }

  /** Records before the bad one are still read as the FIFO would give them. */
  lemma ReadBeforePoison(r: Ring, front: seq<Payload>, bad: Payload, rest: seq<Payload>, n: nat)
    requires Poisoned(r, front, bad, rest) && front != []
    ensures ReadOutcome(r, n) == Peek(front, n)
    ensures Read(r, n).rp == Read(Front(r, Cost(front)), n).rp
  {
    ReadRefinesGet(Front(r, Cost(front)), front, n);
    SpaceAccounting(Front(r, Cost(front)), front, []);
    SameRead(r, Front(r, Cost(front)), n);
  }

  /** Releasing `a` cells brings everything behind them `a` cells nearer. */
  lemma Release(r: Ring, a: nat, b: nat)
    requires WellFormed(r) && a + b + PREFIX <= Used(r)
    ensures var r' := r.(rp := Wrap(r.rp + a, r.cap));
      && WellFormed(r') && Used(r') == Used(r) - a
      && Front(r', b) == Front(r, a + b).(rp := r'.rp) && Back(r', b) == Back(r, a + b)
  {}

  lemma FrontReleased(r: Ring, r': Ring, front: seq<Payload>)
    requires WellFormed(r) && front != [] && Cost(front) + PREFIX <= Used(r)
    requires Represents(Front(r, Cost(front)), front)
    requires r' == r.(rp := Wrap(r.rp + PREFIX + |front[0]|, r.cap))
    ensures Represents(Front(r', Cost(front[1..])), front[1..])
  {
    var f := Front(r, Cost(front));
    HeadReleased(f, front);
    assert Front(r', Cost(front[1..])) == f.(rp := Wrap(f.rp + PREFIX + |front[0]|, f.cap)) by {
      FlatHead(front);
      Release(r, PREFIX + |front[0]|, Cost(front[1..]));
    }
  }

  /** With the first record released, the bad one is one record nearer. */
  lemma PoisonNearer(r: Ring, r': Ring, front: seq<Payload>, bad: Payload, rest: seq<Payload>)
    requires Poisoned(r, front, bad, rest) && front != []
    requires r' == r.(rp := Wrap(r.rp + PREFIX + |front[0]|, r.cap))
    ensures Poisoned(r', front[1..], bad, rest)
  {
    FlatHead(front);
    Release(r, PREFIX + |front[0]|, Cost(front[1..]));
    FrontReleased(r, r', front);
  }

  lemma HeadOfFront(r: Ring, front: seq<Payload>, bad: Payload, rest: seq<Payload>)
    requires Poisoned(r, front, bad, rest) && front != []
    ensures DecodedLength(r) == |front[0]| && PREFIX + |front[0]| < r.cap
  {
    HeadLength(Front(r, Cost(front)), front);
    assert DecodedLength(r) == DecodedLength(Front(r, Cost(front)));
  }

  lemma ReadGot(r: Ring, n: nat, len: nat)
    requires WellFormed(r) && ReadOutcome(r, n).Got? && DecodedLength(r) == len && PREFIX + len < r.cap
    ensures Read(r, n) == r.(rp := Wrap(r.rp + PREFIX + len, r.cap))
  {
    WrapIsMod(r.rp + PREFIX + len, r.cap);
  }

  lemma ReadMovesPoison(r: Ring, front: seq<Payload>, bad: Payload, rest: seq<Payload>, n: nat)
    requires Poisoned(r, front, bad, rest) && front != [] && Peek(front, n).Got?
    ensures Read(r, n) == r.(rp := Wrap(r.rp + PREFIX + |front[0]|, r.cap))
  {
    ReadBeforePoison(r, front, bad, rest, n);
    HeadOfFront(r, front, bad, rest);
    ReadGot(r, n, |front[0]|);
  }

  /** The bad record itself is never read as what was written. */
  lemma ReadAtPoison(r: Ring, bad: Payload, rest: seq<Payload>, n: nat)
    requires Poisoned(r, [], bad, rest)
    ensures |bad| <= n ==> ReadOutcome(r, n) != Got(bad)
    ensures |bad| > n && ReadOutcome(r, n) == InvalidState ==> Read(r, n) == r
  {
    assert Back(r, 0) == r;
  }

  lemma OutcomesFrom(r: Ring, q: seq<Payload>, op: Op, later: seq<Op>)
    requires WellFormed(r)
    ensures Outcomes(r, [op] + later)[1..] == Outcomes(Step(r, op), later)
    ensures FifoOutcomes(r.cap, q, [op] + later)[1..] == FifoOutcomes(r.cap, FifoStep(r.cap, q, op), later)
    ensures op.ReadOp? ==> Outcomes(r, [op] + later)[0] == OfRead(ReadOutcome(r, op.bufLen))
    ensures op.ReadOp? ==> FifoOutcomes(r.cap, q, [op] + later)[0] == OfRead(Peek(q, op.bufLen))
  {
    assert ([op] + later)[1..] == later;
  }

  /** Results that differ after the first operation, or at it, differ. */
  lemma DifferFrom(r: Ring, q: seq<Payload>, op: Op, later: seq<Op>)
    requires WellFormed(r)
    requires
      || (op.ReadOp? && ReadOutcome(r, op.bufLen) != Peek(q, op.bufLen))
      || Outcomes(Step(r, op), later) != FifoOutcomes(r.cap, FifoStep(r.cap, q, op), later)
    ensures Outcomes(r, [op] + later) != FifoOutcomes(r.cap, q, [op] + later)
  {
    OutcomesFrom(r, q, op, later);
  }

  lemma DifferAlong(r: Ring, q: seq<Payload>, ops: seq<Op>, later: seq<Op>)
    requires WellFormed(r) && ops != []
    requires
      || (ops[0].ReadOp? && ReadOutcome(r, ops[0].bufLen) != Peek(q, ops[0].bufLen))
      || (Outcomes(Step(r, ops[0]), ops[1..] + later)
          != FifoOutcomes(r.cap, FifoStep(r.cap, q, ops[0]), ops[1..] + later))
    ensures Outcomes(r, ops + later) != FifoOutcomes(r.cap, q, ops + later)
  {
    DifferFrom(r, q, ops[0], ops[1..] + later);
    assert ops + later == [ops[0]] + (ops[1..] + later);
  }

  /** A write or a read that shows nothing wrong leaves the ring poisoned by the same record. */
  lemma PoisonStep(r: Ring, front: seq<Payload>, bad: Payload, rest: seq<Payload>, op: Op)
    returns (front': seq<Payload>, rest': seq<Payload>)
    requires Poisoned(r, front, bad, rest)
    requires op.ReadOp? ==> ReadOutcome(r, op.bufLen) == Peek(Around(front, bad, rest), op.bufLen)
    ensures Poisoned(Step(r, op), front', bad, rest')
    ensures FifoStep(r.cap, Around(front, bad, rest), op) == Around(front', bad, rest')
  {
    front', rest' := front, rest;
    match op {
      case WriteOp(data) =>
        PoisonedSpace(r, front, bad, rest, data);
        if Accepts(r, data) {
          WriteKeepsPoison(r, front, bad, rest, data);
          rest' := rest + [data];
          assert Around(front, bad, rest) + [data] == Around(front, bad, rest');
        }
      case ReadOp(n) =>
        if front == [] {
          ReadAtPoison(r, bad, rest, n);
        } else if Peek(front, n).Got? {
          ReadMovesPoison(r, front, bad, rest, n);
          PoisonNearer(r, Read(r, n), front, bad, rest);
          front' := front[1..];
          assert Around(front, bad, rest)[1..] == Around(front', bad, rest);
        }
    }
  }

  /** Reading the records in turn brings the bad one to light. */
  lemma {:induction false} ReadingOn(r: Ring, front: seq<Payload>, bad: Payload, rest: seq<Payload>)
    returns (later: seq<Op>)
    requires Poisoned(r, front, bad, rest)
    ensures ReadsOnly(later)
    ensures Outcomes(r, later) != FifoOutcomes(r.cap, Around(front, bad, rest), later)
    decreases |front|
  {
    if front == [] {
      later := [ReadOp(|bad|)] + [];
      ReadAtPoison(r, bad, rest, |bad|);
      DifferFrom(r, Around(front, bad, rest), ReadOp(|bad|), []);
    } else {
      var n := |front[0]|;
      ReadMovesPoison(r, front, bad, rest, n);
      PoisonNearer(r, Read(r, n), front, bad, rest);
      assert Around(front, bad, rest)[1..] == Around(front[1..], bad, rest);
      later := ReadingOn(Read(r, n), front[1..], bad, rest);
      DifferFrom(r, Around(front, bad, rest), ReadOp(n), later);
      later := [ReadOp(n)] + later;
    }
  }

  /** A poisoned ring gives itself away, whatever is done with it before reading on. */
  lemma {:induction false} PoisonShows(r: Ring, front: seq<Payload>, bad: Payload, rest: seq<Payload>, ops: seq<Op>)
    returns (later: seq<Op>)
    requires Poisoned(r, front, bad, rest)
    ensures ReadsOnly(later)
    ensures Outcomes(r, ops + later) != FifoOutcomes(r.cap, Around(front, bad, rest), ops + later)
    decreases |ops|
  {
    var q := Around(front, bad, rest);
    if ops == [] {
      later := ReadingOn(r, front, bad, rest);
      assert ops + later == later;
    } else {
      var op := ops[0];
      if op.ReadOp? && ReadOutcome(r, op.bufLen) != Peek(q, op.bufLen) {
        later := [];
      } else {
        var front', rest' := PoisonStep(r, front, bad, rest, op);
        later := PoisonShows(Step(r, op), front', bad, rest', ops[1..]);
      }
      DifferAlong(r, q, ops, later);
    }
  }

  lemma {:induction false} BadWriteShows(r: Ring, q: seq<Payload>, ops: seq<Op>) returns (later: seq<Op>)
    requires Represents(r, q) && !LandsThroughout(r, ops)
    ensures ReadsOnly(later) && Outcomes(r, ops + later) != FifoOutcomes(r.cap, q, ops + later)
    decreases |ops|
  {
    var op, r', q' := ops[0], Step(r, ops[0]), FifoStep(r.cap, q, ops[0]);
    match op {
      case WriteOp(data) => SpaceAccounting(r, q, data); WriteRefinesPut(r, q, data);
      case ReadOp(n) => ReadRefinesGet(r, q, n);
    }
    if op.WriteOp? && Accepts(r, op.data) && !(PrefixLands(r, op.data) && |op.data| < U32) {
      BadWritePoisons(r, q, op.data);
      assert q' == Around(q, op.data, []);
      later := PoisonShows(r', q, op.data, [], ops[1..]);
    } else {
      later := BadWriteShows(r', q', ops[1..]);
    }
    DifferAlong(r, q, ops, later);
  }

  /** A run and all reading after it is indistinguishable from the FIFO iff every accepted write of
      the run lands. */
  lemma PassesIffLanding(r: Ring, q: seq<Payload>, ops: seq<Op>)
    requires Represents(r, q)
    ensures PassesForFifo(r, q, ops) <==> LandsThroughout(r, ops)
  {
    if LandsThroughout(r, ops) {
      LandingPasses(r, q, ops);
    } else {
      var later := BadWriteShows(r, q, ops);
      assert Outcomes(r, ops + later) != FifoOutcomes(r.cap, q, ops + later);
    }
  }

  // ---------- one record through an empty ring ----------

  /** Writing a record into an empty ring and reading once empties it again iff the record lands,
      and then it was returned. */
  lemma PassesThroughIff(r: Ring, data: Payload, bufLen: nat)
    requires WellFormed(r) && r.wp == r.rp && Accepts(r, data) && |data| <= bufLen < r.cap
    ensures var w := Write(r, data); var r' := Read(w, bufLen);
      && (r'.wp == r'.rp <==> PrefixLands(r, data) && |data| < U32)
      && (r'.wp == r'.rp ==> ReadOutcome(w, bufLen) == Got(data) && r'.wp == Wrap(r.wp + PREFIX + |data|, r.cap))
  {
    var w := Write(r, data);
    assert w == AtRecord(r, data);
    RecordRoundTrip(r, data, bufLen);
    DecodedAtRecord(r, data);
    GatheredIsLength(r, data);
    WrapIsMod(r.wp + PREFIX + |data|, r.cap);
    if ReadOutcome(w, bufLen).Got? {
      SameEnd(r.wp + PREFIX, DecodedLength(w), |data|, r.cap);
    }
  }

  /** Two strides shorter than the ring end in the same place only if they are equal. */
  lemma SameEnd(base: nat, a: nat, b: nat, cap: nat)
    requires a < cap && b < cap
    ensures (base + a) % cap == (base + b) % cap <==> a == b
  {
    if (base + a) % cap == (base + b) % cap {
      var k, l := (base + a) / cap, (base + b) / cap;
      assert a - b == (k - l) * cap by {
        assert base + a == k * cap + (base + a) % cap;
        assert base + b == l * cap + (base + b) % cap;
      }
      Multiples(k - l, cap);
    }
  }
}
