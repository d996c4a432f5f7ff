/** Whole runs of complete writes and reads on one ring: refinement of the FIFO, the exact effect
    of a prefix that crosses the end of the data area, and the oversized-head trap. */
module RingRuns {
  import opened LittleEndian
  import opened Fifo
  import opened Positions
  import opened RingModel

  datatype Op = WriteOp(data: Payload) | ReadOp(bufLen: nat)
  datatype Outcome = OfWrite(w: WriteResult) | OfRead(r: ReadResult)

  function Step(r: Ring, op: Op): (r': Ring)
    requires WellFormed(r)
    ensures WellFormed(r') && r'.cap == r.cap
  {
    match op
    case WriteOp(data) => Write(r, data)
    case ReadOp(n) => Read(r, n)
  }

  function Run(r: Ring, ops: seq<Op>): (r': Ring)
    requires WellFormed(r)
    ensures WellFormed(r') && r'.cap == r.cap
    decreases |ops|
  {
    if ops == [] then r else Run(Step(r, ops[0]), ops[1..])
  }

  function Outcomes(r: Ring, ops: seq<Op>): seq<Outcome>
    requires WellFormed(r)
    decreases |ops|
  {
    if ops == [] then []
    else
      var o := match ops[0] case WriteOp(d) => OfWrite(WriteOutcome(r, d)) case ReadOp(n) => OfRead(ReadOutcome(r, n));
      [o] + Outcomes(Step(r, ops[0]), ops[1..])
  }

  // ---------- the same run on the specification ----------

  function FifoStep(cap: nat, q: seq<Payload>, op: Op): seq<Payload> {
    match op
    case WriteOp(data) => Put(cap, q, data)
    case ReadOp(n) => Get(q, n)
  }

  function FifoRun(cap: nat, q: seq<Payload>, ops: seq<Op>): seq<Payload>
    decreases |ops|
  {
    if ops == [] then q else FifoRun(cap, FifoStep(cap, q, ops[0]), ops[1..])
  }

  function FifoOutcomes(cap: nat, q: seq<Payload>, ops: seq<Op>): seq<Outcome>
    decreases |ops|
  {
    if ops == [] then []
    else
      var o := match ops[0]
        case WriteOp(d) => OfWrite(if Fits(cap, q, d) then Written(|d|) else BufferFull)
        case ReadOp(n) => OfRead(Peek(q, n));
      [o] + FifoOutcomes(cap, FifoStep(cap, q, ops[0]), ops[1..])
  }

  /** Every accepted write of the run stores a prefix the reader will gather. */
  ghost predicate LandsThroughout(r: Ring, ops: seq<Op>)
    requires WellFormed(r)
    decreases |ops|
  {
    ops == [] ||
    ((ops[0].WriteOp? && Accepts(r, ops[0].data) ==> PrefixLands(r, ops[0].data) && |ops[0].data| < U32) &&
     LandsThroughout(Step(r, ops[0]), ops[1..]))
  }

  lemma {:induction false} RunRefinesFifo(r: Ring, q: seq<Payload>, ops: seq<Op>)
    requires Represents(r, q) && LandsThroughout(r, ops)
    ensures Represents(Run(r, ops), FifoRun(r.cap, q, ops))
    ensures Outcomes(r, ops) == FifoOutcomes(r.cap, q, ops)
    decreases |ops|
  {
    if ops != [] {
      match ops[0] {
        case WriteOp(data) => SpaceAccounting(r, q, data); WriteRefinesPut(r, q, data);
        case ReadOp(n) => ReadRefinesGet(r, q, n);
      }
      RunRefinesFifo(Step(r, ops[0]), FifoStep(r.cap, q, ops[0]), ops[1..]);
    }
  }

  // ---------- four-byte alignment removes the side condition ----------

  predicate AlignedWrites(ops: seq<Op>) {
    forall op :: op in ops && op.WriteOp? ==> |op.data| % 4 == 0
  }

  lemma AlignedStep(r: Ring, op: Op)
    requires WellFormed(r) && r.cap % 4 == 0 && r.wp % 4 == 0 && r.cap <= U32
    requires op.WriteOp? ==> |op.data| % 4 == 0
    ensures Step(r, op).wp % 4 == 0
    ensures op.WriteOp? ==> r.wp + PREFIX <= r.cap && PrefixLands(r, op.data)
    ensures op.WriteOp? && Accepts(r, op.data) ==> |op.data| < U32
  {
    assert r.wp + PREFIX <= r.cap by { assert r.cap - r.wp > 0; }
    if op.WriteOp? && Accepts(r, op.data) {
      WrapAligned(r.wp + PREFIX + |op.data|, r.cap);
    }
  }

  lemma WrapAligned(x: nat, cap: nat)
    requires x % 4 == 0 && cap % 4 == 0
    ensures x < 2 * cap ==> Wrap(x, cap) % 4 == 0
  {}

  /** With a capacity that is a multiple of four and payloads that are too, the ring is a FIFO on
      every run, with no condition on positions. */
  lemma {:induction false} AlignedRunIsFifo(r: Ring, q: seq<Payload>, ops: seq<Op>)
    requires Represents(r, q) && r.cap % 4 == 0 && r.wp % 4 == 0 && r.cap <= U32
    requires AlignedWrites(ops)
    ensures LandsThroughout(r, ops)
    ensures Run(r, ops).wp % 4 == 0
    ensures Represents(Run(r, ops), FifoRun(r.cap, q, ops))
    ensures Outcomes(r, ops) == FifoOutcomes(r.cap, q, ops)
    decreases |ops|
  {
    if ops != [] {
      assert ops[0] in ops;
      AlignedStep(r, ops[0]);
      match ops[0] {
        case WriteOp(data) => SpaceAccounting(r, q, data); WriteRefinesPut(r, q, data);
        case ReadOp(n) => ReadRefinesGet(r, q, n);
      }
      assert AlignedWrites(ops[1..]) by { assert forall op :: op in ops[1..] ==> op in ops; }
      AlignedRunIsFifo(Step(r, ops[0]), FifoStep(r.cap, q, ops[0]), ops[1..]);
    }
  }

  // ---------- the prefix that crosses the end ----------

  /** The ring as the reader meets the record written at `r.wp`, all earlier records consumed. */
  function AtRecord(r: Ring, data: Payload): (r': Ring)
    requires WellFormed(r) && Accepts(r, data)
    ensures WellFormed(r') && r'.cap == r.cap
  {
    Write(r, data).(rp := r.wp)
  }

  lemma DecodedAtRecord(r: Ring, data: Payload)
    requires WellFormed(r) && Accepts(r, data)
    ensures DecodedLength(AtRecord(r, data)) == FromLe(GatheredPrefix(r, data))
  {
    WriteStoresPrefix(r, data);
  }

  /** With only k in {1, 2, 3} cells left at `wp`, the reader takes the low k bytes of the length
      from the record and the high bytes from whatever cells 0..4-k held before. */
  lemma BoundaryDecoding(r: Ring, data: Payload)
    requires WellFormed(r) && Accepts(r, data) && r.wp + PREFIX > r.cap
    ensures var k := r.cap - r.wp;
      DecodedLength(AtRecord(r, data)) == |data| % Pow256(k) + Pow256(k) * FromLe(r.mem[..PREFIX - k])
  {
    var k := r.cap - r.wp;
    DecodedAtRecord(r, data);
    EncodePrefix(|data|, PREFIX, k);
    DecodeEncode(|data|, k);
    DecodeAppend(PrefixOf(data)[..k], r.mem[..PREFIX - k]);
  }

  lemma GatheredIsLength(r: Ring, data: Payload)
    requires WellFormed(r)
    ensures FromLe(GatheredPrefix(r, data)) == |data| <==> PrefixLands(r, data) && |data| < U32
  {
    LandsMeansGathered(r, data);
    DecodeEncode(|data|, PREFIX);
    DecodeBound(GatheredPrefix(r, data));
    EncodeDecode(GatheredPrefix(r, data));
    PowersUsed();
  }

  /** A record survives the round trip exactly when its prefix fits before the end, or the cells
      the prefix should have wrapped to already held its high bytes (and its length is a u32). */
  lemma RecordRoundTrip(r: Ring, data: Payload, bufLen: nat)
    requires WellFormed(r) && Accepts(r, data) && |data| <= bufLen
    ensures ReadOutcome(AtRecord(r, data), bufLen) == Got(data) <==> PrefixLands(r, data) && |data| < U32
  {
    DecodedAtRecord(r, data);
    GatheredIsLength(r, data);
    WriteStoresPayload(r, data);
    CopyOutIsCells(AtRecord(r, data), |data|);
  }

  /** A zeroed 16-cell ring as the header initialises it. */
  function FreshRing(): (r: Ring)
    ensures WellFormed(r)
  {
    Ring(16, seq<Byte>(16 + SLACK, _ => 0), 0, 0)
  }

  const TEN_NINES: Payload := [9, 9, 9, 9, 9, 9, 9, 9, 9, 9]

  /** One ten-byte record written and read leaves two cells before the end and its own length in the
      first cell. */
  lemma TenNinesWritten()
    ensures var r := Write(FreshRing(), TEN_NINES);
      Represents(r, [TEN_NINES]) && r.wp == 14 && r.mem[0] == 10
  {
    var r0 := FreshRing();
    assert Flat([]) == [] && Represents(r0, []);
    WriteRefinesPut(r0, [], TEN_NINES);
    WriteStoresPrefix(r0, TEN_NINES);
    assert [] + [TEN_NINES] == [TEN_NINES];
    assert Cells(Write(r0, TEN_NINES).mem, 16, 0, PREFIX)[0] == ToLe(10, 4)[0] == 10;
  }

  lemma TenNinesPassed()
    ensures var r := Run(FreshRing(), [WriteOp(TEN_NINES), ReadOp(65536)]);
      Represents(r, []) && r.wp == r.rp == 14 && r.cap == 16 && r.mem[0] == 10
  {
    var r0, ops := FreshRing(), [WriteOp(TEN_NINES), ReadOp(65536)];
    var r1 := Write(r0, TEN_NINES);
    TenNinesWritten();
    ReadRefinesGet(r1, [TEN_NINES], 65536);
    assert [TEN_NINES][1..] == [] && Flat([]) == [];
    assert ops[1..] == [ReadOp(65536)] && ops[1..][1..] == [];
    assert Run(r0, ops) == Run(r1, ops[1..]) == Read(r1, 65536);
  }

  /** From a fresh ring that record and the three-byte record written next, which does not come back. */
  lemma CrossingPrefixCorrupts()
    ensures var r := Run(FreshRing(), [WriteOp(TEN_NINES), ReadOp(65536)]);
      && Represents(r, []) && Accepts(r, [1, 2, 3])
      && ReadOutcome(Write(r, [1, 2, 3]), 65536) != Got([1, 2, 3])
  {
    var r := Run(FreshRing(), [WriteOp(TEN_NINES), ReadOp(65536)]);
    var data: Payload := [1, 2, 3];
    TenNinesPassed();
    assert r.mem[..2][0] == 10;
    assert PrefixOf(data)[2..][0] == PrefixOf(data)[2] == ToLe(3, 4)[2] == ToLe(0, 2)[0] == 0;
    RecordRoundTrip(r, data, 65536);
  }

  // ---------- the oversized head ----------

  /** The oldest record is longer than the reader's buffer. */
  predicate StuckHead(r: Ring, bufLen: nat) {
    WellFormed(r) && PREFIX <= Used(r) && bufLen < DecodedLength(r)
  }

  function AcceptedBytes(r: Ring, ops: seq<Op>): nat
    requires WellFormed(r)
    decreases |ops|
  {
    if ops == [] then 0
    else
      (if ops[0].WriteOp? && Accepts(r, ops[0].data) then PREFIX + |ops[0].data| else 0)
      + AcceptedBytes(Step(r, ops[0]), ops[1..])
  }

  predicate OnlyBuffer(ops: seq<Op>, bufLen: nat) {
    forall op :: op in ops && op.ReadOp? ==> op.bufLen == bufLen
  }

  lemma StuckStep(r: Ring, op: Op, bufLen: nat)
    requires StuckHead(r, bufLen) && (op.ReadOp? ==> op.bufLen == bufLen)
    ensures StuckHead(Step(r, op), bufLen) && Step(r, op).rp == r.rp
    ensures Used(Step(r, op)) == Used(r) +
      if op.WriteOp? && Accepts(r, op.data) then PREFIX + |op.data| else 0
  {
    if op.WriteOp? && Accepts(r, op.data) {
      WriteKeepsOldCells(r, op.data);
      CellsFrame(r.mem, Write(r, op.data).mem, r.cap, r.rp, PREFIX);
    }
  }

  /** Once the head exceeds the buffer, no run of writes and reads with that buffer moves `rp` or
      delivers anything, and all bytes ever accepted fit the space that was free. This needs no
      condition on prefixes. */
  lemma {:induction false} OversizedHeadIsStable(r: Ring, ops: seq<Op>, bufLen: nat)
    requires StuckHead(r, bufLen) && OnlyBuffer(ops, bufLen)
    ensures StuckHead(Run(r, ops), bufLen) && Run(r, ops).rp == r.rp
    ensures forall o :: o in Outcomes(r, ops) && o.OfRead? ==> o.r == InvalidState
    ensures Used(Run(r, ops)) == Used(r) + AcceptedBytes(r, ops)
    ensures AcceptedBytes(r, ops) <= Available(r.cap, r.wp, r.rp)
    decreases |ops|
  {
    if ops != [] {
      assert ops[0] in ops;
      StuckStep(r, ops[0], bufLen);
      assert OnlyBuffer(ops[1..], bufLen) by { assert forall op :: op in ops[1..] ==> op in ops; }
      OversizedHeadIsStable(Step(r, ops[0]), ops[1..], bufLen);
    }
  }

  lemma LongHeadIsStuck(r: Ring, q: seq<Payload>, bufLen: nat)
    requires Represents(r, q) && q != [] && bufLen < |q[0]|
    ensures StuckHead(r, bufLen)
  {
    HeadLength(r, q);
  }

  // ---------- what a given memory decodes to ----------

  /** All records a reader would find from `rp` to `wp`, parsed from the bytes alone. */
  function Decoded(r: Ring): seq<Payload>
    requires WellFormed(r)
    decreases Used(r)
  {
    if Used(r) < PREFIX + DecodedLength(r) then []
    else
      [Cells(r.mem, r.cap, Wrap(r.rp + PREFIX, r.cap), DecodedLength(r))]
      + Decoded(r.(rp := Wrap(r.rp + PREFIX + DecodedLength(r), r.cap)))
  }

  lemma {:induction false} DecodedIsUnique(r: Ring, q: seq<Payload>)
    requires Represents(r, q)
    ensures Decoded(r) == q
    decreases |q|
  {
    if q == [] {
      assert Used(r) == 0;
    } else {
      HeadCells(r, q);
      HeadLength(r, q);
      HeadReleased(r, q);
      DecodedIsUnique(r.(rp := Wrap(r.rp + PREFIX + |q[0]|, r.cap)), q[1..]);
    }
  }
}
