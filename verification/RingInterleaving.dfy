/** One writer and one reader on a ring, interleaving between every load, every byte copied and
    every publishing store. Bytes of one copy may go in any order, which covers every order a
    `copy_nonoverlapping` may choose. Atomics are sequentially consistent. */
module RingInterleaving {
  import opened LittleEndian
  import opened Fifo
  import opened Positions
  import opened RingModel
  import opened RingRuns

  /** The writer between taking and releasing its lock. */
  datatype Writer =
    | WriterIdle
    | WriterLocked(data: Payload)
    | HasWritePos(data: Payload, w: nat)
    | HasPositions(data: Payload, w: nat, r: nat)
    | Copying(data: Payload, w: nat, done: set<nat>)

  /** The reader between taking and releasing its lock; `got` maps offsets to bytes read so far. */
  datatype Reader =
    | ReaderIdle
    | ReaderLocked(bufLen: nat)
    | SawWritePos(bufLen: nat, w: nat)
    | SawPositions(bufLen: nat, w: nat, r: nat)
    | GatheringPrefix(bufLen: nat, r: nat, got: map<nat, Byte>)
    | GatheringPayload(bufLen: nat, r: nat, len: nat, got: map<nat, Byte>)

  /** `accepted` lists the payloads whose write published, `delivered` those whose read published. */
  datatype State = State(ring: Ring, writer: Writer, reader: Reader,
                         accepted: seq<Payload>, delivered: seq<Payload>)

  datatype Action =
    | LockWrite(data: Payload) | LoadWritePos | LoadReadPos | CheckSpace | StoreByte(j: nat) | PublishWrite
    | LockRead(bufLen: nat) | SeeWritePos | SeeReadPos | CheckEmpty | LoadPrefixByte(i: nat) | CheckLength
    | LoadPayloadByte(i: nat) | PublishRead

  /** The cell that byte `j` of a record starting at `w` is stored to. */
  function StoreCell(cap: nat, w: nat, j: nat): nat {
    if j < PREFIX then w + j else Wrap(w + j, cap)
  }

  function LoadCell(cap: nat, r: nat, i: nat): nat
    requires cap > 0
  {
    (r + i) % cap
  }

  function PrefixGot(got: map<nat, Byte>): seq<Byte>
    requires forall i: nat :: i < PREFIX ==> i in got
  {
    [got[0], got[1], got[2], got[3]]
  }

  predicate Enabled(s: State, a: Action)
    requires WellFormed(s.ring)
  {
    match a
    case LockWrite(_) => s.writer.WriterIdle?
    case LoadWritePos => s.writer.WriterLocked?
    case LoadReadPos => s.writer.HasWritePos?
    case CheckSpace => s.writer.HasPositions? && s.writer.w < s.ring.cap && s.writer.r < s.ring.cap
    case StoreByte(j) => s.writer.Copying? && j < PREFIX + |s.writer.data| && j !in s.writer.done
                         && StoreCell(s.ring.cap, s.writer.w, j) < |s.ring.mem|
    case PublishWrite => s.writer.Copying? && forall j: nat :: j < PREFIX + |s.writer.data| ==> j in s.writer.done
    case LockRead(_) => s.reader.ReaderIdle?
    case SeeWritePos => s.reader.ReaderLocked?
    case SeeReadPos => s.reader.SawWritePos?
    case CheckEmpty => s.reader.SawPositions?
    case LoadPrefixByte(i) => s.reader.GatheringPrefix? && i < PREFIX && i !in s.reader.got
    case CheckLength => s.reader.GatheringPrefix? && forall i: nat :: i < PREFIX ==> i in s.reader.got
    case LoadPayloadByte(i) => s.reader.GatheringPayload? && i < s.reader.len && i !in s.reader.got
    case PublishRead => s.reader.GatheringPayload? && forall i: nat :: i < s.reader.len ==> i in s.reader.got
  }

  predicate WriterAction(a: Action) {
    a.LockWrite? || a.LoadWritePos? || a.LoadReadPos? || a.CheckSpace? || a.StoreByte? || a.PublishWrite?
  }

  function NextWriter(s: State, a: Action): (s': State)
    requires WellFormed(s.ring) && Enabled(s, a) && WriterAction(a)
    ensures WellFormed(s'.ring) && s'.ring.cap == s.ring.cap && s'.ring.rp == s.ring.rp && s'.reader == s.reader
  {
    var cap, w := s.ring.cap, s.writer;
    match a
    case LockWrite(data) => s.(writer := WriterLocked(data))
    case LoadWritePos => s.(writer := HasWritePos(w.data, s.ring.wp))
    case LoadReadPos => s.(writer := HasPositions(w.data, w.w, s.ring.rp))
    case CheckSpace =>
      if Available(cap, w.w, w.r) < PREFIX + |w.data|
      then s.(writer := WriterIdle)
      else s.(writer := Copying(w.data, w.w, {}))
    case StoreByte(j) =>
      s.(ring := s.ring.(mem := s.ring.mem[StoreCell(cap, w.w, j) := Record(w.data)[j]]),
         writer := Copying(w.data, w.w, w.done + {j}))
    case PublishWrite =>
      s.(ring := s.ring.(wp := (w.w + PREFIX + |w.data|) % cap),
         writer := WriterIdle, accepted := s.accepted + [w.data])
  }

  function NextReader(s: State, a: Action): (s': State)
    requires WellFormed(s.ring) && Enabled(s, a) && !WriterAction(a)
    ensures WellFormed(s'.ring) && s'.ring.cap == s.ring.cap
    ensures s'.ring.mem == s.ring.mem && s'.ring.wp == s.ring.wp && s'.writer == s.writer
  {
    var cap, r := s.ring.cap, s.reader;
    match a
    case LockRead(n) => s.(reader := ReaderLocked(n))
    case SeeWritePos => s.(reader := SawWritePos(r.bufLen, s.ring.wp))
    case SeeReadPos => s.(reader := SawPositions(r.bufLen, r.w, s.ring.rp))
    case CheckEmpty =>
      if r.w == r.r then s.(reader := ReaderIdle) else s.(reader := GatheringPrefix(r.bufLen, r.r, map[]))
    case LoadPrefixByte(i) =>
      s.(reader := GatheringPrefix(r.bufLen, r.r, r.got[i := s.ring.mem[LoadCell(cap, r.r, i)]]))
    case CheckLength =>
      var len := FromLe(PrefixGot(r.got));
      if r.bufLen < len then s.(reader := ReaderIdle) else s.(reader := GatheringPayload(r.bufLen, r.r, len, map[]))
    case LoadPayloadByte(i) =>
      s.(reader := GatheringPayload(r.bufLen, r.r, r.len, r.got[i := s.ring.mem[LoadCell(cap, r.r, PREFIX + i)]]))
    case PublishRead =>
      s.(ring := s.ring.(rp := (r.r + PREFIX + r.len) % cap),
         reader := ReaderIdle,
         delivered := s.delivered + [seq(r.len, i requires 0 <= i < r.len => r.got[i])])
  }

  /** The state after action `a`; an action that is not enabled leaves it alone. */
  function Next(s: State, a: Action): (s': State)
    requires WellFormed(s.ring)
    ensures WellFormed(s'.ring) && s'.ring.cap == s.ring.cap
  {
    if !Enabled(s, a) then s
    else if WriterAction(a) then NextWriter(s, a)
    else NextReader(s, a)
  }

  function Exec(s: State, acts: seq<Action>): (s': State)
    requires WellFormed(s.ring)
    ensures WellFormed(s'.ring) && s'.ring.cap == s.ring.cap
    decreases |acts|
  {
    if acts == [] then s else Exec(Next(s, acts[0]), acts[1..])
  }

  // ---------- invariant ----------

  /** Published and not yet released. */
  function Queue(s: State): seq<Payload>
    requires |s.delivered| <= |s.accepted|
  {
    s.accepted[|s.delivered|..]
  }

  /** A write in progress starts where its prefix fits. */
  predicate PrefixFits(s: State) {
    s.writer.Copying? ==> s.writer.w + PREFIX <= s.ring.cap
  }

  ghost predicate WriterInv(ring: Ring, w: Writer, q: seq<Payload>)
    requires WellFormed(ring)
  {
    match w
    case WriterIdle => true
    case WriterLocked(_) => true
    case HasWritePos(_, w) => w == ring.wp
    case HasPositions(_, w, r) => w == ring.wp && r < ring.cap && Cost(q) <= Ahead(ring.cap, r, w)
    case Copying(data, w, done) =>
      && w == ring.wp
      && Cost(q) + PREFIX + |data| < ring.cap
      && forall j :: j in done ==> j < PREFIX + |data| && ring.mem[Wrap(w + j, ring.cap)] == Record(data)[j]
  }

  ghost predicate ReaderInv(ring: Ring, r: Reader, q: seq<Payload>)
    requires WellFormed(ring)
  {
    match r
    case ReaderIdle => true
    case ReaderLocked(_) => true
    case SawWritePos(_, w) => w != ring.rp ==> q != []
    case SawPositions(_, w, r) => r == ring.rp && (w != ring.rp ==> q != [])
    case GatheringPrefix(_, r, got) =>
      r == ring.rp && q != [] && forall i :: i in got ==> i < PREFIX && got[i] == PrefixOf(q[0])[i]
    case GatheringPayload(bufLen, r, len, got) =>
      r == ring.rp && q != [] && len == |q[0]| <= bufLen && forall i :: i in got ==> i < len && got[i] == q[0][i]
  }

  ghost predicate Inv(s: State) {
    && s.delivered <= s.accepted
    && s.ring.cap <= U32
    && Represents(s.ring, Queue(s))
    && WriterInv(s.ring, s.writer, Queue(s))
    && ReaderInv(s.ring, s.reader, Queue(s))
  }

  // ---------- memory safety of each step ----------

  /** A byte the writer stores never lies inside an unreleased record, whatever the reader has
      released since the writer loaded `read_pos`. Whether the prefix of the record being stored
      fits does not matter for this step; the invariant speaks of the steps before it. */
  lemma StoreAvoidsUnreleased(s: State, j: nat)
    requires Inv(s) && Enabled(s, StoreByte(j))
    ensures var c := StoreCell(s.ring.cap, s.writer.w, j);
      c < s.ring.cap ==> Ahead(s.ring.cap, s.ring.rp, c) >= Used(s.ring)
  {}

  /** A byte the reader loads always lies inside the published, unreleased head record. */
  lemma LoadStaysInPublished(s: State, a: Action)
    requires Inv(s) && Enabled(s, a) && (a.LoadPrefixByte? || a.LoadPayloadByte?)
    ensures var c := LoadCell(s.ring.cap, s.reader.r, if a.LoadPrefixByte? then a.i else PREFIX + a.i);
      Ahead(s.ring.cap, s.ring.rp, c) < PREFIX + |Queue(s)[0]| <= Used(s.ring)
  {
    var i := if a.LoadPrefixByte? then a.i else PREFIX + a.i;
    WrapIsMod(s.reader.r + i, s.ring.cap);
  }

  /** A write is rejected iff its record did not fit at the moment `read_pos` was loaded, whatever
      the reader releases before the writer decides. */
  lemma RejectionIsExactAtTheLoad(s: State, between: Ring)
    requires Inv(s) && s.writer.HasWritePos?
    requires WellFormed(between) && between.cap == s.ring.cap
    ensures var loaded := Next(s, LoadReadPos).(ring := between);
      Next(loaded, CheckSpace).writer.WriterIdle? <==> !Fits(s.ring.cap, Queue(s), s.writer.data)
  {
    SpaceAccounting(s.ring, Queue(s), s.writer.data);
  }

  /** A read reports an empty buffer iff the queue was empty at the moment `write_pos` was loaded,
      whatever the writer publishes before the reader loads `read_pos` and decides. */
  lemma EmptinessIsExactAtTheLoad(s: State, between: Ring)
    requires Inv(s) && s.reader.ReaderLocked?
    requires WellFormed(between) && between.rp == s.ring.rp
    ensures var seen := Next(s, SeeWritePos).(ring := between);
      Next(Next(seen, SeeReadPos), CheckEmpty).reader.ReaderIdle? <==> Queue(s) == []
  {
    SpaceAccounting(s.ring, Queue(s), []);
  }

  // ---------- every step keeps the invariant ----------

  /** Storing a free cell leaves the represented queue alone. */
  lemma StoreOutside(ring: Ring, q: seq<Payload>, c: nat, b: Byte)
    requires Represents(ring, q) && c < |ring.mem|
    requires c < ring.cap ==> Ahead(ring.cap, ring.rp, c) >= Cost(q)
    ensures Represents(ring.(mem := ring.mem[c := b]), q)
  {
    CellsFrame(ring.mem, ring.mem[c := b], ring.cap, ring.rp, Cost(q));
  }

  lemma StoreByteDone(ring: Ring, w: Writer, j: nat, q: seq<Payload>)
    requires WellFormed(ring) && w.Copying? && WriterInv(ring, w, q)
    requires j < PREFIX + |w.data|
    ensures var c := Wrap(w.w + j, ring.cap);
      WriterInv(ring.(mem := ring.mem[c := Record(w.data)[j]]), Copying(w.data, w.w, w.done + {j}), q)
  {
    assert forall k :: k in w.done && k != j ==> Wrap(w.w + k, ring.cap) != Wrap(w.w + j, ring.cap);
  }

  lemma ReaderInvFrame(ring: Ring, ring': Ring, r: Reader, q: seq<Payload>)
    requires WellFormed(ring) && WellFormed(ring') && ring'.rp == ring.rp
    requires ReaderInv(ring, r, q)
    ensures ReaderInv(ring', r, q)
  {}

  lemma StoreBytePart(ring: Ring, w: Writer, j: nat, q: seq<Payload>)
    requires Represents(ring, q) && w.Copying? && WriterInv(ring, w, q)
    requires j < PREFIX + |w.data|
    ensures var c := Wrap(w.w + j, ring.cap);
      && c < ring.cap
      && Represents(ring.(mem := ring.mem[c := Record(w.data)[j]]), q)
  {
    var c := Wrap(w.w + j, ring.cap);
    assert Ahead(ring.cap, ring.rp, c) >= Cost(q);
    StoreOutside(ring, q, c, Record(w.data)[j]);
  }

  lemma StoreByteKeepsInv(s: State, j: nat)
    requires Inv(s) && PrefixFits(s) && Enabled(s, StoreByte(j))
    ensures Inv(Next(s, StoreByte(j)))
  {
    var w, c := s.writer, Wrap(s.writer.w + j, s.ring.cap);
    var ring' := s.ring.(mem := s.ring.mem[c := Record(w.data)[j]]);
    StoreBytePart(s.ring, w, j, Queue(s));
    StoreByteDone(s.ring, w, j, Queue(s));
    ReaderInvFrame(s.ring, ring', s.reader, Queue(s));
    assert StoreCell(s.ring.cap, w.w, j) == c;
    assert Next(s, StoreByte(j)) == s.(ring := ring', writer := Copying(w.data, w.w, w.done + {j}));
  }

  /** A completely copied record joins the queue when the write position moves past it. */
  lemma PublishWritePart(ring: Ring, w: Writer, q: seq<Payload>)
    requires Represents(ring, q) && ring.cap <= U32 && w.Copying? && WriterInv(ring, w, q)
    requires forall j: nat :: j < PREFIX + |w.data| ==> j in w.done
    ensures (w.w + PREFIX + |w.data|) % ring.cap < ring.cap
    ensures Represents(ring.(wp := (w.w + PREFIX + |w.data|) % ring.cap), q + [w.data])
  {
    var n := PREFIX + |w.data|;
    WrapIsMod(w.w + n, ring.cap);
    assert Cells(ring.mem, ring.cap, ring.wp, n) == Record(w.data);
    FlatAppend(q, w.data);
    ShortAppend(q, w.data);
    SpellsAppend(ring, ring.(wp := Wrap(w.w + n, ring.cap)), Flat(q), Record(w.data));
  }

  lemma PublishWriteKeepsInv(s: State)
    requires Inv(s) && PrefixFits(s) && Enabled(s, PublishWrite)
    ensures Inv(Next(s, PublishWrite))
  {
    var s', q := Next(s, PublishWrite), Queue(s);
    PublishWritePart(s.ring, s.writer, q);
    assert Queue(s') == q + [s.writer.data];
    assert s.reader.GatheringPrefix? || s.reader.GatheringPayload? ==> Queue(s')[0] == q[0];
  }

  /** Releasing a record only widens the space a writer in progress relies on. */
  lemma WriterInvSurvivesRelease(ring: Ring, w: Writer, q: seq<Payload>, rp: nat)
    requires WellFormed(ring) && WriterInv(ring, w, q) && q != [] && rp < ring.cap
    ensures WriterInv(ring.(rp := rp), w, q[1..])
  {
    assert Cost(q[1..]) <= Cost(q);
  }

  lemma GotWhole(got: map<nat, Byte>, d: Payload)
    requires forall i: nat :: i < |d| ==> i in got
    requires forall i :: i in got ==> i < |d| && got[i] == d[i]
    ensures seq(|d|, i requires 0 <= i < |d| => got[i]) == d
  {}

  lemma HeadDelivered(s: State)
    requires Inv(s) && Enabled(s, PublishRead)
    ensures Next(s, PublishRead).delivered == s.delivered + [Queue(s)[0]]
    ensures Next(s, PublishRead).ring == s.ring.(rp := Wrap(s.ring.rp + PREFIX + |Queue(s)[0]|, s.ring.cap))
  {
    HeadCells(s.ring, Queue(s));
    WrapIsMod(s.ring.rp + PREFIX + s.reader.len, s.ring.cap);
    GotWhole(s.reader.got, Queue(s)[0]);
  }

  lemma PublishReadKeepsInv(s: State)
    requires Inv(s) && Enabled(s, PublishRead)
    ensures Inv(Next(s, PublishRead))
    ensures Next(s, PublishRead).delivered == s.delivered + [Queue(s)[0]]
  {
    var s', q := Next(s, PublishRead), Queue(s);
    HeadDelivered(s);
    HeadReleased(s.ring, q);
    WriterInvSurvivesRelease(s.ring, s.writer, q, s'.ring.rp);
    assert Queue(s') == q[1..];
  }

  lemma LoadPrefixByteKeepsInv(s: State, i: nat)
    requires Inv(s) && Enabled(s, LoadPrefixByte(i))
    ensures Inv(Next(s, LoadPrefixByte(i)))
  {
    WrapIsMod(s.reader.r + i, s.ring.cap);
    HeadByte(s.ring, Queue(s), i);
  }

  lemma LoadPayloadBytePart(ring: Ring, r: Reader, i: nat, q: seq<Payload>)
    requires Represents(ring, q) && r.GatheringPayload? && ReaderInv(ring, r, q) && i < r.len
    ensures ring.mem[LoadCell(ring.cap, r.r, PREFIX + i)] == q[0][i]
    ensures LoadCell(ring.cap, r.r, PREFIX + i) < ring.cap
  {
    FlatHead(q);
    WrapIsMod(r.r + PREFIX + i, ring.cap);
    HeadByte(ring, q, PREFIX + i);
  }

  lemma LoadPayloadByteKeepsInv(s: State, i: nat)
    requires Inv(s) && Enabled(s, LoadPayloadByte(i))
    ensures Inv(Next(s, LoadPayloadByte(i)))
  {
    LoadPayloadBytePart(s.ring, s.reader, i, Queue(s));
  }

  lemma CheckLengthKeepsInv(s: State)
    requires Inv(s) && Enabled(s, CheckLength)
    ensures Inv(Next(s, CheckLength))
  {
    var head := Queue(s)[0];
    assert PrefixGot(s.reader.got) == PrefixOf(head);
    assert head in Queue(s);
    PrefixDecodes(head);
  }

  lemma LoadReadPosKeepsInv(s: State)
    requires Inv(s) && Enabled(s, LoadReadPos)
    ensures Inv(Next(s, LoadReadPos))
  {}

  /** A stale `read_pos` only makes the writer believe in less space than there is. */
  lemma CheckSpaceKeepsInv(s: State)
    requires Inv(s) && Enabled(s, CheckSpace)
    ensures Available(s.ring.cap, s.writer.w, s.writer.r) <= Available(s.ring.cap, s.ring.wp, s.ring.rp)
    ensures Inv(Next(s, CheckSpace))
  {}

  lemma OtherStepsKeepInv(s: State, a: Action)
    requires Inv(s) && Enabled(s, a)
    requires a.LockWrite? || a.LoadWritePos? || a.LockRead? || a.SeeWritePos? || a.SeeReadPos? || a.CheckEmpty?
    ensures Inv(Next(s, a))
  {
    SpaceAccounting(s.ring, Queue(s), []);
  }

  lemma StepKeepsInv(s: State, a: Action)
    requires Inv(s) && PrefixFits(s)
    ensures Inv(Next(s, a))
  {
    if Enabled(s, a) {
      match a {
        case StoreByte(j) => StoreByteKeepsInv(s, j);
        case PublishWrite => PublishWriteKeepsInv(s);
        case LoadPrefixByte(i) => LoadPrefixByteKeepsInv(s, i);
        case CheckLength => CheckLengthKeepsInv(s);
        case LoadPayloadByte(i) => LoadPayloadByteKeepsInv(s, i);
        case PublishRead => PublishReadKeepsInv(s);
        case LoadReadPos => LoadReadPosKeepsInv(s);
        case CheckSpace => CheckSpaceKeepsInv(s);
        case _ => OtherStepsKeepInv(s, a);
      }
    }
  }

  // ---------- whole runs ----------

  ghost predicate FitsThroughout(s: State, acts: seq<Action>)
    requires WellFormed(s.ring)
    decreases |acts|
  {
    PrefixFits(s) && (acts != [] ==> FitsThroughout(Next(s, acts[0]), acts[1..]))
  }

  lemma DeliveredThenDecoded(s: State)
    requires Inv(s)
    ensures s.delivered + Decoded(s.ring) == s.accepted
  {
    DecodedIsUnique(s.ring, Queue(s));
    SplitAt(s.delivered, s.accepted);
  }

  lemma SplitAt(front: seq<Payload>, all: seq<Payload>)
    requires front <= all
    ensures front + all[|front|..] == all
  {}

  /** Under every interleaving in which writes start where the prefix fits, the payloads delivered
      followed by the records decodable from the bytes in memory are the payloads accepted. */
  lemma {:induction false} InterleavingIsFifo(s: State, acts: seq<Action>)
    requires Inv(s) && FitsThroughout(s, acts)
    ensures Inv(Exec(s, acts))
    ensures Exec(s, acts).delivered + Decoded(Exec(s, acts).ring) == Exec(s, acts).accepted
    decreases |acts|
  {
    if acts == [] {
      DeliveredThenDecoded(s);
    } else {
      StepKeepsInv(s, acts[0]);
      InterleavingIsFifo(Next(s, acts[0]), acts[1..]);
    }
  }

  predicate Init(s: State) {
    && WellFormed(s.ring) && s.ring.cap <= U32 && s.ring.wp == 0 && s.ring.rp == 0
    && s.writer == WriterIdle && s.reader == ReaderIdle && s.accepted == [] && s.delivered == []
  }

  lemma InitHasInv(s: State)
    requires Init(s)
    ensures Inv(s)
  {}

  predicate AlignedActions(acts: seq<Action>) {
    forall a :: a in acts && a.LockWrite? ==> |a.data| % 4 == 0
  }

  predicate AlignedState(s: State) {
    && s.ring.cap % 4 == 0 && s.ring.wp % 4 == 0
    && (!s.writer.WriterIdle? ==> |s.writer.data| % 4 == 0)
  }

  lemma AlignedStateFits(s: State)
    requires Inv(s) && AlignedState(s)
    ensures PrefixFits(s)
  {
    if s.writer.Copying? {
      assert s.ring.cap - s.ring.wp > 0;
    }
  }

  lemma AlignedPublish(cap: nat, wp: nat, n: nat)
    requires wp < cap && n % 4 == 0 && cap % 4 == 0 && wp % 4 == 0 && PREFIX + n < cap
    ensures (wp + PREFIX + n) % cap % 4 == 0
  {
    WrapIsMod(wp + PREFIX + n, cap);
  }

  lemma AlignedStateKept(s: State, a: Action)
    requires Inv(s) && AlignedState(s) && (a.LockWrite? ==> |a.data| % 4 == 0)
    ensures AlignedState(Next(s, a))
  {
    if Enabled(s, a) {
      if a.PublishWrite? {
        AlignedPublish(s.ring.cap, s.ring.wp, |s.writer.data|);
        assert Next(s, a).ring.wp == (s.ring.wp + PREFIX + |s.writer.data|) % s.ring.cap;
      } else {
        assert Next(s, a).ring.wp == s.ring.wp;
      }
    }
  }

  lemma {:induction false} AlignedFitsThroughout(s: State, acts: seq<Action>)
    requires Inv(s) && AlignedState(s) && AlignedActions(acts)
    ensures FitsThroughout(s, acts)
    decreases |acts|
  {
    AlignedStateFits(s);
    if acts != [] {
      assert acts[0] in acts;
      AlignedStateKept(s, acts[0]);
      StepKeepsInv(s, acts[0]);
      assert AlignedActions(acts[1..]) by { assert forall a :: a in acts[1..] ==> a in acts; }
      AlignedFitsThroughout(Next(s, acts[0]), acts[1..]);
    }
  }

  /** With an aligned capacity and aligned payloads no condition on positions is left. */
  lemma AlignedInterleavingIsFifo(s: State, acts: seq<Action>)
    requires Init(s) && s.ring.cap % 4 == 0 && AlignedActions(acts)
    ensures Exec(s, acts).delivered + Decoded(Exec(s, acts).ring) == Exec(s, acts).accepted
    ensures Exec(s, acts).delivered <= Exec(s, acts).accepted
  {
    InitHasInv(s);
    AlignedFitsThroughout(s, acts);
    InterleavingIsFifo(s, acts);
  }
}
