/** The writer and the reader have locks of their own, and neither waits for the other: whatever one
    side has left half done, the other can go through a whole call alone, copying its bytes in any
    order, and gets the result the FIFO gives. */
module RingProgress {
  import opened LittleEndian
  import opened Fifo
  import opened RingModel
  import opened RingRuns
  import opened RingInterleaving
  import opened RingLinearization

  /** `order` names each number below `n` once. */
  ghost predicate CoversOnce(order: seq<nat>, n: nat) {
    (forall i: nat :: i in order <==> i < n) && forall i, j :: 0 <= i < j < |order| ==> order[i] != order[j]
  }

  lemma FirstThenRest(order: seq<nat>)
    requires order != [] && forall i, j :: 0 <= i < j < |order| ==> order[i] != order[j]
    ensures order[0] in order && forall i: nat :: i in order <==> i == order[0] || i in order[1..]
    ensures order[0] !in order[1..]
  {
    assert order == [order[0]] + order[1..];
  }

  // ---------- running one side ----------

  lemma {:induction false} ExecAppend(s: State, a: seq<Action>, b: seq<Action>)
    requires WellFormed(s.ring)
    ensures Exec(s, a + b) == Exec(Exec(s, a), b)
    decreases |a|
  {
    if a == [] {
      assert a + b == b;
    } else {
      assert (a + b)[1..] == a[1..] + b;
      ExecAppend(Next(s, a[0]), a[1..], b);
    }
  }

  lemma {:induction false} ReadReturnsAppend(s: State, a: seq<Action>, b: seq<Action>)
    requires WellFormed(s.ring)
    ensures ReadReturns(s, a + b) == ReadReturns(s, a) + ReadReturns(Exec(s, a), b)
    decreases |a|
  {
    if a == [] {
      assert a + b == b;
    } else {
      assert (a + b)[1..] == a[1..] + b;
      ReadReturnsAppend(Next(s, a[0]), a[1..], b);
    }
  }

  lemma {:induction false} WriteReturnsAppend(s: State, a: seq<Action>, b: seq<Action>)
    requires WellFormed(s.ring)
    ensures WriteReturns(s, a + b) == WriteReturns(s, a) + WriteReturns(Exec(s, a), b)
    decreases |a|
  {
    if a == [] {
      assert a + b == b;
    } else {
      assert (a + b)[1..] == a[1..] + b;
      WriteReturnsAppend(Next(s, a[0]), a[1..], b);
    }
  }

  lemma RunAppend(s: State, a: seq<Action>, b: seq<Action>)
    requires WellFormed(s.ring)
    ensures Exec(s, a + b) == Exec(Exec(s, a), b)
    ensures ReadReturns(s, a + b) == ReadReturns(s, a) + ReadReturns(Exec(s, a), b)
    ensures WriteReturns(s, a + b) == WriteReturns(s, a) + WriteReturns(Exec(s, a), b)
  {
    ExecAppend(s, a, b);
    ReadReturnsAppend(s, a, b);
    WriteReturnsAppend(s, a, b);
  }

  lemma RunOne(s: State, a: Action)
    requires WellFormed(s.ring)
    ensures Exec(s, [a]) == Next(s, a)
    ensures ReadReturns(s, [a]) == ReadReturn(s, a) && WriteReturns(s, [a]) == WriteReturn(s, a)
  {
    assert [a][1..] == [];
    assert Exec(Next(s, a), []) == Next(s, a);
    assert ReadReturns(Next(s, a), []) == [] && WriteReturns(Next(s, a), []) == [];
  }

  lemma RunCons(s: State, a: Action, b: seq<Action>)
    requires WellFormed(s.ring)
    ensures Exec(s, [a] + b) == Exec(Next(s, a), b)
    ensures ReadReturns(s, [a] + b) == ReadReturn(s, a) + ReadReturns(Next(s, a), b)
    ensures WriteReturns(s, [a] + b) == WriteReturn(s, a) + WriteReturns(Next(s, a), b)
  {
    assert ([a] + b)[1..] == b;
  }

  lemma ReaderStepKeepsInv(s: State, a: Action)
    requires Inv(s) && !WriterAction(a)
    ensures Inv(Next(s, a))
  {
    if Enabled(s, a) {
      match a {
        case LoadPrefixByte(i) => LoadPrefixByteKeepsInv(s, i);
        case CheckLength => CheckLengthKeepsInv(s);
        case LoadPayloadByte(i) => LoadPayloadByteKeepsInv(s, i);
        case PublishRead => PublishReadKeepsInv(s);
        case _ => OtherStepsKeepInv(s, a);
      }
    }
  }

  // ---------- the reader ----------

  function Opening(n: nat): seq<Action> {
    [LockRead(n)] + ([SeeWritePos] + ([SeeReadPos] + [CheckEmpty]))
  }

  function PrefixLoads(order: seq<nat>): seq<Action> {
    if order == [] then [] else [LoadPrefixByte(order[0])] + PrefixLoads(order[1..])
  }

  function PayloadLoads(order: seq<nat>): seq<Action> {
    if order == [] then [] else [LoadPayloadByte(order[0])] + PayloadLoads(order[1..])
  }

  /** All steps of a read; those after it has returned are not enabled and change nothing. */
  function ReadRun(n: nat, prefixOrder: seq<nat>, order: seq<nat>): seq<Action> {
    Opening(n) + RestOfRead(prefixOrder, order)
  }

  lemma OpeningSteps(s: State, n: nat)
    requires WellFormed(s.ring) && s.reader.ReaderIdle?
    ensures var s' := if s.ring.wp == s.ring.rp then s else s.(reader := GatheringPrefix(n, s.ring.rp, map[]));
      Exec(s, Opening(n)) == s'
    ensures ReadReturns(s, Opening(n)) == if s.ring.wp == s.ring.rp then [OfRead(BufferEmpty)] else []
  {
    var s' := s.(reader := ReaderLocked(n));
    RunCons(s, LockRead(n), [SeeWritePos] + ([SeeReadPos] + [CheckEmpty]));
    assert Next(s, LockRead(n)) == s' && ReadReturn(s, LockRead(n)) == [];
    PositionSteps(s');
  }

  lemma PositionSteps(s: State)
    requires WellFormed(s.ring) && s.reader.ReaderLocked?
    ensures Exec(s, [SeeWritePos] + ([SeeReadPos] + [CheckEmpty])) == s.(reader :=
      if s.ring.wp == s.ring.rp then ReaderIdle else GatheringPrefix(s.reader.bufLen, s.ring.rp, map[]))
    ensures ReadReturns(s, [SeeWritePos] + ([SeeReadPos] + [CheckEmpty])) ==
      if s.ring.wp == s.ring.rp then [OfRead(BufferEmpty)] else []
  {
    var s' := s.(reader := SawWritePos(s.reader.bufLen, s.ring.wp));
    RunCons(s, SeeWritePos, [SeeReadPos] + [CheckEmpty]);
    assert Next(s, SeeWritePos) == s' && ReadReturn(s, SeeWritePos) == [];
    EmptinessSteps(s');
  }

  lemma EmptinessSteps(s: State)
    requires WellFormed(s.ring) && s.reader.SawWritePos?
    ensures Exec(s, [SeeReadPos] + [CheckEmpty]) == s.(reader :=
      if s.reader.w == s.ring.rp then ReaderIdle else GatheringPrefix(s.reader.bufLen, s.ring.rp, map[]))
    ensures ReadReturns(s, [SeeReadPos] + [CheckEmpty]) ==
      if s.reader.w == s.ring.rp then [OfRead(BufferEmpty)] else []
  {
    var s' := s.(reader := SawPositions(s.reader.bufLen, s.reader.w, s.ring.rp));
    RunCons(s, SeeReadPos, [CheckEmpty]);
    assert Next(s, SeeReadPos) == s' && ReadReturn(s, SeeReadPos) == [];
    RunOne(s', CheckEmpty);
  }

  lemma OpeningRead(s: State, n: nat)
    requires Inv(s) && s.reader.ReaderIdle?
    ensures Exec(s, Opening(n)) ==
      if Queue(s) == [] then s else s.(reader := GatheringPrefix(n, s.ring.rp, map[]))
    ensures ReadReturns(s, Opening(n)) == if Queue(s) == [] then [OfRead(BufferEmpty)] else []
  {
    SpaceAccounting(s.ring, Queue(s), []);
    OpeningSteps(s, n);
  }

  lemma PrefixLoadStep(s: State, i: nat)
    requires Inv(s) && s.reader.GatheringPrefix? && i < PREFIX && i !in s.reader.got
    ensures var s' := Next(s, LoadPrefixByte(i));
      && s' == s.(reader := s'.reader) && Inv(s')
      && s'.reader.GatheringPrefix? && s'.reader.bufLen == s.reader.bufLen
      && s'.reader.got.Keys == s.reader.got.Keys + {i} && ReadReturn(s, LoadPrefixByte(i)) == []
  {
    ReaderStepKeepsInv(s, LoadPrefixByte(i));
  }

  lemma PayloadLoadStep(s: State, i: nat)
    requires Inv(s) && s.reader.GatheringPayload? && i < s.reader.len && i !in s.reader.got
    ensures var s' := Next(s, LoadPayloadByte(i));
      && s' == s.(reader := s'.reader) && Inv(s')
      && s'.reader.GatheringPayload? && s'.reader.bufLen == s.reader.bufLen && s'.reader.len == s.reader.len
      && s'.reader.got.Keys == s.reader.got.Keys + {i} && ReadReturn(s, LoadPayloadByte(i)) == []
  {
    ReaderStepKeepsInv(s, LoadPayloadByte(i));
  }

  lemma {:induction false} PrefixLoadsRun(s: State, order: seq<nat>)
    requires Inv(s) && s.reader.GatheringPrefix?
    requires forall i :: i in order ==> i < PREFIX && i !in s.reader.got
    requires forall i, j :: 0 <= i < j < |order| ==> order[i] != order[j]
    ensures var s' := Exec(s, PrefixLoads(order));
      && s' == s.(reader := s'.reader) && Inv(s')
      && s'.reader.GatheringPrefix? && s'.reader.bufLen == s.reader.bufLen
      && (forall i: nat :: i in s'.reader.got <==> i in s.reader.got || i in order)
      && ReadReturns(s, PrefixLoads(order)) == []
    decreases |order|
  {
    if order != [] {
      var a := LoadPrefixByte(order[0]);
      FirstThenRest(order);
      PrefixLoadStep(s, order[0]);
      RunCons(s, a, PrefixLoads(order[1..]));
      PrefixLoadsRun(Next(s, a), order[1..]);
    }
  }

  lemma {:induction false} PayloadLoadsRun(s: State, order: seq<nat>)
    requires Inv(s) && s.reader.GatheringPayload?
    requires forall i :: i in order ==> i < s.reader.len && i !in s.reader.got
    requires forall i, j :: 0 <= i < j < |order| ==> order[i] != order[j]
    ensures var s' := Exec(s, PayloadLoads(order));
      && s' == s.(reader := s'.reader) && Inv(s')
      && s'.reader.GatheringPayload? && s'.reader.bufLen == s.reader.bufLen && s'.reader.len == s.reader.len
      && (forall i: nat :: i in s'.reader.got <==> i in s.reader.got || i in order)
      && ReadReturns(s, PayloadLoads(order)) == []
    decreases |order|
  {
    if order != [] {
      var a := LoadPayloadByte(order[0]);
      FirstThenRest(order);
      PayloadLoadStep(s, order[0]);
      RunCons(s, a, PayloadLoads(order[1..]));
      PayloadLoadsRun(Next(s, a), order[1..]);
    }
  }

  lemma PrefixIsRead(s: State, order: seq<nat>)
    requires Inv(s) && s.reader.GatheringPrefix? && s.reader.got == map[] && CoversOnce(order, PREFIX)
    ensures var s' := Exec(s, PrefixLoads(order) + [CheckLength]); var (n, len) := (s.reader.bufLen, |Queue(s)[0]|);
      && s' == s.(reader := if n < len then ReaderIdle else GatheringPayload(n, s.ring.rp, len, map[]))
      && ReadReturns(s, PrefixLoads(order) + [CheckLength]) == (if n < len then [OfRead(InvalidState)] else [])
      && Inv(s')
  {
    PrefixLoadsRun(s, order);
    RunAppend(s, PrefixLoads(order), [CheckLength]);
    var t := Exec(s, PrefixLoads(order));
    RunOne(t, CheckLength);
    CheckedLengthIsHeads(t);
    ReaderStepKeepsInv(t, CheckLength);
  }

  lemma PayloadIsRead(s: State, order: seq<nat>)
    requires Inv(s) && s.reader.GatheringPayload? && s.reader.got == map[] && CoversOnce(order, s.reader.len)
    ensures var s' := Exec(s, PayloadLoads(order) + [PublishRead]);
      && s' == s.(ring := s.ring.(rp := s'.ring.rp), reader := ReaderIdle, delivered := s'.delivered)
      && Inv(s') && Queue(s') == Queue(s)[1..]
      && ReadReturns(s, PayloadLoads(order) + [PublishRead]) == [OfRead(Got(Queue(s)[0]))]
  {
    PayloadLoadsRun(s, order);
    RunAppend(s, PayloadLoads(order), [PublishRead]);
    var t := Exec(s, PayloadLoads(order));
    RunOne(t, PublishRead);
    PublishedReadTakesHead(t);
    ReaderStepKeepsInv(t, PublishRead);
  }

  lemma {:induction false} NothingToLoad(s: State, acts: seq<Action>)
    requires WellFormed(s.ring) && s.reader.ReaderIdle?
    requires forall a :: a in acts ==> !WriterAction(a) && !a.LockRead?
    ensures Exec(s, acts) == s && ReadReturns(s, acts) == []
    decreases |acts|
  {
    if acts != [] {
      assert acts[0] in acts && forall a :: a in acts[1..] ==> a in acts;
      NothingToLoad(s, acts[1..]);
    }
  }

  lemma {:induction false} LoadsOnly(order: seq<nat>)
    ensures forall a :: a in PrefixLoads(order) + [CheckLength] ==> !WriterAction(a) && !a.LockRead?
    ensures forall a :: a in PayloadLoads(order) + [PublishRead] ==> !WriterAction(a) && !a.LockRead?
    decreases |order|
  {
    if order != [] {
      LoadsOnly(order[1..]);
    }
  }

  function RestOfRead(prefixOrder: seq<nat>, order: seq<nat>): seq<Action> {
    (PrefixLoads(prefixOrder) + [CheckLength]) + (PayloadLoads(order) + [PublishRead])
  }

  lemma ReadIsRefused(s: State, prefixOrder: seq<nat>, order: seq<nat>)
    requires Inv(s) && s.reader.GatheringPrefix? && s.reader.got == map[] && CoversOnce(prefixOrder, PREFIX)
    requires s.reader.bufLen < |Queue(s)[0]|
    ensures Exec(s, RestOfRead(prefixOrder, order)) == s.(reader := ReaderIdle)
    ensures ReadReturns(s, RestOfRead(prefixOrder, order)) == [OfRead(InvalidState)]
  {
    var first := PrefixLoads(prefixOrder) + [CheckLength];
    RunAppend(s, first, PayloadLoads(order) + [PublishRead]);
    PrefixIsRead(s, prefixOrder);
    LoadsOnly(order);
    NothingToLoad(Exec(s, first), PayloadLoads(order) + [PublishRead]);
  }

  lemma ReadIsDelivered(s: State, prefixOrder: seq<nat>, order: seq<nat>)
    requires Inv(s) && s.reader.GatheringPrefix? && s.reader.got == map[] && CoversOnce(prefixOrder, PREFIX)
    requires |Queue(s)[0]| <= s.reader.bufLen && CoversOnce(order, |Queue(s)[0]|)
    ensures var s' := Exec(s, RestOfRead(prefixOrder, order));
      && s' == s.(ring := s.ring.(rp := s'.ring.rp), reader := ReaderIdle, delivered := s'.delivered)
      && Inv(s') && Queue(s') == Queue(s)[1..]
      && ReadReturns(s, RestOfRead(prefixOrder, order)) == [OfRead(Got(Queue(s)[0]))]
  {
    var first := PrefixLoads(prefixOrder) + [CheckLength];
    RunAppend(s, first, PayloadLoads(order) + [PublishRead]);
    PrefixIsRead(s, prefixOrder);
    PayloadIsRead(Exec(s, first), order);
  }

  /** Whatever the writer is doing, a read by itself returns what the FIFO holds at its head, with its
      prefix and payload bytes loaded in any order, and leaves the writer and the memory alone. */
  lemma ReaderNeverWaits(s: State, n: nat, prefixOrder: seq<nat>, order: seq<nat>)
    requires Inv(s) && s.reader.ReaderIdle? && CoversOnce(prefixOrder, PREFIX)
    requires Peek(Queue(s), n).Got? ==> CoversOnce(order, |Queue(s)[0]|)
    ensures var run := ReadRun(n, prefixOrder, order); var s' := Exec(s, run);
      && ReadReturns(s, run) == [OfRead(Peek(Queue(s), n))]
      && Inv(s') && Queue(s') == Get(Queue(s), n)
      && s' == s.(ring := s.ring.(rp := s'.ring.rp), delivered := s'.delivered)
  {
    OpeningRead(s, n);
    RunAppend(s, Opening(n), RestOfRead(prefixOrder, order));
    var t := Exec(s, Opening(n));
    if Queue(s) == [] {
      LoadsOnly(prefixOrder);
      LoadsOnly(order);
      NothingToLoad(s, RestOfRead(prefixOrder, order));
    } else if n < |Queue(s)[0]| {
      ReadIsRefused(t, prefixOrder, order);
    } else {
      ReadIsDelivered(t, prefixOrder, order);
    }
  }

  // ---------- the writer ----------

  function Claiming(data: Payload): seq<Action> {
    [LockWrite(data)] + ([LoadWritePos] + ([LoadReadPos] + [CheckSpace]))
  }

  function Stores(order: seq<nat>): seq<Action> {
    if order == [] then [] else [StoreByte(order[0])] + Stores(order[1..])
  }

  /** All steps of a write; those after it has returned are not enabled and change nothing. */
  function WriteRun(data: Payload, order: seq<nat>): seq<Action> {
    Claiming(data) + (Stores(order) + [PublishWrite])
  }

  lemma ClaimingSteps(s: State, data: Payload)
    requires WellFormed(s.ring) && s.writer.WriterIdle?
    ensures Exec(s, Claiming(data)) ==
      if Accepts(s.ring, data) then s.(writer := Copying(data, s.ring.wp, {})) else s
    ensures WriteReturns(s, Claiming(data)) == if Accepts(s.ring, data) then [] else [OfWrite(BufferFull)]
  {
    var s1, s2 := s.(writer := WriterLocked(data)), s.(writer := HasWritePos(data, s.ring.wp));
    RunCons(s, LockWrite(data), [LoadWritePos] + ([LoadReadPos] + [CheckSpace]));
    assert Next(s, LockWrite(data)) == s1 && WriteReturn(s, LockWrite(data)) == [];
    RunCons(s1, LoadWritePos, [LoadReadPos] + [CheckSpace]);
    assert Next(s1, LoadWritePos) == s2 && WriteReturn(s1, LoadWritePos) == [];
    SpaceSteps(s2);
  }

  lemma SpaceSteps(s: State)
    requires WellFormed(s.ring) && s.writer.HasWritePos? && s.writer.w == s.ring.wp
    ensures Exec(s, [LoadReadPos] + [CheckSpace]) == s.(writer :=
      if Accepts(s.ring, s.writer.data) then Copying(s.writer.data, s.writer.w, {}) else WriterIdle)
    ensures WriteReturns(s, [LoadReadPos] + [CheckSpace]) ==
      if Accepts(s.ring, s.writer.data) then [] else [OfWrite(BufferFull)]
  {
    var s' := s.(writer := HasPositions(s.writer.data, s.writer.w, s.ring.rp));
    RunCons(s, LoadReadPos, [CheckSpace]);
    assert Next(s, LoadReadPos) == s' && WriteReturn(s, LoadReadPos) == [];
    RunOne(s', CheckSpace);
  }

  lemma ClaimingWrite(s: State, data: Payload)
    requires Inv(s) && s.writer.WriterIdle?
    ensures var fits := Fits(s.ring.cap, Queue(s), data);
      && Exec(s, Claiming(data)) == (if fits then s.(writer := Copying(data, s.ring.wp, {})) else s)
      && WriteReturns(s, Claiming(data)) == (if fits then [] else [OfWrite(BufferFull)])
      && Inv(Exec(s, Claiming(data)))
  {
    SpaceAccounting(s.ring, Queue(s), data);
    ClaimingSteps(s, data);
  }

  lemma StoreStep(s: State, j: nat)
    requires Inv(s) && PrefixFits(s) && s.writer.Copying? && j < PREFIX + |s.writer.data| && j !in s.writer.done
    ensures var s' := Next(s, StoreByte(j));
      && s' == s.(ring := s.ring.(mem := s'.ring.mem), writer := s'.writer) && Inv(s') && PrefixFits(s')
      && s'.writer == Copying(s.writer.data, s.writer.w, s.writer.done + {j}) && WriteReturn(s, StoreByte(j)) == []
  {
    StepKeepsInv(s, StoreByte(j));
  }

  lemma {:induction false} StoresRun(s: State, order: seq<nat>)
    requires Inv(s) && PrefixFits(s) && s.writer.Copying?
    requires forall j :: j in order ==> j < PREFIX + |s.writer.data| && j !in s.writer.done
    requires forall i, j :: 0 <= i < j < |order| ==> order[i] != order[j]
    ensures var s' := Exec(s, Stores(order));
      && s' == s.(ring := s.ring.(mem := s'.ring.mem), writer := s'.writer) && Inv(s') && PrefixFits(s')
      && s'.writer.Copying? && s'.writer.data == s.writer.data
      && (forall j: nat :: j in s'.writer.done <==> j in s.writer.done || j in order)
      && WriteReturns(s, Stores(order)) == []
    decreases |order|
  {
    if order != [] {
      var a := StoreByte(order[0]);
      FirstThenRest(order);
      StoreStep(s, order[0]);
      RunCons(s, a, Stores(order[1..]));
      StoresRun(Next(s, a), order[1..]);
    }
  }

  lemma CopyingFinishes(s: State, order: seq<nat>)
    requires Inv(s) && PrefixFits(s) && s.writer.Copying? && s.writer.done == {}
    requires CoversOnce(order, PREFIX + |s.writer.data|)
    ensures var s' := Exec(s, Stores(order) + [PublishWrite]);
      && s' == s.(ring := s.ring.(mem := s'.ring.mem, wp := s'.ring.wp), writer := WriterIdle,
                  accepted := s.accepted + [s.writer.data])
      && Inv(s') && Queue(s') == Queue(s) + [s.writer.data]
      && WriteReturns(s, Stores(order) + [PublishWrite]) == [OfWrite(Written(|s.writer.data|))]
  {
    StoresRun(s, order);
    RunAppend(s, Stores(order), [PublishWrite]);
    var t := Exec(s, Stores(order));
    RunOne(t, PublishWrite);
    StepKeepsInv(t, PublishWrite);
    PublishedWriteFits(t);
  }

  lemma {:induction false} NothingToStore(s: State, order: seq<nat>)
    requires WellFormed(s.ring) && s.writer.WriterIdle?
    ensures Exec(s, Stores(order) + [PublishWrite]) == s && WriteReturns(s, Stores(order) + [PublishWrite]) == []
    decreases |order|
  {
    if order == [] {
      assert Stores(order) + [PublishWrite] == [PublishWrite];
      RunOne(s, PublishWrite);
    } else {
      assert (Stores(order) + [PublishWrite])[1..] == Stores(order[1..]) + [PublishWrite];
      NothingToStore(s, order[1..]);
    }
  }

  lemma WriteIsAccepted(s: State, data: Payload, order: seq<nat>)
    requires Inv(s) && s.writer.WriterIdle? && Fits(s.ring.cap, Queue(s), data)
    requires s.ring.wp + PREFIX <= s.ring.cap && CoversOnce(order, PREFIX + |data|)
    ensures var s' := Exec(s, WriteRun(data, order));
      && WriteReturns(s, WriteRun(data, order)) == [OfWrite(Written(|data|))]
      && s' == s.(ring := s.ring.(mem := s'.ring.mem, wp := s'.ring.wp), accepted := s'.accepted)
      && Inv(s') && Queue(s') == Queue(s) + [data]
  {
    ClaimingWrite(s, data);
    RunAppend(s, Claiming(data), Stores(order) + [PublishWrite]);
    CopyingFinishes(Exec(s, Claiming(data)), order);
  }

  lemma WriteIsRefused(s: State, data: Payload, order: seq<nat>)
    requires Inv(s) && s.writer.WriterIdle? && !Fits(s.ring.cap, Queue(s), data)
    ensures Exec(s, WriteRun(data, order)) == s
    ensures WriteReturns(s, WriteRun(data, order)) == [OfWrite(BufferFull)]
  {
    ClaimingWrite(s, data);
    RunAppend(s, Claiming(data), Stores(order) + [PublishWrite]);
    NothingToStore(s, order);
  }

  /** Whatever the reader is doing, a write by itself returns what the FIFO would and, if the record
      fits, appends it, with its bytes stored in any order; it leaves the reader alone. */
  lemma WriterNeverWaits(s: State, data: Payload, order: seq<nat>)
    requires Inv(s) && s.writer.WriterIdle?
    requires Fits(s.ring.cap, Queue(s), data) ==>
      s.ring.wp + PREFIX <= s.ring.cap && CoversOnce(order, PREFIX + |data|)
    ensures var run := WriteRun(data, order); var s' := Exec(s, run); var fits := Fits(s.ring.cap, Queue(s), data);
      && WriteReturns(s, run) == [OfWrite(if fits then Written(|data|) else BufferFull)]
      && Inv(s') && Queue(s') == Put(s.ring.cap, Queue(s), data)
      && s' == s.(ring := s.ring.(mem := s'.ring.mem, wp := s'.ring.wp), accepted := s'.accepted)
  {
    if Fits(s.ring.cap, Queue(s), data) {
      WriteIsAccepted(s, data, order);
    } else {
      WriteIsRefused(s, data, order);
    }
  }

  // ---------- no step disables one of the other side ----------

  /** Whether a side can take its next step is decided by that side alone. */
  lemma SidesAreIndependent(s: State, a: Action, b: Action)
    requires Inv(s) && WriterAction(a) && !WriterAction(b)
    ensures Enabled(Next(s, b), a) <==> Enabled(s, a)
    ensures Enabled(Next(s, a), b) <==> Enabled(s, b)
  {}
}
