/** Interleaved calls behave as if each were one atomic operation on the FIFO. Every call takes effect
    at one of its own steps: an accepted write and a delivering read when they publish, a rejected
    write when it loads `read_pos`, an empty read when it loads `write_pos`, a read refused for its
    buffer when it checks the length. */
module RingLinearization {
  import opened LittleEndian
  import opened Fifo
  import opened RingModel
  import opened RingRuns
  import opened RingInterleaving

  datatype Event = Event(op: Op, outcome: Outcome)

  /** The call that takes effect at step `a`, if one does, with the result it will return. */
  function Effect(s: State, a: Action): (e: seq<Event>)
    requires WellFormed(s.ring) && |s.delivered| <= |s.accepted|
    ensures |e| <= 1
  {
    if !Enabled(s, a) then []
    else
      var q := Queue(s);
      match a
      case LoadReadPos =>
        var data := s.writer.data;
        if Fits(s.ring.cap, q, data) then [] else [Event(WriteOp(data), OfWrite(BufferFull))]
      case PublishWrite => [Event(WriteOp(s.writer.data), OfWrite(Written(|s.writer.data|)))]
      case SeeWritePos => if q == [] then [Event(ReadOp(s.reader.bufLen), OfRead(BufferEmpty))] else []
      case CheckLength =>
        if s.reader.bufLen < FromLe(PrefixGot(s.reader.got))
        then [Event(ReadOp(s.reader.bufLen), OfRead(InvalidState))] else []
      case PublishRead => [Event(ReadOp(s.reader.bufLen), OfRead(Got(Gathered(s.reader))))]
      case _ => []
  }

  function Gathered(r: Reader): Payload
    requires r.GatheringPayload? && forall i: nat :: i < r.len ==> i in r.got
  {
    seq(r.len, i requires 0 <= i < r.len => r.got[i])
  }

  /** What the writer's call returns at step `a`, if it returns there. */
  function WriteReturn(s: State, a: Action): seq<Outcome>
    requires WellFormed(s.ring)
  {
    if !Enabled(s, a) then []
    else
      match a
      case CheckSpace =>
        if Available(s.ring.cap, s.writer.w, s.writer.r) < PREFIX + |s.writer.data| then [OfWrite(BufferFull)] else []
      case PublishWrite => [OfWrite(Written(|s.writer.data|))]
      case _ => []
  }

  /** What the reader's call returns at step `a`, if it returns there. */
  function ReadReturn(s: State, a: Action): seq<Outcome>
    requires WellFormed(s.ring)
  {
    if !Enabled(s, a) then []
    else
      match a
      case CheckEmpty => if s.reader.w == s.reader.r then [OfRead(BufferEmpty)] else []
      case CheckLength => if s.reader.bufLen < FromLe(PrefixGot(s.reader.got)) then [OfRead(InvalidState)] else []
      case PublishRead => [OfRead(Got(Gathered(s.reader)))]
      case _ => []
  }

  /** A write that has taken effect, as a rejection, but not returned yet. */
  function WriteOwed(s: State): seq<Outcome> {
    if s.writer.HasPositions? && s.writer.w < s.ring.cap && s.writer.r < s.ring.cap &&
       Available(s.ring.cap, s.writer.w, s.writer.r) < PREFIX + |s.writer.data|
    then [OfWrite(BufferFull)] else []
  }

  /** A read that has taken effect, on an empty queue, but not returned yet. */
  function ReadOwed(s: State): seq<Outcome> {
    if (s.reader.SawWritePos? || s.reader.SawPositions?) && s.reader.w == s.ring.rp
    then [OfRead(BufferEmpty)] else []
  }

  function OutcomeOn(cap: nat, q: seq<Payload>, op: Op): Outcome {
    match op
    case WriteOp(d) => OfWrite(if Fits(cap, q, d) then Written(|d|) else BufferFull)
    case ReadOp(n) => OfRead(Peek(q, n))
  }

  /** A sequence of atomic queue operations from `q` to `q'`, each with the result the queue gives. */
  ghost predicate Legal(cap: nat, q: seq<Payload>, log: seq<Event>, q': seq<Payload>)
    decreases |log|
  {
    if log == [] then q' == q
    else log[0].outcome == OutcomeOn(cap, q, log[0].op) && Legal(cap, FifoStep(cap, q, log[0].op), log[1..], q')
  }

  function WriteOutcomes(log: seq<Event>): seq<Outcome> {
    if log == [] then []
    else (if log[0].op.WriteOp? then [log[0].outcome] else []) + WriteOutcomes(log[1..])
  }

  function ReadOutcomes(log: seq<Event>): seq<Outcome> {
    if log == [] then []
    else (if log[0].op.ReadOp? then [log[0].outcome] else []) + ReadOutcomes(log[1..])
  }

  // ---------- one step ----------

  lemma PublishedReadTakesHead(s: State)
    requires Inv(s) && Enabled(s, PublishRead)
    ensures Peek(Queue(s), s.reader.bufLen) == Got(Gathered(s.reader))
    ensures Queue(Next(s, PublishRead)) == Queue(s)[1..]
  {
    GotWhole(s.reader.got, Queue(s)[0]);
  }

  lemma CheckedLengthIsHeads(s: State)
    requires Inv(s) && Enabled(s, CheckLength)
    ensures FromLe(PrefixGot(s.reader.got)) == |Queue(s)[0]|
  {
    var head := Queue(s)[0];
    assert PrefixGot(s.reader.got) == PrefixOf(head);
    assert head in Queue(s);
    PrefixDecodes(head);
  }

  lemma PublishedWriteFits(s: State)
    requires Inv(s) && Enabled(s, PublishWrite)
    ensures Fits(s.ring.cap, Queue(s), s.writer.data)
    ensures Queue(Next(s, PublishWrite)) == Queue(s) + [s.writer.data]
  {}

  /** Only the publishing stores change the queue. */
  lemma QueueLeftAlone(s: State, a: Action)
    requires Inv(s) && !a.PublishWrite? && !a.PublishRead?
    ensures Queue(Next(s, a)) == Queue(s)
  {}

  /** The effect of a step is a legal queue operation, and a step without effect leaves the queue. */
  lemma EffectIsLegal(s: State, a: Action)
    requires Inv(s)
    ensures Legal(s.ring.cap, Queue(s), Effect(s, a), Queue(Next(s, a)))
  {
    if Enabled(s, a) {
      match a {
        case PublishWrite => PublishedWriteFits(s);
        case PublishRead => PublishedReadTakesHead(s);
        case CheckLength => CheckedLengthIsHeads(s);
        case _ => QueueLeftAlone(s, a);
      }
    }
  }

  /** The reader's steps leave the writer's account alone. */
  lemma ReaderStepOwesNoWrite(s: State, a: Action)
    requires Inv(s) && !WriterAction(a)
    ensures WriteOutcomes(Effect(s, a)) == [] == WriteReturn(s, a) && WriteOwed(Next(s, a)) == WriteOwed(s)
  {
    assert Effect(s, a) != [] ==> Effect(s, a)[0].op.ReadOp?;
  }

  /** The writer's steps leave the reader's account alone. */
  lemma WriterStepOwesNoRead(s: State, a: Action)
    requires Inv(s) && WriterAction(a)
    ensures ReadOutcomes(Effect(s, a)) == [] == ReadReturn(s, a) && ReadOwed(Next(s, a)) == ReadOwed(s)
  {
    assert Effect(s, a) != [] ==> Effect(s, a)[0].op.WriteOp?;
  }

  /** What has taken effect is what was returned, up to the one result each side may still owe. */
  lemma WriteEffectIsReturned(s: State, a: Action)
    requires Inv(s)
    ensures WriteOwed(s) + WriteOutcomes(Effect(s, a)) == WriteReturn(s, a) + WriteOwed(Next(s, a))
  {
    if !WriterAction(a) {
      ReaderStepOwesNoWrite(s, a);
    } else if Enabled(s, a) && a.LoadReadPos? {
      SpaceAccounting(s.ring, Queue(s), s.writer.data);
    }
  }

  lemma ReadEffectIsReturned(s: State, a: Action)
    requires Inv(s)
    ensures ReadOwed(s) + ReadOutcomes(Effect(s, a)) == ReadReturn(s, a) + ReadOwed(Next(s, a))
  {
    if WriterAction(a) {
      WriterStepOwesNoRead(s, a);
    } else {
      SpaceAccounting(s.ring, Queue(s), []);
    }
  }

  // ---------- whole runs ----------

  ghost function Log(s: State, acts: seq<Action>): seq<Event>
    requires Inv(s) && FitsThroughout(s, acts)
    decreases |acts|
  {
    if acts == [] then []
    else
      StepKeepsInv(s, acts[0]);
      Effect(s, acts[0]) + Log(Next(s, acts[0]), acts[1..])
  }

  ghost function WriteReturns(s: State, acts: seq<Action>): seq<Outcome>
    requires WellFormed(s.ring)
    decreases |acts|
  {
    if acts == [] then [] else WriteReturn(s, acts[0]) + WriteReturns(Next(s, acts[0]), acts[1..])
  }

  ghost function ReadReturns(s: State, acts: seq<Action>): seq<Outcome>
    requires WellFormed(s.ring)
    decreases |acts|
  {
    if acts == [] then [] else ReadReturn(s, acts[0]) + ReadReturns(Next(s, acts[0]), acts[1..])
  }

  lemma LegalAppend(cap: nat, q: seq<Payload>, e: seq<Event>, q': seq<Payload>, log: seq<Event>, q'': seq<Payload>)
    requires |e| <= 1 && Legal(cap, q, e, q') && Legal(cap, q', log, q'')
    ensures Legal(cap, q, e + log, q'')
    ensures WriteOutcomes(e + log) == WriteOutcomes(e) + WriteOutcomes(log)
    ensures ReadOutcomes(e + log) == ReadOutcomes(e) + ReadOutcomes(log)
  {
    if e == [] {
      assert e + log == log;
    } else {
      assert (e + log)[1..] == log && e[1..] == [];
    }
  }

  /** Every interleaving whose writes start where the prefix fits is explained by one sequence of
      atomic queue operations: the sequence is legal, leads to the final queue, and gives each side,
      in order, the results its calls returned, plus at most one result about to be returned. */
  lemma {:induction false} InterleavingIsLinearizable(s: State, acts: seq<Action>)
    requires Inv(s) && FitsThroughout(s, acts)
    ensures Inv(Exec(s, acts))
    ensures Legal(s.ring.cap, Queue(s), Log(s, acts), Queue(Exec(s, acts)))
    ensures WriteOwed(s) + WriteOutcomes(Log(s, acts)) == WriteReturns(s, acts) + WriteOwed(Exec(s, acts))
    ensures ReadOwed(s) + ReadOutcomes(Log(s, acts)) == ReadReturns(s, acts) + ReadOwed(Exec(s, acts))
    decreases |acts|
  {
    if acts != [] {
      var a, s' := acts[0], Next(s, acts[0]);
      StepKeepsInv(s, a);
      EffectIsLegal(s, a);
      WriteEffectIsReturned(s, a);
      ReadEffectIsReturned(s, a);
      InterleavingIsLinearizable(s', acts[1..]);
      LegalAppend(s.ring.cap, Queue(s), Effect(s, a), Queue(s'), Log(s', acts[1..]), Queue(Exec(s, acts)));
      Regroup(WriteOwed(s), WriteOutcomes(Effect(s, a)), WriteOutcomes(Log(s', acts[1..])),
              WriteReturn(s, a), WriteOwed(s'), WriteReturns(s', acts[1..]), WriteOwed(Exec(s, acts)));
      Regroup(ReadOwed(s), ReadOutcomes(Effect(s, a)), ReadOutcomes(Log(s', acts[1..])),
              ReadReturn(s, a), ReadOwed(s'), ReadReturns(s', acts[1..]), ReadOwed(Exec(s, acts)));
    }
  }

  lemma Regroup<T>(owed: seq<T>, e: seq<T>, log: seq<T>, ret: seq<T>, owed': seq<T>, rets: seq<T>, owed'': seq<T>)
    requires owed + e == ret + owed' && owed' + log == rets + owed''
    ensures owed + (e + log) == ret + rets + owed''
  {
    assert owed + (e + log) == (owed + e) + log;
    assert (ret + owed') + log == ret + (owed' + log);
    assert ret + (rets + owed'') == ret + rets + owed'';
  }
}
