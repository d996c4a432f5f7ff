/** The eventfd transport over two byte rings, whose reads and writes decide every step. It moves as
    the transport over queues exactly while every accepted write lands, and then serves its callers
    as that one does; aligned requests always land. */
module EventfdBytes {
  import opened LittleEndian
  import opened Codec
  import opened CallCore
  import opened RingBacked
  import opened Eventfd
  import RM = RingModel
  import RR = RingRuns
  import CR = CoreRuns

  /** As `Eventfd.State`, over byte rings. */
  datatype ByteState = ByteState(core: ByteCore, reqCounter: nat, backendLeft: nat,
                                 respCounter: nat, gatewayLeft: nat, toSignal: nat,
                                 reqMissed: nat, respMissed: nat)

  predicate CanTake(s: ByteState, a: Action) {
    match a
    case BackendWait => s.backendLeft == 0 && s.reqCounter > 0
    case BackendIterate => s.backendLeft > 0
    case SignalResponse(_) => s.toSignal > 0
    case GatewayWait => s.gatewayLeft == 0 && s.respCounter > 0
    case GatewayIterate => s.gatewayLeft > 0
    case _ => RingBacked.Enabled(s.core, CoreOp(a).value)
  }

  function StepSignalRequest(s: ByteState, id: Id, ok: bool): ByteState
    requires CanTake(s, SignalRequest(id, ok))
  {
    var s' := s.(core := RingBacked.Apply(s.core, Notify(id, ok)));
    if TokenAdded(s.reqCounter, ok) then s'.(reqCounter := s.reqCounter + 1)
    else s'.(reqMissed := s.reqMissed + 1)
  }

  function StepSignalResponse(s: ByteState, ok: bool): ByteState
    requires s.toSignal > 0
  {
    var s' := s.(toSignal := s.toSignal - 1);
    if TokenAdded(s.respCounter, ok) then s'.(respCounter := s.respCounter + 1)
    else s'.(respMissed := s.respMissed + 1)
  }

  function StepBackendIterate(s: ByteState): ByteState
    requires s.backendLeft > 0
  {
    var s' := s.(core := RingBacked.Apply(s.core, Fetch(BUFFER)), backendLeft := s.backendLeft - 1);
    if RM.ReadOutcome(s.core.req, BUFFER).Got? then s' else s'.(reqMissed := s.reqMissed + 1)
  }

  function StepGatewayIterate(s: ByteState): ByteState
    requires s.gatewayLeft > 0
  {
    var s' := s.(core := RingBacked.Apply(s.core, Deliver(BUFFER)));
    match RM.ReadOutcome(s.core.resp, BUFFER)
    case Got(d) =>
      if d == [] then s'.(gatewayLeft := 0, respMissed := s.respMissed + s.gatewayLeft - 1)
      else s'.(gatewayLeft := s.gatewayLeft - 1)
    case _ => s'.(gatewayLeft := 0, respMissed := s.respMissed + s.gatewayLeft)
  }

  function StepFinishTask(s: ByteState, k: nat, ts: I64, us: I64): ByteState
    requires CanTake(s, FinishTask(k, ts, us))
  {
    s.(core := RingBacked.Apply(s.core, PostResponse(k, ts, us)),
       toSignal := s.toSignal + if Accepted(s.core, PostResponse(k, ts, us)) then 1 else 0)
  }

  /** The state after action `a`; an action that cannot be taken leaves it alone. */
  function Next(s: ByteState, a: Action): ByteState {
    if !CanTake(s, a) then s else
    match a
    case StartCall(id, q) => s.(core := RingBacked.Apply(s.core, Register(id, q)))
    case WriteRequest(id) => s.(core := RingBacked.Apply(s.core, PostRequest(id)))
    case SignalRequest(id, ok) => StepSignalRequest(s, id, ok)
    case BackendWait => s.(backendLeft := s.reqCounter, reqCounter := 0)
    case BackendIterate => StepBackendIterate(s)
    case FinishTask(k, ts, us) => StepFinishTask(s, k, ts, us)
    case SignalResponse(ok) => StepSignalResponse(s, ok)
    case GatewayWait => s.(gatewayLeft := s.respCounter, respCounter := 0)
    case GatewayIterate => StepGatewayIterate(s)
  }

  function Exec(s: ByteState, acts: seq<Action>): ByteState
    decreases |acts|
  {
    if acts == [] then s else Exec(Next(s, acts[0]), acts[1..])
  }

  function Start(req: ByteRing, resp: ByteRing): ByteState {
    ByteState(RingBacked.Start(req, resp), 0, 0, 0, 0, 0, 0, 0)
  }

  // ---------- the transport over queues it stands for ----------

  function StateOf(s: ByteState): State {
    State(CoreOf(s.core), s.reqCounter, s.backendLeft, s.respCounter, s.gatewayLeft, s.toSignal,
          s.reqMissed, s.respMissed)
  }

  predicate Lands(s: ByteState, a: Action) {
    CanTake(s, a) && CoreOp(a).Some? ==> RingBacked.Lands(s.core, CoreOp(a).value)
  }

  /** Every accepted write of the run stores a prefix its reader will gather. */
  ghost predicate LandsThroughout(s: ByteState, acts: seq<Action>)
    decreases |acts|
  {
    acts == [] || (Lands(s, acts[0]) && LandsThroughout(Next(s, acts[0]), acts[1..]))
  }

  /** Both transports take the action to matching states. */
  ghost predicate InStep(s: ByteState, a: Action) {
    Good(Next(s, a).core) && StateOf(Next(s, a)) == Eventfd.Next(StateOf(s), a)
  }

  /** All along the run the bytes stand for what the transport over queues, run from `t`, holds. */
  ghost predicate Mirrors(s: ByteState, acts: seq<Action>, t: State)
    decreases |acts|
  {
    && Good(s.core) && StateOf(s) == t
    && (acts == [] || Mirrors(Next(s, acts[0]), acts[1..], Eventfd.Next(t, acts[0])))
  }

  lemma SameChoices(s: ByteState, a: Action)
    ensures CanTake(s, a) <==> Eventfd.CanTake(StateOf(s), a)
  {}

  lemma CoreMoves(s: ByteState, a: Action)
    requires CanTake(s, a)
    ensures CoreOp(a).Some? ==>
      RingBacked.Enabled(s.core, CoreOp(a).value) && Next(s, a).core == RingBacked.Apply(s.core, CoreOp(a).value)
    ensures CoreOp(a).None? ==> Next(s, a).core == s.core
  {}

  /** The listeners, signals and counters move alike as soon as the rings give the queues' answers. */
  lemma SameControl(s: ByteState, a: Action)
    requires CanTake(s, a) && Eventfd.CanTake(StateOf(s), a)
    requires CoreOp(a).Some? ==> Agrees(s.core, CoreOp(a).value)
    ensures StateOf(Next(s, a)) == Eventfd.Next(StateOf(s), a).(core := CoreOf(Next(s, a).core))
  {}

  /** From intact rings a step is the step over queues iff the record it writes, if any, lands. */
  lemma StepBacked(s: ByteState, a: Action)
    requires Good(s.core)
    ensures InStep(s, a) <==> Lands(s, a)
  {
    SameChoices(s, a);
    if CanTake(s, a) {
      CoreMoves(s, a);
      Eventfd.CoreMoves(StateOf(s), a);
      if CoreOp(a).Some? {
        OperationBacked(s.core, CoreOp(a).value);
      }
      SameControl(s, a);
    }
  }

  /** A run over bytes mirrors the run over queues iff every accepted write lands. */
  lemma {:induction false} MirrorsIffLanding(s: ByteState, acts: seq<Action>)
    requires Good(s.core)
    ensures Mirrors(s, acts, StateOf(s)) <==> LandsThroughout(s, acts)
    decreases |acts|
  {
    if acts != [] {
      StepBacked(s, acts[0]);
      if Lands(s, acts[0]) {
        MirrorsIffLanding(Next(s, acts[0]), acts[1..]);
      }
    }
  }

  /** The cores over queues a run goes through. */
  function Trace(s: ByteState, acts: seq<Action>): (t: seq<Core>)
    decreases |acts|
  {
    [CoreOf(s.core)] + if acts == [] then [] else Trace(Next(s, acts[0]), acts[1..])
  }

  lemma {:induction false} LandingRun(s: ByteState, acts: seq<Action>)
    requires Good(s.core) && LandsThroughout(s, acts)
    ensures Good(Exec(s, acts).core) && StateOf(Exec(s, acts)) == Eventfd.Exec(StateOf(s), acts)
    ensures Trace(s, acts) == Eventfd.Trace(StateOf(s), acts)
    decreases |acts|
  {
    if acts != [] {
      StepBacked(s, acts[0]);
      LandingRun(Next(s, acts[0]), acts[1..]);
    }
  }

  lemma StartIsGood(req: ByteRing, resp: ByteRing)
    requires Fresh(req) && Fresh(resp)
    ensures Good(Start(req, resp).core) && StateOf(Start(req, resp)) == Eventfd.Start(req.cap, resp.cap)
  {
    EmptyRing(req);
    EmptyRing(resp);
  }

  // ---------- aligned requests ----------

  predicate AlignedCalls(acts: seq<Action>) {
    forall a :: a in acts && a.StartCall? ==> WireLength(a.id, a.request) % 4 == 0
  }

  lemma {:induction false} AlignedRunLands(s: ByteState, acts: seq<Action>)
    requires Aligned(s.core) && AlignedCalls(acts)
    ensures LandsThroughout(s, acts)
    decreases |acts|
  {
    if acts != [] {
      var a := acts[0];
      assert a in acts && forall b :: b in acts[1..] ==> b in acts;
      if CanTake(s, a) {
        CoreMoves(s, a);
        if CoreOp(a).Some? {
          AlignedOperationLands(s.core, CoreOp(a).value);
        }
      }
      AlignedRunLands(Next(s, a), acts[1..]);
    }
  }

  /** On fresh rings of a capacity that is a multiple of four, aligned requests land on every run. */
  lemma AlignedCallsLand(req: ByteRing, resp: ByteRing, acts: seq<Action>)
    requires Fresh(req) && Fresh(resp) && RingAligned(req) && RingAligned(resp) && AlignedCalls(acts)
    ensures LandsThroughout(Start(req, resp), acts)
  {
    StartIsGood(req, resp);
    CR.EmptyHasInv(req.cap, resp.cap);
    AlignedRunLands(Start(req, resp), acts);
  }

  // ---------- what callers get ----------

  /** While writes land, every run over byte rings is a run of the abstract exchange. */
  lemma RunServesExchange(req: ByteRing, resp: ByteRing, acts: seq<Action>)
    requires Fresh(req) && Fresh(resp) && req.cap <= U64 && resp.cap <= U64
    requires LandsThroughout(Start(req, resp), acts)
    ensures CR.ServesExchange(Trace(Start(req, resp), acts))
  {
    StartIsGood(req, resp);
    LandingRun(Start(req, resp), acts);
    Eventfd.RunServesExchange(req.cap, resp.cap, acts);
  }

  ghost predicate Quiescent(s: ByteState) {
    forall a: Action :: CanTake(s, a) ==> a.StartCall?
  }

  lemma QuiescentAlike(s: ByteState)
    ensures Quiescent(s) <==> Eventfd.Quiescent(StateOf(s))
  {
    forall a: Action ensures CanTake(s, a) <==> Eventfd.CanTake(StateOf(s), a) {
      SameChoices(s, a);
    }
  }

  /** While writes land and no signal fails, at rest every call not refused by a full ring has
      returned Ok iff every request not refused is at most 65528 bytes. */
  lemma AnsweredIffShort(req: ByteRing, resp: ByteRing, acts: seq<Action>)
    requires Fresh(req) && Fresh(resp) && req.cap <= U64 && resp.cap <= U64
    requires forall a :: a in acts ==> SignalSucceeds(a)
    requires LandsThroughout(Start(req, resp), acts) && Quiescent(Exec(Start(req, resp), acts))
    ensures var c := CoreOf(Exec(Start(req, resp), acts).core);
      && (AllAnswered(c) <==> AllShort(c, MAX_REQUEST))
      && (AllAnswered(c) <==> c.pending == c.lost)
  {
    StartIsGood(req, resp);
    LandingRun(Start(req, resp), acts);
    QuiescentAlike(Exec(Start(req, resp), acts));
    Eventfd.AnsweredIffShort(req.cap, resp.cap, acts);
  }

  /** While writes land, requests are at most 65528 bytes and no signal fails, at rest the pending map
      holds exactly the ids a full ring refused, and every other call has returned its own echo. */
  lemma EveryoneIsAnswered(req: ByteRing, resp: ByteRing, acts: seq<Action>)
    requires Fresh(req) && Fresh(resp) && req.cap <= U64 && resp.cap <= U64
    requires forall a :: a in acts ==> Modest(a)
    requires LandsThroughout(Start(req, resp), acts) && Quiescent(Exec(Start(req, resp), acts))
    ensures var c := CoreOf(Exec(Start(req, resp), acts).core);
      && c.pending == c.lost
      && forall id :: id in c.calls ==>
           (Result(c, id).ReturnsOk? <==> id !in c.lost) &&
           (Result(c, id).ReturnsOk? ==> IsEcho(c.calls[id].request, Result(c, id).response))
  {
    StartIsGood(req, resp);
    LandingRun(Start(req, resp), acts);
    QuiescentAlike(Exec(Start(req, resp), acts));
    Eventfd.EveryoneIsAnswered(req.cap, resp.cap, acts);
  }

  /** The run never has more than `limit` calls pending. */
  ghost predicate Limited(s: ByteState, acts: seq<Action>, limit: nat)
    decreases |acts|
  {
    acts == [] ||
    ((acts[0].StartCall? ==> |s.core.pending| < limit) && Limited(Next(s, acts[0]), acts[1..], limit))
  }

  lemma {:induction false} LimitedAlike(s: ByteState, acts: seq<Action>, limit: nat)
    requires Good(s.core) && LandsThroughout(s, acts) && Limited(s, acts, limit)
    ensures Eventfd.Limited(StateOf(s), acts, limit)
    decreases |acts|
  {
    if acts != [] {
      StepBacked(s, acts[0]);
      LimitedAlike(Next(s, acts[0]), acts[1..], limit);
    }
  }

  /** With the default 64 MiB rings, at most 1023 calls pending at a time, aligned requests of at most
      65528 bytes and no failed signal, every call has returned its own echo once the system rests. */
  lemma ThousandCallersAreAllAnswered(req: ByteRing, resp: ByteRing, acts: seq<Action>)
    requires Fresh(req) && Fresh(resp) && req.cap == resp.cap == DEFAULT_CAPACITY
    requires AlignedCalls(acts) && forall a :: a in acts ==> Modest(a)
    requires Limited(Start(req, resp), acts, 1023) && Quiescent(Exec(Start(req, resp), acts))
    ensures var c := CoreOf(Exec(Start(req, resp), acts).core);
      c.pending == {} && forall id :: id in c.calls ==>
        Result(c, id).ReturnsOk? && IsEcho(c.calls[id].request, Result(c, id).response)
  {
    AlignedCallsLand(req, resp, acts);
    StartIsGood(req, resp);
    LandingRun(Start(req, resp), acts);
    LimitedAlike(Start(req, resp), acts, 1023);
    QuiescentAlike(Exec(Start(req, resp), acts));
    Eventfd.ThousandCallersAreAllAnswered(acts);
  }

  // ---------- an unreadable head ----------

  /** Once the backend cannot read the head of its ring, no later action of anyone spawns a task. */
  lemma {:induction false} UnreadableHeadStopsBackend(s: ByteState, acts: seq<Action>)
    requires RR.StuckHead(s.core.req, BUFFER)
    ensures RR.StuckHead(Exec(s, acts).core.req, BUFFER)
    ensures multiset(Exec(s, acts).core.tasks) <= multiset(s.core.tasks)
    decreases |acts|
  {
    if acts != [] {
      var a := acts[0];
      if CanTake(s, a) {
        CoreMoves(s, a);
        if CoreOp(a).Some? {
          UnreadableKept(s.core, CoreOp(a).value, BUFFER);
        }
      }
      UnreadableHeadStopsBackend(Next(s, a), acts[1..]);
    }
  }
}
