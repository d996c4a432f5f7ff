/** The eventfd transport: each direction pairs a ring with an eventfd counter. A writer appends a
    record and then adds one to the counter; a listener takes the whole counter and runs that many
    read iterations. Steps of all parties interleave arbitrarily. */
module Eventfd {
  import opened LittleEndian
  import opened Fifo
  import opened Codec
  import opened CallCore
  import CR = CoreRuns

  /** Largest value an eventfd counter can hold (eventfd(2)). */
  const COUNTER_MAX: nat := U64 - 2

  const BUFFER: nat := 65536

  datatype Signalled = Added(counter: nat) | WouldBlock

  function AddOne(counter: nat): Signalled {
    if counter < COUNTER_MAX then Added(counter + 1) else WouldBlock
  }

  /** `backendLeft` and `gatewayLeft` are the iterations each listener still has to run, `toSignal`
      the tasks that wrote a response but have not signalled it. `reqMissed` and `respMissed` are
      history: records whose token was never added or was spent without taking a record. */
  datatype State = State(core: Core, reqCounter: nat, backendLeft: nat,
                         respCounter: nat, gatewayLeft: nat, toSignal: nat,
                         reqMissed: nat, respMissed: nat)

  datatype Action =
    | StartCall(id: Id, request: Request)
    | WriteRequest(id: Id)
    | SignalRequest(id: Id, ok: bool)
    | BackendWait
    | BackendIterate
    | FinishTask(k: nat, ts: I64, us: I64)
    | SignalResponse(ok: bool)
    | GatewayWait
    | GatewayIterate

  predicate CanTake(s: State, a: Action) {
    match a
    case StartCall(id, q) => CallCore.Enabled(s.core, Register(id, q))
    case WriteRequest(id) => CallCore.Enabled(s.core, PostRequest(id))
    case SignalRequest(id, ok) => CallCore.Enabled(s.core, Notify(id, ok))
    case BackendWait => s.backendLeft == 0 && s.reqCounter > 0
    case BackendIterate => s.backendLeft > 0
    case FinishTask(k, ts, us) => CallCore.Enabled(s.core, PostResponse(k, ts, us))
    case SignalResponse(_) => s.toSignal > 0
    case GatewayWait => s.gatewayLeft == 0 && s.respCounter > 0
    case GatewayIterate => s.gatewayLeft > 0
  }

  /** Adding a token: EAGAIN counts as success for the caller, any other failure does not. */
  function TokenAdded(counter: nat, ok: bool): bool {
    ok && AddOne(counter).Added?
  }

  function StepSignalRequest(s: State, id: Id, ok: bool): State
    requires CanTake(s, SignalRequest(id, ok))
  {
    var s' := s.(core := Apply(s.core, Notify(id, ok)));
    if TokenAdded(s.reqCounter, ok) then s'.(reqCounter := s.reqCounter + 1)
    else s'.(reqMissed := s.reqMissed + 1)
  }

  function StepSignalResponse(s: State, ok: bool): State
    requires s.toSignal > 0
  {
    var s' := s.(toSignal := s.toSignal - 1);
    if TokenAdded(s.respCounter, ok) then s'.(respCounter := s.respCounter + 1)
    else s'.(respMissed := s.respMissed + 1)
  }

  /** The backend loop goes on to the next iteration whatever the read returned. */
  function StepBackendIterate(s: State): State
    requires s.backendLeft > 0
  {
    var s' := s.(core := Apply(s.core, Fetch(BUFFER)), backendLeft := s.backendLeft - 1);
    if Peek(s.core.reqRing, BUFFER).Got? then s' else s'.(reqMissed := s.reqMissed + 1)
  }

  /** The gateway loop gives up its remaining iterations on a failed read or an empty record. */
  function StepGatewayIterate(s: State): State
    requires s.gatewayLeft > 0
  {
    var s' := s.(core := Apply(s.core, Deliver(BUFFER)));
    match Peek(s.core.respRing, BUFFER)
    case Got(d) =>
      if d == [] then s'.(gatewayLeft := 0, respMissed := s.respMissed + s.gatewayLeft - 1)
      else s'.(gatewayLeft := s.gatewayLeft - 1)
    case _ => s'.(gatewayLeft := 0, respMissed := s.respMissed + s.gatewayLeft)
  }

  function StepFinishTask(s: State, k: nat, ts: I64, us: I64): State
    requires CanTake(s, FinishTask(k, ts, us))
  {
    s.(core := Apply(s.core, PostResponse(k, ts, us)),
       toSignal := s.toSignal + if PostAccepted(s.core, PostResponse(k, ts, us)) then 1 else 0)
  }

  /** The state after action `a`; an action that cannot be taken leaves it alone. */
  function Next(s: State, a: Action): State {
    if !CanTake(s, a) then s else
    match a
    case StartCall(id, q) => s.(core := Apply(s.core, Register(id, q)))
    case WriteRequest(id) => s.(core := Apply(s.core, PostRequest(id)))
    case SignalRequest(id, ok) => StepSignalRequest(s, id, ok)
    case BackendWait => s.(backendLeft := s.reqCounter, reqCounter := 0)
    case BackendIterate => StepBackendIterate(s)
    case FinishTask(k, ts, us) => StepFinishTask(s, k, ts, us)
    case SignalResponse(ok) => StepSignalResponse(s, ok)
    case GatewayWait => s.(gatewayLeft := s.respCounter, respCounter := 0)
    case GatewayIterate => StepGatewayIterate(s)
  }

  function Exec(s: State, acts: seq<Action>): State
    decreases |acts|
  {
    if acts == [] then s else Exec(Next(s, acts[0]), acts[1..])
  }

  function Start(reqCap: nat, respCap: nat): State {
    State(CR.EmptyCore(reqCap, respCap), 0, 0, 0, 0, 0, 0, 0)
  }

  // ---------- the invariant ----------

  /** Token conservation, as an equality: every unread record is matched by a counted token, a loop
      iteration to come, a writer that has yet to signal, or a miss on record. */
  ghost predicate Tokens(s: State) {
    && |s.core.reqRing| == s.reqCounter + s.backendLeft + |InStage(s.core.calls, Posted)| + s.reqMissed
    && |s.core.respRing| == s.respCounter + s.gatewayLeft + s.toSignal + s.respMissed
  }

  ghost predicate Inv(s: State) {
    CallCore.Inv(s.core) && Tokens(s)
  }

  lemma StartHasInv(reqCap: nat, respCap: nat)
    requires 0 < reqCap <= U64 && 0 < respCap <= U64
    ensures Inv(Start(reqCap, respCap))
  {
    CR.EmptyHasInv(reqCap, respCap);
    assert InStage(map[], Posted) == {};
  }

  /** Which operation on the shared core an action performs, if any. */
  function CoreOp(a: Action): Option<Op> {
    match a
    case StartCall(id, q) => Some(Register(id, q))
    case WriteRequest(id) => Some(PostRequest(id))
    case SignalRequest(id, ok) => Some(Notify(id, ok))
    case BackendIterate => Some(Fetch(BUFFER))
    case FinishTask(k, ts, us) => Some(PostResponse(k, ts, us))
    case GatewayIterate => Some(Deliver(BUFFER))
    case _ => None
  }

  lemma CoreMoves(s: State, a: Action)
    requires CanTake(s, a)
    ensures CoreOp(a).Some? ==>
      CallCore.Enabled(s.core, CoreOp(a).value) && Next(s, a).core == Apply(s.core, CoreOp(a).value)
    ensures CoreOp(a).None? ==> Next(s, a).core == s.core
  {}

  lemma CoreInvKept(s: State, a: Action)
    requires CallCore.Inv(s.core)
    ensures CallCore.Inv(Next(s, a).core)
  {
    if CanTake(s, a) {
      CoreMoves(s, a);
      if CoreOp(a).Some? {
        OperationKeepsInv(s.core, CoreOp(a).value);
      }
    }
  }

  /** Each counter stays below a quarter of the ring capacity, so a signal is never refused with
      EAGAIN and swallowing that error can lose no wake-up. */
  lemma SignalNeverBlocks(s: State)
    requires Inv(s)
    ensures 4 * s.reqCounter < s.core.reqCap && 4 * s.respCounter < s.core.respCap
    ensures AddOne(s.reqCounter).Added? && AddOne(s.respCounter).Added?
  {
    CostBoundsCount(s.core.reqRing);
    CostBoundsCount(s.core.respRing);
  }

  /** A listener inside its count loop never finds the ring empty; its reads fail only on an
      oversized head. */
  lemma IterationFindsRecord(s: State)
    requires Inv(s)
    ensures s.backendLeft > 0 ==> s.core.reqRing != []
    ensures s.gatewayLeft > 0 ==> s.core.respRing != []
  {}

  lemma RecordsParse(s: State)
    requires Inv(s)
    ensures forall d :: d in s.core.reqRing ==> DecodeRequest(d).Some? && d != []
    ensures forall d :: d in s.core.respRing ==> DecodeResponse(d).Some? && d != []
  {
    forall d | d in s.core.reqRing ensures DecodeRequest(d).Some? && d != [] {
      assert RequestRecord(s.core.calls, d);
    }
    forall d | d in s.core.respRing ensures DecodeResponse(d).Some? && d != [] {
      assert ResponseRecord(s.core.calls, d);
    }
  }

  lemma TokensKept(s: State, a: Action)
    requires Inv(s)
    ensures Tokens(Next(s, a))
  {
    if CanTake(s, a) {
      CoreMoves(s, a);
      if CoreOp(a).Some? {
        StagesCounted(s.core, CoreOp(a).value);
        QueueLengths(s.core, CoreOp(a).value);
      }
      SignalNeverBlocks(s);
    }
  }

  lemma StepKeepsInv(s: State, a: Action)
    requires Inv(s)
    ensures Inv(Next(s, a))
  {
    CoreInvKept(s, a);
    TokensKept(s, a);
  }

  lemma {:induction false} RunKeepsInv(s: State, acts: seq<Action>)
    requires Inv(s)
    ensures Inv(Exec(s, acts))
    decreases |acts|
  {
    if acts != [] {
      StepKeepsInv(s, acts[0]);
      RunKeepsInv(Next(s, acts[0]), acts[1..]);
    }
  }

  /** In every reachable state: each unread record is accounted for, neither counter can block a
      signal, a listener inside its count loop has a record before it, and every record parses. */
  lemma ReachableStates(reqCap: nat, respCap: nat, acts: seq<Action>)
    requires 0 < reqCap <= U64 && 0 < respCap <= U64
    ensures var s := Exec(Start(reqCap, respCap), acts);
      && Tokens(s)
      && 4 * s.reqCounter < reqCap && 4 * s.respCounter < respCap
      && AddOne(s.reqCounter).Added? && AddOne(s.respCounter).Added?
      && (s.backendLeft > 0 ==> s.core.reqRing != []) && (s.gatewayLeft > 0 ==> s.core.respRing != [])
      && (forall d :: d in s.core.reqRing ==> DecodeRequest(d).Some? && d != [])
      && (forall d :: d in s.core.respRing ==> DecodeResponse(d).Some? && d != [])
  {
    StartHasInv(reqCap, respCap);
    RunKeepsInv(Start(reqCap, respCap), acts);
    CapacitiesKept(Start(reqCap, respCap), acts);
    var s := Exec(Start(reqCap, respCap), acts);
    SignalNeverBlocks(s);
    IterationFindsRecord(s);
    RecordsParse(s);
  }

  lemma {:induction false} CapacitiesKept(s: State, acts: seq<Action>)
    ensures Exec(s, acts).core.reqCap == s.core.reqCap && Exec(s, acts).core.respCap == s.core.respCap
    decreases |acts|
  {
    if acts != [] {
      if CanTake(s, acts[0]) {
        CoreMoves(s, acts[0]);
        if CoreOp(acts[0]).Some? {
          RingsAfter(s.core, CoreOp(acts[0]).value);
        }
      }
      CapacitiesKept(Next(s, acts[0]), acts[1..]);
    }
  }

  // ---------- refinement of the abstract exchange ----------

  /** The cores a run goes through. */
  function Trace(s: State, acts: seq<Action>): (t: seq<Core>)
    ensures |t| == |acts| + 1 && t[0] == s.core && t[|acts|] == Exec(s, acts).core
    decreases |acts|
  {
    [s.core] + if acts == [] then [] else Trace(Next(s, acts[0]), acts[1..])
  }

  lemma StepMovesCore(s: State, a: Action)
    ensures CR.Step(s.core, Next(s, a).core)
  {
    if CanTake(s, a) {
      CoreMoves(s, a);
      if CoreOp(a).Some? {
        assert CR.Moves(s.core, CoreOp(a).value, Next(s, a).core);
      }
    }
  }

  lemma {:induction false} TraceIsRun(s: State, acts: seq<Action>)
    ensures CR.IsRun(Trace(s, acts))
    decreases |acts|
  {
    if acts != [] {
      StepMovesCore(s, acts[0]);
      TraceIsRun(Next(s, acts[0]), acts[1..]);
      CR.RunExtends(s.core, Trace(Next(s, acts[0]), acts[1..]));
    }
  }

  /** Every run from the start is a run of the abstract exchange: each request is answered at most
      once, for good, by its own echo, and a call that returns Ok returns that echo. */
  lemma RunServesExchange(reqCap: nat, respCap: nat, acts: seq<Action>)
    requires 0 < reqCap <= U64 && 0 < respCap <= U64
    ensures CR.ServesExchange(Trace(Start(reqCap, respCap), acts))
  {
    TraceIsRun(Start(reqCap, respCap), acts);
    CR.RunsServeExchange(Trace(Start(reqCap, respCap), acts), reqCap, respCap);
  }

  /** What a call has returned is final over every later run, and an id that was lost stays in the
      pending map for good. */
  lemma ReturnsAndLossesAreFinal(s: State, acts: seq<Action>, id: Id)
    requires Inv(s) && id in s.core.calls
    ensures id in Exec(s, acts).core.calls
    ensures Result(s.core, id) != Running ==> Result(Exec(s, acts).core, id) == Result(s.core, id)
    ensures id in s.core.lost ==> id in Exec(s, acts).core.lost && id in Exec(s, acts).core.pending
  {
    TraceIsRun(s, acts);
    CR.ReturnsAndLossesAreFinal(Trace(s, acts), 0, |acts|, id);
  }

  // ---------- quiescence ----------

  /** Work left in the system: that of the core, and that of each token on its way. */
  function Measure(s: State): nat {
    Work(s.core) + 2 * s.reqCounter + s.backendLeft + 3 * s.toSignal + 2 * s.respCounter + s.gatewayLeft
  }

  /** With no new calls every step brings the system strictly closer to rest. */
  lemma StepsDecreaseMeasure(s: State, a: Action)
    requires CanTake(s, a) && !a.StartCall?
    ensures Measure(Next(s, a)) < Measure(s)
  {
    CoreMoves(s, a);
    if CoreOp(a).Some? {
      WorkDone(s.core, CoreOp(a).value);
    }
  }

  /** Every action of the run could be taken, and none is a new call. */
  ghost predicate BusyRun(s: State, acts: seq<Action>)
    decreases |acts|
  {
    acts == [] || (CanTake(s, acts[0]) && !acts[0].StartCall? && BusyRun(Next(s, acts[0]), acts[1..]))
  }

  lemma {:induction false} BusyRunsAreShort(s: State, acts: seq<Action>)
    requires BusyRun(s, acts)
    ensures |acts| + Measure(Exec(s, acts)) <= Measure(s)
    decreases |acts|
  {
    if acts != [] {
      StepsDecreaseMeasure(s, acts[0]);
      BusyRunsAreShort(Next(s, acts[0]), acts[1..]);
    }
  }

  ghost predicate Quiescent(s: State) {
    forall a: Action :: CanTake(s, a) ==> a.StartCall?
  }

  lemma QuiescentIsIdle(s: State)
    requires Quiescent(s)
    ensures InStage(s.core.calls, Registered) == {} && InStage(s.core.calls, Posted) == {}
    ensures s.reqCounter == 0 && s.backendLeft == 0 && s.core.tasks == []
    ensures s.toSignal == 0 && s.respCounter == 0 && s.gatewayLeft == 0
  {
    forall id | id in s.core.calls
      ensures s.core.calls[id].stage != Registered && s.core.calls[id].stage != Posted
    {
      assert !CanTake(s, WriteRequest(id)) && !CanTake(s, SignalRequest(id, true));
    }
    assert !CanTake(s, BackendIterate) && !CanTake(s, BackendWait) && !CanTake(s, SignalResponse(true));
    assert !CanTake(s, GatewayIterate) && !CanTake(s, GatewayWait);
    assert !CanTake(s, FinishTask(0, 0, 0));
  }

  /** The same step with its signal, if any, going through. */
  function Benign(a: Action): Action {
    match a
    case SignalRequest(id, _) => SignalRequest(id, true)
    case SignalResponse(_) => SignalResponse(true)
    case _ => a
  }

  /** From every state the parties can come to rest without a new call and without any failing
      signal; by the measure they cannot avoid it for longer than the work left. */
  lemma {:induction false} RestIsReachable(s: State) returns (acts: seq<Action>)
    ensures BusyRun(s, acts) && Quiescent(Exec(s, acts))
    ensures forall a :: a in acts ==> Benign(a) == a
    decreases Measure(s)
  {
    if Quiescent(s) {
      acts := [];
    } else {
      var b: Action :| CanTake(s, b) && !b.StartCall?;
      var a := Benign(b);
      StepsDecreaseMeasure(s, a);
      var rest := RestIsReachable(Next(s, a));
      acts := [a] + rest;
      assert acts[1..] == rest;
    }
  }

  /** At rest the rings hold exactly the missed records, and what is pending is those and the lost. */
  lemma RestingState(s: State)
    requires Inv(s) && Quiescent(s)
    ensures |s.core.reqRing| == s.reqMissed && |s.core.respRing| == s.respMissed
    ensures |s.core.pending| == s.reqMissed + s.respMissed + |s.core.lost|
    ensures s.core.pending == LeftInRings(s.core) + s.core.lost && LeftInRings(s.core) !! s.core.lost
  {
    QuiescentIsIdle(s);
    HeadCount(s.core);
    IdlePending(s.core);
  }

  // ---------- runs in which every signal succeeds ----------

  /** The longest request whose response the gateway's buffer can still take. */
  const MAX_REQUEST: nat := BUFFER - 8

  predicate SignalSucceeds(a: Action) {
    Benign(a) == a
  }

  /** Only a lost request can have failed, a record can have been missed only behind an oversized
      head, and no answered request was too long. */
  ghost predicate Steady(s: State) {
    && (s.reqMissed > 0 ==> RequestHeadStuck(s.core, BUFFER))
    && (s.respMissed > 0 ==> ResponseHeadStuck(s.core, BUFFER))
    && RepliesFit(s.core, MAX_REQUEST)
    && forall id :: id in s.core.calls && s.core.calls[id].stage == Failed ==> id in s.core.lost
  }

  /** A listener that finds its head unreadable finds it oversized, never absent, empty or garbled. */
  lemma UnreadableIsOversized(s: State)
    requires Inv(s)
    ensures s.backendLeft > 0 && !Peek(s.core.reqRing, BUFFER).Got? ==> RequestHeadStuck(s.core, BUFFER)
    ensures s.gatewayLeft > 0 && !Peek(s.core.respRing, BUFFER).Got? ==> ResponseHeadStuck(s.core, BUFFER)
    ensures s.gatewayLeft > 0 ==> s.core.respRing[0] != []
  {
    IterationFindsRecord(s);
    RecordsParse(s);
    assert s.core.respRing != [] ==> s.core.respRing[0] in s.core.respRing;
  }

  lemma MissesKept(s: State, a: Action)
    requires Inv(s) && Steady(s) && SignalSucceeds(a)
    ensures Next(s, a).reqMissed > 0 ==> RequestHeadStuck(Next(s, a).core, BUFFER)
    ensures Next(s, a).respMissed > 0 ==> ResponseHeadStuck(Next(s, a).core, BUFFER)
  {
    if CanTake(s, a) {
      UnreadableIsOversized(s);
      SignalNeverBlocks(s);
      StuckStep(s, a);
    }
  }

  lemma SteadyKept(s: State, a: Action)
    requires Inv(s) && Steady(s) && SignalSucceeds(a)
    ensures Steady(Next(s, a))
  {
    MissesKept(s, a);
    if CanTake(s, a) {
      CoreMoves(s, a);
      if CoreOp(a).Some? {
        RepliesFitKept(s.core, CoreOp(a).value, MAX_REQUEST);
        FailedAreLostKept(s.core, CoreOp(a).value);
      }
    }
  }

  lemma {:induction false} SteadyRun(s: State, acts: seq<Action>)
    requires Inv(s) && Steady(s) && forall a :: a in acts ==> SignalSucceeds(a)
    ensures Inv(Exec(s, acts)) && Steady(Exec(s, acts))
    decreases |acts|
  {
    if acts != [] {
      assert acts[0] in acts;
      StepKeepsInv(s, acts[0]);
      SteadyKept(s, acts[0]);
      assert forall a :: a in acts[1..] ==> a in acts;
      SteadyRun(Next(s, acts[0]), acts[1..]);
    }
  }

  lemma AnsweredIffShortAtRest(s: State)
    requires Inv(s) && Steady(s) && Quiescent(s)
    ensures AllAnswered(s.core) <==> AllShort(s.core, MAX_REQUEST)
    ensures AllAnswered(s.core) <==> s.core.pending == s.core.lost
  {
    QuiescentIsIdle(s);
    RestingState(s);
    IdleAnswered(s.core, MAX_REQUEST);
    if AllShort(s.core, MAX_REQUEST) {
      AllShortRecords(s.core, MAX_REQUEST);
      assert s.core.reqRing == [] && s.core.respRing == [];
    }
  }

  /** When no signal fails, then at rest every call not refused by a full ring has returned Ok iff
      every request not refused is at most 65528 bytes, and exactly then the pending map is down to
      the refused ones. */
  lemma AnsweredIffShort(reqCap: nat, respCap: nat, acts: seq<Action>)
    requires 0 < reqCap <= U64 && 0 < respCap <= U64
    requires (forall a :: a in acts ==> SignalSucceeds(a)) && Quiescent(Exec(Start(reqCap, respCap), acts))
    ensures var c := Exec(Start(reqCap, respCap), acts).core;
      && (AllAnswered(c) <==> AllShort(c, MAX_REQUEST))
      && (AllAnswered(c) <==> c.pending == c.lost)
  {
    StartHasInv(reqCap, respCap);
    SteadyRun(Start(reqCap, respCap), acts);
    AnsweredIffShortAtRest(Exec(Start(reqCap, respCap), acts));
  }

  predicate Modest(a: Action) {
    SignalSucceeds(a) && (a.StartCall? ==> WireLength(a.id, a.request) <= MAX_REQUEST)
  }

  lemma {:induction false} ModestRunsFit(s: State, acts: seq<Action>)
    requires CallsFit(s.core, MAX_REQUEST) && forall a :: a in acts ==> Modest(a)
    ensures CallsFit(Exec(s, acts).core, MAX_REQUEST)
    decreases |acts|
  {
    if acts != [] {
      var a := acts[0];
      assert a in acts;
      if CanTake(s, a) {
        CoreMoves(s, a);
        if CoreOp(a).Some? {
          CallsFitKept(s.core, CoreOp(a).value, MAX_REQUEST);
        }
      }
      assert forall b :: b in acts[1..] ==> b in acts;
      ModestRunsFit(Next(s, a), acts[1..]);
    }
  }

  /** If requests are at most 65528 bytes and no signal fails, then at rest the pending map holds
      exactly the ids a full ring refused, and every other call has returned its own echo. */
  lemma EveryoneIsAnswered(reqCap: nat, respCap: nat, acts: seq<Action>)
    requires 0 < reqCap <= U64 && 0 < respCap <= U64
    requires (forall a :: a in acts ==> Modest(a)) && Quiescent(Exec(Start(reqCap, respCap), acts))
    ensures var c := Exec(Start(reqCap, respCap), acts).core;
      && c.pending == c.lost
      && forall id :: id in c.calls ==>
           (Result(c, id).ReturnsOk? <==> id !in c.lost) &&
           (Result(c, id).ReturnsOk? ==> IsEcho(c.calls[id].request, Result(c, id).response))
  {
    var s0 := Start(reqCap, respCap);
    StartHasInv(reqCap, respCap);
    ModestRunsFit(s0, acts);
    AnsweredIffShort(reqCap, respCap, acts);
    SteadyRun(s0, acts);
    var c := Exec(s0, acts).core;
    forall id | id in c.calls
      ensures Result(c, id).ReturnsOk? <==> id !in c.lost
      ensures Result(c, id).ReturnsOk? ==> IsEcho(c.calls[id].request, Result(c, id).response)
    {
      if id in c.lost {
        LostIsPending(c, id);
      }
    }
  }

  // ---------- a concurrency limit under which nothing is lost ----------

  /** The run never has more than `limit` calls pending. */
  ghost predicate Limited(s: State, acts: seq<Action>, limit: nat)
    decreases |acts|
  {
    acts == [] ||
    ((acts[0].StartCall? ==> |s.core.pending| < limit) && Limited(Next(s, acts[0]), acts[1..], limit))
  }

  lemma {:induction false} LimitedRunsLoseNothing(s: State, acts: seq<Action>, limit: nat)
    requires Inv(s) && Roomy(s.core, MAX_REQUEST, limit)
    requires (forall a :: a in acts ==> Modest(a)) && Limited(s, acts, limit)
    ensures Exec(s, acts).core.lost == {}
    decreases |acts|
  {
    if acts != [] {
      var a := acts[0];
      assert a in acts;
      StepKeepsInv(s, a);
      if CanTake(s, a) {
        CoreMoves(s, a);
        if CoreOp(a).Some? {
          RoomyKept(s.core, CoreOp(a).value, MAX_REQUEST, limit);
        }
      }
      assert forall b :: b in acts[1..] ==> b in acts;
      LimitedRunsLoseNothing(Next(s, a), acts[1..], limit);
    }
  }

  const DEFAULT_CAPACITY: nat := 64 * 1024 * 1024

  /** With the default 64 MiB rings, at most 1023 calls pending at a time, requests of at most 65528
      bytes and no failed signal, every call has returned its own echo once the system rests. */
  lemma ThousandCallersAreAllAnswered(acts: seq<Action>)
    requires forall a :: a in acts ==> Modest(a)
    requires Limited(Start(DEFAULT_CAPACITY, DEFAULT_CAPACITY), acts, 1023)
    requires Quiescent(Exec(Start(DEFAULT_CAPACITY, DEFAULT_CAPACITY), acts))
    ensures var c := Exec(Start(DEFAULT_CAPACITY, DEFAULT_CAPACITY), acts).core;
      c.pending == {} && forall id :: id in c.calls ==>
        Result(c, id).ReturnsOk? && IsEcho(c.calls[id].request, Result(c, id).response)
  {
    BulkIsProduct(1023, BUFFER);
    StartHasInv(DEFAULT_CAPACITY, DEFAULT_CAPACITY);
    LimitedRunsLoseNothing(Start(DEFAULT_CAPACITY, DEFAULT_CAPACITY), acts, 1023);
    EveryoneIsAnswered(DEFAULT_CAPACITY, DEFAULT_CAPACITY, acts);
  }

  // ---------- requests in the gap between the two buffers' reach ----------

  /** A request is readable by the backend and its response by the gateway iff it is at most 65528
      bytes: the last eight bytes of the backend's buffer admit requests nobody can be answered for. */
  lemma AnswerableLength(id: Id, q: Request, p: Response)
    requires IsEcho(q, p)
    ensures Peek([EncodeRequest(id, q)], BUFFER).Got? && Peek([EncodeResponse(id, p)], BUFFER).Got?
      <==> WireLength(id, q) <= 65528
  {
    RequestLength(id, q);
    ResponseLength(id, q, p);
  }

  /** The counter takes a token up to 2^64 - 2 and then blocks. */
  lemma CounterCapacity(counter: nat)
    requires counter < 0x1_0000_0000_0000_0000
    ensures AddOne(counter) == WouldBlock <==> counter >= 0xFFFF_FFFF_FFFF_FFFE
    ensures AddOne(counter).Added? ==> AddOne(counter).counter == counter + 1
  {}

  /** A step on which each listener reads with its own buffer keeps an oversized head in place. */
  lemma StuckStep(s: State, a: Action)
    ensures RequestHeadStuck(s.core, BUFFER) ==>
      RequestHeadStuck(Next(s, a).core, BUFFER) && multiset(Next(s, a).core.tasks) <= multiset(s.core.tasks)
    ensures ResponseHeadStuck(s.core, BUFFER) ==>
      && ResponseHeadStuck(Next(s, a).core, BUFFER)
      && Next(s, a).core.replies == s.core.replies && s.core.pending <= Next(s, a).core.pending
  {
    if CanTake(s, a) {
      CoreMoves(s, a);
      if CoreOp(a).Some? {
        if RequestHeadStuck(s.core, BUFFER) {
          StuckRequestKept(s.core, CoreOp(a).value, BUFFER);
        }
        if ResponseHeadStuck(s.core, BUFFER) {
          StuckResponseKept(s.core, CoreOp(a).value, BUFFER);
        }
      }
    }
  }

  /** Once an oversized request heads the request ring, no later action of anyone spawns a task. */
  lemma {:induction false} OversizedRequestStopsBackend(s: State, acts: seq<Action>)
    requires RequestHeadStuck(s.core, BUFFER)
    ensures RequestHeadStuck(Exec(s, acts).core, BUFFER)
    ensures multiset(Exec(s, acts).core.tasks) <= multiset(s.core.tasks)
    decreases |acts|
  {
    if acts != [] {
      StuckStep(s, acts[0]);
      OversizedRequestStopsBackend(Next(s, acts[0]), acts[1..]);
    }
  }

  /** Once an oversized response heads the response ring, no later action of anyone delivers a reply. */
  lemma {:induction false} OversizedResponseSilencesGateway(s: State, acts: seq<Action>)
    requires ResponseHeadStuck(s.core, BUFFER)
    ensures ResponseHeadStuck(Exec(s, acts).core, BUFFER) && Exec(s, acts).core.replies == s.core.replies
    ensures s.core.pending <= Exec(s, acts).core.pending
    decreases |acts|
  {
    if acts != [] {
      StuckStep(s, acts[0]);
      OversizedResponseSilencesGateway(Next(s, acts[0]), acts[1..]);
    }
  }

  lemma {:induction false} ExecAppend(s: State, a: seq<Action>, b: seq<Action>)
    ensures Exec(s, a + b) == Exec(Exec(s, a), b)
    decreases |a|
  {
    if a == [] {
      assert a + b == b;
    } else {
      assert (a + b)[1..] == a[1..] + b;
      ExecAppend(Next(s, a[0]), a[1..], b);
    }
  }

  /** From the start, one call whose request exceeds the backend's buffer stops the backend for good:
      whatever anyone does afterwards, no task is ever spawned. */
  lemma LongRequestStopsBackend(reqCap: nat, respCap: nat, id: Id, q: Request, acts: seq<Action>)
    requires WireLength(id, q) > BUFFER && PREFIX + WireLength(id, q) < reqCap
    ensures Exec(Start(reqCap, respCap), [StartCall(id, q), WriteRequest(id)] + acts).core.tasks == []
  {
    var s0 := Start(reqCap, respCap);
    var first := [StartCall(id, q), WriteRequest(id)];
    RequestLength(id, q);
    var s1 := Next(s0, StartCall(id, q));
    assert first[1..] == [WriteRequest(id)] && first[1..][1..] == [];
    assert Exec(s0, first) == Exec(s1, first[1..]) == Next(s1, WriteRequest(id));
    OversizedRequestStopsBackend(Exec(s0, first), acts);
    ExecAppend(s0, first, acts);
    NoTasks(Exec(s0, first + acts).core.tasks);
  }

  /** One call in which every party does its part up to writing the response. */
  function ServedCall(id: Id, q: Request, ts: I64, us: I64): seq<Action> {
    [StartCall(id, q), WriteRequest(id), SignalRequest(id, true), BackendWait, BackendIterate, FinishTask(0, ts, us)]
  }

  /** Up to its signal, a call from the start leaves its record in the ring and one token. */
  lemma RequestSignalled(reqCap: nat, respCap: nat, id: Id, q: Request)
    requires PREFIX + WireLength(id, q) < reqCap
    ensures var s := Exec(Start(reqCap, respCap), [StartCall(id, q), WriteRequest(id), SignalRequest(id, true)]);
      && s.reqCounter == 1 && s.backendLeft == 0 && s.core.reqRing == [EncodeRequest(id, q)]
      && s.core.tasks == [] && s.core.respRing == [] && s.core.replies == map[] && s.core.respCap == respCap
  {
    var acts := [StartCall(id, q), WriteRequest(id), SignalRequest(id, true)];
    assert acts[1..] == [WriteRequest(id), SignalRequest(id, true)];
    assert acts[1..][1..] == [SignalRequest(id, true)];
    RequestLength(id, q);
    var s1 := Next(Start(reqCap, respCap), StartCall(id, q));
    var s2 := Next(s1, WriteRequest(id));
    assert s2.core.reqRing == [EncodeRequest(id, q)] && s2.core.calls[id].stage == Posted;
    assert Exec(Start(reqCap, respCap), acts) == Exec(s1, acts[1..]) == Exec(s2, acts[1..][1..]);
    assert Exec(s2, [SignalRequest(id, true)]) == Next(s2, SignalRequest(id, true));
  }

  /** One record and one token become one task. */
  lemma TokenBecomesTask(s: State, id: Id, q: Request)
    requires s.reqCounter == 1 && s.backendLeft == 0 && s.core.reqRing == [EncodeRequest(id, q)]
    requires s.core.tasks == [] && WireLength(id, q) <= BUFFER
    ensures Exec(s, [BackendWait, BackendIterate]).core == s.core.(reqRing := [], tasks := [Task(id, q)])
  {
    FetchOnly(s.core, id, q, BUFFER);
    RequestLength(id, q);
    assert [BackendWait, BackendIterate][1..] == [BackendIterate];
    var s1 := Next(s, BackendWait);
    assert s1.backendLeft == 1 && s1.core == s.core;
    assert Exec(s1, [BackendIterate]) == Next(s1, BackendIterate);
  }

  lemma ServedCallLeavesResponse(reqCap: nat, respCap: nat, id: Id, q: Request, ts: I64, us: I64)
    requires WireLength(id, q) <= BUFFER
    requires PREFIX + WireLength(id, q) < reqCap && PREFIX + WireLength(id, q) + 8 < respCap
    ensures var c := Exec(Start(reqCap, respCap), ServedCall(id, q, ts, us)).core;
      c.respRing == [ResponseBytes(Task(id, q), ts, us)] && c.replies == map[]
  {
    var s0 := Start(reqCap, respCap);
    var toSignal := [StartCall(id, q), WriteRequest(id), SignalRequest(id, true)];
    var toTask := [BackendWait, BackendIterate];
    assert ServedCall(id, q, ts, us) == toSignal + (toTask + [FinishTask(0, ts, us)]);
    var s3 := Exec(s0, toSignal);
    var s5 := Exec(s3, toTask);
    RequestSignalled(reqCap, respCap, id, q);
    TokenBecomesTask(s3, id, q);
    ResponseBytesLength(Task(id, q), ts, us);
    ExecAppend(s0, toSignal, toTask + [FinishTask(0, ts, us)]);
    ExecAppend(s3, toTask, [FinishTask(0, ts, us)]);
    assert Exec(s5, [FinishTask(0, ts, us)]) == Next(s5, FinishTask(0, ts, us));
  }

  /** From the start, one served call with a request of 65529 to 65536 bytes silences the gateway for
      good: whatever anyone does afterwards, no call ever gets a reply. */
  lemma LongResponseSilencesGateway(reqCap: nat, respCap: nat, id: Id, q: Request, ts: I64, us: I64,
                                    acts: seq<Action>)
    requires MAX_REQUEST < WireLength(id, q) <= BUFFER
    requires PREFIX + WireLength(id, q) < reqCap && PREFIX + WireLength(id, q) + 8 < respCap
    ensures Exec(Start(reqCap, respCap), ServedCall(id, q, ts, us) + acts).core.replies == map[]
  {
    var s0, first := Start(reqCap, respCap), ServedCall(id, q, ts, us);
    ServedCallLeavesResponse(reqCap, respCap, id, q, ts, us);
    ResponseBytesLength(Task(id, q), ts, us);
    OversizedResponseSilencesGateway(Exec(s0, first), acts);
    ExecAppend(s0, first, acts);
  }
}
