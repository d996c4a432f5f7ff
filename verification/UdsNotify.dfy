/** The socket transport: a writer appends a record and then sends one byte over a Unix socket. The
    backend reads one record per byte; the gateway drains the whole ring per byte, so bytes and
    responses need not match one to one. Steps of all parties interleave arbitrarily. */
module UdsNotify {
  import opened LittleEndian
  import opened Fifo
  import opened Codec
  import opened CallCore
  import CR = CoreRuns

  const REQUEST_BUFFER: nat := 65536
  const RESPONSE_BUFFER: nat := 131072

  /** `reqBytes` and `respBytes` are notification bytes in flight; `backendHolds` says the backend
      has taken a byte and not yet read, `draining` that the gateway is in its inner loop,
      `toNotify` counts tasks that wrote a response and have not sent its byte. `reqMissed` and
      `respMissed` are history: bytes that failed to be sent or were spent on a failed read. */
  datatype State = State(core: Core, reqBytes: nat, backendHolds: bool,
                         respBytes: nat, draining: bool, toNotify: nat,
                         reqMissed: nat, respMissed: nat)

  datatype Action =
    | StartCall(id: Id, request: Request)
    | WriteRequest(id: Id)
    | NotifyRequest(id: Id, ok: bool)
    | BackendTakeByte
    | BackendRead
    | FinishTask(k: nat, ts: I64, us: I64)
    | NotifyResponse(ok: bool)
    | GatewayTakeByte
    | GatewayDrain

  predicate CanTake(s: State, a: Action) {
    match a
    case StartCall(id, q) => CallCore.Enabled(s.core, Register(id, q))
    case WriteRequest(id) => CallCore.Enabled(s.core, PostRequest(id))
    case NotifyRequest(id, ok) => CallCore.Enabled(s.core, Notify(id, ok))
    case BackendTakeByte => !s.backendHolds && s.reqBytes > 0
    case BackendRead => s.backendHolds
    case FinishTask(k, ts, us) => CallCore.Enabled(s.core, PostResponse(k, ts, us))
    case NotifyResponse(_) => s.toNotify > 0
    case GatewayTakeByte => !s.draining && s.respBytes > 0
    case GatewayDrain => s.draining
  }

  function StepNotifyRequest(s: State, id: Id, ok: bool): State
    requires CanTake(s, NotifyRequest(id, ok))
  {
    var s' := s.(core := Apply(s.core, Notify(id, ok)));
    if ok then s'.(reqBytes := s.reqBytes + 1) else s'.(reqMissed := s.reqMissed + 1)
  }

  function StepNotifyResponse(s: State, ok: bool): State
    requires s.toNotify > 0
  {
    var s' := s.(toNotify := s.toNotify - 1);
    if ok then s'.(respBytes := s.respBytes + 1) else s'.(respMissed := s.respMissed + 1)
  }

  function StepBackendRead(s: State): State {
    var s' := s.(core := Apply(s.core, Fetch(REQUEST_BUFFER)), backendHolds := false);
    if Peek(s.core.reqRing, REQUEST_BUFFER).Got? then s' else s'.(reqMissed := s.reqMissed + 1)
  }

  /** One turn of the drain loop: it ends on the first failed read. */
  function StepGatewayDrain(s: State): State {
    if Peek(s.core.respRing, RESPONSE_BUFFER).Got?
    then s.(core := Apply(s.core, Deliver(RESPONSE_BUFFER)))
    else s.(draining := false)
  }

  function StepFinishTask(s: State, k: nat, ts: I64, us: I64): State
    requires CanTake(s, FinishTask(k, ts, us))
  {
    s.(core := Apply(s.core, PostResponse(k, ts, us)),
       toNotify := s.toNotify + if PostAccepted(s.core, PostResponse(k, ts, us)) then 1 else 0)
  }

  /** The state after action `a`; an action that cannot be taken leaves it alone. */
  function Next(s: State, a: Action): State {
    if !CanTake(s, a) then s else
    match a
    case StartCall(id, q) => s.(core := Apply(s.core, Register(id, q)))
    case WriteRequest(id) => s.(core := Apply(s.core, PostRequest(id)))
    case NotifyRequest(id, ok) => StepNotifyRequest(s, id, ok)
    case BackendTakeByte => s.(backendHolds := true, reqBytes := s.reqBytes - 1)
    case BackendRead => StepBackendRead(s)
    case FinishTask(k, ts, us) => StepFinishTask(s, k, ts, us)
    case NotifyResponse(ok) => StepNotifyResponse(s, ok)
    case GatewayTakeByte => s.(draining := true, respBytes := s.respBytes - 1)
    case GatewayDrain => StepGatewayDrain(s)
  }

  function Exec(s: State, acts: seq<Action>): State
    decreases |acts|
  {
    if acts == [] then s else Exec(Next(s, acts[0]), acts[1..])
  }

  function Start(reqCap: nat, respCap: nat): State {
    State(CR.EmptyCore(reqCap, respCap), 0, false, 0, false, 0, 0, 0)
  }

  // ---------- the invariant ----------

  /** Request direction: one byte stands for one record, as an equality. */
  ghost predicate Tokens(s: State) {
    |s.core.reqRing| ==
      s.reqBytes + (if s.backendHolds then 1 else 0) + |InStage(s.core.calls, Posted)| + s.reqMissed
  }

  /** Response direction: while the gateway sleeps, every unread response still has a byte coming,
      unless its notification failed. Surplus bytes are allowed. */
  ghost predicate NoLostWakeUp(s: State) {
    !s.draining ==> |s.core.respRing| <= s.respBytes + s.toNotify + s.respMissed
  }

  ghost predicate Inv(s: State) {
    && CallCore.Inv(s.core)
    && ResponsesFit(s.core, REQUEST_BUFFER)
    && Tokens(s)
    && NoLostWakeUp(s)
  }

  lemma StartHasInv(reqCap: nat, respCap: nat)
    requires 0 < reqCap <= U64 && 0 < respCap <= U64
    ensures Inv(Start(reqCap, respCap))
  {
    CR.EmptyHasInv(reqCap, respCap);
    assert InStage(map[], Posted) == {};
  }

  /** Which operation on the shared core an action performs, if any. */
  function CoreOp(s: State, a: Action): Option<Op> {
    match a
    case StartCall(id, q) => Some(Register(id, q))
    case WriteRequest(id) => Some(PostRequest(id))
    case NotifyRequest(id, ok) => Some(Notify(id, ok))
    case BackendRead => Some(Fetch(REQUEST_BUFFER))
    case FinishTask(k, ts, us) => Some(PostResponse(k, ts, us))
    case GatewayDrain => if Peek(s.core.respRing, RESPONSE_BUFFER).Got? then Some(Deliver(RESPONSE_BUFFER)) else None
    case _ => None
  }

  lemma CoreMoves(s: State, a: Action)
    requires CanTake(s, a)
    ensures CoreOp(s, a).Some? ==>
      CallCore.Enabled(s.core, CoreOp(s, a).value) && Next(s, a).core == Apply(s.core, CoreOp(s, a).value)
    ensures CoreOp(s, a).None? ==> Next(s, a).core == s.core
  {}

  lemma CoreInvKept(s: State, a: Action)
    requires CallCore.Inv(s.core) && ResponsesFit(s.core, REQUEST_BUFFER)
    ensures CallCore.Inv(Next(s, a).core) && ResponsesFit(Next(s, a).core, REQUEST_BUFFER)
  {
    if CanTake(s, a) {
      CoreMoves(s, a);
      if CoreOp(s, a).Some? {
        OperationKeepsInv(s.core, CoreOp(s, a).value);
        ResponsesFitKept(s.core, CoreOp(s, a).value, REQUEST_BUFFER);
      }
    }
  }

  /** Whatever the backend could read, the gateway can read the answer to: a drain ends only on an
      empty ring. */
  lemma EveryResponseIsReadable(s: State)
    requires ResponsesFit(s.core, REQUEST_BUFFER)
    ensures Peek(s.core.respRing, RESPONSE_BUFFER).Got? <==> s.core.respRing != []
  {
    assert s.core.respRing != [] ==> s.core.respRing[0] in s.core.respRing;
  }

  /** A request is readable by the backend iff it is at most 65536 bytes, a response by the gateway iff
      the request it answers is at most 131064. */
  lemma ReadableLengths(id: Id, q: Request, p: Response)
    requires IsEcho(q, p)
    ensures Peek([EncodeRequest(id, q)], REQUEST_BUFFER).Got? <==> WireLength(id, q) <= 65536
    ensures Peek([EncodeResponse(id, p)], RESPONSE_BUFFER).Got? <==> WireLength(id, q) <= 131064
  {
    RequestLength(id, q);
    ResponseLength(id, q, p);
  }

  lemma TokensKept(s: State, a: Action)
    requires Tokens(s)
    ensures Tokens(Next(s, a))
  {
    if CanTake(s, a) {
      CoreMoves(s, a);
      if CoreOp(s, a).Some? {
        StagesCounted(s.core, CoreOp(s, a).value);
        QueueLengths(s.core, CoreOp(s, a).value);
      }
    }
  }

  lemma DrainKeepsWakeUp(s: State)
    requires Inv(s) && CanTake(s, GatewayDrain)
    ensures NoLostWakeUp(Next(s, GatewayDrain))
  {
    EveryResponseIsReadable(s);
  }

  lemma FinishKeepsWakeUp(s: State, k: nat, ts: I64, us: I64)
    requires NoLostWakeUp(s) && CanTake(s, FinishTask(k, ts, us))
    ensures NoLostWakeUp(Next(s, FinishTask(k, ts, us)))
  {
    QueueLengths(s.core, PostResponse(k, ts, us));
  }

  /** Steps that neither add nor take a response. */
  lemma OtherStepsKeepWakeUp(s: State, a: Action)
    requires NoLostWakeUp(s) && CanTake(s, a) && !a.FinishTask? && !a.GatewayDrain?
    ensures NoLostWakeUp(Next(s, a))
  {
    if CoreOp(s, a).Some? {
      RingsAfter(s.core, CoreOp(s, a).value);
    }
  }

  /** No interleaving of surplus bytes, late notifications and writes that race with the end of a
      drain leaves a response behind with the gateway asleep. */
  lemma NoWakeUpIsLost(s: State, a: Action)
    requires Inv(s)
    ensures NoLostWakeUp(Next(s, a))
  {
    if CanTake(s, a) {
      match a {
        case GatewayDrain => DrainKeepsWakeUp(s);
        case FinishTask(k, ts, us) => FinishKeepsWakeUp(s, k, ts, us);
        case _ => OtherStepsKeepWakeUp(s, a);
      }
    }
  }

  lemma StepKeepsInv(s: State, a: Action)
    requires Inv(s)
    ensures Inv(Next(s, a))
  {
    CoreInvKept(s, a);
    TokensKept(s, a);
    NoWakeUpIsLost(s, a);
  }

  lemma {:induction false} RunKeepsInv(s: State, acts: seq<Action>)
    requires Inv(s)
    ensures Inv(Exec(s, acts))
    decreases |acts|
  {
    if acts != [] {
      StepKeepsInv(s, acts[0]);
      RunKeepsInv(Next(s, acts[0]), acts[1..]);
    }
  }

  /** In every reachable state: each unread request is accounted for by a byte, the holder of one, a
      writer yet to notify or a miss; a sleeping gateway has a byte or a notifying task coming for
      every unread response; and the gateway can read whatever heads its ring. */
  lemma ReachableStates(reqCap: nat, respCap: nat, acts: seq<Action>)
    requires 0 < reqCap <= U64 && 0 < respCap <= U64
    ensures var s := Exec(Start(reqCap, respCap), acts);
      && Tokens(s) && NoLostWakeUp(s)
      && (Peek(s.core.respRing, RESPONSE_BUFFER).Got? <==> s.core.respRing != [])
  {
    StartHasInv(reqCap, respCap);
    RunKeepsInv(Start(reqCap, respCap), acts);
    EveryResponseIsReadable(Exec(Start(reqCap, respCap), acts));
  }

  // ---------- refinement of the abstract exchange ----------

  /** The cores a run goes through. */
  function Trace(s: State, acts: seq<Action>): (t: seq<Core>)
    ensures |t| == |acts| + 1 && t[0] == s.core && t[|acts|] == Exec(s, acts).core
    decreases |acts|
  {
    [s.core] + if acts == [] then [] else Trace(Next(s, acts[0]), acts[1..])
  }

  lemma StepMovesCore(s: State, a: Action)
    ensures CR.Step(s.core, Next(s, a).core)
  {
    if CanTake(s, a) {
      CoreMoves(s, a);
      if CoreOp(s, a).Some? {
        assert CR.Moves(s.core, CoreOp(s, a).value, Next(s, a).core);
      }
    }
  }

  lemma {:induction false} TraceIsRun(s: State, acts: seq<Action>)
    ensures CR.IsRun(Trace(s, acts))
    decreases |acts|
  {
    if acts != [] {
      StepMovesCore(s, acts[0]);
      TraceIsRun(Next(s, acts[0]), acts[1..]);
      CR.RunExtends(s.core, Trace(Next(s, acts[0]), acts[1..]));
    }
  }

  /** Every run from the start is a run of the abstract exchange: each request is answered at most
      once, for good, by its own echo, and a call that returns Ok returns that echo. */
  lemma RunServesExchange(reqCap: nat, respCap: nat, acts: seq<Action>)
    requires 0 < reqCap <= U64 && 0 < respCap <= U64
    ensures CR.ServesExchange(Trace(Start(reqCap, respCap), acts))
  {
    TraceIsRun(Start(reqCap, respCap), acts);
    CR.RunsServeExchange(Trace(Start(reqCap, respCap), acts), reqCap, respCap);
  }

  /** What a call has returned is final over every later run, and an id that was lost stays in the
      pending map for good. */
  lemma ReturnsAndLossesAreFinal(s: State, acts: seq<Action>, id: Id)
    requires Inv(s) && id in s.core.calls
    ensures id in Exec(s, acts).core.calls
    ensures Result(s.core, id) != Running ==> Result(Exec(s, acts).core, id) == Result(s.core, id)
    ensures id in s.core.lost ==> id in Exec(s, acts).core.lost && id in Exec(s, acts).core.pending
  {
    TraceIsRun(s, acts);
    CR.ReturnsAndLossesAreFinal(Trace(s, acts), 0, |acts|, id);
  }

  // ---------- quiescence ----------

  /** Work left in the system: that of the core, and that of each byte on its way. */
  function Measure(s: State): nat {
    Work(s.core) + 2 * s.reqBytes + (if s.backendHolds then 1 else 0)
    + 3 * s.toNotify + 2 * s.respBytes + (if s.draining then 1 else 0)
  }

  /** With no new calls every step brings the system strictly closer to rest. */
  lemma StepsDecreaseMeasure(s: State, a: Action)
    requires CanTake(s, a) && !a.StartCall?
    ensures Measure(Next(s, a)) < Measure(s)
  {
    CoreMoves(s, a);
    if CoreOp(s, a).Some? {
      WorkDone(s.core, CoreOp(s, a).value);
    }
  }

  /** Every action of the run could be taken, and none is a new call. */
  ghost predicate BusyRun(s: State, acts: seq<Action>)
    decreases |acts|
  {
    acts == [] || (CanTake(s, acts[0]) && !acts[0].StartCall? && BusyRun(Next(s, acts[0]), acts[1..]))
  }

  lemma {:induction false} BusyRunsAreShort(s: State, acts: seq<Action>)
    requires BusyRun(s, acts)
    ensures |acts| + Measure(Exec(s, acts)) <= Measure(s)
    decreases |acts|
  {
    if acts != [] {
      StepsDecreaseMeasure(s, acts[0]);
      BusyRunsAreShort(Next(s, acts[0]), acts[1..]);
    }
  }

  ghost predicate Quiescent(s: State) {
    forall a: Action :: CanTake(s, a) ==> a.StartCall?
  }

  lemma QuiescentIsIdle(s: State)
    requires Quiescent(s)
    ensures InStage(s.core.calls, Registered) == {} && InStage(s.core.calls, Posted) == {}
    ensures s.reqBytes == 0 && !s.backendHolds && s.core.tasks == []
    ensures s.toNotify == 0 && s.respBytes == 0 && !s.draining
  {
    forall id | id in s.core.calls
      ensures s.core.calls[id].stage != Registered && s.core.calls[id].stage != Posted
    {
      assert !CanTake(s, WriteRequest(id)) && !CanTake(s, NotifyRequest(id, true));
    }
    assert !CanTake(s, BackendRead) && !CanTake(s, BackendTakeByte) && !CanTake(s, NotifyResponse(true));
    assert !CanTake(s, GatewayDrain) && !CanTake(s, GatewayTakeByte);
    assert !CanTake(s, FinishTask(0, 0, 0));
  }

  /** The same step with its signal, if any, going through. */
  function Benign(a: Action): Action {
    match a
    case NotifyRequest(id, _) => NotifyRequest(id, true)
    case NotifyResponse(_) => NotifyResponse(true)
    case _ => a
  }

  /** From every state the parties can come to rest without a new call and without any failing
      signal; by the measure they cannot avoid it for longer than the work left. */
  lemma {:induction false} RestIsReachable(s: State) returns (acts: seq<Action>)
    ensures BusyRun(s, acts) && Quiescent(Exec(s, acts))
    ensures forall a :: a in acts ==> Benign(a) == a
    decreases Measure(s)
  {
    if Quiescent(s) {
      acts := [];
    } else {
      var b: Action :| CanTake(s, b) && !b.StartCall?;
      var a := Benign(b);
      StepsDecreaseMeasure(s, a);
      var rest := RestIsReachable(Next(s, a));
      acts := [a] + rest;
      assert acts[1..] == rest;
    }
  }

  /** At rest unread requests are exactly the missed ones, unread responses at most the missed ones. */
  lemma RestingState(s: State)
    requires Inv(s) && Quiescent(s)
    ensures |s.core.reqRing| == s.reqMissed && |s.core.respRing| <= s.respMissed
    ensures |s.core.pending| <= s.reqMissed + s.respMissed + |s.core.lost|
    ensures s.core.pending == LeftInRings(s.core) + s.core.lost && LeftInRings(s.core) !! s.core.lost
  {
    QuiescentIsIdle(s);
    HeadCount(s.core);
    IdlePending(s.core);
  }

  // ---------- runs in which every notification succeeds ----------

  predicate NotificationSucceeds(a: Action) {
    Benign(a) == a
  }

  /** Only a lost request can have failed, a request can have been missed only behind an oversized
      head, no notification is missing, and no answered request was too long. */
  ghost predicate Steady(s: State) {
    && (s.reqMissed > 0 ==> RequestHeadStuck(s.core, REQUEST_BUFFER))
    && s.respMissed == 0
    && RepliesFit(s.core, REQUEST_BUFFER)
    && forall id :: id in s.core.calls && s.core.calls[id].stage == Failed ==> id in s.core.lost
  }

  /** A step on which the backend reads with its own buffer keeps an oversized request in place. */
  lemma StuckStep(s: State, a: Action)
    requires RequestHeadStuck(s.core, REQUEST_BUFFER)
    ensures RequestHeadStuck(Next(s, a).core, REQUEST_BUFFER)
    ensures multiset(Next(s, a).core.tasks) <= multiset(s.core.tasks)
  {
    if CanTake(s, a) {
      CoreMoves(s, a);
      if CoreOp(s, a).Some? {
        StuckRequestKept(s.core, CoreOp(s, a).value, REQUEST_BUFFER);
      }
    }
  }

  lemma SteadyKept(s: State, a: Action)
    requires Inv(s) && Steady(s) && NotificationSucceeds(a)
    ensures Steady(Next(s, a))
  {
    if RequestHeadStuck(s.core, REQUEST_BUFFER) {
      StuckStep(s, a);
    }
    if CanTake(s, a) {
      CoreMoves(s, a);
      if CoreOp(s, a).Some? {
        assert s.core.respRing != [] ==> s.core.respRing[0] in s.core.respRing;
        RepliesFitKept(s.core, CoreOp(s, a).value, REQUEST_BUFFER);
        FailedAreLostKept(s.core, CoreOp(s, a).value);
      }
    }
  }

  lemma {:induction false} SteadyRun(s: State, acts: seq<Action>)
    requires Inv(s) && Steady(s) && forall a :: a in acts ==> NotificationSucceeds(a)
    ensures Inv(Exec(s, acts)) && Steady(Exec(s, acts))
    decreases |acts|
  {
    if acts != [] {
      assert acts[0] in acts;
      StepKeepsInv(s, acts[0]);
      SteadyKept(s, acts[0]);
      assert forall a :: a in acts[1..] ==> a in acts;
      SteadyRun(Next(s, acts[0]), acts[1..]);
    }
  }

  lemma AnsweredIffShortAtRest(s: State)
    requires Inv(s) && Steady(s) && Quiescent(s)
    ensures AllAnswered(s.core) <==> AllShort(s.core, REQUEST_BUFFER)
    ensures AllAnswered(s.core) <==> s.core.pending == s.core.lost
  {
    QuiescentIsIdle(s);
    RestingState(s);
    IdleAnswered(s.core, REQUEST_BUFFER);
    if AllShort(s.core, REQUEST_BUFFER) {
      AllShortRecords(s.core, REQUEST_BUFFER);
      assert s.core.reqRing == [] && s.core.respRing == [];
    }
  }

  /** When no notification fails, then at rest every call not refused by a full ring has returned Ok
      iff every request not refused fits the backend's buffer, and exactly then the pending map is
      down to the refused ones. */
  lemma AnsweredIffShort(reqCap: nat, respCap: nat, acts: seq<Action>)
    requires 0 < reqCap <= U64 && 0 < respCap <= U64
    requires forall a :: a in acts ==> NotificationSucceeds(a)
    requires Quiescent(Exec(Start(reqCap, respCap), acts))
    ensures var c := Exec(Start(reqCap, respCap), acts).core;
      && (AllAnswered(c) <==> AllShort(c, REQUEST_BUFFER))
      && (AllAnswered(c) <==> c.pending == c.lost)
      && forall id :: id in c.calls && Result(c, id).ReturnsOk? ==>
           IsEcho(c.calls[id].request, Result(c, id).response)
  {
    StartHasInv(reqCap, respCap);
    SteadyRun(Start(reqCap, respCap), acts);
    AnsweredIffShortAtRest(Exec(Start(reqCap, respCap), acts));
    var c := Exec(Start(reqCap, respCap), acts).core;
    forall id | id in c.calls && Result(c, id).ReturnsOk?
      ensures IsEcho(c.calls[id].request, Result(c, id).response)
    {
      OkIsOwnEcho(c, id);
    }
  }

  predicate Modest(a: Action) {
    NotificationSucceeds(a) && (a.StartCall? ==> WireLength(a.id, a.request) <= REQUEST_BUFFER)
  }

  lemma {:induction false} ModestRunsFit(s: State, acts: seq<Action>)
    requires CallsFit(s.core, REQUEST_BUFFER) && forall a :: a in acts ==> Modest(a)
    ensures CallsFit(Exec(s, acts).core, REQUEST_BUFFER)
    decreases |acts|
  {
    if acts != [] {
      var a := acts[0];
      assert a in acts;
      if CanTake(s, a) {
        CoreMoves(s, a);
        if CoreOp(s, a).Some? {
          CallsFitKept(s.core, CoreOp(s, a).value, REQUEST_BUFFER);
        }
      }
      assert forall b :: b in acts[1..] ==> b in acts;
      ModestRunsFit(Next(s, a), acts[1..]);
    }
  }

  /** If requests are at most 65536 bytes and no notification fails, then at rest the pending map holds
      exactly the ids a full ring refused, and every other call has returned its own echo. */
  lemma EveryoneIsAnswered(reqCap: nat, respCap: nat, acts: seq<Action>)
    requires 0 < reqCap <= U64 && 0 < respCap <= U64
    requires (forall a :: a in acts ==> Modest(a)) && Quiescent(Exec(Start(reqCap, respCap), acts))
    ensures var c := Exec(Start(reqCap, respCap), acts).core;
      && c.pending == c.lost
      && forall id :: id in c.calls ==>
           (Result(c, id).ReturnsOk? <==> id !in c.lost) &&
           (Result(c, id).ReturnsOk? ==> IsEcho(c.calls[id].request, Result(c, id).response))
  {
    StartHasInv(reqCap, respCap);
    ModestRunsFit(Start(reqCap, respCap), acts);
    AnsweredIffShort(reqCap, respCap, acts);
    SteadyRun(Start(reqCap, respCap), acts);
    var c := Exec(Start(reqCap, respCap), acts).core;
    forall id | id in c.calls
      ensures Result(c, id).ReturnsOk? <==> id !in c.lost
    {
      if id in c.lost {
        LostIsPending(c, id);
      }
    }
  }

  // ---------- a concurrency limit under which nothing is lost ----------

  /** The run never has more than `limit` calls pending. */
  ghost predicate Limited(s: State, acts: seq<Action>, limit: nat)
    decreases |acts|
  {
    acts == [] ||
    ((acts[0].StartCall? ==> |s.core.pending| < limit) && Limited(Next(s, acts[0]), acts[1..], limit))
  }

  lemma {:induction false} LimitedRunsLoseNothing(s: State, acts: seq<Action>, limit: nat)
    requires Inv(s) && Roomy(s.core, REQUEST_BUFFER, limit)
    requires (forall a :: a in acts ==> Modest(a)) && Limited(s, acts, limit)
    ensures Exec(s, acts).core.lost == {}
    decreases |acts|
  {
    if acts != [] {
      var a := acts[0];
      assert a in acts;
      StepKeepsInv(s, a);
      if CanTake(s, a) {
        CoreMoves(s, a);
        if CoreOp(s, a).Some? {
          RoomyKept(s.core, CoreOp(s, a).value, REQUEST_BUFFER, limit);
        }
      }
      assert forall b :: b in acts[1..] ==> b in acts;
      LimitedRunsLoseNothing(Next(s, a), acts[1..], limit);
    }
  }

  const DEFAULT_CAPACITY: nat := 64 * 1024 * 1024

  /** With the default 64 MiB rings, at most 1023 calls pending at a time, requests of at most 65536
      bytes and no failed notification, every call has returned its own echo once the system rests. */
  lemma ThousandCallersAreAllAnswered(acts: seq<Action>)
    requires forall a :: a in acts ==> Modest(a)
    requires Limited(Start(DEFAULT_CAPACITY, DEFAULT_CAPACITY), acts, 1023)
    requires Quiescent(Exec(Start(DEFAULT_CAPACITY, DEFAULT_CAPACITY), acts))
    ensures var c := Exec(Start(DEFAULT_CAPACITY, DEFAULT_CAPACITY), acts).core;
      c.pending == {} && forall id :: id in c.calls ==>
        Result(c, id).ReturnsOk? && IsEcho(c.calls[id].request, Result(c, id).response)
  {
    BulkIsProduct(1023, REQUEST_BUFFER + 8);
    StartHasInv(DEFAULT_CAPACITY, DEFAULT_CAPACITY);
    LimitedRunsLoseNothing(Start(DEFAULT_CAPACITY, DEFAULT_CAPACITY), acts, 1023);
    EveryoneIsAnswered(DEFAULT_CAPACITY, DEFAULT_CAPACITY, acts);
  }

  // ---------- oversized requests ----------

  /** Once an oversized request heads the request ring, no later action of anyone spawns a task. */
  lemma {:induction false} OversizedRequestStopsBackend(s: State, acts: seq<Action>)
    requires RequestHeadStuck(s.core, REQUEST_BUFFER)
    ensures RequestHeadStuck(Exec(s, acts).core, REQUEST_BUFFER)
    ensures multiset(Exec(s, acts).core.tasks) <= multiset(s.core.tasks)
    decreases |acts|
  {
    if acts != [] {
      StuckStep(s, acts[0]);
      OversizedRequestStopsBackend(Next(s, acts[0]), acts[1..]);
    }
  }

  /** From the start, one call whose request exceeds the backend's buffer stops the backend for good:
      whatever anyone does afterwards, no task is ever spawned. */
  lemma LongRequestStopsBackend(reqCap: nat, respCap: nat, id: Id, q: Request, acts: seq<Action>)
    requires WireLength(id, q) > REQUEST_BUFFER && PREFIX + WireLength(id, q) < reqCap
    ensures Exec(Start(reqCap, respCap), [StartCall(id, q), WriteRequest(id)] + acts).core.tasks == []
  {
    var s0 := Start(reqCap, respCap);
    RequestLength(id, q);
    var s2 := Next(Next(s0, StartCall(id, q)), WriteRequest(id));
    assert RequestHeadStuck(s2.core, REQUEST_BUFFER) && s2.core.tasks == [];
    OversizedRequestStopsBackend(s2, acts);
    var all := [StartCall(id, q), WriteRequest(id)] + acts;
    assert all[1..] == [WriteRequest(id)] + acts && all[1..][1..] == acts;
    NoTasks(Exec(s2, acts).core.tasks);
    assert Exec(s0, all) == Exec(Next(s0, StartCall(id, q)), all[1..]) == Exec(s2, acts);
  }
}
