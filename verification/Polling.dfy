/** The polling transport: no ids and no notifications. Callers write a request and then poll the
    response ring; the server takes requests one at a time. Messages carry an empty id in the
    layout of `Codec`, which stands in for JSON. Steps of all parties interleave arbitrarily. */
module Polling {
  import opened LittleEndian
  import opened Fifo
  import opened Codec

  const BUFFER: nat := 65536

  datatype Outcome = Polling | Ok(response: Response) | Err
  datatype Call = Call(request: Request, outcome: Outcome)

  /** `accepted`, `kept` and `handed` are history: the requests the ring took, in order; for each
      one the server is done with, whether its response was written; and each response a caller
      received, in order. */
  datatype State = State(reqCap: nat, respCap: nat,
                         reqRing: seq<Payload>, respRing: seq<Payload>, busy: Option<Request>,
                         calls: map<nat, Call>,
                         accepted: seq<Request>, kept: seq<bool>, handed: seq<(nat, Response)>)

  datatype Action =
    | Begin(n: nat, request: Request)
    | ServerPoll
    | ServerReply(ts: I64, us: I64)
    | Poll(n: nat)
    | TimeOut(n: nat)

  function RequestBytes(q: Request): Payload { EncodeRequest([], q) }

  function EchoBytes(q: Request, ts: I64, us: I64): Payload {
    EncodeResponse([], Response(q.message, ts, us, q.payload))
  }

  function StepBegin(s: State, n: nat, q: Request): State {
    if Fits(s.reqCap, s.reqRing, RequestBytes(q))
    then s.(reqRing := s.reqRing + [RequestBytes(q)], calls := s.calls[n := Call(q, Polling)],
            accepted := s.accepted + [q])
    else s.(calls := s.calls[n := Call(q, Err)])
  }

  /** A failed read leaves everything alone; a record that does not parse is dropped. */
  function StepServerPoll(s: State): State {
    match Peek(s.reqRing, BUFFER)
    case Got(d) =>
      var rest := s.(reqRing := s.reqRing[1..]);
      (match DecodeRequest(d)
       case None => rest.(kept := s.kept + [false])
       case Some((_, q)) => rest.(busy := Some(q)))
    case _ => s
  }

  function StepServerReply(s: State, ts: I64, us: I64): State
    requires s.busy.Some?
  {
    var d := EchoBytes(s.busy.value, ts, us);
    if Fits(s.respCap, s.respRing, d)
    then s.(respRing := s.respRing + [d], busy := None, kept := s.kept + [true])
    else s.(busy := None, kept := s.kept + [false])
  }

  function StepPoll(s: State, n: nat): State
    requires n in s.calls
  {
    match Peek(s.respRing, BUFFER)
    case Got(d) =>
      var rest := s.(respRing := s.respRing[1..]);
      (match DecodeResponse(d)
       case None => rest.(calls := s.calls[n := s.calls[n].(outcome := Err)])
       case Some((_, p)) => rest.(calls := s.calls[n := s.calls[n].(outcome := Ok(p))], handed := s.handed + [(n, p)]))
    case _ => s
  }

  predicate CanTake(s: State, a: Action) {
    match a
    case Begin(n, _) => n !in s.calls
    case ServerPoll => s.busy.None?
    case ServerReply(_, _) => s.busy.Some?
    case Poll(n) => n in s.calls && s.calls[n].outcome.Polling?
    case TimeOut(n) => n in s.calls && s.calls[n].outcome.Polling?
  }

  /** The state after action `a`; an action that cannot be taken leaves it alone. */
  function Next(s: State, a: Action): State {
    if !CanTake(s, a) then s else
    match a
    case Begin(n, q) => StepBegin(s, n, q)
    case ServerPoll => StepServerPoll(s)
    case ServerReply(ts, us) => StepServerReply(s, ts, us)
    case Poll(n) => StepPoll(s, n)
    case TimeOut(n) => s.(calls := s.calls[n := s.calls[n].(outcome := Err)])
  }

  function Exec(s: State, acts: seq<Action>): State
    decreases |acts|
  {
    if acts == [] then s else Exec(Next(s, acts[0]), acts[1..])
  }

  function Start(reqCap: nat, respCap: nat): State {
    State(reqCap, respCap, [], [], None, map[], [], [], [])
  }

  // ---------- order is kept ----------

  /** The requests whose response was written back, in order. */
  function WrittenBack(accepted: seq<Request>, kept: seq<bool>): seq<Request>
    requires |kept| <= |accepted|
    decreases |kept|
  {
    if kept == [] then []
    else
      var k := |kept| - 1;
      WrittenBack(accepted, kept[..k]) + if kept[k] then [accepted[k]] else []
  }

  lemma {:induction false} WrittenBackStable(accepted: seq<Request>, q: Request, kept: seq<bool>)
    requires |kept| <= |accepted|
    ensures WrittenBack(accepted + [q], kept) == WrittenBack(accepted, kept)
    decreases |kept|
  {
    if kept != [] {
      WrittenBackStable(accepted, q, kept[..|kept| - 1]);
    }
  }

  lemma WrittenBackGrows(accepted: seq<Request>, kept: seq<bool>, b: bool)
    requires |kept| < |accepted|
    ensures WrittenBack(accepted, kept + [b]) ==
      WrittenBack(accepted, kept) + if b then [accepted[|kept|]] else []
  {
    assert (kept + [b])[..|kept|] == kept;
  }

  function Held(busy: Option<Request>): nat {
    if busy.Some? then 1 else 0
  }

  /** The server has worked through `accepted` in order: `done` of them, then the one it holds,
      then those still in the ring. */
  ghost predicate RequestsInOrder(accepted: seq<Request>, done: nat, busy: Option<Request>, ring: seq<Payload>) {
    && |accepted| == done + Held(busy) + |ring|
    && (busy.Some? ==> busy.value == accepted[done])
    && forall j :: 0 <= j < |ring| ==> DecodeRequest(ring[j]) == Some(([], accepted[done + Held(busy) + j]))
  }

  ghost predicate EchoOf(q: Request, d: Payload) {
    match DecodeResponse(d) case Some((_, p)) => IsEcho(q, p) case None => false
  }

  /** The responses handed out, then those still in the ring, echo `w` in order. */
  ghost predicate ResponsesInOrder(w: seq<Request>, handed: seq<(nat, Response)>, ring: seq<Payload>) {
    && |w| == |handed| + |ring|
    && (forall i :: 0 <= i < |handed| ==> IsEcho(w[i], handed[i].1))
    && forall j :: 0 <= j < |ring| ==> EchoOf(w[|handed| + j], ring[j])
  }

  /** Each response went to one caller, and each caller took at most one. */
  ghost predicate HandedOnce(calls: map<nat, Call>, handed: seq<(nat, Response)>) {
    && (forall i :: 0 <= i < |handed| ==> handed[i].0 in calls && calls[handed[i].0].outcome == Ok(handed[i].1))
    && (forall i, j :: 0 <= i < j < |handed| ==> handed[i].0 != handed[j].0)
    && forall n :: n in calls && calls[n].outcome.Ok? ==> exists i :: 0 <= i < |handed| && handed[i].0 == n
  }

  ghost predicate Inv(s: State) {
    && s.reqCap <= U64 && s.respCap <= U64
    && RequestsInOrder(s.accepted, |s.kept|, s.busy, s.reqRing)
    && ResponsesInOrder(WrittenBack(s.accepted, s.kept), s.handed, s.respRing)
    && HandedOnce(s.calls, s.handed)
  }

  lemma RequestDecodes(q: Request)
    requires |RequestBytes(q)| < U64
    ensures DecodeRequest(RequestBytes(q)) == Some(([], q))
  {
    RequestRoundTrip([], q, []);
    assert RequestBytes(q) + [] == RequestBytes(q);
  }

  lemma EchoDecodes(q: Request, ts: I64, us: I64)
    requires |EchoBytes(q, ts, us)| < U64
    ensures EchoOf(q, EchoBytes(q, ts, us))
  {
    ResponseRoundTrip([], Response(q.message, ts, us, q.payload), []);
    assert EchoBytes(q, ts, us) + [] == EchoBytes(q, ts, us);
  }

  lemma RequestQueued(accepted: seq<Request>, done: nat, busy: Option<Request>, ring: seq<Payload>,
                      q: Request, d: Payload)
    requires RequestsInOrder(accepted, done, busy, ring) && DecodeRequest(d) == Some(([], q))
    ensures RequestsInOrder(accepted + [q], done, busy, ring + [d])
  {}

  lemma RequestTaken(accepted: seq<Request>, done: nat, ring: seq<Payload>)
    requires RequestsInOrder(accepted, done, None, ring) && ring != []
    ensures done < |accepted| && DecodeRequest(ring[0]) == Some(([], accepted[done]))
    ensures RequestsInOrder(accepted, done, Some(accepted[done]), ring[1..])
  {
    assert DecodeRequest(ring[0]) == Some(([], accepted[done + 0]));
    forall j | 0 <= j < |ring[1..]|
      ensures DecodeRequest(ring[1..][j]) == Some(([], accepted[done + 1 + j]))
    {
      assert ring[1..][j] == ring[j + 1];
    }
  }

  lemma RequestDone(accepted: seq<Request>, done: nat, busy: Option<Request>, ring: seq<Payload>)
    requires RequestsInOrder(accepted, done, busy, ring) && busy.Some?
    ensures RequestsInOrder(accepted, done + 1, None, ring)
  {}

  lemma ResponseQueued(w: seq<Request>, handed: seq<(nat, Response)>, ring: seq<Payload>, q: Request, d: Payload)
    requires ResponsesInOrder(w, handed, ring) && EchoOf(q, d)
    ensures ResponsesInOrder(w + [q], handed, ring + [d])
  {}

  lemma ResponseTaken(w: seq<Request>, handed: seq<(nat, Response)>, ring: seq<Payload>, n: nat)
    requires ResponsesInOrder(w, handed, ring) && ring != []
    ensures DecodeResponse(ring[0]).Some?
    ensures ResponsesInOrder(w, handed + [(n, DecodeResponse(ring[0]).value.1)], ring[1..])
  {
    assert EchoOf(w[|handed| + 0], ring[0]);
    forall j | 0 <= j < |ring[1..]| ensures EchoOf(w[|handed| + 1 + j], ring[1..][j]) {
      assert ring[1..][j] == ring[j + 1] && EchoOf(w[|handed| + (j + 1)], ring[j + 1]);
    }
  }

  lemma HandedMore(calls: map<nat, Call>, handed: seq<(nat, Response)>, n: nat, p: Response)
    requires HandedOnce(calls, handed) && n in calls && calls[n].outcome.Polling?
    ensures HandedOnce(calls[n := calls[n].(outcome := Ok(p))], handed + [(n, p)])
  {
    var calls', handed' := calls[n := calls[n].(outcome := Ok(p))], handed + [(n, p)];
    forall m | m in calls' && calls'[m].outcome.Ok?
      ensures exists i :: 0 <= i < |handed'| && handed'[i].0 == m
    {
      if m == n {
        assert handed'[|handed|].0 == n;
      } else {
        var i :| 0 <= i < |handed| && handed[i].0 == m;
        assert handed'[i].0 == m;
      }
    }
  }

  lemma HandedSame(calls: map<nat, Call>, handed: seq<(nat, Response)>, n: nat, c: Call)
    requires HandedOnce(calls, handed) && !c.outcome.Ok? && (n in calls ==> !calls[n].outcome.Ok?)
    ensures HandedOnce(calls[n := c], handed)
  {}

  lemma BeginKeepsInv(s: State, n: nat, q: Request)
    requires Inv(s) && CanTake(s, Begin(n, q))
    ensures Inv(Next(s, Begin(n, q)))
  {
    HandedSame(s.calls, s.handed, n, Next(s, Begin(n, q)).calls[n]);
    if Fits(s.reqCap, s.reqRing, RequestBytes(q)) {
      WrittenBackStable(s.accepted, q, s.kept);
      RequestDecodes(q);
      RequestQueued(s.accepted, |s.kept|, s.busy, s.reqRing, q, RequestBytes(q));
    }
  }

  lemma ServerPollKeepsInv(s: State)
    requires Inv(s) && CanTake(s, ServerPoll)
    ensures Inv(Next(s, ServerPoll))
  {
    if s.reqRing != [] {
      RequestTaken(s.accepted, |s.kept|, s.reqRing);
    }
  }

  lemma ServerReplyKeepsInv(s: State, ts: I64, us: I64)
    requires Inv(s) && CanTake(s, ServerReply(ts, us))
    ensures Inv(Next(s, ServerReply(ts, us)))
  {
    var d := EchoBytes(s.busy.value, ts, us);
    var fits := Fits(s.respCap, s.respRing, d);
    WrittenBackGrows(s.accepted, s.kept, fits);
    RequestDone(s.accepted, |s.kept|, s.busy, s.reqRing);
    if fits {
      EchoDecodes(s.busy.value, ts, us);
      ResponseQueued(WrittenBack(s.accepted, s.kept), s.handed, s.respRing, s.busy.value, d);
    }
  }

  lemma PollKeepsInv(s: State, n: nat)
    requires Inv(s) && CanTake(s, Poll(n))
    ensures Inv(Next(s, Poll(n)))
  {
    if Peek(s.respRing, BUFFER).Got? {
      ResponseTaken(WrittenBack(s.accepted, s.kept), s.handed, s.respRing, n);
      HandedMore(s.calls, s.handed, n, DecodeResponse(s.respRing[0]).value.1);
    }
  }

  lemma TimeOutKeepsInv(s: State, n: nat)
    requires Inv(s) && CanTake(s, TimeOut(n))
    ensures Inv(Next(s, TimeOut(n)))
  {
    HandedSame(s.calls, s.handed, n, s.calls[n].(outcome := Err));
  }

  lemma StepKeepsInv(s: State, a: Action)
    requires Inv(s)
    ensures Inv(Next(s, a))
  {
    if CanTake(s, a) {
      match a {
        case Begin(n, q) => BeginKeepsInv(s, n, q);
        case ServerPoll => ServerPollKeepsInv(s);
        case ServerReply(ts, us) => ServerReplyKeepsInv(s, ts, us);
        case Poll(n) => PollKeepsInv(s, n);
        case TimeOut(n) => TimeOutKeepsInv(s, n);
      }
    }
  }

  lemma StartHasInv(reqCap: nat, respCap: nat)
    requires reqCap <= U64 && respCap <= U64
    ensures Inv(Start(reqCap, respCap))
  {}

  lemma {:induction false} RunKeepsInv(s: State, acts: seq<Action>)
    requires Inv(s)
    ensures Inv(Exec(s, acts))
    decreases |acts|
  {
    if acts != [] {
      StepKeepsInv(s, acts[0]);
      RunKeepsInv(Next(s, acts[0]), acts[1..]);
    }
  }

  lemma {:induction false} WrittenBackWithin(accepted: seq<Request>, kept: seq<bool>)
    requires |kept| <= |accepted|
    ensures |WrittenBack(accepted, kept)| <= |kept|
    decreases |kept|
  {
    if kept != [] {
      WrittenBackWithin(accepted, kept[..|kept| - 1]);
    }
  }

  /** On every run the responses handed out are, in order, echoes of the accepted requests whose
      response was written back; no caller receives two and no response reaches two callers. */
  lemma HandedOutInOrder(reqCap: nat, respCap: nat, acts: seq<Action>)
    requires reqCap <= U64 && respCap <= U64
    ensures var s := Exec(Start(reqCap, respCap), acts);
      && |s.kept| <= |s.accepted|
      && |s.handed| <= |WrittenBack(s.accepted, s.kept)| <= |s.accepted|
      && (forall i :: 0 <= i < |s.handed| ==> IsEcho(WrittenBack(s.accepted, s.kept)[i], s.handed[i].1))
      && (forall i, j :: 0 <= i < j < |s.handed| ==> s.handed[i].0 != s.handed[j].0)
      && (forall n :: n in s.calls && s.calls[n].outcome.Ok? ==> (n, s.calls[n].outcome.response) in s.handed)
  {
    StartHasInv(reqCap, respCap);
    RunKeepsInv(Start(reqCap, respCap), acts);
    var s := Exec(Start(reqCap, respCap), acts);
    WrittenBackWithin(s.accepted, s.kept);
    forall n | n in s.calls && s.calls[n].outcome.Ok? ensures (n, s.calls[n].outcome.response) in s.handed {
      var i :| 0 <= i < |s.handed| && s.handed[i].0 == n;
      assert s.handed[i] == (n, s.calls[n].outcome.response);
    }
  }

  // ---------- whose echo a caller receives ----------

  predicate IsPolling(s: State, n: nat) {
    n in s.calls && s.calls[n].outcome.Polling?
  }

  /** No request, response or work is under way. */
  predicate PipeEmpty(s: State) {
    s.reqRing == [] && s.respRing == [] && s.busy == None
  }

  /** Nothing is under way and nobody waits for anything. */
  ghost predicate Undisturbed(s: State) {
    PipeEmpty(s) && forall n :: !IsPolling(s, n)
  }

  /** The one thing under way, if any, is request `q` or its echo. */
  ghost predicate PipeHolds(s: State, q: Request) {
    || PipeEmpty(s)
    || (|s.reqRing| == 1 && DecodeRequest(s.reqRing[0]) == Some(([], q)) && s.busy == None && s.respRing == [])
    || (s.reqRing == [] && s.busy == Some(q) && s.respRing == [])
    || (s.reqRing == [] && s.busy == None && |s.respRing| == 1 && EchoOf(q, s.respRing[0]))
  }

  /** At most one call is polling, only its request is under way, and every call outside `settled`
      that has returned Ok has its own echo. */
  ghost predicate Alone(s: State, settled: set<nat>) {
    && s.reqCap <= U64 && s.respCap <= U64
    && (forall n, m :: IsPolling(s, n) && IsPolling(s, m) ==> n == m)
    && (forall n :: IsPolling(s, n) ==> PipeHolds(s, s.calls[n].request))
    && forall n :: n in s.calls && n !in settled && s.calls[n].outcome.Ok? ==>
         IsEcho(s.calls[n].request, s.calls[n].outcome.response)
  }

  lemma AloneBegin(s: State, settled: set<nat>, n: nat, q: Request)
    requires Alone(s, settled) && CanTake(s, Begin(n, q)) && Undisturbed(s)
    ensures Alone(Next(s, Begin(n, q)), settled)
  {
    var s' := Next(s, Begin(n, q));
    assert forall m :: m != n ==> (IsPolling(s', m) <==> IsPolling(s, m));
    if Fits(s.reqCap, s.reqRing, RequestBytes(q)) {
      RequestDecodes(q);
      assert IsPolling(s', n);
    }
  }

  lemma AloneServer(s: State, settled: set<nat>, a: Action)
    requires Alone(s, settled) && (a.ServerPoll? || a.ServerReply?)
    ensures Alone(Next(s, a), settled)
  {
    var s' := Next(s, a);
    assert forall m :: IsPolling(s', m) <==> IsPolling(s, m);
    if n :| IsPolling(s, n) {
      if a.ServerReply? && s.busy.Some? && Fits(s.respCap, s.respRing, EchoBytes(s.busy.value, a.ts, a.us)) {
        EchoDecodes(s.busy.value, a.ts, a.us);
      }
      assert PipeHolds(s', s.calls[n].request);
    }
  }

  lemma AlonePoll(s: State, settled: set<nat>, n: nat)
    requires Alone(s, settled) && CanTake(s, Poll(n))
    ensures Alone(Next(s, Poll(n)), settled)
  {
    var s' := Next(s, Poll(n));
    assert IsPolling(s, n);
    assert forall m :: IsPolling(s', m) ==> IsPolling(s, m);
    if Peek(s.respRing, BUFFER).Got? {
      assert EchoOf(s.calls[n].request, s.respRing[0]);
    }
  }

  lemma AloneTimeOut(s: State, settled: set<nat>, n: nat)
    requires Alone(s, settled) && CanTake(s, TimeOut(n))
    ensures Alone(Next(s, TimeOut(n)), settled)
  {
    assert forall m :: IsPolling(Next(s, TimeOut(n)), m) ==> IsPolling(s, m);
  }

  lemma AloneStep(s: State, settled: set<nat>, a: Action)
    requires Alone(s, settled) && (a.Begin? ==> Undisturbed(s))
    ensures Alone(Next(s, a), settled)
  {
    if CanTake(s, a) {
      match a {
        case Begin(n, q) => AloneBegin(s, settled, n, q);
        case ServerPoll => AloneServer(s, settled, a);
        case ServerReply(_, _) => AloneServer(s, settled, a);
        case Poll(n) => AlonePoll(s, settled, n);
        case TimeOut(n) => AloneTimeOut(s, settled, n);
      }
    }
  }

  /** Every call of the run begins undisturbed. */
  ghost predicate BeginsUndisturbed(s: State, acts: seq<Action>)
    decreases |acts|
  {
    acts == [] || ((acts[0].Begin? ==> Undisturbed(s)) && BeginsUndisturbed(Next(s, acts[0]), acts[1..]))
  }

  lemma {:induction false} AloneRun(s: State, settled: set<nat>, acts: seq<Action>)
    requires Alone(s, settled) && BeginsUndisturbed(s, acts)
    ensures Alone(Exec(s, acts), settled)
    decreases |acts|
  {
    if acts != [] {
      AloneStep(s, settled, acts[0]);
      AloneRun(Next(s, acts[0]), settled, acts[1..]);
    }
  }

  /** When every call begins undisturbed, every call that returns Ok returns the echo of its own
      request, time-outs or not. */
  lemma UndisturbedCallsGetTheirOwnEcho(reqCap: nat, respCap: nat, acts: seq<Action>, n: nat)
    requires reqCap <= U64 && respCap <= U64 && BeginsUndisturbed(Start(reqCap, respCap), acts)
    requires n in Exec(Start(reqCap, respCap), acts).calls
    ensures var c := Exec(Start(reqCap, respCap), acts).calls[n];
      c.outcome.Ok? ==> IsEcho(c.request, c.outcome.response)
  {
    AloneRun(Start(reqCap, respCap), {}, acts);
  }

  /** The run starts a call only when none is polling, and no call times out. */
  ghost predicate Serial(s: State, acts: seq<Action>)
    decreases |acts|
  {
    acts == [] ||
    (!acts[0].TimeOut? && (acts[0].Begin? ==> forall n :: !IsPolling(s, n)) && Serial(Next(s, acts[0]), acts[1..]))
  }

  lemma SerialStep(s: State, a: Action)
    requires Alone(s, {}) && ((forall n :: !IsPolling(s, n)) ==> PipeEmpty(s))
    requires !a.TimeOut? && (a.Begin? ==> forall n :: !IsPolling(s, n))
    ensures var s' := Next(s, a); Alone(s', {}) && ((forall n :: !IsPolling(s', n)) ==> PipeEmpty(s'))
  {
    AloneStep(s, {}, a);
    var s' := Next(s, a);
    if CanTake(s, a) {
      match a {
        case Begin(n, q) =>
          assert Fits(s.reqCap, s.reqRing, RequestBytes(q)) ==> IsPolling(s', n);
        case Poll(n) =>
          assert IsPolling(s, n);
          assert forall m :: IsPolling(s, m) && m != n ==> IsPolling(s', m);
          assert !Peek(s.respRing, BUFFER).Got? ==> IsPolling(s', n);
        case ServerPoll => assert forall m :: IsPolling(s', m) <==> IsPolling(s, m);
        case ServerReply(_, _) => assert forall m :: IsPolling(s', m) <==> IsPolling(s, m);
        case TimeOut(_) =>
      }
    }
  }

  lemma {:induction false} SerialRunsAreUndisturbed(s: State, acts: seq<Action>)
    requires Alone(s, {}) && ((forall n :: !IsPolling(s, n)) ==> PipeEmpty(s)) && Serial(s, acts)
    ensures BeginsUndisturbed(s, acts)
    decreases |acts|
  {
    if acts != [] {
      SerialStep(s, acts[0]);
      SerialRunsAreUndisturbed(Next(s, acts[0]), acts[1..]);
    }
  }

  /** When calls do not overlap and none times out, every call that returns Ok returns the echo of
      its own request. */
  lemma SerialCallsGetTheirOwnEcho(reqCap: nat, respCap: nat, acts: seq<Action>, n: nat)
    requires reqCap <= U64 && respCap <= U64 && Serial(Start(reqCap, respCap), acts)
    requires n in Exec(Start(reqCap, respCap), acts).calls
    ensures var c := Exec(Start(reqCap, respCap), acts).calls[n];
      c.outcome.Ok? ==> IsEcho(c.request, c.outcome.response)
  {
    SerialRunsAreUndisturbed(Start(reqCap, respCap), acts);
    UndisturbedCallsGetTheirOwnEcho(reqCap, respCap, acts, n);
  }

  // ---------- steps with a known effect ----------

  lemma {:induction false} ExecAppend(s: State, a: seq<Action>, b: seq<Action>)
    ensures Exec(s, a + b) == Exec(Exec(s, a), b)
    decreases |a|
  {
    if a == [] {
      assert a + b == b;
    } else {
      assert (a + b)[1..] == a[1..] + b;
      ExecAppend(Next(s, a[0]), a[1..], b);
    }
  }

  lemma ExecCons(s: State, a: Action, b: seq<Action>)
    ensures Exec(s, [a] + b) == Exec(Next(s, a), b)
  {
    assert ([a] + b)[1..] == b;
  }

  /** The echo of `q` fits the caller's buffer and, alone, the response ring. */
  predicate EchoPasses(respCap: nat, q: Request) {
    |EchoBytes(q, 0, 0)| <= BUFFER && PREFIX + |EchoBytes(q, 0, 0)| < respCap
  }

  lemma EchoLength(q: Request)
    ensures |EchoBytes(q, 0, 0)| == |RequestBytes(q)| + 8
  {
    RequestLength([], q);
    ResponseLength([], q, Response(q.message, 0, 0, q.payload));
  }

  /** The server takes the request at the head of the ring. */
  lemma ServerTakes(s: State, r: Request)
    requires s.busy == None && s.reqRing != [] && |s.reqRing[0]| <= BUFFER
    requires DecodeRequest(s.reqRing[0]) == Some(([], r))
    ensures Next(s, ServerPoll) == s.(reqRing := s.reqRing[1..], busy := Some(r))
  {}

  /** The server answers into an empty ring. */
  lemma ServerAnswers(s: State, r: Request)
    requires s.busy == Some(r) && s.respRing == [] && EchoPasses(s.respCap, r)
    ensures Next(s, ServerReply(0, 0)) ==
      s.(respRing := [EchoBytes(r, 0, 0)], busy := None, kept := s.kept + [true])
    ensures EchoOf(r, EchoBytes(r, 0, 0))
  {
    EchoDecodes(r, 0, 0);
  }

  /** Caller `n`, who asked `asked`, was handed the echo of `other`. */
  ghost predicate GotEchoOf(s: State, n: nat, asked: Request, other: Request) {
    && n in s.calls && s.calls[n].request == asked
    && s.calls[n].outcome.Ok? && IsEcho(other, s.calls[n].outcome.response)
  }

  /** Whoever polls takes the oldest response. */
  lemma PollTakesHead(s: State, n: nat, r: Request)
    requires IsPolling(s, n) && s.respRing != [] && |s.respRing[0]| <= BUFFER && EchoOf(r, s.respRing[0])
    ensures var s' := Next(s, Poll(n));
      && GotEchoOf(s', n, s.calls[n].request, r)
      && s'.respRing == s.respRing[1..] && s'.reqRing == s.reqRing && s'.busy == s.busy
      && s'.reqCap == s.reqCap && s'.respCap == s.respCap && s'.calls == s.calls[n := s'.calls[n]]
  {}

  /** From the head of the request ring to the head of an otherwise empty response ring. */
  lemma Serve(s: State, r: Request)
    requires s.busy == None && s.respRing == [] && EchoPasses(s.respCap, r)
    requires s.reqRing != [] && |s.reqRing[0]| <= BUFFER && DecodeRequest(s.reqRing[0]) == Some(([], r))
    ensures Exec(s, [ServerPoll, ServerReply(0, 0)]) ==
      s.(reqRing := s.reqRing[1..], respRing := [EchoBytes(r, 0, 0)], kept := s.kept + [true])
    ensures EchoOf(r, EchoBytes(r, 0, 0))
  {
    ServerTakes(s, r);
    ServerAnswers(Next(s, ServerPoll), r);
    ExecCons(s, ServerPoll, [ServerReply(0, 0)]);
    ExecCons(Next(s, ServerPoll), ServerReply(0, 0), []);
  }

  // ---------- exactly when a caller can rely on its own echo ----------

  predicate Same(q: Request, r: Request) {
    q.message == r.message && q.payload == r.payload
  }

  predicate NoBegin(acts: seq<Action>) {
    forall a :: a in acts ==> !a.Begin?
  }

  /** Every call polling in `s` that has returned Ok by `s'` returned its own echo. */
  ghost predicate OwnEchoes(s: State, s': State) {
    forall m :: IsPolling(s, m) && m in s'.calls && s'.calls[m].outcome.Ok? ==>
      IsEcho(s'.calls[m].request, s'.calls[m].outcome.response)
  }

  /** Whatever happens next, short of further calls, every waiting call that returns Ok returns its
      own echo. */
  ghost predicate OwnEchoGuaranteed(s: State) {
    forall acts: seq<Action> :: NoBegin(acts) ==> OwnEchoes(s, Exec(s, acts))
  }

  /** The request whose echo comes out of the pipe first, up to its time stamp. */
  function FirstInLine(s: State): Option<Request> {
    if s.respRing != [] then
      match DecodeResponse(s.respRing[0])
      case None => None
      case Some((_, p)) => Some(Request(p.message, 0, p.payload))
    else if s.busy.Some? then s.busy
    else if s.reqRing != [] then
      match DecodeRequest(s.reqRing[0]) case None => None case Some((_, q)) => Some(q)
    else None
  }

  /** The first request in line and those of all waiting calls ask for something else than `q`, so
      that their echoes can be told from its own. */
  ghost predicate Distinct(s: State, q: Request) {
    && (FirstInLine(s).Some? ==> !Same(FirstInLine(s).value, q))
    && forall m :: IsPolling(s, m) ==> !Same(s.calls[m].request, q)
  }

  /** Neither `q` nor what is first in line is too long for a buffer or, alone, for the response ring. */
  ghost predicate Passable(s: State, q: Request) {
    && EchoPasses(s.respCap, q) && (FirstInLine(s).Some? ==> EchoPasses(s.respCap, FirstInLine(s).value))
    && (s.reqRing != [] ==> |s.reqRing[0]| <= BUFFER) && (s.respRing != [] ==> |s.respRing[0]| <= BUFFER)
  }

  lemma {:induction false} NoBeginIsUndisturbed(s: State, acts: seq<Action>)
    requires NoBegin(acts)
    ensures BeginsUndisturbed(s, acts)
    decreases |acts|
  {
    if acts != [] {
      assert acts[0] in acts && forall a :: a in acts[1..] ==> a in acts;
      NoBeginIsUndisturbed(Next(s, acts[0]), acts[1..]);
    }
  }

  lemma UndisturbedSuffices(s: State, n: nat, q: Request)
    requires Inv(s) && CanTake(s, Begin(n, q)) && Undisturbed(s)
    ensures OwnEchoGuaranteed(Next(s, Begin(n, q)))
  {
    var s', settled := Next(s, Begin(n, q)), s.calls.Keys;
    assert Alone(s, settled);
    AloneBegin(s, settled, n, q);
    assert forall m :: IsPolling(s', m) ==> m == n by {
      assert forall m :: m != n ==> (IsPolling(s', m) <==> IsPolling(s, m));
    }
    forall acts: seq<Action> | NoBegin(acts) ensures OwnEchoes(s', Exec(s', acts)) {
      NoBeginIsUndisturbed(s', acts);
      AloneRun(s', settled, acts);
    }
  }

  /** In state `s` call `m` can be made to return the echo of a request unlike its own. */
  ghost predicate Misled(s: State, m: nat, acts: seq<Action>) {
    && IsPolling(s, m) && NoBegin(acts)
    && m in Exec(s, acts).calls && Exec(s, acts).calls[m].outcome.Ok?
    && !IsEcho(Exec(s, acts).calls[m].request, Exec(s, acts).calls[m].outcome.response)
  }

  lemma MisledByPoll(s: State, acts: seq<Action>, m: nat, r: Request)
    requires IsPolling(s, m) && NoBegin(acts) && IsPolling(Exec(s, acts), m)
    requires var t := Exec(s, acts);
      && t.calls[m].request == s.calls[m].request && !Same(s.calls[m].request, r)
      && t.respRing != [] && |t.respRing[0]| <= BUFFER && EchoOf(r, t.respRing[0])
    ensures Misled(s, m, acts + [Poll(m)])
  {
    var t := Exec(s, acts);
    PollTakesHead(t, m, r);
    ExecAppend(s, acts, [Poll(m)]);
    ExecCons(t, Poll(m), []);
    assert [Poll(m)] == [Poll(m)] + [];
  }

  /** A waiting response misleads the new call by one poll. */
  lemma MisledByResponse(s: State, n: nat, q: Request)
    requires Inv(s) && CanTake(s, Begin(n, q)) && Fits(s.reqCap, s.reqRing, RequestBytes(q))
    requires Distinct(s, q) && Passable(s, q) && s.respRing != []
    ensures Misled(Next(s, Begin(n, q)), n, [] + [Poll(n)])
  {
    assert EchoOf(WrittenBack(s.accepted, s.kept)[|s.handed| + 0], s.respRing[0]);
    MisledByPoll(Next(s, Begin(n, q)), [], n, FirstInLine(s).value);
  }

  /** A request in the server's hands misleads the new call once it is answered. */
  lemma MisledByBusyServer(s: State, n: nat, q: Request)
    requires Inv(s) && CanTake(s, Begin(n, q)) && Fits(s.reqCap, s.reqRing, RequestBytes(q))
    requires Distinct(s, q) && Passable(s, q) && s.respRing == [] && s.busy.Some?
    ensures Misled(Next(s, Begin(n, q)), n, [ServerReply(0, 0)] + [Poll(n)])
  {
    var s', r := Next(s, Begin(n, q)), s.busy.value;
    ServerAnswers(s', r);
    ExecCons(s', ServerReply(0, 0), []);
    assert [ServerReply(0, 0)] + [] == [ServerReply(0, 0)];
    MisledByPoll(s', [ServerReply(0, 0)], n, r);
  }

  /** A queued request misleads the new call once it is served. */
  lemma MisledByQueue(s: State, n: nat, q: Request)
    requires Inv(s) && CanTake(s, Begin(n, q)) && Fits(s.reqCap, s.reqRing, RequestBytes(q))
    requires Distinct(s, q) && Passable(s, q) && s.respRing == [] && s.busy == None && s.reqRing != []
    ensures Misled(Next(s, Begin(n, q)), n, [ServerPoll, ServerReply(0, 0)] + [Poll(n)])
  {
    var s', r := Next(s, Begin(n, q)), s.accepted[|s.kept|];
    assert DecodeRequest(s.reqRing[0]) == Some(([], s.accepted[|s.kept| + Held(s.busy) + 0]));
    assert FirstInLine(s) == Some(r) && s'.reqRing[0] == s.reqRing[0];
    Serve(s', r);
    MisledByPoll(s', [ServerPoll, ServerReply(0, 0)], n, r);
  }

  /** With nothing under way, another waiting call is misled by the new call's echo. */
  lemma MisledByNewcomer(s: State, n: nat, q: Request, m: nat)
    requires Inv(s) && CanTake(s, Begin(n, q)) && Fits(s.reqCap, s.reqRing, RequestBytes(q))
    requires Distinct(s, q) && Passable(s, q) && PipeEmpty(s) && IsPolling(s, m)
    ensures Misled(Next(s, Begin(n, q)), m, [ServerPoll, ServerReply(0, 0)] + [Poll(m)])
  {
    var s' := Next(s, Begin(n, q));
    EchoLength(q);
    RequestDecodes(q);
    assert s'.reqRing == [RequestBytes(q)];
    Serve(s', q);
    MisledByPoll(s', [ServerPoll, ServerReply(0, 0)], m, q);
  }

  lemma DisturbedMisleads(s: State, n: nat, q: Request) returns (m: nat, acts: seq<Action>)
    requires Inv(s) && CanTake(s, Begin(n, q)) && Fits(s.reqCap, s.reqRing, RequestBytes(q))
    requires Distinct(s, q) && Passable(s, q) && !Undisturbed(s)
    ensures Misled(Next(s, Begin(n, q)), m, acts)
  {
    m := n;
    if s.respRing != [] {
      MisledByResponse(s, n, q);
      acts := [] + [Poll(n)];
    } else if s.busy.Some? {
      MisledByBusyServer(s, n, q);
      acts := [ServerReply(0, 0)] + [Poll(n)];
    } else if s.reqRing != [] {
      MisledByQueue(s, n, q);
      acts := [ServerPoll, ServerReply(0, 0)] + [Poll(n)];
    } else {
      m :| IsPolling(s, m);
      MisledByNewcomer(s, n, q, m);
      acts := [ServerPoll, ServerReply(0, 0)] + [Poll(m)];
    }
  }

  /** A call accepted in state `s` can rely on its own echo, and so can everyone else waiting, exactly
      when nothing was under way and nobody was polling when it began. Holds in every reachable
      state, unless two of the requests concerned are alike or the first in line is too long. */
  lemma OwnEchoIffUndisturbed(s: State, n: nat, q: Request)
    requires Inv(s) && CanTake(s, Begin(n, q)) && Fits(s.reqCap, s.reqRing, RequestBytes(q))
    requires Distinct(s, q) && Passable(s, q)
    ensures OwnEchoGuaranteed(Next(s, Begin(n, q))) <==> Undisturbed(s)
  {
    if Undisturbed(s) {
      UndisturbedSuffices(s, n, q);
    } else {
      var m, acts := DisturbedMisleads(s, n, q);
      assert !OwnEchoes(Next(s, Begin(n, q)), Exec(Next(s, Begin(n, q)), acts));
    }
  }

  /** Whatever happens next, short of further calls, call `n` returns Ok only with its own echo. */
  ghost predicate OwnEchoFor(s: State, n: nat) {
    forall acts: seq<Action>, p: Response :: NoBegin(acts) && Returned(Exec(s, acts), n, p) ==> IsOwn(s, n, p)
  }

  ghost predicate Returned(s: State, n: nat, p: Response) {
    n in s.calls && s.calls[n].outcome == Ok(p)
  }

  ghost predicate IsOwn(s: State, n: nat, p: Response) {
    n in s.calls && IsEcho(s.calls[n].request, p)
  }

  /** Call `n` asked `q`, only `q` or its echo is under way, and if `n` has returned Ok it was with
      that echo; anybody else may be polling. */
  ghost predicate OnlyMine(s: State, n: nat, q: Request) {
    && s.reqCap <= U64 && s.respCap <= U64
    && PipeHolds(s, q) && n in s.calls && s.calls[n].request == q
    && (s.calls[n].outcome.Ok? ==> IsEcho(q, s.calls[n].outcome.response))
  }

  lemma OnlyMineKept(s: State, n: nat, q: Request, a: Action)
    requires OnlyMine(s, n, q) && !a.Begin?
    ensures OnlyMine(Next(s, a), n, q)
  {
    if CanTake(s, a) {
      match a {
        case ServerReply(ts, us) =>
          if Fits(s.respCap, s.respRing, EchoBytes(s.busy.value, ts, us)) {
            EchoDecodes(s.busy.value, ts, us);
          }
        case Poll(m) =>
          assert Peek(s.respRing, BUFFER).Got? ==> EchoOf(q, s.respRing[0]);
        case _ =>
      }
    }
  }

  lemma {:induction false} OnlyMineRun(s: State, n: nat, q: Request, acts: seq<Action>)
    requires OnlyMine(s, n, q) && NoBegin(acts)
    ensures OnlyMine(Exec(s, acts), n, q)
    decreases |acts|
  {
    if acts != [] {
      assert acts[0] in acts && forall a :: a in acts[1..] ==> a in acts;
      OnlyMineKept(s, n, q, acts[0]);
      OnlyMineRun(Next(s, acts[0]), n, q, acts[1..]);
    }
  }

  lemma {:induction false} RequestKept(s: State, n: nat, acts: seq<Action>)
    requires n in s.calls && NoBegin(acts)
    ensures n in Exec(s, acts).calls && Exec(s, acts).calls[n].request == s.calls[n].request
    decreases |acts|
  {
    if acts != [] {
      assert acts[0] in acts && forall a :: a in acts[1..] ==> a in acts;
      RequestKept(Next(s, acts[0]), n, acts[1..]);
    }
  }

  lemma EmptyPipeSuffices(s: State, n: nat, q: Request)
    requires Inv(s) && CanTake(s, Begin(n, q)) && Fits(s.reqCap, s.reqRing, RequestBytes(q)) && PipeEmpty(s)
    ensures OwnEchoFor(Next(s, Begin(n, q)), n)
  {
    var s' := Next(s, Begin(n, q));
    RequestDecodes(q);
    assert s'.reqRing == [RequestBytes(q)] && OnlyMine(s', n, q);
    forall acts: seq<Action>, p: Response | NoBegin(acts) && Returned(Exec(s', acts), n, p)
      ensures IsOwn(s', n, p)
    {
      OnlyMineRun(s', n, q, acts);
    }
  }

  lemma MisledIsNotOwn(s: State, n: nat, acts: seq<Action>)
    requires Misled(s, n, acts)
    ensures !OwnEchoFor(s, n)
  {
    RequestKept(s, n, acts);
    var p := Exec(s, acts).calls[n].outcome.response;
    assert Returned(Exec(s, acts), n, p) && !IsOwn(s, n, p);
  }

  /** An accepted call can rely on its own echo, whoever else is polling, exactly when nothing was
      under way when it began. */
  lemma OwnEchoForCallerIffPipeEmpty(s: State, n: nat, q: Request)
    requires Inv(s) && CanTake(s, Begin(n, q)) && Fits(s.reqCap, s.reqRing, RequestBytes(q))
    requires Distinct(s, q) && Passable(s, q)
    ensures OwnEchoFor(Next(s, Begin(n, q)), n) <==> PipeEmpty(s)
  {
    var s' := Next(s, Begin(n, q));
    if s.respRing != [] {
      MisledByResponse(s, n, q);
      MisledIsNotOwn(s', n, [] + [Poll(n)]);
    } else if s.busy.Some? {
      MisledByBusyServer(s, n, q);
      MisledIsNotOwn(s', n, [ServerReply(0, 0)] + [Poll(n)]);
    } else if s.reqRing != [] {
      MisledByQueue(s, n, q);
      MisledIsNotOwn(s', n, [ServerPoll, ServerReply(0, 0)] + [Poll(n)]);
    } else {
      EmptyPipeSuffices(s, n, q);
    }
  }

  // ---------- a call that is answered ----------

  /** With nothing under way, a call that is served and polls in time returns its own echo, and again
      nothing is under way. */
  lemma ServedCallReturns(s: State, n: nat, q: Request)
    requires s.reqCap <= U64 && s.respCap <= U64 && PipeEmpty(s)
    requires CanTake(s, Begin(n, q)) && Fits(s.reqCap, s.reqRing, RequestBytes(q)) && EchoPasses(s.respCap, q)
    ensures var s' := Exec(s, [Begin(n, q)] + ([ServerPoll, ServerReply(0, 0)] + [Poll(n)]));
      GotEchoOf(s', n, q, q) && PipeEmpty(s')
  {
    RequestArrives(s, n, q);
    var s1 := Next(s, Begin(n, q));
    assert s1.reqRing == [RequestBytes(q)];
    Serve(s1, q);
    var s2 := Exec(s1, [ServerPoll, ServerReply(0, 0)]);
    PollTakesHead(s2, n, q);
    ExecCons(s2, Poll(n), []);
    assert [Poll(n)] + [] == [Poll(n)];
    ExecAppend(s1, [ServerPoll, ServerReply(0, 0)], [Poll(n)]);
    ExecCons(s, Begin(n, q), [ServerPoll, ServerReply(0, 0)] + [Poll(n)]);
  }

  // ---------- runs that go wrong, at every capacity ----------

  /** Both requests fit the request ring together, and either echo fits the response ring. */
  predicate RoomForBoth(reqCap: nat, respCap: nat, q0: Request, q1: Request) {
    && Fits(reqCap, [RequestBytes(q0)], RequestBytes(q1))
    && EchoPasses(respCap, q0) && EchoPasses(respCap, q1)
  }

  lemma RequestArrives(s: State, n: nat, q: Request)
    requires CanTake(s, Begin(n, q)) && Fits(s.reqCap, s.reqRing, RequestBytes(q)) && EchoPasses(s.respCap, q)
    ensures Next(s, Begin(n, q)) == s.(reqRing := s.reqRing + [RequestBytes(q)],
      calls := s.calls[n := Call(q, Polling)], accepted := s.accepted + [q])
    ensures DecodeRequest(RequestBytes(q)) == Some(([], q)) && |RequestBytes(q)| <= BUFFER
  {
    EchoLength(q);
    RequestDecodes(q);
  }

  /** After one time-out the replies shift: the next caller receives the echo of the request that
      timed out, whatever the two requests are. */
  lemma TimeOutShiftsReplies(reqCap: nat, respCap: nat, q0: Request, q1: Request)
    requires RoomForBoth(reqCap, respCap, q0, q1)
    ensures GotEchoOf(Exec(Start(reqCap, respCap), [Begin(0, q0)] + ([ServerPoll, ServerReply(0, 0)]
      + ([TimeOut(0)] + ([Begin(1, q1)] + [Poll(1)])))), 1, q1, q0)
  {
    var s0, served := Start(reqCap, respCap), [ServerPoll, ServerReply(0, 0)];
    RequestArrives(s0, 0, q0);
    var s1 := Next(s0, Begin(0, q0));
    Serve(s1, q0);
    NewcomerAfterTimeOut(Exec(s1, served), q1, q0);
    ExecAppend(s1, served, [TimeOut(0)] + ([Begin(1, q1)] + [Poll(1)]));
    ExecCons(s0, Begin(0, q0), served + ([TimeOut(0)] + ([Begin(1, q1)] + [Poll(1)])));
  }

  lemma NewcomerAfterTimeOut(s: State, q: Request, r: Request)
    requires IsPolling(s, 0) && 1 !in s.calls && RoomForBoth(s.reqCap, s.respCap, r, q)
    requires s.reqRing == [] && s.respRing == [EchoBytes(r, 0, 0)] && EchoOf(r, s.respRing[0])
    ensures GotEchoOf(Exec(s, [TimeOut(0)] + ([Begin(1, q)] + [Poll(1)])), 1, q, r)
  {
    NewcomerPolls(Next(s, TimeOut(0)), 1, q, r);
    ExecCons(s, TimeOut(0), [Begin(1, q)] + [Poll(1)]);
  }

  /** A call that begins while a response waits, and polls at once, takes that response. */
  lemma NewcomerPolls(s: State, n: nat, q: Request, r: Request)
    requires CanTake(s, Begin(n, q)) && Fits(s.reqCap, s.reqRing, RequestBytes(q)) && EchoPasses(s.respCap, q)
    requires s.respRing != [] && |s.respRing[0]| <= BUFFER && EchoOf(r, s.respRing[0])
    ensures GotEchoOf(Exec(s, [Begin(n, q)] + [Poll(n)]), n, q, r)
  {
    RequestArrives(s, n, q);
    var s' := Next(s, Begin(n, q));
    PollTakesHead(s', n, r);
    ExecCons(s', Poll(n), []);
    assert [Poll(n)] + [] == [Poll(n)];
    ExecCons(s, Begin(n, q), [Poll(n)]);
  }

  /** Without any time-out two overlapping calls can swap replies: each receives the other's echo. */
  lemma OverlapSwapsReplies(reqCap: nat, respCap: nat, q0: Request, q1: Request)
    requires RoomForBoth(reqCap, respCap, q0, q1)
    ensures var s := Exec(Start(reqCap, respCap), [Begin(0, q0)] + ([Begin(1, q1)]
        + ([ServerPoll, ServerReply(0, 0)] + ([Poll(1)] + ([ServerPoll, ServerReply(0, 0)] + [Poll(0)])))));
      GotEchoOf(s, 0, q0, q1) && GotEchoOf(s, 1, q1, q0)
  {
    var s0, served := Start(reqCap, respCap), [ServerPoll, ServerReply(0, 0)];
    RequestArrives(s0, 0, q0);
    var s1 := Next(s0, Begin(0, q0));
    RequestArrives(s1, 1, q1);
    var s2 := Next(s1, Begin(1, q1));
    Serve(s2, q0);
    var s3 := Exec(s2, served);
    PollTakesHead(s3, 1, q0);
    var s4 := Next(s3, Poll(1));
    assert s4.reqRing == [RequestBytes(q1)] && s4.respRing == [];
    Serve(s4, q1);
    var s5 := Exec(s4, served);
    PollTakesHead(s5, 0, q1);
    ExecCons(s5, Poll(0), []);
    assert [Poll(0)] + [] == [Poll(0)];
    ExecAppend(s4, served, [Poll(0)]);
    ExecCons(s3, Poll(1), served + [Poll(0)]);
    ExecAppend(s2, served, [Poll(1)] + (served + [Poll(0)]));
    ExecCons(s1, Begin(1, q1), served + ([Poll(1)] + (served + [Poll(0)])));
    ExecCons(s0, Begin(0, q0), [Begin(1, q1)] + (served + ([Poll(1)] + (served + [Poll(0)]))));
  }
}
