/** The polling transport over two byte rings, whose reads and writes decide every step. It moves as
    the transport over queues exactly while every accepted write lands. */
module PollingBytes {
  import opened LittleEndian
  import opened Fifo
  import opened Codec
  import opened Polling
  import opened RingBacked
  import RM = RingModel
  import RR = RingRuns

  /** As `Polling.State`, with memory and positions in place of the queues. */
  datatype ByteState = ByteState(req: ByteRing, resp: ByteRing, busy: Option<Request>, calls: map<nat, Call>,
                                 accepted: seq<Request>, kept: seq<bool>, handed: seq<(nat, Response)>)

  predicate CanTake(s: ByteState, a: Action) {
    match a
    case Begin(n, _) => n !in s.calls
    case ServerPoll => s.busy.None?
    case ServerReply(_, _) => s.busy.Some?
    case Poll(n) => n in s.calls && s.calls[n].outcome.Polling?
    case TimeOut(n) => n in s.calls && s.calls[n].outcome.Polling?
  }

  function StepBegin(s: ByteState, n: nat, q: Request): ByteState {
    if RM.WriteOutcome(s.req, RequestBytes(q)).Written?
    then s.(req := RM.Write(s.req, RequestBytes(q)), calls := s.calls[n := Call(q, Outcome.Polling)],
            accepted := s.accepted + [q])
    else s.(calls := s.calls[n := Call(q, Err)])
  }

  /** A failed read leaves everything alone; a record that does not parse is dropped. */
  function StepServerPoll(s: ByteState): ByteState {
    match RM.ReadOutcome(s.req, BUFFER)
    case Got(d) =>
      var rest := s.(req := RM.Read(s.req, BUFFER));
      (match DecodeRequest(d)
       case None => rest.(kept := s.kept + [false])
       case Some((_, q)) => rest.(busy := Some(q)))
    case _ => s
  }

  function StepServerReply(s: ByteState, ts: I64, us: I64): ByteState
    requires s.busy.Some?
  {
    var d := EchoBytes(s.busy.value, ts, us);
    s.(resp := RM.Write(s.resp, d), busy := None, kept := s.kept + [RM.WriteOutcome(s.resp, d).Written?])
  }

  function StepPoll(s: ByteState, n: nat): ByteState
    requires n in s.calls
  {
    match RM.ReadOutcome(s.resp, BUFFER)
    case Got(d) =>
      var rest := s.(resp := RM.Read(s.resp, BUFFER));
      (match DecodeResponse(d)
       case None => rest.(calls := s.calls[n := s.calls[n].(outcome := Err)])
       case Some((_, p)) => rest.(calls := s.calls[n := s.calls[n].(outcome := Ok(p))], handed := s.handed + [(n, p)]))
    case _ => s
  }

  /** The state after action `a`; an action that cannot be taken leaves it alone. */
  function Next(s: ByteState, a: Action): ByteState {
    if !CanTake(s, a) then s else
    match a
    case Begin(n, q) => StepBegin(s, n, q)
    case ServerPoll => StepServerPoll(s)
    case ServerReply(ts, us) => StepServerReply(s, ts, us)
    case Poll(n) => StepPoll(s, n)
    case TimeOut(n) => s.(calls := s.calls[n := s.calls[n].(outcome := Err)])
  }

  function Exec(s: ByteState, acts: seq<Action>): ByteState
    decreases |acts|
  {
    if acts == [] then s else Exec(Next(s, acts[0]), acts[1..])
  }

  function Start(req: ByteRing, resp: ByteRing): ByteState {
    ByteState(req, resp, None, map[], [], [], [])
  }

  // ---------- the transport over queues it stands for ----------

  function StateOf(s: ByteState): State {
    State(s.req.cap, s.resp.cap, RR.Decoded(s.req), RR.Decoded(s.resp), s.busy, s.calls, s.accepted, s.kept, s.handed)
  }

  ghost predicate Good(s: ByteState) {
    Intact(s.req) && Intact(s.resp)
  }

  predicate Lands(s: ByteState, a: Action) {
    match a
    case Begin(n, q) => CanTake(s, a) ==> WriteLands(s.req, RequestBytes(q))
    case ServerReply(ts, us) => CanTake(s, a) ==> WriteLands(s.resp, EchoBytes(s.busy.value, ts, us))
    case _ => true
  }

  /** Every accepted write of the run stores a prefix its reader will gather. */
  ghost predicate LandsThroughout(s: ByteState, acts: seq<Action>)
    decreases |acts|
  {
    acts == [] || (Lands(s, acts[0]) && LandsThroughout(Next(s, acts[0]), acts[1..]))
  }

  /** Both transports take the action to matching states. */
  ghost predicate InStep(s: ByteState, a: Action) {
    Good(Next(s, a)) && StateOf(Next(s, a)) == Polling.Next(StateOf(s), a)
  }

  /** All along the run the bytes stand for what the transport over queues, run from `t`, holds. */
  ghost predicate Mirrors(s: ByteState, acts: seq<Action>, t: State)
    decreases |acts|
  {
    && Good(s) && StateOf(s) == t
    && (acts == [] || Mirrors(Next(s, acts[0]), acts[1..], Polling.Next(t, acts[0])))
  }

  lemma BeginBacked(s: ByteState, n: nat, q: Request)
    requires Good(s)
    ensures InStep(s, Begin(n, q)) <==> Lands(s, Begin(n, q))
  {
    WriteIsPut(s.req, RequestBytes(q));
  }

  lemma ServerPollBacked(s: ByteState)
    requires Good(s)
    ensures InStep(s, ServerPoll)
  {
    ReadIsGet(s.req, BUFFER);
    if CanTake(s, ServerPoll) && RM.ReadOutcome(s.req, BUFFER).Got? {
      assert Next(s, ServerPoll).req == RM.Read(s.req, BUFFER) && Next(s, ServerPoll).resp == s.resp;
    }
  }

  lemma ServerReplyBacked(s: ByteState, ts: I64, us: I64)
    requires Good(s)
    ensures InStep(s, ServerReply(ts, us)) <==> Lands(s, ServerReply(ts, us))
  {
    if CanTake(s, ServerReply(ts, us)) {
      WriteIsPut(s.resp, EchoBytes(s.busy.value, ts, us));
    }
  }

  lemma PollBacked(s: ByteState, n: nat)
    requires Good(s)
    ensures InStep(s, Poll(n))
  {
    ReadIsGet(s.resp, BUFFER);
    if CanTake(s, Poll(n)) && RM.ReadOutcome(s.resp, BUFFER).Got? {
      assert Next(s, Poll(n)).resp == RM.Read(s.resp, BUFFER) && Next(s, Poll(n)).req == s.req;
    }
  }

  /** From intact rings a step is the step over queues iff the record it writes, if any, lands. */
  lemma StepBacked(s: ByteState, a: Action)
    requires Good(s)
    ensures InStep(s, a) <==> Lands(s, a)
  {
    match a {
      case Begin(n, q) => BeginBacked(s, n, q);
      case ServerPoll => ServerPollBacked(s);
      case ServerReply(ts, us) => ServerReplyBacked(s, ts, us);
      case Poll(n) => PollBacked(s, n);
      case TimeOut(_) =>
    }
  }

  /** A run over bytes mirrors the run over queues iff every accepted write lands. */
  lemma {:induction false} MirrorsIffLanding(s: ByteState, acts: seq<Action>)
    requires Good(s)
    ensures Mirrors(s, acts, StateOf(s)) <==> LandsThroughout(s, acts)
    decreases |acts|
  {
    if acts != [] {
      StepBacked(s, acts[0]);
      if Lands(s, acts[0]) {
        MirrorsIffLanding(Next(s, acts[0]), acts[1..]);
      }
    }
  }

  lemma {:induction false} LandingRun(s: ByteState, acts: seq<Action>)
    requires Good(s) && LandsThroughout(s, acts)
    ensures Good(Exec(s, acts)) && StateOf(Exec(s, acts)) == Polling.Exec(StateOf(s), acts)
    decreases |acts|
  {
    if acts != [] {
      StepBacked(s, acts[0]);
      LandingRun(Next(s, acts[0]), acts[1..]);
    }
  }

  lemma StartIsGood(req: ByteRing, resp: ByteRing)
    requires Fresh(req) && Fresh(resp)
    ensures Good(Start(req, resp)) && StateOf(Start(req, resp)) == Polling.Start(req.cap, resp.cap)
  {
    EmptyRing(req);
    EmptyRing(resp);
  }

  // ---------- what callers get ----------

  /** While writes land, the responses handed out are, in order, echoes of the accepted requests whose
      response was written back, each handed to one caller, who receives no other. */
  lemma HandedOutInOrder(req: ByteRing, resp: ByteRing, acts: seq<Action>)
    requires Fresh(req) && Fresh(resp) && req.cap <= U64 && resp.cap <= U64
    requires LandsThroughout(Start(req, resp), acts)
    ensures var s := Exec(Start(req, resp), acts);
      && |s.kept| <= |s.accepted|
      && |s.handed| <= |WrittenBack(s.accepted, s.kept)| <= |s.accepted|
      && (forall i :: 0 <= i < |s.handed| ==> IsEcho(WrittenBack(s.accepted, s.kept)[i], s.handed[i].1))
      && (forall i, j :: 0 <= i < j < |s.handed| ==> s.handed[i].0 != s.handed[j].0)
      && (forall n :: n in s.calls && s.calls[n].outcome.Ok? ==> (n, s.calls[n].outcome.response) in s.handed)
  {
    StartIsGood(req, resp);
    LandingRun(Start(req, resp), acts);
    Polling.HandedOutInOrder(req.cap, resp.cap, acts);
  }

  /** Both rings are empty, the server is idle and nobody is polling. */
  ghost predicate Undisturbed(s: ByteState) {
    && s.req.wp == s.req.rp && s.resp.wp == s.resp.rp && s.busy == None
    && forall n :: n in s.calls ==> !s.calls[n].outcome.Polling?
  }

  /** Every call of the run begins undisturbed. */
  ghost predicate BeginsUndisturbed(s: ByteState, acts: seq<Action>)
    decreases |acts|
  {
    acts == [] || ((acts[0].Begin? ==> Undisturbed(s)) && BeginsUndisturbed(Next(s, acts[0]), acts[1..]))
  }

  lemma {:induction false} UndisturbedAlike(s: ByteState, acts: seq<Action>)
    requires Good(s) && LandsThroughout(s, acts) && BeginsUndisturbed(s, acts)
    ensures Polling.BeginsUndisturbed(StateOf(s), acts)
    decreases |acts|
  {
    if acts != [] {
      if acts[0].Begin? {
        EmptyRing(s.req);
        EmptyRing(s.resp);
      }
      StepBacked(s, acts[0]);
      UndisturbedAlike(Next(s, acts[0]), acts[1..]);
    }
  }

  /** While writes land and calls begin undisturbed, every Ok is the echo of the caller's own request. */
  lemma UndisturbedCallsGetTheirOwnEcho(req: ByteRing, resp: ByteRing, acts: seq<Action>, n: nat)
    requires Fresh(req) && Fresh(resp) && req.cap <= U64 && resp.cap <= U64
    requires LandsThroughout(Start(req, resp), acts) && BeginsUndisturbed(Start(req, resp), acts)
    requires n in Exec(Start(req, resp), acts).calls
    ensures var c := Exec(Start(req, resp), acts).calls[n];
      c.outcome.Ok? ==> IsEcho(c.request, c.outcome.response)
  {
    StartIsGood(req, resp);
    LandingRun(Start(req, resp), acts);
    UndisturbedAlike(Start(req, resp), acts);
    Polling.UndisturbedCallsGetTheirOwnEcho(req.cap, resp.cap, acts, n);
  }
}
