/** Who may be waiting in the polling transport, what a call that was refused or timed out returns,
    and what each party can do by itself whatever the others have left half done. */
module PollingParties {
  import opened LittleEndian
  import opened Fifo
  import opened Codec
  import opened Polling

  // ---------- returned calls ----------

  /** A call that has returned keeps its request and its result in every later state. */
  lemma {:induction false} ReturnsAreFinal(s: State, n: nat, acts: seq<Action>)
    requires n in s.calls && !s.calls[n].outcome.Polling?
    ensures n in Exec(s, acts).calls && Exec(s, acts).calls[n] == s.calls[n]
    decreases |acts|
  {
    if acts != [] {
      ReturnsAreFinal(Next(s, acts[0]), n, acts[1..]);
    }
  }

  /** A call may begin under any unused number, whatever else is under way. If its request fits, it
      joins the request ring and the call waits; if not, the call has returned an error for good and
      nothing else has changed. */
  lemma CallerNeverWaits(s: State, n: nat, q: Request, acts: seq<Action>)
    requires n !in s.calls
    ensures var s' := Next(s, Begin(n, q));
      if Fits(s.reqCap, s.reqRing, RequestBytes(q))
      then s' == s.(reqRing := s.reqRing + [RequestBytes(q)], calls := s.calls[n := Call(q, Outcome.Polling)],
                    accepted := s.accepted + [q])
      else
        && s' == s.(calls := s.calls[n := Call(q, Err)])
        && n in Exec(s', acts).calls && Exec(s', acts).calls[n] == Call(q, Err)
  {
    if !Fits(s.reqCap, s.reqRing, RequestBytes(q)) {
      ReturnsAreFinal(Next(s, Begin(n, q)), n, acts);
    }
  }

  /** Any waiting call may time out, and has then returned an error for good; nothing else changes. */
  lemma TimedOutIsErr(s: State, n: nat, acts: seq<Action>)
    requires IsPolling(s, n)
    ensures Next(s, TimeOut(n)) == s.(calls := s.calls[n := Call(s.calls[n].request, Err)])
    ensures var s' := Exec(Next(s, TimeOut(n)), acts);
      n in s'.calls && s'.calls[n] == Call(s.calls[n].request, Err)
  {
    ReturnsAreFinal(Next(s, TimeOut(n)), n, acts);
  }

  // ---------- who may be waiting or answered ----------

  /** Calls that wait or have returned Ok. */
  function Served(s: State): set<nat> {
    set n | n in s.calls && !s.calls[n].outcome.Err?
  }

  /** Only calls whose request the ring accepted wait or return Ok, and no more of them than that. */
  ghost predicate OnlyAccepted(s: State) {
    && |Served(s)| <= |s.accepted|
    && forall n :: n in Served(s) ==> s.calls[n].request in s.accepted
  }

  lemma ServedShrinks(s: State, s': State)
    requires Served(s') <= Served(s) && OnlyAccepted(s) && s'.accepted == s.accepted
    requires forall n :: n in Served(s') ==> s'.calls[n].request == s.calls[n].request
    ensures OnlyAccepted(s')
  {
    Fewer(Served(s'), Served(s));
  }

  lemma Fewer(a: set<nat>, b: set<nat>)
    requires a <= b
    ensures |a| <= |b|
  {
    assert b == a + (b - a);
  }

  lemma BeginKeepsOnlyAccepted(s: State, n: nat, q: Request)
    requires OnlyAccepted(s) && n !in s.calls
    ensures OnlyAccepted(Next(s, Begin(n, q)))
  {
    CallerNeverWaits(s, n, q, []);
    var s' := Next(s, Begin(n, q));
    if Fits(s.reqCap, s.reqRing, RequestBytes(q)) {
      assert Served(s') == Served(s) + {n};
      assert q in s.accepted + [q];
    } else {
      assert Served(s') == Served(s);
    }
  }

  lemma StepKeepsOnlyAccepted(s: State, a: Action)
    requires OnlyAccepted(s)
    ensures OnlyAccepted(Next(s, a))
  {
    if CanTake(s, a) {
      if a.Begin? {
        BeginKeepsOnlyAccepted(s, a.n, a.request);
      } else {
        ServedShrinks(s, Next(s, a));
      }
    }
  }

  lemma {:induction false} RunKeepsOnlyAccepted(s: State, acts: seq<Action>)
    requires OnlyAccepted(s)
    ensures OnlyAccepted(Exec(s, acts))
    decreases |acts|
  {
    if acts != [] {
      StepKeepsOnlyAccepted(s, acts[0]);
      RunKeepsOnlyAccepted(Next(s, acts[0]), acts[1..]);
    }
  }

  /** On every run from the start, the calls that wait or have returned Ok are at most as many as the
      accepted requests, and each one's request is among those. */
  lemma OnlyAcceptedCallsAreServed(reqCap: nat, respCap: nat, acts: seq<Action>)
    ensures var s := Exec(Start(reqCap, respCap), acts);
      && |Served(s)| <= |s.accepted|
      && forall n :: n in s.calls && !s.calls[n].outcome.Err? ==> s.calls[n].request in s.accepted
  {
    RunKeepsOnlyAccepted(Start(reqCap, respCap), acts);
  }

  // ---------- the server and the pollers ----------

  /** An idle server takes the oldest readable request and appends its echo to the response ring, or
      drops it when the ring has no room, whatever callers are doing meanwhile. */
  lemma ServerNeverWaits(s: State, ts: I64, us: I64)
    requires Inv(s) && s.busy == None && s.reqRing != [] && |s.reqRing[0]| <= BUFFER
    ensures |s.kept| < |s.accepted|
    ensures var d := EchoBytes(s.accepted[|s.kept|], ts, us);
      Next(Next(s, ServerPoll), ServerReply(ts, us)) ==
        s.(reqRing := s.reqRing[1..], respRing := Put(s.respCap, s.respRing, d),
           kept := s.kept + [Fits(s.respCap, s.respRing, d)])
  {
    RequestTaken(s.accepted, |s.kept|, s.reqRing);
    ServerTakes(s, s.accepted[|s.kept|]);
  }

  /** A request can be served iff it is at most 65536 bytes, and its echo taken iff it is at most 65528. */
  lemma ReadableLengths(q: Request, ts: I64, us: I64)
    ensures Peek([RequestBytes(q)], BUFFER).Got? <==> WireLength([], q) <= 65536
    ensures Peek([EchoBytes(q, ts, us)], BUFFER).Got? <==> WireLength([], q) <= 65528
  {
    RequestLength([], q);
    ResponseLength([], q, Response(q.message, ts, us, q.payload));
  }

  /** With nothing readable to take, an idle server changes nothing. */
  lemma ServerFindsNothing(s: State)
    requires s.busy == None && (s.reqRing == [] || |s.reqRing[0]| > BUFFER)
    ensures Next(s, ServerPoll) == s
  {}

  /** Any waiting call may poll next: it takes the oldest response, exactly as it decodes, and leaves
      everything else alone; with nothing readable there it goes on waiting. */
  lemma AnyCallMayPoll(s: State, n: nat)
    requires Inv(s) && IsPolling(s, n)
    ensures s.respRing == [] || |s.respRing[0]| > BUFFER ==> Next(s, Poll(n)) == s
    ensures s.respRing != [] ==> DecodeResponse(s.respRing[0]).Some?
    ensures s.respRing != [] && |s.respRing[0]| <= BUFFER ==>
      var p := DecodeResponse(s.respRing[0]).value.1;
      Next(s, Poll(n)) == s.(respRing := s.respRing[1..], handed := s.handed + [(n, p)],
                             calls := s.calls[n := Call(s.calls[n].request, Ok(p))])
  {
    if s.respRing != [] {
      ResponseTaken(WrittenBack(s.accepted, s.kept), s.handed, s.respRing, n);
    }
  }
}
