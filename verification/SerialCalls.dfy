/** One caller at a time over the byte rings of the eventfd transport, every party doing its part:
    exactly when such a call succeeds and leaves the rings empty, and a run of short calls at the
    default capacity after which nobody is answered again. */
module SerialCalls {
  import opened LittleEndian
  import opened Fifo
  import opened Positions
  import opened Codec
  import opened CallCore
  import opened RingBacked
  import opened EventfdBytes
  import E = Eventfd
  import RM = RingModel
  import RR = RingRuns
  import RingFidelity

  /** Nothing is under way: no tokens, no tasks, both rings empty. */
  predicate Resting(s: ByteState) {
    && s.reqCounter == s.backendLeft == s.respCounter == s.gatewayLeft == s.toSignal == 0
    && s.core.tasks == [] && s.core.req.wp == s.core.req.rp && s.core.resp.wp == s.core.resp.rp
  }

  function Asking(id: Id, q: Request): seq<E.Action> {
    [E.StartCall(id, q), E.WriteRequest(id), E.SignalRequest(id, true)]
  }

  const TAKING: seq<E.Action> := [E.BackendWait, E.BackendIterate]

  function Answering(ts: I64, us: I64): seq<E.Action> {
    [E.FinishTask(0, ts, us), E.SignalResponse(true)]
  }

  const GIVING: seq<E.Action> := [E.GatewayWait, E.GatewayIterate]

  /** One call from its start to its end, every party doing its part. */
  function FullCall(id: Id, q: Request, ts: I64, us: I64): seq<E.Action> {
    Asking(id, q) + (TAKING + (Answering(ts, us) + GIVING))
  }

  // ---------- running action by action ----------

  lemma {:induction false} ExecAppend(s: ByteState, a: seq<E.Action>, b: seq<E.Action>)
    ensures Exec(s, a + b) == Exec(Exec(s, a), b)
    decreases |a|
  {
    if a == [] {
      assert a + b == b;
    } else {
      assert (a + b)[1..] == a[1..] + b;
      ExecAppend(Next(s, a[0]), a[1..], b);
    }
  }

  lemma ExecOne(s: ByteState, a: E.Action)
    ensures Exec(s, [a]) == Next(s, a)
  {
    assert Exec(Next(s, a), [a][1..]) == Next(s, a);
  }

  lemma ExecTwo(s: ByteState, a: E.Action, b: E.Action)
    ensures Exec(s, [a, b]) == Next(Next(s, a), b)
  {
    assert [a, b][1..] == [b];
    ExecOne(Next(s, a), b);
  }

  lemma ExecThree(s: ByteState, a: E.Action, b: E.Action, c: E.Action)
    ensures Exec(s, [a, b, c]) == Next(Next(Next(s, a), b), c)
  {
    assert [a, b, c][1..] == [b, c];
    ExecTwo(Next(s, a), b, c);
  }

  function RequestRecord(id: Id, q: Request): Payload {
    EncodeRequest(id, q)
  }

  function ResponseRecord(id: Id, q: Request, ts: I64, us: I64): Payload {
    ResponseBytes(Task(id, q), ts, us)
  }

  /** The core after the request has been written and signalled. */
  function Asked(b: ByteCore, id: Id, q: Request): ByteCore {
    b.(calls := b.calls[id := Call(q, Waiting)], pending := b.pending + {id},
       req := RM.Write(b.req, RequestRecord(id, q)))
  }

  lemma AskingSteps(s: ByteState, id: Id, q: Request)
    requires s.reqCounter == 0 && id !in s.core.calls && RM.Accepts(s.core.req, RequestRecord(id, q))
    ensures Exec(s, Asking(id, q)) == s.(core := Asked(s.core, id, q), reqCounter := 1)
  {
    ExecThree(s, E.StartCall(id, q), E.WriteRequest(id), E.SignalRequest(id, true));
    var s1 := Next(s, E.StartCall(id, q));
    var s2 := Next(s1, E.WriteRequest(id));
    assert s2.core == s1.core.(calls := s1.core.calls[id := Call(q, Posted)],
                               req := RM.Write(s.core.req, RequestRecord(id, q)));
    var s3 := Next(s2, E.SignalRequest(id, true));
    assert s3.core.calls == s.core.calls[id := Call(q, Waiting)];
  }

  lemma TakingSteps(s: ByteState)
    requires s.reqCounter == 1 && s.backendLeft == 0
    ensures Exec(s, TAKING).core == RingBacked.Apply(s.core, Fetch(E.BUFFER))
    ensures RM.ReadOutcome(s.core.req, E.BUFFER).Got? ==>
      Exec(s, TAKING) == s.(core := RingBacked.Apply(s.core, Fetch(E.BUFFER)), reqCounter := 0)
  {
    ExecTwo(s, E.BackendWait, E.BackendIterate);
    assert Next(s, E.BackendWait).backendLeft == 1;
  }

  lemma AnsweringSteps(s: ByteState, t: Task, ts: I64, us: I64)
    requires s.core.tasks == [t] && s.toSignal == 0 && s.respCounter == 0
    requires RM.Accepts(s.core.resp, ResponseBytes(t, ts, us))
    ensures Exec(s, Answering(ts, us)) ==
      s.(core := s.core.(tasks := [], resp := RM.Write(s.core.resp, ResponseBytes(t, ts, us))), respCounter := 1)
  {
    ExecTwo(s, E.FinishTask(0, ts, us), E.SignalResponse(true));
    assert s.core.tasks[..0] + s.core.tasks[1..] == [];
    assert Next(s, E.FinishTask(0, ts, us)) ==
      s.(core := s.core.(tasks := [], resp := RM.Write(s.core.resp, ResponseBytes(t, ts, us))), toSignal := 1);
  }

  lemma GivingSteps(s: ByteState)
    requires s.respCounter == 1 && s.gatewayLeft == 0
    ensures Exec(s, GIVING).core == RingBacked.Apply(s.core, Deliver(E.BUFFER))
    ensures RM.ReadOutcome(s.core.resp, E.BUFFER).Got? && RM.ReadOutcome(s.core.resp, E.BUFFER).data != [] ==>
      Exec(s, GIVING) == s.(core := RingBacked.Apply(s.core, Deliver(E.BUFFER)), respCounter := 0)
  {
    ExecTwo(s, E.GatewayWait, E.GatewayIterate);
    assert Next(s, E.GatewayWait).gatewayLeft == 1;
  }

  /** Whatever a reader finds, its ring is left as `read` leaves it. */
  lemma ReadersRead(b: ByteCore, n: nat)
    ensures RingBacked.Apply(b, Fetch(n)).req == RM.Read(b.req, n)
    ensures RingBacked.Apply(b, Deliver(n)).resp == RM.Read(b.resp, n)
  {}

  lemma OwnDelivery(b: ByteCore, n: nat, id: Id, p: Response)
    requires RM.ReadOutcome(b.resp, n).Got? && id in b.pending
    requires DecodeResponse(RM.ReadOutcome(b.resp, n).data) == Some((id, p))
    ensures RingBacked.Apply(b, Deliver(n)) ==
      b.(resp := RM.Read(b.resp, n), pending := b.pending - {id}, replies := b.replies[id := p])
  {}

  // ---------- exactly when a call goes through ----------

  /** A short request under a fresh id, for which both rings have room. */
  predicate Callable(b: ByteCore, id: Id, q: Request) {
    && id !in b.calls && WireLength(id, q) <= E.MAX_REQUEST
    && E.BUFFER + PREFIX < b.req.cap <= U64 && E.BUFFER + PREFIX < b.resp.cap <= U64
  }

  lemma RecordsFit(b: ByteCore, id: Id, q: Request, ts: I64, us: I64)
    requires Callable(b, id, q) && b.req.wp == b.req.rp && b.resp.wp == b.resp.rp
    ensures RM.Accepts(b.req, RequestRecord(id, q)) && RM.Accepts(b.resp, ResponseRecord(id, q, ts, us))
    ensures |RequestRecord(id, q)| == WireLength(id, q) < |ResponseRecord(id, q, ts, us)| == WireLength(id, q) + 8
    ensures |ResponseRecord(id, q, ts, us)| <= E.BUFFER
    ensures DecodeRequest(RequestRecord(id, q)) == Some((id, q))
    ensures DecodeResponse(ResponseRecord(id, q, ts, us)) == Some((id, Response(q.message, ts, us, q.payload)))
  {
    RequestLength(id, q);
    ResponseBytesLength(Task(id, q), ts, us);
    RequestRoundTrip(id, q, []);
    assert RequestRecord(id, q) + [] == RequestRecord(id, q);
    ResponseRoundTrip(id, Response(q.message, ts, us, q.payload), []);
    assert ResponseRecord(id, q, ts, us) + [] == ResponseRecord(id, q, ts, us);
  }

  /** Call `id` has returned Ok with the echo of `q`. */
  predicate Served(b: ByteCore, id: Id, q: Request) {
    && id in b.calls && b.calls[id] == Call(q, Waiting)
    && id in b.replies && IsEcho(q, b.replies[id])
  }

  /** From rest to rest, only call `id` added and served, each ring one record further. */
  ghost predicate WentThrough(s: ByteState, s': ByteState, id: Id, q: Request, ts: I64, us: I64) {
    && Resting(s') && Served(s'.core, id, q)
    && s'.core.calls == s.core.calls[id := Call(q, Waiting)]
    && s'.core.replies == s.core.replies[id := Response(q.message, ts, us, q.payload)]
    && s'.core.req == RM.Read(RM.Write(s.core.req, RequestRecord(id, q)), E.BUFFER)
    && s'.core.resp == RM.Read(RM.Write(s.core.resp, ResponseRecord(id, q, ts, us)), E.BUFFER)
    && s'.core.req.wp == Wrap(s.core.req.wp + PREFIX + WireLength(id, q), s.core.req.cap)
    && s'.core.resp.wp == Wrap(s.core.resp.wp + PREFIX + WireLength(id, q) + 8, s.core.resp.cap)
  }

  /** Up to the task, if the request lands. */
  lemma RequestGoesThrough(s: ByteState, id: Id, q: Request)
    requires Resting(s) && Callable(s.core, id, q) && RM.PrefixLands(s.core.req, RequestRecord(id, q))
    ensures var b := Asked(s.core, id, q);
      Exec(Exec(s, Asking(id, q)), TAKING) ==
        s.(core := b.(req := RM.Read(b.req, E.BUFFER), tasks := [Task(id, q)]))
    ensures RM.Read(Asked(s.core, id, q).req, E.BUFFER).wp == RM.Read(Asked(s.core, id, q).req, E.BUFFER).rp
      == Wrap(s.core.req.wp + PREFIX + WireLength(id, q), s.core.req.cap)
  {
    RecordsFit(s.core, id, q, 0, 0);
    AskingSteps(s, id, q);
    TakingSteps(Exec(s, Asking(id, q)));
    RingFidelity.PassesThroughIff(s.core.req, RequestRecord(id, q), E.BUFFER);
    assert [] + [Task(id, q)] == [Task(id, q)];
  }

  /** From the task to the reply, if the response lands. */
  lemma ResponseGoesThrough(s: ByteState, id: Id, q: Request, ts: I64, us: I64)
    requires s.core.tasks == [Task(id, q)] && s.core.resp.wp == s.core.resp.rp && id in s.core.pending
    requires s.toSignal == s.respCounter == s.gatewayLeft == 0
    requires RM.Accepts(s.core.resp, ResponseRecord(id, q, ts, us)) && E.BUFFER < s.core.resp.cap
    requires |ResponseRecord(id, q, ts, us)| == WireLength(id, q) + 8 <= E.BUFFER
    requires DecodeResponse(ResponseRecord(id, q, ts, us)) == Some((id, Response(q.message, ts, us, q.payload)))
    requires RM.PrefixLands(s.core.resp, ResponseRecord(id, q, ts, us))
    ensures var w := RM.Write(s.core.resp, ResponseRecord(id, q, ts, us));
      && Exec(Exec(s, Answering(ts, us)), GIVING) ==
           s.(core := s.core.(tasks := [], resp := RM.Read(w, E.BUFFER), pending := s.core.pending - {id},
                              replies := s.core.replies[id := Response(q.message, ts, us, q.payload)]))
      && RM.Read(w, E.BUFFER).wp == RM.Read(w, E.BUFFER).rp
         == Wrap(s.core.resp.wp + PREFIX + WireLength(id, q) + 8, s.core.resp.cap)
  {
    AnsweringSteps(s, Task(id, q), ts, us);
    RingFidelity.PassesThroughIff(s.core.resp, ResponseRecord(id, q, ts, us), E.BUFFER);
    var s' := Exec(s, Answering(ts, us));
    GivingSteps(s');
    OwnDelivery(s'.core, E.BUFFER, id, Response(q.message, ts, us, q.payload));
  }

  lemma FullCallParts(s: ByteState, id: Id, q: Request, ts: I64, us: I64)
    ensures Exec(s, FullCall(id, q, ts, us)) ==
      Exec(Exec(Exec(Exec(s, Asking(id, q)), TAKING), Answering(ts, us)), GIVING)
  {
    ExecAppend(s, Asking(id, q), TAKING + (Answering(ts, us) + GIVING));
    ExecAppend(Exec(s, Asking(id, q)), TAKING, Answering(ts, us) + GIVING);
    ExecAppend(Exec(Exec(s, Asking(id, q)), TAKING), Answering(ts, us), GIVING);
  }

  lemma LandingCallGoesThrough(s: ByteState, id: Id, q: Request, ts: I64, us: I64)
    requires Resting(s) && Callable(s.core, id, q)
    requires RM.PrefixLands(s.core.req, RequestRecord(id, q))
    requires RM.PrefixLands(s.core.resp, ResponseRecord(id, q, ts, us))
    ensures WentThrough(s, Exec(s, FullCall(id, q, ts, us)), id, q, ts, us)
  {
    RecordsFit(s.core, id, q, ts, us);
    FullCallParts(s, id, q, ts, us);
    RequestGoesThrough(s, id, q);
    ResponseGoesThrough(Exec(Exec(s, Asking(id, q)), TAKING), id, q, ts, us);
  }

  lemma {:induction false} RequestRingLeftAlone(s: ByteState, acts: seq<E.Action>)
    requires forall a :: a in acts ==> !a.WriteRequest? && !a.BackendIterate?
    ensures Exec(s, acts).core.req == s.core.req
    decreases |acts|
  {
    if acts != [] {
      assert acts[0] in acts && forall a :: a in acts[1..] ==> a in acts;
      RequestRingLeftAlone(Next(s, acts[0]), acts[1..]);
    }
  }

  /** A request that does not land leaves its ring non-empty with nothing under way in it. */
  lemma BadRequestStays(s: ByteState, id: Id, q: Request, ts: I64, us: I64)
    requires Resting(s) && Callable(s.core, id, q) && !RM.PrefixLands(s.core.req, RequestRecord(id, q))
    ensures !Resting(Exec(s, FullCall(id, q, ts, us)))
  {
    RecordsFit(s.core, id, q, ts, us);
    FullCallParts(s, id, q, ts, us);
    AskingSteps(s, id, q);
    var s2 := Exec(Exec(s, Asking(id, q)), TAKING);
    TakingSteps(Exec(s, Asking(id, q)));
    ReadersRead(Exec(s, Asking(id, q)).core, E.BUFFER);
    RingFidelity.PassesThroughIff(s.core.req, RequestRecord(id, q), E.BUFFER);
    RequestRingLeftAlone(s2, Answering(ts, us));
    RequestRingLeftAlone(Exec(s2, Answering(ts, us)), GIVING);
  }

  lemma BadResponseStays(s: ByteState, id: Id, q: Request, ts: I64, us: I64)
    requires Resting(s) && Callable(s.core, id, q) && RM.PrefixLands(s.core.req, RequestRecord(id, q))
    requires !RM.PrefixLands(s.core.resp, ResponseRecord(id, q, ts, us))
    ensures !Resting(Exec(s, FullCall(id, q, ts, us)))
  {
    RecordsFit(s.core, id, q, ts, us);
    FullCallParts(s, id, q, ts, us);
    RequestGoesThrough(s, id, q);
    var s2 := Exec(Exec(s, Asking(id, q)), TAKING);
    AnsweringSteps(s2, Task(id, q), ts, us);
    GivingSteps(Exec(s2, Answering(ts, us)));
    ReadersRead(Exec(s2, Answering(ts, us)).core, E.BUFFER);
    RingFidelity.PassesThroughIff(s.core.resp, ResponseRecord(id, q, ts, us), E.BUFFER);
  }

  /** From rest, a short call in which everyone does their part returns its own echo and leaves the
      system at rest again iff its request and its response both land. */
  lemma CallGoesThroughIff(s: ByteState, id: Id, q: Request, ts: I64, us: I64)
    requires Resting(s) && Callable(s.core, id, q)
    ensures var s' := Exec(s, FullCall(id, q, ts, us));
      Resting(s') && Served(s'.core, id, q) <==>
        RM.PrefixLands(s.core.req, RequestRecord(id, q)) &&
        RM.PrefixLands(s.core.resp, ResponseRecord(id, q, ts, us))
  {
    if !RM.PrefixLands(s.core.req, RequestRecord(id, q)) {
      BadRequestStays(s, id, q, ts, us);
    } else if !RM.PrefixLands(s.core.resp, ResponseRecord(id, q, ts, us)) {
      BadResponseStays(s, id, q, ts, us);
    } else {
      LandingCallGoesThrough(s, id, q, ts, us);
    }
  }

  // ---------- short calls that stop the backend ----------

  /** Wire length of the calls below, and how many of them bring the request ring to two cells before
      its end. */
  const WIRE: nat := 597
  const LAP: nat := 111662

  /** Calls of one length under distinct ids. */
  predicate SerialLoad(calls: seq<(Id, Request)>) {
    && (forall i :: 0 <= i < |calls| ==> WireLength(calls[i].0, calls[i].1) == WIRE)
    && (forall i, j :: 0 <= i < j < |calls| ==> calls[i].0 != calls[j].0)
  }

  function ServeAll(calls: seq<(Id, Request)>): seq<E.Action> {
    if calls == [] then []
    else
      var k := |calls| - 1;
      ServeAll(calls[..k]) + FullCall(calls[k].0, calls[k].1, 0, 0)
  }

  /** Where the response ring stands after `k` calls; it goes round once, not crossing a prefix. */
  function ResponsePos(k: nat): int {
    if k <= 110195 then 609 * k else 609 * k - E.DEFAULT_CAPACITY
  }

  /** The first two cells of the request ring still hold the length of the first record. */
  predicate LengthInFront(r: ByteRing) {
    r.mem[0] == 0x55 && r.mem[1] == 0x02
  }

  ghost predicate AllServed(b: ByteCore, calls: seq<(Id, Request)>) {
    && (forall i :: 0 <= i < |calls| ==> Served(b, calls[i].0, calls[i].1))
    && (forall id :: id in b.calls || id in b.replies ==> exists i :: 0 <= i < |calls| && calls[i].0 == id)
  }

  /** Where the two rings stand after `k` calls. */
  predicate RingsAfter(b: ByteCore, k: nat) {
    && b.req.cap == b.resp.cap == E.DEFAULT_CAPACITY
    && b.req.wp == 601 * k && b.resp.wp == ResponsePos(k)
    && (k > 0 ==> LengthInFront(b.req))
  }

  ghost predicate After(s: ByteState, calls: seq<(Id, Request)>) {
    Resting(s) && AllServed(s.core, calls) && RingsAfter(s.core, |calls|)
  }

  lemma FrontAfterWrite(r: ByteRing, data: Payload)
    requires RM.Accepts(r, data) && |data| == WIRE && r.wp + PREFIX + |data| <= r.cap
    requires r.wp == 0 || (r.wp >= 2 && LengthInFront(r))
    ensures LengthInFront(RM.Write(r, data))
  {
    assert ToLe(WIRE, 4)[0] == 0x55 && ToLe(WIRE, 4)[1] == ToLe(WIRE / 256, 3)[0] == 0x02;
  }

  lemma OneMoreServed(b: ByteCore, b': ByteCore, calls: seq<(Id, Request)>, id: Id, q: Request, p: Response)
    requires AllServed(b, calls) && Served(b', id, q) && id !in b.calls
    requires b'.calls == b.calls[id := Call(q, Waiting)] && b'.replies == b.replies[id := p]
    ensures AllServed(b', calls + [(id, q)])
  {
    var calls' := calls + [(id, q)];
    forall i | 0 <= i < |calls'| ensures Served(b', calls'[i].0, calls'[i].1) {
      assert i < |calls| ==> calls'[i] == calls[i] && Served(b, calls[i].0, calls[i].1);
    }
    forall x | x in b'.calls || x in b'.replies ensures exists i :: 0 <= i < |calls'| && calls'[i].0 == x {
      if x == id {
        assert calls'[|calls|].0 == x;
      } else {
        var i :| 0 <= i < |calls| && calls[i].0 == x;
        assert calls'[i].0 == x;
      }
    }
  }

  lemma PositionsAfter(k: nat)
    requires k < LAP
    ensures 601 * k + 601 <= E.DEFAULT_CAPACITY - 2
    ensures 0 <= ResponsePos(k) && ResponsePos(k) + PREFIX <= E.DEFAULT_CAPACITY
    ensures ResponsePos(k + 1) == Wrap(ResponsePos(k) + 609, E.DEFAULT_CAPACITY)
  {}

  lemma RingsMove(s: ByteState, s': ByteState, k: nat, id: Id, q: Request)
    requires RingsAfter(s.core, k) && k < LAP && WireLength(id, q) == WIRE
    requires RM.Accepts(s.core.req, RequestRecord(id, q)) && |RequestRecord(id, q)| == WIRE
    requires WentThrough(s, s', id, q, 0, 0)
    ensures RingsAfter(s'.core, k + 1)
  {
    PositionsAfter(k);
    FrontAfterWrite(s.core.req, RequestRecord(id, q));
  }

  lemma OneMore(s: ByteState, calls: seq<(Id, Request)>, id: Id, q: Request)
    requires After(s, calls) && |calls| < LAP && WireLength(id, q) == WIRE
    requires forall i :: 0 <= i < |calls| ==> calls[i].0 != id
    ensures After(Exec(s, FullCall(id, q, 0, 0)), calls + [(id, q)])
  {
    var s' := Exec(s, FullCall(id, q, 0, 0));
    PositionsAfter(|calls|);
    RecordsFit(s.core, id, q, 0, 0);
    LandingCallGoesThrough(s, id, q, 0, 0);
    RingsMove(s, s', |calls|, id, q);
    OneMoreServed(s.core, s'.core, calls, id, q, Response(q.message, 0, 0, q.payload));
  }

  lemma AtFirst(req: ByteRing, resp: ByteRing)
    requires Fresh(req) && Fresh(resp) && req.cap == resp.cap == E.DEFAULT_CAPACITY
    ensures After(EventfdBytes.Start(req, resp), [])
  {}

  lemma ServeOneMore(s0: ByteState, calls: seq<(Id, Request)>, id: Id, q: Request)
    requires After(Exec(s0, ServeAll(calls)), calls) && |calls| < LAP && WireLength(id, q) == WIRE
    requires forall i :: 0 <= i < |calls| ==> calls[i].0 != id
    ensures After(Exec(s0, ServeAll(calls + [(id, q)])), calls + [(id, q)])
  {
    var more := calls + [(id, q)];
    assert more[..|calls|] == calls && ServeAll(more) == ServeAll(calls) + FullCall(id, q, 0, 0);
    OneMore(Exec(s0, ServeAll(calls)), calls, id, q);
    ExecAppend(s0, ServeAll(calls), FullCall(id, q, 0, 0));
  }

  lemma {:induction false} ServedRun(req: ByteRing, resp: ByteRing, calls: seq<(Id, Request)>)
    requires Fresh(req) && Fresh(resp) && req.cap == resp.cap == E.DEFAULT_CAPACITY
    requires SerialLoad(calls) && |calls| <= LAP
    ensures After(Exec(EventfdBytes.Start(req, resp), ServeAll(calls)), calls)
    decreases |calls|
  {
    if calls == [] {
      AtFirst(req, resp);
    } else {
      var k := |calls| - 1;
      var front := calls[..k];
      var (id, q) := calls[k];
      assert calls == front + [(id, q)];
      ServedRun(req, resp, front);
      ServeOneMore(EventfdBytes.Start(req, resp), front, id, q);
    }
  }

  /** With two cells left and a length in front, a short record is taken for one of 40 million bytes. */
  lemma ShortRecordSticks(r: ByteRing, data: Payload)
    requires r.wp == r.rp == r.cap - 2 && RM.Accepts(r, data) && |data| == WIRE && LengthInFront(r)
    ensures RR.StuckHead(RM.Write(r, data), E.BUFFER)
  {
    RR.BoundaryDecoding(r, data);
    assert RM.Write(r, data) == RR.AtRecord(r, data);
    RM.WriteKeepsOldCells(r, data);
    PowersUsed();
    assert r.mem[..2] == [r.mem[0], r.mem[1]] && FromLe([r.mem[1]]) == 2 by { assert FromLe([]) == 0; }
    assert FromLe(r.mem[..2]) == 0x255 by { assert r.mem[..2][1..] == [r.mem[1]]; }
  }

  /** With an unreadable request ahead, no task running and no response waiting, nobody is ever
      answered again. */
  lemma {:induction false} NobodyIsAnswered(s: ByteState, acts: seq<E.Action>)
    requires RR.StuckHead(s.core.req, E.BUFFER) && s.core.tasks == [] && s.core.resp.wp == s.core.resp.rp
    ensures Exec(s, acts).core.replies == s.core.replies && Exec(s, acts).core.tasks == []
    decreases |acts|
  {
    if acts != [] {
      var a := acts[0];
      if CanTake(s, a) {
        EventfdBytes.CoreMoves(s, a);
        if E.CoreOp(a).Some? {
          UnreadableKept(s.core, E.CoreOp(a).value, E.BUFFER);
          NoTasks(Next(s, a).core.tasks);
        }
      }
      NobodyIsAnswered(Next(s, a), acts[1..]);
    }
  }

  /** At the default capacity 111662 serial calls of 597 bytes each are all answered, and the next call
      of that length stops the transport: whatever anyone does afterwards, it is never answered, and
      nor is anybody else. Every request is short, every signal succeeds and no ring is ever full. */
  lemma ShortCallsStopTheBackend(req: ByteRing, resp: ByteRing, calls: seq<(Id, Request)>, acts: seq<E.Action>)
    requires Fresh(req) && Fresh(resp) && req.cap == resp.cap == E.DEFAULT_CAPACITY
    requires SerialLoad(calls) && |calls| == LAP + 1
    ensures var s := Exec(EventfdBytes.Start(req, resp), ServeAll(calls[..LAP]));
      var s' := Exec(s, Asking(calls[LAP].0, calls[LAP].1) + acts);
      && (forall i :: 0 <= i < LAP ==> Served(s.core, calls[i].0, calls[i].1))
      && s'.core.replies == s.core.replies && calls[LAP].0 !in s'.core.replies
  {
    var s := Exec(EventfdBytes.Start(req, resp), ServeAll(calls[..LAP]));
    var (id, q) := calls[LAP];
    ServedRun(req, resp, calls[..LAP]);
    assert forall i :: 0 <= i < LAP ==> calls[..LAP][i] == calls[i];
    RecordsFit(s.core, id, q, 0, 0);
    AskingSteps(s, id, q);
    ShortRecordSticks(s.core.req, RequestRecord(id, q));
    NobodyIsAnswered(Exec(s, Asking(id, q)), acts);
    ExecAppend(s, Asking(id, q), acts);
  }
}
