/** The shared core over two byte rings: every operation is decided by what the rings themselves
    answer. A core over queues is recovered by parsing the rings' memory, and the two move alike
    exactly as long as every accepted write lands. */
module RingBacked {
  import opened LittleEndian
  import opened Fifo
  import opened Codec
  import opened CallCore
  import RM = RingModel
  import RR = RingRuns

  type ByteRing = r: RM.Ring | RM.WellFormed(r) witness RM.Ring(5, [0, 0, 0, 0, 0, 0, 0, 0], 0, 0)

  /** As `CallCore.Core`, with memory and positions in place of the queues. */
  datatype ByteCore = ByteCore(
    calls: map<Id, Call>,
    pending: set<Id>,
    req: ByteRing,
    tasks: seq<Task>,
    resp: ByteRing,
    replies: map<Id, Response>,
    lost: set<Id>)

  // ---------- operations ----------

  predicate Enabled(b: ByteCore, op: Op) {
    match op
    case Register(id, _) => id !in b.calls
    case PostRequest(id) => id in b.calls && b.calls[id].stage == Registered
    case Notify(id, _) => id in b.calls && b.calls[id].stage == Posted
    case Fetch(_) => true
    case PostResponse(k, _, _) => k < |b.tasks|
    case Deliver(_) => true
  }

  /** The bytes an operation hands to `write`, and the ring it hands them to. */
  function ToWrite(b: ByteCore, op: Op): (ByteRing, Payload)
    requires Enabled(b, op) && (op.PostRequest? || op.PostResponse?)
  {
    if op.PostRequest? then (b.req, EncodeRequest(op.id, b.calls[op.id].request))
    else (b.resp, ResponseBytes(b.tasks[op.k], op.ts, op.us))
  }

  predicate Accepted(b: ByteCore, op: Op)
    requires Enabled(b, op) && (op.PostRequest? || op.PostResponse?)
  {
    var (r, d) := ToWrite(b, op);
    RM.WriteOutcome(r, d).Written?
  }

  function ApplyPostRequest(b: ByteCore, id: Id): ByteCore
    requires Enabled(b, PostRequest(id))
  {
    var (r, d) := ToWrite(b, PostRequest(id));
    var st := if Accepted(b, PostRequest(id)) then Posted else Failed;
    b.(calls := b.calls[id := Call(b.calls[id].request, st)], req := RM.Write(r, d),
       lost := b.lost + if st == Failed then {id} else {})
  }

  function ApplyPostResponse(b: ByteCore, k: nat, ts: I64, us: I64): ByteCore
    requires k < |b.tasks|
  {
    var (r, d) := ToWrite(b, PostResponse(k, ts, us));
    b.(tasks := b.tasks[..k] + b.tasks[k + 1..], resp := RM.Write(r, d),
       lost := b.lost + if Accepted(b, PostResponse(k, ts, us)) then {} else {b.tasks[k].id})
  }

  function ApplyFetch(b: ByteCore, bufLen: nat): ByteCore {
    match RM.ReadOutcome(b.req, bufLen)
    case Got(d) =>
      var rest := b.(req := RM.Read(b.req, bufLen));
      (match DecodeRequest(d)
       case None => rest
       case Some((id, q)) => rest.(tasks := b.tasks + [Task(id, q)]))
    case _ => b
  }

  function ApplyDeliver(b: ByteCore, bufLen: nat): ByteCore {
    match RM.ReadOutcome(b.resp, bufLen)
    case Got(d) =>
      var rest := b.(resp := RM.Read(b.resp, bufLen));
      (match DecodeResponse(d)
       case None => rest
       case Some((id, p)) =>
         if id in b.pending then rest.(pending := b.pending - {id}, replies := b.replies[id := p]) else rest)
    case _ => b
  }

  function Apply(b: ByteCore, op: Op): ByteCore
    requires Enabled(b, op)
  {
    match op
    case Register(id, q) => b.(calls := b.calls[id := Call(q, Registered)], pending := b.pending + {id})
    case PostRequest(id) => ApplyPostRequest(b, id)
    case Notify(id, ok) => b.(calls := b.calls[id := Call(b.calls[id].request, if ok then Waiting else Failed)])
    case Fetch(n) => ApplyFetch(b, n)
    case PostResponse(k, ts, us) => ApplyPostResponse(b, k, ts, us)
    case Deliver(n) => ApplyDeliver(b, n)
  }

  // ---------- the core over queues it stands for ----------

  /** Each ring replaced by the records a reader would find in it. */
  function CoreOf(b: ByteCore): Core {
    Core(b.req.cap, b.resp.cap, b.calls, b.pending, RR.Decoded(b.req), b.tasks, RR.Decoded(b.resp), b.replies, b.lost)
  }

  /** The memory of the ring spells out exactly the records a reader would find. */
  ghost predicate Intact(r: ByteRing) {
    RM.Represents(r, RR.Decoded(r))
  }

  ghost predicate Good(b: ByteCore) {
    Intact(b.req) && Intact(b.resp)
  }

  /** The prefix of a record about to be stored will be gathered as it is. */
  predicate WriteLands(r: ByteRing, data: Payload) {
    RM.Accepts(r, data) ==> RM.PrefixLands(r, data) && |data| < U32
  }

  predicate Lands(b: ByteCore, op: Op) {
    Enabled(b, op) && (op.PostRequest? || op.PostResponse?) ==>
      var (r, d) := ToWrite(b, op);
      WriteLands(r, d)
  }

  lemma IntactIff(r: ByteRing, q: seq<Payload>)
    ensures RM.Represents(r, q) <==> Intact(r) && RR.Decoded(r) == q
  {
    if RM.Represents(r, q) {
      RR.DecodedIsUnique(r, q);
    }
  }

  lemma WriteIsPut(r: ByteRing, data: Payload)
    requires Intact(r)
    ensures RM.WriteOutcome(r, data).Written? == Fits(r.cap, RR.Decoded(r), data)
    ensures WriteLands(r, data) <==>
      Intact(RM.Write(r, data)) && RR.Decoded(RM.Write(r, data)) == Put(r.cap, RR.Decoded(r), data)
  {
    RM.WriteRefinesPut(r, RR.Decoded(r), data);
    RM.SpaceAccounting(r, RR.Decoded(r), data);
    IntactIff(RM.Write(r, data), Put(r.cap, RR.Decoded(r), data));
  }

  lemma ReadIsGet(r: ByteRing, n: nat)
    requires Intact(r)
    ensures RM.ReadOutcome(r, n) == Peek(RR.Decoded(r), n)
    ensures Intact(RM.Read(r, n)) && RR.Decoded(RM.Read(r, n)) == Get(RR.Decoded(r), n)
  {
    RM.ReadRefinesGet(r, RR.Decoded(r), n);
    IntactIff(RM.Read(r, n), Get(RR.Decoded(r), n));
  }

  /** The rings answer an operation as the queues do. */
  ghost predicate Agrees(b: ByteCore, op: Op)
    requires Enabled(b, op) && CallCore.Enabled(CoreOf(b), op)
  {
    match op
    case PostRequest(_) => Accepted(b, op) == PostAccepted(CoreOf(b), op)
    case PostResponse(_, _, _) => Accepted(b, op) == PostAccepted(CoreOf(b), op)
    case Fetch(n) => RM.ReadOutcome(b.req, n) == Peek(CoreOf(b).reqRing, n)
    case Deliver(n) => RM.ReadOutcome(b.resp, n) == Peek(CoreOf(b).respRing, n)
    case _ => true
  }

  lemma SameAnswers(b: ByteCore, op: Op)
    requires Good(b) && Enabled(b, op)
    ensures CallCore.Enabled(CoreOf(b), op) && Agrees(b, op)
  {
    match op {
      case PostRequest(_) => WriteIsPut(ToWrite(b, op).0, ToWrite(b, op).1);
      case PostResponse(_, _, _) => WriteIsPut(ToWrite(b, op).0, ToWrite(b, op).1);
      case Fetch(n) => ReadIsGet(b.req, n);
      case Deliver(n) => ReadIsGet(b.resp, n);
      case _ =>
    }
  }

  /** After the operation the rings hold what the queues hold. */
  ghost predicate InStep(b: ByteCore, op: Op)
    requires Enabled(b, op) && CallCore.Enabled(CoreOf(b), op)
  {
    Good(Apply(b, op)) && CoreOf(Apply(b, op)) == CallCore.Apply(CoreOf(b), op)
  }

  lemma PostRequestBacked(b: ByteCore, id: Id)
    requires Good(b) && Enabled(b, PostRequest(id))
    ensures CallCore.Enabled(CoreOf(b), PostRequest(id))
    ensures InStep(b, PostRequest(id)) <==> Lands(b, PostRequest(id))
  {
    WriteIsPut(ToWrite(b, PostRequest(id)).0, ToWrite(b, PostRequest(id)).1);
  }

  lemma PostResponseBacked(b: ByteCore, k: nat, ts: I64, us: I64)
    requires Good(b) && Enabled(b, PostResponse(k, ts, us))
    ensures CallCore.Enabled(CoreOf(b), PostResponse(k, ts, us))
    ensures InStep(b, PostResponse(k, ts, us)) <==> Lands(b, PostResponse(k, ts, us))
  {
    WriteIsPut(ToWrite(b, PostResponse(k, ts, us)).0, ToWrite(b, PostResponse(k, ts, us)).1);
  }

  lemma FetchBacked(b: ByteCore, n: nat)
    requires Good(b)
    ensures InStep(b, Fetch(n))
  {
    ReadIsGet(b.req, n);
    match RM.ReadOutcome(b.req, n) {
      case Got(d) => assert Apply(b, Fetch(n)).req == RM.Read(b.req, n) && Apply(b, Fetch(n)).resp == b.resp;
      case _ =>
    }
  }

  lemma DeliverBacked(b: ByteCore, n: nat)
    requires Good(b)
    ensures InStep(b, Deliver(n))
  {
    ReadIsGet(b.resp, n);
    match RM.ReadOutcome(b.resp, n) {
      case Got(d) => assert Apply(b, Deliver(n)).resp == RM.Read(b.resp, n) && Apply(b, Deliver(n)).req == b.req;
      case _ =>
    }
  }

  /** On intact rings every operation gets the answer it would get from the queues, and leaves rings
      and queues in step iff the record it writes, if any, lands. */
  lemma OperationBacked(b: ByteCore, op: Op)
    requires Good(b) && Enabled(b, op)
    ensures CallCore.Enabled(CoreOf(b), op) && Agrees(b, op)
    ensures InStep(b, op) <==> Lands(b, op)
  {
    SameAnswers(b, op);
    match op {
      case PostRequest(id) => PostRequestBacked(b, id);
      case PostResponse(k, ts, us) => PostResponseBacked(b, k, ts, us);
      case Fetch(n) => FetchBacked(b, n);
      case Deliver(n) => DeliverBacked(b, n);
      case _ =>
    }
  }

  // ---------- the start ----------

  /** A ring as its header is initialised, over arbitrary memory. */
  predicate Fresh(r: ByteRing) {
    r.wp == r.rp == 0
  }

  function Start(req: ByteRing, resp: ByteRing): ByteCore {
    ByteCore(map[], {}, req, [], resp, map[], {})
  }

  lemma EmptyRing(r: ByteRing)
    requires r.wp == r.rp
    ensures Intact(r) && RR.Decoded(r) == []
  {
    assert RM.Flat([]) == [] && RM.Represents(r, []);
    IntactIff(r, []);
  }

  // ---------- aligned requests ----------

  /** Every request has a wire length that is a multiple of four. */
  ghost predicate CallsAligned(calls: map<Id, Call>) {
    forall id :: id in calls ==> WireLength(id, calls[id].request) % 4 == 0
  }

  predicate RingAligned(r: ByteRing) {
    r.cap % 4 == 0 && r.cap <= U32 && r.wp % 4 == 0
  }

  ghost predicate Aligned(b: ByteCore) {
    && Good(b) && CallCore.Inv(CoreOf(b))
    && CallsAligned(b.calls) && RingAligned(b.req) && RingAligned(b.resp)
  }

  lemma AlignedWriteLands(r: ByteRing, data: Payload)
    requires RingAligned(r) && |data| % 4 == 0
    ensures WriteLands(r, data) && RingAligned(RM.Write(r, data))
  {
    RR.AlignedStep(r, RR.WriteOp(data));
  }

  lemma TasksAligned(calls: map<Id, Call>, tasks: seq<Task>, k: nat)
    requires TasksCorrelated(calls, tasks) && CallsAligned(calls) && k < |tasks|
    ensures WireLength(tasks[k].id, tasks[k].request) % 4 == 0
  {
    assert tasks[k] in tasks;
  }

  lemma ToWriteAligned(b: ByteCore, op: Op)
    requires TasksCorrelated(b.calls, b.tasks) && CallsAligned(b.calls)
    requires Enabled(b, op) && (op.PostRequest? || op.PostResponse?)
    ensures |ToWrite(b, op).1| % 4 == 0
  {
    match op {
      case PostRequest(id) => RequestLength(id, b.calls[id].request);
      case PostResponse(k, ts, us) =>
        TasksAligned(b.calls, b.tasks, k);
        ResponseBytesLength(b.tasks[k], ts, us);
    }
  }

  lemma RingsStayAligned(b: ByteCore, op: Op)
    requires Aligned(b) && Enabled(b, op)
    ensures Lands(b, op) && RingAligned(Apply(b, op).req) && RingAligned(Apply(b, op).resp)
  {
    if op.PostRequest? || op.PostResponse? {
      assert TasksCorrelated(CoreOf(b).calls, CoreOf(b).tasks);
      ToWriteAligned(b, op);
      AlignedWriteLands(ToWrite(b, op).0, ToWrite(b, op).1);
    }
  }

  lemma CallsStayAligned(b: ByteCore, op: Op)
    requires CallsAligned(b.calls) && Enabled(b, op)
    requires op.Register? ==> WireLength(op.id, op.request) % 4 == 0
    ensures CallsAligned(Apply(b, op).calls)
  {}

  /** While requests are aligned every write lands, wherever the positions are. */
  lemma AlignedOperationLands(b: ByteCore, op: Op)
    requires Aligned(b) && Enabled(b, op)
    requires op.Register? ==> WireLength(op.id, op.request) % 4 == 0
    ensures Lands(b, op) && Aligned(Apply(b, op))
  {
    RingsStayAligned(b, op);
    CallsStayAligned(b, op);
    OperationBacked(b, op);
    OperationKeepsInv(CoreOf(b), op);
  }

  /** With the 36-character text of a UUID as id, a request is aligned iff its message and payload
      together are; the caller can check this before the call. */
  lemma UuidRequestsAligned(id: Id, q: Request)
    requires |id| == 36
    ensures WireLength(id, q) % 4 == 0 <==> (|q.message| + |q.payload|) % 4 == 0
  {
    assert WireLength(id, q) == 4 * 17 + (|q.message| + |q.payload|);
  }

  // ---------- an unreadable head ----------

  lemma UnreadableKept(b: ByteCore, op: Op, n: nat)
    requires RR.StuckHead(b.req, n) && Enabled(b, op) && (op.Fetch? ==> op.bufLen == n)
    ensures RR.StuckHead(Apply(b, op).req, n) && multiset(Apply(b, op).tasks) <= multiset(b.tasks)
  {
    match op {
      case PostRequest(id) => RR.StuckStep(b.req, RR.WriteOp(ToWrite(b, op).1), n);
      case Fetch(_) => RR.StuckStep(b.req, RR.ReadOp(n), n);
      case PostResponse(k, _, _) => FewerTasks(b.tasks, k);
      case _ =>
    }
  }
}
