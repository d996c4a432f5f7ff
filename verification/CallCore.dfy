/** What the eventfd and the socket transport share: gateway calls, the pending-request map, the
    two rings as bounded FIFOs, the spawned backend tasks, and the operations that move a request
    through them. How a listener learns that it should read is left to the two transports. */
module CallCore {
  import opened LittleEndian
  import opened Fifo
  import opened Codec
  import X = Exchange

  /** How far a gateway call has got; `Failed` means it has returned an error. */
  datatype Stage = Registered | Posted | Waiting | Failed
  datatype Call = Call(request: Request, stage: Stage)
  datatype Task = Task(id: Id, request: Request)

  /** `replies` holds what was sent into each call's one-shot channel; `lost` is history: the ids
      whose request or response the ring refused. */
  datatype Core = Core(
    reqCap: nat, respCap: nat,
    calls: map<Id, Call>,
    pending: set<Id>,
    reqRing: seq<Payload>,
    tasks: seq<Task>,
    respRing: seq<Payload>,
    replies: map<Id, Response>,
    lost: set<Id>)

  datatype Op =
    | Register(id: Id, request: Request)
    | PostRequest(id: Id)
    | Notify(id: Id, ok: bool)
    | Fetch(bufLen: nat)
    | PostResponse(k: nat, ts: I64, us: I64)
    | Deliver(bufLen: nat)

  datatype CallResult = Running | ReturnsOk(response: Response) | ReturnsErr

  /** What a gateway call has returned, if it has. */
  function Result(c: Core, id: Id): CallResult
    requires id in c.calls
  {
    if c.calls[id].stage == Failed then ReturnsErr
    else if c.calls[id].stage == Waiting && id in c.replies then ReturnsOk(c.replies[id])
    else Running
  }

  // ---------- operations ----------

  /** Freshness of request ids is assumed here: `Register` takes only an id never used before. */
  predicate Enabled(c: Core, op: Op) {
    match op
    case Register(id, _) => id !in c.calls
    case PostRequest(id) => id in c.calls && c.calls[id].stage == Registered
    case Notify(id, _) => id in c.calls && c.calls[id].stage == Posted
    case Fetch(_) => true
    case PostResponse(k, _, _) => k < |c.tasks|
    case Deliver(_) => true
  }

  function SetStage(c: Core, id: Id, st: Stage): map<Id, Call>
    requires id in c.calls
  {
    c.calls[id := Call(c.calls[id].request, st)]
  }

  function RequestBytes(c: Core, id: Id): Payload
    requires id in c.calls
  {
    EncodeRequest(id, c.calls[id].request)
  }

  function ResponseBytes(t: Task, ts: I64, us: I64): Payload {
    EncodeResponse(t.id, Response(t.request.message, ts, us, t.request.payload))
  }

  predicate PostAccepted(c: Core, op: Op)
    requires Enabled(c, op) && (op.PostRequest? || op.PostResponse?)
  {
    if op.PostRequest? then Fits(c.reqCap, c.reqRing, RequestBytes(c, op.id))
    else Fits(c.respCap, c.respRing, ResponseBytes(c.tasks[op.k], op.ts, op.us))
  }

  function ApplyFetch(c: Core, bufLen: nat): Core {
    match Peek(c.reqRing, bufLen)
    case Got(d) =>
      var rest := c.(reqRing := c.reqRing[1..]);
      (match DecodeRequest(d)
       case None => rest
       case Some((id, q)) => rest.(tasks := c.tasks + [Task(id, q)]))
    case _ => c
  }

  function ApplyDeliver(c: Core, bufLen: nat): Core {
    match Peek(c.respRing, bufLen)
    case Got(d) =>
      var rest := c.(respRing := c.respRing[1..]);
      (match DecodeResponse(d)
       case None => rest
       case Some((id, p)) =>
         if id in c.pending then rest.(pending := c.pending - {id}, replies := c.replies[id := p]) else rest)
    case _ => c
  }

  function ApplyPostResponse(c: Core, k: nat, ts: I64, us: I64): Core
    requires k < |c.tasks|
  {
    var t := c.tasks[k];
    var rest := c.(tasks := c.tasks[..k] + c.tasks[k + 1..]);
    if PostAccepted(c, PostResponse(k, ts, us))
    then rest.(respRing := c.respRing + [ResponseBytes(t, ts, us)])
    else rest.(lost := c.lost + {t.id})
  }

  function ApplyPostRequest(c: Core, id: Id): Core
    requires Enabled(c, PostRequest(id))
  {
    if PostAccepted(c, PostRequest(id))
    then c.(calls := SetStage(c, id, Posted), reqRing := c.reqRing + [RequestBytes(c, id)])
    else c.(calls := SetStage(c, id, Failed), lost := c.lost + {id})
  }

  function Apply(c: Core, op: Op): Core
    requires Enabled(c, op)
  {
    match op
    case Register(id, q) => c.(calls := c.calls[id := Call(q, Registered)], pending := c.pending + {id})
    case PostRequest(id) => ApplyPostRequest(c, id)
    case Notify(id, ok) => c.(calls := SetStage(c, id, if ok then Waiting else Failed))
    case Fetch(n) => ApplyFetch(c, n)
    case PostResponse(k, ts, us) => ApplyPostResponse(c, k, ts, us)
    case Deliver(n) => ApplyDeliver(c, n)
  }

  /** What an operation does to the rings, in the ring's own terms. */
  function RequestRingAfter(c: Core, op: Op): seq<Payload>
    requires Enabled(c, op)
  {
    match op
    case PostRequest(id) => Put(c.reqCap, c.reqRing, RequestBytes(c, id))
    case Fetch(n) => Get(c.reqRing, n)
    case _ => c.reqRing
  }

  function ResponseRingAfter(c: Core, op: Op): seq<Payload>
    requires Enabled(c, op)
  {
    match op
    case PostResponse(k, ts, us) => Put(c.respCap, c.respRing, ResponseBytes(c.tasks[k], ts, us))
    case Deliver(n) => Get(c.respRing, n)
    case _ => c.respRing
  }

  lemma RingsAfter(c: Core, op: Op)
    requires Enabled(c, op)
    ensures Apply(c, op).reqRing == RequestRingAfter(c, op) && Apply(c, op).reqCap == c.reqCap
    ensures Apply(c, op).respRing == ResponseRingAfter(c, op) && Apply(c, op).respCap == c.respCap
  {}

  // ---------- where each id is ----------

  function InStage(calls: map<Id, Call>, st: Stage): set<Id> {
    set id | id in calls && calls[id].stage == st
  }

  function RequestId(d: Payload): Id {
    match DecodeRequest(d) case Some((id, _)) => id case None => []
  }

  function ResponseId(d: Payload): Id {
    match DecodeResponse(d) case Some((id, _)) => id case None => []
  }

  function RequestIds(ring: seq<Payload>): seq<Id> {
    seq(|ring|, i requires 0 <= i < |ring| => RequestId(ring[i]))
  }

  function ResponseIds(ring: seq<Payload>): seq<Id> {
    seq(|ring|, i requires 0 <= i < |ring| => ResponseId(ring[i]))
  }

  function TaskIds(tasks: seq<Task>): seq<Id> {
    seq(|tasks|, i requires 0 <= i < |tasks| => tasks[i].id)
  }

  /** Every id that has not been answered, once for each place it is found in. */
  function Occupancy(c: Core): multiset<Id> {
    multiset(InStage(c.calls, Registered)) + multiset(RequestIds(c.reqRing)) + multiset(TaskIds(c.tasks))
    + multiset(ResponseIds(c.respRing)) + multiset(c.lost)
  }

  ghost predicate RequestRecord(calls: map<Id, Call>, d: Payload) {
    match DecodeRequest(d)
    case Some((id, q)) => id in calls && calls[id].request == q && |d| == WireLength(id, q)
    case None => false
  }

  ghost predicate ResponseRecord(calls: map<Id, Call>, d: Payload) {
    match DecodeResponse(d)
    case Some((id, p)) =>
      id in calls && IsEcho(calls[id].request, p) && |d| == WireLength(id, calls[id].request) + 8
    case None => false
  }

  ghost predicate TasksCorrelated(calls: map<Id, Call>, tasks: seq<Task>) {
    forall t :: t in tasks ==> t.id in calls && calls[t.id].request == t.request
  }

  /** The records, tasks and replies in the system all belong to the call whose id they carry. */
  ghost predicate Correlated(c: Core) {
    && (forall d :: d in c.reqRing ==> RequestRecord(c.calls, d))
    && TasksCorrelated(c.calls, c.tasks)
    && (forall d :: d in c.respRing ==> ResponseRecord(c.calls, d))
    && (forall id :: id in c.replies ==> id in c.calls && IsEcho(c.calls[id].request, c.replies[id]))
  }

  /** `pending` is exactly the set of ids in flight or lost, and each of those is in one place. */
  ghost predicate Placed(c: Core) {
    Occupancy(c) == multiset(c.pending)
  }

  /** A call is either pending or replied to. */
  ghost predicate Partitioned(c: Core) {
    c.calls.Keys == c.pending + c.replies.Keys && c.pending !! c.replies.Keys
  }

  ghost predicate WithinBudget(c: Core) {
    && 0 < c.reqCap <= U64 && 0 < c.respCap <= U64
    && Cost(c.reqRing) < c.reqCap && Cost(c.respRing) < c.respCap
  }

  ghost predicate Inv(c: Core) {
    Correlated(c) && Placed(c) && Partitioned(c) && WithinBudget(c)
  }

  // ---------- every operation keeps the records correlated ----------

  ghost predicate Extends(calls: map<Id, Call>, calls': map<Id, Call>) {
    forall id :: id in calls ==> id in calls' && calls'[id].request == calls[id].request
  }

  lemma CorrelatedExtends(c: Core, calls': map<Id, Call>)
    requires Correlated(c) && Extends(c.calls, calls')
    ensures Correlated(c.(calls := calls'))
  {}

  lemma ExtendsApply(c: Core, op: Op)
    requires Enabled(c, op)
    ensures Extends(c.calls, Apply(c, op).calls)
  {}

  lemma PostRequestCorrelated(c: Core, id: Id)
    requires Correlated(c) && WithinBudget(c) && Enabled(c, PostRequest(id))
    ensures Correlated(Apply(c, PostRequest(id)))
    ensures PostAccepted(c, PostRequest(id)) ==> RequestId(RequestBytes(c, id)) == id
  {
    ExtendsApply(c, PostRequest(id));
    var c' := Apply(c, PostRequest(id));
    CorrelatedExtends(c, c'.calls);
    if PostAccepted(c, PostRequest(id)) {
      var d := RequestBytes(c, id);
      RequestRoundTrip(id, c.calls[id].request, []);
      RequestLength(id, c.calls[id].request);
      assert d + [] == d;
      assert RequestRecord(c'.calls, d);
    }
  }

  lemma PostResponseCorrelated(c: Core, k: nat, ts: I64, us: I64)
    requires Correlated(c) && WithinBudget(c) && k < |c.tasks|
    ensures Correlated(Apply(c, PostResponse(k, ts, us)))
    ensures PostAccepted(c, PostResponse(k, ts, us)) ==>
      ResponseId(ResponseBytes(c.tasks[k], ts, us)) == c.tasks[k].id
  {
    var t := c.tasks[k];
    assert t in c.tasks;
    if PostAccepted(c, PostResponse(k, ts, us)) {
      var p := Response(t.request.message, ts, us, t.request.payload);
      var d := ResponseBytes(t, ts, us);
      ResponseRoundTrip(t.id, p, []);
      assert d + [] == d;
      ResponseLength(t.id, t.request, p);
      assert ResponseRecord(c.calls, d);
    }
  }

  lemma FetchCorrelated(c: Core, n: nat)
    requires Correlated(c)
    ensures Correlated(Apply(c, Fetch(n)))
    ensures Peek(c.reqRing, n).Got? ==> RequestRecord(c.calls, c.reqRing[0])
  {
    if Peek(c.reqRing, n).Got? {
      assert c.reqRing[0] in c.reqRing;
      assert forall d :: d in c.reqRing[1..] ==> d in c.reqRing;
    }
  }

  /** Fetching the one request in the ring empties the ring and spawns its task. */
  lemma FetchOnly(c: Core, id: Id, q: Request, n: nat)
    requires c.reqRing == [EncodeRequest(id, q)] && WireLength(id, q) <= n && WireLength(id, q) < U64
    ensures Apply(c, Fetch(n)) == c.(reqRing := [], tasks := c.tasks + [Task(id, q)])
  {
    var d := EncodeRequest(id, q);
    RequestLength(id, q);
    RequestRoundTrip(id, q, []);
    assert d + [] == d && c.reqRing[1..] == [];
  }

  lemma DeliverCorrelated(c: Core, n: nat)
    requires Correlated(c)
    ensures Correlated(Apply(c, Deliver(n)))
    ensures Peek(c.respRing, n).Got? ==> ResponseRecord(c.calls, c.respRing[0])
  {
    if Peek(c.respRing, n).Got? {
      assert c.respRing[0] in c.respRing;
      assert forall d :: d in c.respRing[1..] ==> d in c.respRing;
    }
  }

  // ---------- every operation moves one id ----------

  lemma StageMoves(calls: map<Id, Call>, id: Id, q: Request, st: Stage, s: Stage)
    ensures InStage(calls[id := Call(q, st)], s) ==
      if s == st then InStage(calls, s) + {id} else InStage(calls, s) - {id}
  {}

  lemma SetPlus(s: set<Id>, id: Id)
    requires id !in s
    ensures multiset(s + {id}) == multiset(s) + multiset{id}
  {}

  lemma SetMinus(s: set<Id>, id: Id)
    requires id in s
    ensures multiset(s) == multiset(s - {id}) + multiset{id}
  {}

  lemma IdsAppend(ring: seq<Payload>, d: Payload)
    ensures RequestIds(ring + [d]) == RequestIds(ring) + [RequestId(d)]
    ensures ResponseIds(ring + [d]) == ResponseIds(ring) + [ResponseId(d)]
  {}

  lemma IdsTail(ring: seq<Payload>)
    requires ring != []
    ensures RequestIds(ring) == [RequestId(ring[0])] + RequestIds(ring[1..])
    ensures ResponseIds(ring) == [ResponseId(ring[0])] + ResponseIds(ring[1..])
  {}

  lemma TaskIdsWithout(tasks: seq<Task>, k: nat)
    requires k < |tasks|
    ensures multiset(TaskIds(tasks)) == multiset(TaskIds(tasks[..k] + tasks[k + 1..])) + multiset{tasks[k].id}
  {
    var ids := TaskIds(tasks);
    assert ids == ids[..k] + [ids[k]] + ids[k + 1..];
    assert TaskIds(tasks[..k] + tasks[k + 1..]) == ids[..k] + ids[k + 1..];
  }

  lemma RegisterPlaced(c: Core, id: Id, q: Request)
    requires Placed(c) && Partitioned(c) && Enabled(c, Register(id, q))
    ensures Placed(Apply(c, Register(id, q)))
  {
    StageMoves(c.calls, id, q, Registered, Registered);
    SetPlus(c.pending, id);
    SetPlus(InStage(c.calls, Registered), id);
  }

  /** An id found in a place other than `lost` is not lost. */
  lemma LostOnce(c: Core, id: Id)
    requires Placed(c)
    requires id in InStage(c.calls, Registered) || id in TaskIds(c.tasks)
    ensures id !in c.lost
  {
    assert multiset(c.pending)[id] <= 1;
    assert multiset(InStage(c.calls, Registered))[id] + multiset(TaskIds(c.tasks))[id] >= 1;
    assert multiset(c.lost)[id] + 1 <= Occupancy(c)[id];
  }

  lemma PostRequestPlaced(c: Core, id: Id)
    requires Placed(c) && Enabled(c, PostRequest(id))
    requires PostAccepted(c, PostRequest(id)) ==> RequestId(RequestBytes(c, id)) == id
    ensures Placed(Apply(c, PostRequest(id)))
  {
    var c', q := Apply(c, PostRequest(id)), c.calls[id].request;
    StageMoves(c.calls, id, q, c'.calls[id].stage, Registered);
    SetMinus(InStage(c.calls, Registered), id);
    if PostAccepted(c, PostRequest(id)) {
      IdsAppend(c.reqRing, RequestBytes(c, id));
    } else {
      LostOnce(c, id);
      SetPlus(c.lost, id);
    }
  }

  lemma NotifyPlaced(c: Core, id: Id, ok: bool)
    requires Placed(c) && Enabled(c, Notify(id, ok))
    ensures Placed(Apply(c, Notify(id, ok)))
  {
    StageMoves(c.calls, id, c.calls[id].request, if ok then Waiting else Failed, Registered);
    assert InStage(c.calls, Registered) - {id} == InStage(c.calls, Registered);
  }

  /** Taking a request moves its id from the head of the request ring to the end of the tasks. */
  lemma FetchPlaced(c: Core, n: nat)
    requires Placed(c) && (Peek(c.reqRing, n).Got? ==> RequestRecord(c.calls, c.reqRing[0]))
    ensures Placed(Apply(c, Fetch(n)))
    ensures var c' := Apply(c, Fetch(n));
      if Peek(c.reqRing, n).Got? then
        && RequestIds(c.reqRing) == [RequestId(c.reqRing[0])] + RequestIds(c'.reqRing)
        && TaskIds(c'.tasks) == TaskIds(c.tasks) + [RequestId(c.reqRing[0])]
        && c' == c.(reqRing := c'.reqRing, tasks := c'.tasks)
      else c' == c
  {
    if Peek(c.reqRing, n).Got? {
      var c' := Apply(c, Fetch(n));
      IdsTail(c.reqRing);
      assert TaskIds(c'.tasks) == TaskIds(c.tasks) + [RequestId(c.reqRing[0])];
    }
  }

  /** Finishing a task takes its id out of the tasks and puts it at the end of the response ring, or
      among the lost when that ring refuses the response. */
  lemma PostResponsePlaced(c: Core, k: nat, ts: I64, us: I64)
    requires Placed(c) && k < |c.tasks|
    requires PostAccepted(c, PostResponse(k, ts, us)) ==>
      ResponseId(ResponseBytes(c.tasks[k], ts, us)) == c.tasks[k].id
    ensures Placed(Apply(c, PostResponse(k, ts, us)))
    ensures var c', id := Apply(c, PostResponse(k, ts, us)), c.tasks[k].id;
      && multiset(TaskIds(c.tasks)) == multiset(TaskIds(c'.tasks)) + multiset{id}
      && id !in c.lost
      && if PostAccepted(c, PostResponse(k, ts, us))
         then ResponseIds(c'.respRing) == ResponseIds(c.respRing) + [id] && c'.lost == c.lost
         else c'.respRing == c.respRing && c'.lost == c.lost + {id}
  {
    TaskIdsWithout(c.tasks, k);
    assert TaskIds(c.tasks)[k] == c.tasks[k].id;
    LostOnce(c, c.tasks[k].id);
    if PostAccepted(c, PostResponse(k, ts, us)) {
      IdsAppend(c.respRing, ResponseBytes(c.tasks[k], ts, us));
    } else {
      SetPlus(c.lost, c.tasks[k].id);
    }
  }

  lemma HeadIsPending(c: Core)
    requires Placed(c) && c.respRing != []
    ensures ResponseId(c.respRing[0]) in c.pending
  {
    IdsTail(c.respRing);
    assert ResponseId(c.respRing[0]) in Occupancy(c);
  }

  lemma HeadOccupied(c: Core)
    requires c.respRing != []
    ensures Occupancy(c) == Occupancy(c.(respRing := c.respRing[1..])) + multiset{ResponseId(c.respRing[0])}
  {
    IdsTail(c.respRing);
  }

  lemma CancelOne<T>(a: multiset<T>, b: multiset<T>, x: T)
    requires a + multiset{x} == b + multiset{x}
    ensures a == b
  {
    assert a == (a + multiset{x}) - multiset{x};
    assert b == (b + multiset{x}) - multiset{x};
  }

  lemma HeadLeaves(c: Core, c': Core)
    requires Placed(c) && c.respRing != [] && ResponseId(c.respRing[0]) in c.pending
    requires c'.respRing == c.respRing[1..] && c'.pending == c.pending - {ResponseId(c.respRing[0])}
    requires c'.calls == c.calls && c'.reqRing == c.reqRing && c'.tasks == c.tasks && c'.lost == c.lost
    ensures Placed(c')
  {
    HeadOccupied(c);
    SetMinus(c.pending, ResponseId(c.respRing[0]));
    CancelOne(Occupancy(c'), multiset(c'.pending), ResponseId(c.respRing[0]));
  }

  /** Delivering a response takes its id out of the ring and the pending map and gives it a reply. */
  lemma DeliverPlaced(c: Core, n: nat)
    requires Placed(c) && (Peek(c.respRing, n).Got? ==> ResponseRecord(c.calls, c.respRing[0]))
    ensures Placed(Apply(c, Deliver(n)))
    ensures var c' := Apply(c, Deliver(n));
      if Peek(c.respRing, n).Got? then
        var id := ResponseId(c.respRing[0]);
        && ResponseIds(c.respRing) == [id] + ResponseIds(c'.respRing)
        && id in c.pending && c'.pending == c.pending - {id}
        && c'.replies.Keys == c.replies.Keys + {id}
      else c' == c
  {
    if Peek(c.respRing, n).Got? {
      HeadIsPending(c);
      IdsTail(c.respRing);
      HeadLeaves(c, Apply(c, Deliver(n)));
    }
  }

  lemma PartitionKept(c: Core, op: Op)
    requires Partitioned(c) && Enabled(c, op)
    ensures Partitioned(Apply(c, op))
  {
    var c' := Apply(c, op);
    match op {
      case Register(id, q) => assert c'.calls.Keys == c.calls.Keys + {id};
      case PostRequest(id) => assert c'.calls.Keys == c.calls.Keys;
      case Notify(id, ok) => assert c'.calls.Keys == c.calls.Keys;
      case Deliver(n) =>
        if c'.pending != c.pending {
          var id := ResponseId(c.respRing[0]);
          assert c'.replies.Keys == c.replies.Keys + {id} && c'.pending == c.pending - {id};
        }
      case _ =>
    }
  }

  lemma RingBudgets(c: Core, op: Op)
    requires WithinBudget(c) && Enabled(c, op)
    ensures Cost(RequestRingAfter(c, op)) < c.reqCap && Cost(ResponseRingAfter(c, op)) < c.respCap
  {
    match op {
      case PostRequest(id) => BudgetPreserved(c.reqCap, c.reqRing, RequestBytes(c, id), 0);
      case PostResponse(k, ts, us) => BudgetPreserved(c.respCap, c.respRing, ResponseBytes(c.tasks[k], ts, us), 0);
      case Fetch(n) => BudgetPreserved(c.reqCap, c.reqRing, [], n);
      case Deliver(n) => BudgetPreserved(c.respCap, c.respRing, [], n);
      case _ =>
    }
  }

  lemma BudgetKept(c: Core, op: Op)
    requires WithinBudget(c) && Enabled(c, op)
    ensures WithinBudget(Apply(c, op))
  {
    RingsAfter(c, op);
    RingBudgets(c, op);
  }

  /** Correlation and placement survive every operation, in whatever order tasks finish. */
  lemma OperationKeepsInv(c: Core, op: Op)
    requires Inv(c) && Enabled(c, op)
    ensures Inv(Apply(c, op))
  {
    BudgetKept(c, op);
    PartitionKept(c, op);
    match op {
      case Register(id, q) =>
        ExtendsApply(c, op);
        CorrelatedExtends(c, Apply(c, op).calls);
        RegisterPlaced(c, id, q);
      case PostRequest(id) => PostRequestCorrelated(c, id); PostRequestPlaced(c, id);
      case Notify(id, ok) =>
        ExtendsApply(c, op);
        CorrelatedExtends(c, Apply(c, op).calls);
        NotifyPlaced(c, id, ok);
      case Fetch(n) => FetchCorrelated(c, n); FetchPlaced(c, n);
      case PostResponse(k, ts, us) => PostResponseCorrelated(c, k, ts, us); PostResponsePlaced(c, k, ts, us);
      case Deliver(n) => DeliverCorrelated(c, n); DeliverPlaced(c, n);
    }
  }

  // ---------- the abstract exchange ----------

  function Abs(c: Core): X.Exchange {
    X.Exchange(map id | id in c.calls :: c.calls[id].request, c.pending, c.replies)
  }

  /** Every operation is a step of the abstract exchange: forward simulation. */
  lemma OperationRefinesExchange(c: Core, op: Op)
    requires Inv(c) && Enabled(c, op)
    ensures X.Step(Abs(c), Abs(Apply(c, op)))
  {
    var c' := Apply(c, op);
    match op {
      case Register(id, q) =>
        assert id !in Abs(c).asked;
        assert Abs(c').asked == Abs(c).asked[id := q];
        assert X.Asks(Abs(c), id, q, Abs(c'));
      case Deliver(n) =>
        if Peek(c.respRing, n).Got? {
          DeliverCorrelated(c, n);
          HeadIsPending(c);
          var (id, p) := DecodeResponse(c.respRing[0]).value;
          assert X.Answers(Abs(c), id, p, Abs(c'));
        }
      case _ => assert Abs(c').asked == Abs(c).asked;
    }
  }

  // ---------- consequences of the invariant ----------

  /** Every call that returns Ok gets the message and payload of its own request. */
  lemma OkIsOwnEcho(c: Core, id: Id)
    requires Inv(c) && id in c.calls && Result(c, id).ReturnsOk?
    ensures IsEcho(c.calls[id].request, Result(c, id).response)
  {}

  /** What a call has returned never changes afterwards, whatever operation comes next. */
  lemma ResultIsFinal(c: Core, op: Op, id: Id)
    requires Inv(c) && Enabled(c, op) && id in c.calls && Result(c, id) != Running
    ensures id in Apply(c, op).calls && Result(Apply(c, op), id) == Result(c, id)
  {
    if op.Deliver? {
      DeliverKeepsResult(c, op.bufLen, id);
    } else {
      ExtendsApply(c, op);
    }
  }

  lemma DeliverKeepsResult(c: Core, n: nat, id: Id)
    requires Inv(c) && id in c.calls && Result(c, id) != Running
    ensures Apply(c, Deliver(n)).calls == c.calls && Result(Apply(c, Deliver(n)), id) == Result(c, id)
  {
    if Peek(c.respRing, n).Got? {
      DeliverCorrelated(c, n);
      HeadIsPending(c);
      assert Apply(c, Deliver(n)).calls == c.calls;
    }
  }

  /** A call that waits returns exactly what the record delivered to it decodes to, its time fields
      included. */
  lemma DeliveredIsReturned(c: Core, n: nat, id: Id, p: Response)
    requires Inv(c) && Peek(c.respRing, n).Got? && DecodeResponse(c.respRing[0]) == Some((id, p))
    ensures id in c.calls && (c.calls[id].stage == Waiting ==> Result(c, id) == Running)
    ensures c.calls[id].stage == Waiting ==> Result(Apply(c, Deliver(n)), id) == ReturnsOk(p)
  {
    DeliverCorrelated(c, n);
    HeadIsPending(c);
  }

  /** A call whose request the ring refuses, or whose notification fails, returns an error; the
      pending map keeps its entry in both cases. */
  lemma FailedCallReturnsErr(c: Core, op: Op)
    requires Inv(c) && Enabled(c, op)
    requires (op.PostRequest? && !PostAccepted(c, op)) || (op.Notify? && !op.ok)
    ensures Result(Apply(c, op), op.id) == ReturnsErr && Apply(c, op).pending == c.pending
    ensures op.PostRequest? ==> op.id in Apply(c, op).lost && Apply(c, op).reqRing == c.reqRing
  {}

  lemma LostGrows(c: Core, op: Op)
    requires Enabled(c, op)
    ensures c.lost <= Apply(c, op).lost
  {}

  /** What is lost stays in the pending map and is never replied to. */
  lemma LostIsPending(c: Core, id: Id)
    requires Inv(c) && id in c.lost
    ensures id in c.pending && id !in c.replies
  {
    assert id in Occupancy(c);
  }

  /** How often an id occurs in the five places it can be before it is answered. */
  function Sightings(c: Core, id: Id): nat {
    multiset(InStage(c.calls, Registered))[id] + multiset(RequestIds(c.reqRing))[id]
    + multiset(TaskIds(c.tasks))[id] + multiset(ResponseIds(c.respRing))[id] + multiset(c.lost)[id]
  }

  /** A pending id is in exactly one place, an answered one in none. */
  lemma ExactlyOnePlace(c: Core, id: Id)
    requires Inv(c)
    ensures Sightings(c, id) == if id in c.pending then 1 else 0
    ensures id in c.calls ==> (Sightings(c, id) == 0 <==> id in c.replies)
  {
    assert Sightings(c, id) == Occupancy(c)[id];
  }

  /** Head count: the pending calls are the registered ones, the queued ones, the tasks and the lost. */
  lemma HeadCount(c: Core)
    requires Inv(c)
    ensures |c.pending| == |InStage(c.calls, Registered)| + |c.reqRing| + |c.tasks| + |c.respRing| + |c.lost|
  {
    assert |multiset(c.pending)| == |Occupancy(c)|;
  }

  /** The ids of the records left in the two rings. */
  function LeftInRings(c: Core): set<Id> {
    (set d | d in c.reqRing :: RequestId(d)) + (set d | d in c.respRing :: ResponseId(d))
  }

  lemma LeftInRingsIds(c: Core, id: Id)
    ensures id in LeftInRings(c) <==> id in RequestIds(c.reqRing) || id in ResponseIds(c.respRing)
  {
    if d :| d in c.reqRing && RequestId(d) == id {
      var i :| 0 <= i < |c.reqRing| && c.reqRing[i] == d;
      assert RequestIds(c.reqRing)[i] == id;
    }
    if d :| d in c.respRing && ResponseId(d) == id {
      var i :| 0 <= i < |c.respRing| && c.respRing[i] == d;
      assert ResponseIds(c.respRing)[i] == id;
    }
  }

  /** When no call is about to write and no task is running, the pending ids are exactly those left
      in the rings and those lost, and no id is both. */
  lemma IdlePending(c: Core)
    requires Inv(c) && InStage(c.calls, Registered) == {} && c.tasks == []
    ensures c.pending == LeftInRings(c) + c.lost && LeftInRings(c) !! c.lost
  {
    forall id
      ensures id in c.pending <==> id in LeftInRings(c) + c.lost
      ensures !(id in LeftInRings(c) && id in c.lost)
    {
      LeftInRingsIds(c, id);
      ExactlyOnePlace(c, id);
      assert multiset(TaskIds(c.tasks))[id] == 0 && multiset(InStage(c.calls, Registered))[id] == 0;
      assert id in RequestIds(c.reqRing) <==> multiset(RequestIds(c.reqRing))[id] > 0;
      assert id in ResponseIds(c.respRing) <==> multiset(ResponseIds(c.respRing))[id] > 0;
    }
  }

  // ---------- lengths ----------

  /** Every request ever made is at most `n` bytes on the wire. */
  ghost predicate CallsFit(c: Core, n: nat) {
    forall id :: id in c.calls ==> WireLength(id, c.calls[id].request) <= n
  }

  lemma CallsFitRecords(c: Core, n: nat)
    requires Inv(c) && CallsFit(c, n)
    ensures forall d :: d in c.reqRing ==> |d| <= n
    ensures forall d :: d in c.respRing ==> |d| <= n + 8
  {
    forall d | d in c.reqRing ensures |d| <= n { assert RequestRecord(c.calls, d); }
    forall d | d in c.respRing ensures |d| <= n + 8 { assert ResponseRecord(c.calls, d); }
  }

  lemma CallsFitKept(c: Core, op: Op, n: nat)
    requires CallsFit(c, n) && Enabled(c, op)
    requires op.Register? ==> WireLength(op.id, op.request) <= n
    ensures CallsFit(Apply(c, op), n)
  {
    ExtendsApply(c, op);
    if op.Register? {
      assert Apply(c, op).calls == c.calls[op.id := Call(op.request, Registered)];
    } else {
      assert Apply(c, op).calls.Keys == c.calls.Keys;
    }
  }

  /** What a backend buffer of `n` bytes lets through: tasks of at most `n` and responses of at most n + 8. */
  ghost predicate ResponsesFit(c: Core, n: nat) {
    && (forall t :: t in c.tasks ==> WireLength(t.id, t.request) <= n)
    && (forall d :: d in c.respRing ==> |d| <= n + 8)
  }

  lemma ResponseBytesLength(t: Task, ts: I64, us: I64)
    ensures |ResponseBytes(t, ts, us)| == WireLength(t.id, t.request) + 8
  {
    ResponseLength(t.id, t.request, Response(t.request.message, ts, us, t.request.payload));
  }

  lemma FetchFits(c: Core, n: nat)
    requires Inv(c) && ResponsesFit(c, n)
    ensures ResponsesFit(Apply(c, Fetch(n)), n)
  {
    FetchCorrelated(c, n);
  }

  lemma PostResponseFits(c: Core, k: nat, ts: I64, us: I64, n: nat)
    requires ResponsesFit(c, n) && k < |c.tasks|
    ensures ResponsesFit(Apply(c, PostResponse(k, ts, us)), n)
  {
    assert c.tasks[k] in c.tasks;
    ResponseBytesLength(c.tasks[k], ts, us);
  }

  lemma DeliverFits(c: Core, m: nat, n: nat)
    requires ResponsesFit(c, n)
    ensures ResponsesFit(Apply(c, Deliver(m)), n)
  {
    assert c.respRing != [] ==> forall d :: d in c.respRing[1..] ==> d in c.respRing;
  }

  lemma ResponsesFitKept(c: Core, op: Op, n: nat)
    requires Inv(c) && ResponsesFit(c, n) && Enabled(c, op)
    requires op.Fetch? ==> op.bufLen == n
    ensures ResponsesFit(Apply(c, op), n)
  {
    match op {
      case Fetch(_) => FetchFits(c, n);
      case PostResponse(k, ts, us) => PostResponseFits(c, k, ts, us, n);
      case Deliver(m) => DeliverFits(c, m, n);
      case _ =>
    }
  }

  /** Every request that has been answered was at most `n` bytes on the wire. */
  ghost predicate RepliesFit(c: Core, n: nat) {
    forall id :: id in c.replies ==> id in c.calls && WireLength(id, c.calls[id].request) <= n
  }

  lemma RepliesFitKept(c: Core, op: Op, n: nat)
    requires Inv(c) && RepliesFit(c, n) && Enabled(c, op)
    requires op.Deliver? && Peek(c.respRing, op.bufLen).Got? ==> |c.respRing[0]| <= n + 8
    ensures RepliesFit(Apply(c, op), n)
  {
    ExtendsApply(c, op);
    if op.Deliver? {
      DeliverCorrelated(c, op.bufLen);
    }
  }

  /** The head of the request ring is longer than the backend's buffer. */
  predicate RequestHeadStuck(c: Core, n: nat) {
    c.reqRing != [] && |c.reqRing[0]| > n
  }

  /** The head of the response ring is longer than the gateway's buffer. */
  predicate ResponseHeadStuck(c: Core, n: nat) {
    c.respRing != [] && |c.respRing[0]| > n
  }

  /** Behind an oversized request no operation spawns another task. */
  lemma StuckRequestKept(c: Core, op: Op, n: nat)
    requires RequestHeadStuck(c, n) && Enabled(c, op) && (op.Fetch? ==> op.bufLen == n)
    ensures RequestHeadStuck(Apply(c, op), n) && multiset(Apply(c, op).tasks) <= multiset(c.tasks)
  {
    RingsAfter(c, op);
    if op.PostResponse? {
      FewerTasks(c.tasks, op.k);
    }
  }

  lemma FewerTasks(tasks: seq<Task>, k: nat)
    requires k < |tasks|
    ensures multiset(tasks[..k] + tasks[k + 1..]) <= multiset(tasks)
  {
    assert tasks == tasks[..k] + [tasks[k]] + tasks[k + 1..];
  }

  lemma NoTasks(tasks: seq<Task>)
    requires multiset(tasks) <= multiset{}
    ensures tasks == []
  {
    assert |multiset(tasks)| == |tasks|;
    assert multiset(tasks) == multiset{};
  }

  /** Behind an oversized response no operation delivers another reply. */
  lemma StuckResponseKept(c: Core, op: Op, n: nat)
    requires ResponseHeadStuck(c, n) && Enabled(c, op) && (op.Deliver? ==> op.bufLen == n)
    ensures ResponseHeadStuck(Apply(c, op), n)
    ensures Apply(c, op).replies == c.replies && c.pending <= Apply(c, op).pending
  {
    RingsAfter(c, op);
  }

  // ---------- at rest ----------

  /** No call is about to write or to notify, no task is running, and only lost calls have failed. */
  ghost predicate Idle(c: Core) {
    && InStage(c.calls, Registered) == {} && InStage(c.calls, Posted) == {} && c.tasks == []
    && forall id :: id in c.calls && c.calls[id].stage == Failed ==> id in c.lost
  }

  ghost predicate AllAnswered(c: Core) {
    forall id :: id in c.calls && id !in c.lost ==> Result(c, id).ReturnsOk?
  }

  /** Every request not refused by a full ring is at most `n` bytes on the wire. */
  ghost predicate AllShort(c: Core, n: nat) {
    forall id :: id in c.calls && id !in c.lost ==> WireLength(id, c.calls[id].request) <= n
  }

  /** In an idle core a call has returned Ok exactly when it is neither lost nor left in a ring. */
  lemma IdleResult(c: Core, id: Id)
    requires Inv(c) && Idle(c) && id in c.calls
    ensures Result(c, id).ReturnsOk? <==> id !in LeftInRings(c) && id !in c.lost
  {
    IdlePending(c);
    assert id !in InStage(c.calls, Registered) && id !in InStage(c.calls, Posted);
    if id in c.lost {
      LostIsPending(c, id);
    }
  }

  /** In an idle core a call waits, without ever an error, exactly when its request was accepted and
      notified and its id is left in a ring or lost: that is, when its response was refused. */
  lemma IdleWaits(c: Core, id: Id)
    requires Inv(c) && Idle(c) && id in c.calls
    ensures Result(c, id) == Running <==> c.calls[id].stage == Waiting && (id in c.lost || id in LeftInRings(c))
    ensures Result(c, id) == ReturnsErr <==> c.calls[id].stage == Failed
  {
    IdleResult(c, id);
    assert id !in InStage(c.calls, Registered) && id !in InStage(c.calls, Posted);
  }

  lemma IdleAnswered(c: Core, n: nat)
    requires Inv(c) && Idle(c) && RepliesFit(c, n)
    ensures AllAnswered(c) <==> LeftInRings(c) == {}
    ensures AllAnswered(c) ==> AllShort(c, n)
  {
    IdlePending(c);
    forall id | id in c.calls
      ensures Result(c, id).ReturnsOk? <==> id !in LeftInRings(c) && id !in c.lost
    {
      IdleResult(c, id);
    }
    assert forall id :: id in LeftInRings(c) ==> id in c.calls && id !in c.lost;
  }

  lemma AllShortRecords(c: Core, n: nat)
    requires Inv(c) && AllShort(c, n)
    ensures forall d :: d in c.reqRing ==> |d| <= n
    ensures forall d :: d in c.respRing ==> |d| <= n + 8
    ensures !RequestHeadStuck(c, n) && !ResponseHeadStuck(c, n + 8)
  {
    forall d | d in c.reqRing ensures |d| <= n {
      var i :| 0 <= i < |c.reqRing| && c.reqRing[i] == d;
      assert RequestIds(c.reqRing)[i] == RequestId(d) && RequestRecord(c.calls, d);
      ExactlyOnePlace(c, RequestId(d));
    }
    forall d | d in c.respRing ensures |d| <= n + 8 {
      var i :| 0 <= i < |c.respRing| && c.respRing[i] == d;
      assert ResponseIds(c.respRing)[i] == ResponseId(d) && ResponseRecord(c.calls, d);
      ExactlyOnePlace(c, ResponseId(d));
    }
    assert c.reqRing != [] ==> c.reqRing[0] in c.reqRing;
    assert c.respRing != [] ==> c.respRing[0] in c.respRing;
  }

  // ---------- enough room ----------

  /** With records of at most `n` + 8 bytes and at most `limit` pending calls, neither ring can fill up. */
  ghost predicate Roomy(c: Core, n: nat, limit: nat) {
    && CallsFit(c, n) && |c.pending| <= limit && c.lost == {}
    && Bulk(limit, n + 8) < c.reqCap && Bulk(limit, n + 8) < c.respCap
  }

  lemma QueuesBelowPending(c: Core)
    requires Inv(c)
    ensures InStage(c.calls, Registered) != {} ==> |c.reqRing| < |c.pending|
    ensures c.tasks != [] ==> |c.respRing| < |c.pending|
  {
    HeadCount(c);
  }

  lemma RoomToPostRequest(c: Core, id: Id, n: nat, limit: nat)
    requires Inv(c) && Roomy(c, n, limit) && Enabled(c, PostRequest(id))
    ensures PostAccepted(c, PostRequest(id))
  {
    var d := RequestBytes(c, id);
    assert |d| <= n by { RequestLength(id, c.calls[id].request); }
    assert |c.reqRing| < limit by {
      QueuesBelowPending(c);
      assert id in InStage(c.calls, Registered);
    }
    assert forall x :: x in c.reqRing ==> |x| <= n + 8 by { CallsFitRecords(c, n); }
    RoomForOne(c.reqCap, c.reqRing, d, n + 8, limit);
  }

  lemma TaskResponseFits(c: Core, k: nat, ts: I64, us: I64, n: nat)
    requires Correlated(c) && CallsFit(c, n) && k < |c.tasks|
    ensures |ResponseBytes(c.tasks[k], ts, us)| <= n + 8
  {
    assert c.tasks[k] in c.tasks;
    ResponseBytesLength(c.tasks[k], ts, us);
  }

  lemma ShortResponseAccepted(c: Core, k: nat, ts: I64, us: I64, m: nat, limit: nat)
    requires k < |c.tasks| && |ResponseBytes(c.tasks[k], ts, us)| <= m
    requires (forall d :: d in c.respRing ==> |d| <= m) && |c.respRing| < limit && Bulk(limit, m) < c.respCap
    ensures PostAccepted(c, PostResponse(k, ts, us))
  {
    RoomForOne(c.respCap, c.respRing, ResponseBytes(c.tasks[k], ts, us), m, limit);
  }

  lemma RoomToPostResponse(c: Core, k: nat, ts: I64, us: I64, n: nat, limit: nat)
    requires Inv(c) && Roomy(c, n, limit) && k < |c.tasks|
    ensures PostAccepted(c, PostResponse(k, ts, us))
  {
    assert |c.respRing| < limit by { QueuesBelowPending(c); }
    var m := n + 8;
    assert forall d :: d in c.respRing ==> |d| <= m by { CallsFitRecords(c, n); }
    assert |ResponseBytes(c.tasks[k], ts, us)| <= m by { TaskResponseFits(c, k, ts, us, n); }
    ShortResponseAccepted(c, k, ts, us, m, limit);
  }

  lemma PendingShrinksOrRegisters(c: Core, op: Op)
    requires Enabled(c, op)
    ensures |Apply(c, op).pending| <= |c.pending| + if op.Register? then 1 else 0
  {}

  lemma LostOnlyByRefusal(c: Core, op: Op)
    requires Enabled(c, op) && (op.PostRequest? || op.PostResponse? ==> PostAccepted(c, op))
    ensures Apply(c, op).lost == c.lost
  {}

  lemma RoomyKept(c: Core, op: Op, n: nat, limit: nat)
    requires Inv(c) && Roomy(c, n, limit) && Enabled(c, op)
    requires op.Register? ==> WireLength(op.id, op.request) <= n && |c.pending| < limit
    ensures Roomy(Apply(c, op), n, limit)
  {
    CallsFitKept(c, op, n);
    PendingShrinksOrRegisters(c, op);
    RingsAfter(c, op);
    if op.PostRequest? {
      RoomToPostRequest(c, op.id, n, limit);
    } else if op.PostResponse? {
      RoomToPostResponse(c, op.k, op.ts, op.us, n, limit);
    }
    LostOnlyByRefusal(c, op);
  }

  lemma StageCounts(calls: map<Id, Call>, id: Id, q: Request, st: Stage, s: Stage)
    ensures var was := id in calls && calls[id].stage == s;
      |InStage(calls[id := Call(q, st)], s)| ==
      |InStage(calls, s)| + (if s == st && !was then 1 else if s != st && was then -1 else 0)
  {
    StageMoves(calls, id, q, st, s);
    assert id in InStage(calls, s) <==> id in calls && calls[id].stage == s;
    if id in InStage(calls, s) {
      assert InStage(calls, s) + {id} == InStage(calls, s);
    } else {
      assert InStage(calls, s) - {id} == InStage(calls, s);
    }
  }

  lemma StagesCounted(c: Core, op: Op)
    requires Enabled(c, op)
    ensures |InStage(Apply(c, op).calls, Posted)| == |InStage(c.calls, Posted)| +
      (if op.PostRequest? && PostAccepted(c, op) then 1 else if op.Notify? then -1 else 0)
    ensures |InStage(Apply(c, op).calls, Registered)| == |InStage(c.calls, Registered)| +
      (if op.Register? then 1 else if op.PostRequest? then -1 else 0)
  {
    match op {
      case Register(id, q) =>
        StageCounts(c.calls, id, q, Registered, Posted);
        StageCounts(c.calls, id, q, Registered, Registered);
      case PostRequest(id) =>
        var st := if PostAccepted(c, op) then Posted else Failed;
        StageCounts(c.calls, id, c.calls[id].request, st, Posted);
        StageCounts(c.calls, id, c.calls[id].request, st, Registered);
      case Notify(id, ok) =>
        var st := if ok then Waiting else Failed;
        StageCounts(c.calls, id, c.calls[id].request, st, Posted);
        StageCounts(c.calls, id, c.calls[id].request, st, Registered);
      case _ =>
    }
  }

  lemma FailedAreLostKept(c: Core, op: Op)
    requires Enabled(c, op) && (op.Notify? ==> op.ok)
    requires forall id :: id in c.calls && c.calls[id].stage == Failed ==> id in c.lost
    ensures forall id :: id in Apply(c, op).calls && Apply(c, op).calls[id].stage == Failed ==> id in Apply(c, op).lost
  {}

  // ---------- work left ----------

  /** Work left in the core; each weight pays for the steps an item still has before it. */
  function Work(c: Core): nat {
    9 * |InStage(c.calls, Registered)| + 3 * |InStage(c.calls, Posted)|
    + 5 * |c.reqRing| + 5 * |c.tasks| + |c.respRing|
  }

  lemma QueueLengths(c: Core, op: Op)
    requires Enabled(c, op)
    ensures var c' := Apply(c, op);
      && |c'.reqRing| == |c.reqRing| + (if op.PostRequest? && PostAccepted(c, op) then 1
                                        else if op.Fetch? && Peek(c.reqRing, op.bufLen).Got? then -1 else 0)
      && |c'.respRing| == |c.respRing| + (if op.PostResponse? && PostAccepted(c, op) then 1
                                          else if op.Deliver? && Peek(c.respRing, op.bufLen).Got? then -1 else 0)
      && |c'.tasks| <= |c.tasks| + (if op.PostResponse? then -1
                                    else if op.Fetch? && Peek(c.reqRing, op.bufLen).Got? then 1 else 0)
  {}

  /** How much work each operation takes away; only `Register` adds any. */
  lemma WorkDone(c: Core, op: Op)
    requires Enabled(c, op) && !op.Register?
    ensures Work(Apply(c, op)) <= Work(c)
    ensures op.PostRequest? ==> Work(Apply(c, op)) < Work(c)
    ensures op.Notify? ==> Work(Apply(c, op)) == Work(c) - 3
    ensures op.PostResponse? ==> Work(Apply(c, op)) <= Work(c) - if PostAccepted(c, op) then 4 else 5
    ensures op.Deliver? && Peek(c.respRing, op.bufLen).Got? ==> Work(Apply(c, op)) < Work(c)
  {
    QueueLengths(c, op);
    StagesCounted(c, op);
  }

  // ---------- tasks in any order ----------

  /** What the responses to these tasks cost in a ring. */
  function AnswersCost(tasks: seq<Task>): nat {
    if tasks == [] then 0
    else PREFIX + WireLength(tasks[0].id, tasks[0].request) + 8 + AnswersCost(tasks[1..])
  }

  /** A task finishing with room for its response leaves the others in place and puts its id last. */
  lemma FinishedTaskIsLast(c: Core, k: nat, ts: I64, us: I64)
    requires Inv(c) && k < |c.tasks|
    requires Cost(c.respRing) + PREFIX + WireLength(c.tasks[k].id, c.tasks[k].request) + 8 < c.respCap
    ensures PostAccepted(c, PostResponse(k, ts, us))
    ensures var c' := Apply(c, PostResponse(k, ts, us));
      && c'.tasks == c.tasks[..k] + c.tasks[k + 1..] && c'.lost == c.lost && c'.respCap == c.respCap
      && ResponseIds(c'.respRing) == ResponseIds(c.respRing) + [c.tasks[k].id]
      && Cost(c'.respRing) == Cost(c.respRing) + PREFIX + WireLength(c.tasks[k].id, c.tasks[k].request) + 8
  {
    var d: Payload := ResponseBytes(c.tasks[k], ts, us);
    ResponseBytesLength(c.tasks[k], ts, us);
    PostResponseCorrelated(c, k, ts, us);
    PostResponsePlaced(c, k, ts, us);
    CostAppend(c.respRing, [d]);
    assert Cost([d]) == PREFIX + |d| by { assert [d][1..] == []; }
  }

  lemma OneTaskFewer(tasks: seq<Task>, k: nat, order: seq<Task>)
    requires k < |tasks| && order != [] && tasks[k] == order[0] && multiset(order) == multiset(tasks)
    ensures multiset(order[1..]) == multiset(tasks[..k] + tasks[k + 1..])
    ensures |order| == |tasks|
  {
    assert tasks == tasks[..k] + [tasks[k]] + tasks[k + 1..];
    assert multiset(tasks) == multiset(tasks[..k] + tasks[k + 1..]) + multiset{tasks[k]};
    assert order == [order[0]] + order[1..];
    assert multiset(order) == multiset{order[0]} + multiset(order[1..]);
    assert |multiset(order)| == |order| && |multiset(tasks)| == |tasks|;
    CancelOne(multiset(order[1..]), multiset(tasks[..k] + tasks[k + 1..]), order[0]);
  }

  lemma PickTask(tasks: seq<Task>, order: seq<Task>) returns (k: nat)
    requires order != [] && multiset(order) == multiset(tasks)
    ensures k < |tasks| && tasks[k] == order[0]
    ensures multiset(order[1..]) == multiset(tasks[..k] + tasks[k + 1..])
    ensures TaskIds(order) == [order[0].id] + TaskIds(order[1..])
  {
    assert order[0] in multiset(tasks);
    k :| 0 <= k < |tasks| && tasks[k] == order[0];
    OneTaskFewer(tasks, k, order);
  }

  lemma AcceptedIsLast(c: Core, k: nat, ts: I64, us: I64)
    requires Inv(c) && k < |c.tasks|
    ensures PostAccepted(c, PostResponse(k, ts, us)) ==>
      ResponseIds(Apply(c, PostResponse(k, ts, us)).respRing) == ResponseIds(c.respRing) + [c.tasks[k].id]
  {
    PostResponseCorrelated(c, k, ts, us);
    PostResponsePlaced(c, k, ts, us);
  }

  function FinishOne(c: Core, k: nat, ts: I64, us: I64): Core {
    if k < |c.tasks| then Apply(c, PostResponse(k, ts, us)) else c
  }

  lemma FinishStep(c: Core, k: nat, ts: I64, us: I64) returns (c': Core)
    requires Inv(c) && k < |c.tasks|
    requires Cost(c.respRing) + PREFIX + WireLength(c.tasks[k].id, c.tasks[k].request) + 8 < c.respCap
    ensures c' == FinishOne(c, k, ts, us) && Inv(c')
    ensures c'.tasks == c.tasks[..k] + c.tasks[k + 1..] && c'.lost == c.lost && c'.respCap == c.respCap
    ensures ResponseIds(c'.respRing) == ResponseIds(c.respRing) + [c.tasks[k].id]
    ensures Cost(c'.respRing) == Cost(c.respRing) + PREFIX + WireLength(c.tasks[k].id, c.tasks[k].request) + 8
  {
    c' := Apply(c, PostResponse(k, ts, us));
    OperationKeepsInv(c, PostResponse(k, ts, us));
    FinishedTaskIsLast(c, k, ts, us);
  }

  /** The tasks at these places finish one after the other. */
  function FinishEach(c: Core, ks: seq<nat>, ts: I64, us: I64): Core
    decreases |ks|
  {
    if ks == [] then c else FinishEach(FinishOne(c, ks[0], ts, us), ks[1..], ts, us)
  }

  /** With room for all responses there is a way for the tasks to finish in every order. */
  lemma {:induction false} AnyOrderOfTasks(c: Core, order: seq<Task>, ts: I64, us: I64) returns (ks: seq<nat>)
    requires Inv(c) && multiset(order) == multiset(c.tasks)
    requires Cost(c.respRing) + AnswersCost(order) < c.respCap
    ensures |ks| == |order|
    ensures var c' := FinishEach(c, ks, ts, us);
      && c'.tasks == [] && ResponseIds(c'.respRing) == ResponseIds(c.respRing) + TaskIds(order)
      && c'.lost == c.lost
    decreases |order|
  {
    if order == [] {
      ks := [];
      assert |multiset(c.tasks)| == |c.tasks|;
    } else {
      var k := PickTask(c.tasks, order);
      var c1 := FinishStep(c, k, ts, us);
      RoomForRest(order, c.tasks[k]);
      var rest := AnyOrderOfTasks(c1, order[1..], ts, us);
      ks := [k] + rest;
      FinishEachCons(c, k, rest, ts, us);
      Regroup(ResponseIds(c.respRing), c.tasks[k].id, TaskIds(order[1..]), TaskIds(order));
    }
  }

  lemma RoomForRest(order: seq<Task>, t: Task)
    requires order != [] && t == order[0]
    ensures AnswersCost(order) == PREFIX + WireLength(t.id, t.request) + 8 + AnswersCost(order[1..])
  {}

  lemma FinishEachCons(c: Core, k: nat, rest: seq<nat>, ts: I64, us: I64)
    ensures FinishEach(c, [k] + rest, ts, us) == FinishEach(FinishOne(c, k, ts, us), rest, ts, us)
  {
    assert ([k] + rest)[1..] == rest;
  }

  lemma Regroup<T>(a: seq<T>, x: T, b: seq<T>, xb: seq<T>)
    requires xb == [x] + b
    ensures a + [x] + b == a + xb
  {}

  // ---------- several records at once ----------

  /** The tasks these records ask for. */
  function TasksOf(ring: seq<Payload>): (t: seq<Task>)
    ensures |t| <= |ring|
  {
    if ring == [] then []
    else
      var k := |ring| - 1;
      TasksOf(ring[..k]) + match DecodeRequest(ring[k]) case Some((id, q)) => [Task(id, q)] case None => []
  }

  lemma TasksSnoc(tasks: seq<Task>, r: seq<Payload>, n: nat)
    requires 0 < n <= |r| && DecodeRequest(r[n - 1]).Some?
    ensures var (id, q) := DecodeRequest(r[n - 1]).value;
      tasks + TasksOf(r[..n]) == tasks + TasksOf(r[..n - 1]) + [Task(id, q)]
    ensures r[n - 1..][1..] == r[n..]
  {
    assert r[..n][..n - 1] == r[..n - 1] && r[..n][n - 1] == r[n - 1];
  }

  /** What these records answer. */
  function AnswersOf(ring: seq<Payload>): map<Id, Response> {
    if ring == [] then map[]
    else
      var k := |ring| - 1;
      match DecodeResponse(ring[k])
      case Some((id, p)) => AnswersOf(ring[..k])[id := p]
      case None => AnswersOf(ring[..k])
  }

  lemma AnswersSnoc(c: Core, r: seq<Payload>, n: nat)
    requires 0 < n <= |r| && DecodeResponse(r[n - 1]).Some?
    ensures var (id, p) := DecodeResponse(r[n - 1]).value; var a, a' := AnswersOf(r[..n - 1]), AnswersOf(r[..n]);
      && c.pending - a'.Keys == c.pending - a.Keys - {id}
      && c.replies + a' == (c.replies + a)[id := p]
    ensures r[n - 1..][1..] == r[n..]
  {
    assert r[..n][..n - 1] == r[..n - 1] && r[..n][n - 1] == r[n - 1];
  }
}
