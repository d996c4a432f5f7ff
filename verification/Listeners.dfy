/** The listener loops themselves, run on ring objects while no other party moves: each loop does
    exactly the steps of its state machine. */
module Listeners {
  import opened LittleEndian
  import opened Fifo
  import opened Codec
  import opened CallCore
  import opened RingModel
  import opened RingBuffer
  import opened Repeats
  import Eventfd
  import UdsNotify
  import Polling

  // ---------- backend ----------

  class BackendListener {
    const ring: SharedMemoryRingBuffer
    const buf: array<Byte>
    /** Tasks spawned so far, in order. */
    var spawned: seq<Task>

    ghost predicate Valid()
      reads this, ring, ring.cells
    {
      ring.Valid() && buf != ring.cells
    }

    constructor (requests: SharedMemoryRingBuffer, requestBuf: array<Byte>)
      requires requests.Valid() && requestBuf != requests.cells
      ensures Valid() && ring == requests && buf == requestBuf && spawned == []
    {
      ring, buf, spawned := requests, requestBuf, [];
    }

    /** The concrete ring and tasks are those of core `c`. */
    ghost predicate Holds(c: Core)
      reads this, ring, ring.cells
    {
      Valid() && Represents(ring.View(), c.reqRing) && spawned == c.tasks
    }

    /** One turn of the listener: read a record, parse it, spawn a task for it. */
    method TakeRequest(ghost c: Core)
      requires Holds(c)
      modifies this`spawned, ring`readPos, buf
      ensures Holds(ApplyFetch(c, buf.Length))
    {
      ReadRefinesGet(ring.View(), c.reqRing, buf.Length);
      var res := ring.Read(buf);
      if res.Got? {
        var n := |res.data|;
        assert buf[..n] == res.data;
        match DecodeRequest(buf[..n]) {
          case Some((id, request)) => spawned := spawned + [Task(id, request)];
          case None =>
        }
      }
    }

    /** The eventfd server's loop over the count it took from the counter. */
    method RunIterations(count: nat, ghost s: Eventfd.State)
      requires Holds(s.core) && buf.Length == Eventfd.BUFFER && s.backendLeft == count
      modifies this`spawned, ring`readPos, buf
      ensures Holds(Eventfd.Exec(s, Repeat(Eventfd.BackendIterate, count)).core)
      ensures Eventfd.Exec(s, Repeat(Eventfd.BackendIterate, count)).backendLeft == 0
    {
      ghost var t := s;
      for i := 0 to count
        invariant Holds(t.core) && t.backendLeft == count - i
        invariant Eventfd.Exec(s, Repeat(Eventfd.BackendIterate, count))
               == Eventfd.Exec(t, Repeat(Eventfd.BackendIterate, count - i))
      {
        OneIteration(t, Eventfd.BackendIterate, count - i);
        TakeRequest(t.core);
        t := Eventfd.Next(t, Eventfd.BackendIterate);
      }
    }

    /** The socket server's reaction to one notification byte. */
    method OnByte(ghost s: UdsNotify.State)
      requires Holds(s.core) && buf.Length == UdsNotify.REQUEST_BUFFER && s.backendHolds
      modifies this`spawned, ring`readPos, buf
      ensures Holds(UdsNotify.Next(s, UdsNotify.BackendRead).core)
    {
      TakeRequest(s.core);
    }
  }

  // ---------- gateway ----------

  class GatewayListener {
    const ring: SharedMemoryRingBuffer
    const buf: array<Byte>
    /** The pending-request map, reduced to its keys, and what was sent to each removed one. */
    var pending: set<Id>
    var replies: map<Id, Response>

    ghost predicate Valid()
      reads this, ring, ring.cells
    {
      ring.Valid() && buf != ring.cells
    }

    constructor (responses: SharedMemoryRingBuffer, responseBuf: array<Byte>)
      requires responses.Valid() && responseBuf != responses.cells
      ensures Valid() && ring == responses && buf == responseBuf && pending == {} && replies == map[]
    {
      ring, buf, pending, replies := responses, responseBuf, {}, map[];
    }

    ghost predicate Holds(c: Core)
      reads this, ring, ring.cells
    {
      Valid() && Represents(ring.View(), c.respRing) && pending == c.pending && replies == c.replies
    }

    /** What `call` does to the map before it writes its request. */
    method Insert(id: Id, ghost c: Core, ghost request: Request)
      requires Holds(c) && id !in c.calls
      modifies this`pending
      ensures Holds(Apply(c, Register(id, request)))
    {
      pending := pending + {id};
    }

    /** One turn of the listener: read a record, parse it, hand it to the call it names. */
    method TakeResponse(ghost c: Core) returns (res: ReadResult)
      requires Holds(c)
      modifies this`pending, this`replies, ring`readPos, buf
      ensures res == Peek(c.respRing, buf.Length)
      ensures Holds(ApplyDeliver(c, buf.Length))
    {
      ReadRefinesGet(ring.View(), c.respRing, buf.Length);
      res := ring.Read(buf);
      if res.Got? {
        var n := |res.data|;
        assert buf[..n] == res.data;
        match DecodeResponse(buf[..n]) {
          case Some((id, response)) =>
            if id in pending {
              pending := pending - {id};
              replies := replies[id := response];
            }
          case None =>
        }
      }
    }

    /** Body of the eventfd gateway's loop; `go` says whether the loop goes on. */
    method Iterate(ghost t: Eventfd.State) returns (go: bool)
      requires Holds(t.core) && buf.Length == Eventfd.BUFFER && t.gatewayLeft > 0
      modifies this`pending, this`replies, ring`readPos, buf
      ensures var t' := Eventfd.Next(t, Eventfd.GatewayIterate);
        Holds(t'.core) && t'.gatewayLeft == if go then t.gatewayLeft - 1 else 0
    {
      var res := TakeResponse(t.core);
      go := res.Got? && |res.data| != 0;
    }

    /** The eventfd gateway's loop over the count it took: it stops early on a failed read or an
        empty record, exactly where the state machine drops the remaining iterations. */
    method RunIterations(count: nat, ghost s: Eventfd.State)
      requires Holds(s.core) && buf.Length == Eventfd.BUFFER && s.gatewayLeft == count
      modifies this`pending, this`replies, ring`readPos, buf
      ensures Holds(Eventfd.Exec(s, Repeat(Eventfd.GatewayIterate, count)).core)
      ensures Eventfd.Exec(s, Repeat(Eventfd.GatewayIterate, count)).gatewayLeft == 0
    {
      ghost var t := s;
      for i := 0 to count
        invariant Holds(t.core) && t.gatewayLeft == count - i
        invariant Eventfd.Exec(s, Repeat(Eventfd.GatewayIterate, count))
               == Eventfd.Exec(t, Repeat(Eventfd.GatewayIterate, count - i))
      {
        OneIteration(t, Eventfd.GatewayIterate, count - i);
        var go := Iterate(t);
        t := Eventfd.Next(t, Eventfd.GatewayIterate);
        if !go {
          IdleGateway(t, count - i - 1);
          return;
        }
      }
    }

    /** Body of the socket gateway's inner loop, `n` turns into the drain that began in `s`. */
    method DrainTurn(ghost s: UdsNotify.State, ghost n: nat, ghost t: UdsNotify.State)
      returns (more: bool, ghost t': UdsNotify.State)
      requires t == UdsNotify.Exec(s, Repeat(UdsNotify.GatewayDrain, n))
      requires Holds(t.core) && buf.Length == UdsNotify.RESPONSE_BUFFER && t.draining
      modifies this`pending, this`replies, ring`readPos, buf
      ensures t' == UdsNotify.Exec(s, Repeat(UdsNotify.GatewayDrain, n + 1))
      ensures Holds(t'.core) && t'.draining == more
      ensures |t.core.respRing| == |t'.core.respRing| + if more then 1 else 0
    {
      DrainOneMore(s, n);
      t' := UdsNotify.Next(t, UdsNotify.GatewayDrain);
      var res := TakeResponse(t.core);
      more := res.Got?;
    }

    /** The socket gateway's inner loop: reads until a read fails, and counts what it took. */
    method Drain(ghost s: UdsNotify.State) returns (processed: nat)
      requires Holds(s.core) && buf.Length == UdsNotify.RESPONSE_BUFFER && s.draining
      modifies this`pending, this`replies, ring`readPos, buf
      ensures var s' := UdsNotify.Exec(s, Repeat(UdsNotify.GatewayDrain, processed + 1));
        Holds(s'.core) && !s'.draining && |s.core.respRing| == |s'.core.respRing| + processed
    {
      processed := 0;
      ghost var t := s;
      while true
        invariant Holds(t.core) && t.draining && |s.core.respRing| == |t.core.respRing| + processed
        invariant t == UdsNotify.Exec(s, Repeat(UdsNotify.GatewayDrain, processed))
        decreases |t.core.respRing|
      {
        var more, t' := DrainTurn(s, processed, t);
        if !more {
          return;
        }
        t := t';
        processed := processed + 1;
      }
    }
  }

  lemma {:induction false} DrainOneMore(s: UdsNotify.State, n: nat)
    ensures UdsNotify.Exec(s, Repeat(UdsNotify.GatewayDrain, n + 1))
         == UdsNotify.Next(UdsNotify.Exec(s, Repeat(UdsNotify.GatewayDrain, n)), UdsNotify.GatewayDrain)
    decreases n
  {
    RepeatFront(UdsNotify.GatewayDrain, n + 1);
    if n > 0 {
      RepeatFront(UdsNotify.GatewayDrain, n);
      DrainOneMore(UdsNotify.Next(s, UdsNotify.GatewayDrain), n - 1);
    }
  }

  lemma OneIteration(t: Eventfd.State, a: Eventfd.Action, n: nat)
    requires n > 0
    ensures Eventfd.Exec(t, Repeat(a, n)) == Eventfd.Exec(Eventfd.Next(t, a), Repeat(a, n - 1))
  {
    RepeatFront(a, n);
  }

  lemma {:induction false} IdleGateway(t: Eventfd.State, n: nat)
    requires t.gatewayLeft == 0
    ensures Eventfd.Exec(t, Repeat(Eventfd.GatewayIterate, n)) == t
    decreases n
  {
    if n > 0 {
      RepeatFront(Eventfd.GatewayIterate, n);
      IdleGateway(t, n - 1);
    }
  }

  // ---------- polling server ----------

  /** What the server does with a request it has taken. */
  method Answer(responses: SharedMemoryRingBuffer, request: Request, ts: I64, us: I64, ghost queue: seq<Payload>)
    requires responses.Valid() && Represents(responses.View(), queue) && responses.capacity <= U32
    modifies responses`writePos, responses.cells
    ensures responses.Valid()
    ensures var bytes := Polling.EchoBytes(request, ts, us); var before := old(responses.View());
      && responses.View() == RingModel.Write(before, bytes)
      && (Represents(responses.View(), Put(before.cap, queue, bytes)) <==>
          !Fits(before.cap, queue, bytes) || PrefixLands(before, bytes))
  {
    var bytes := Polling.EchoBytes(request, ts, us);
    WriteRefinesPut(responses.View(), queue, bytes);
    var w := responses.Write(bytes);
  }

  /** One turn of the polling server's endless loop. The clock readings are arbitrary. A response is
      always written as `write` does it; it joins the FIFO exactly when the ring has no room for it
      or its prefix lands where the reader will look for it. */
  method ServeOnce(requests: SharedMemoryRingBuffer, responses: SharedMemoryRingBuffer, buf: array<Byte>,
                   ts: I64, us: I64, ghost s: Polling.State)
    requires requests.Valid() && responses.Valid() && buf.Length == Polling.BUFFER
    requires requests != responses && requests.cells != responses.cells
    requires buf != requests.cells && buf != responses.cells
    requires Represents(requests.View(), s.reqRing) && Represents(responses.View(), s.respRing)
    requires s.busy.None? && responses.capacity == s.respCap <= U32
    modifies requests`readPos, responses`writePos, responses.cells, buf
    ensures requests.Valid() && responses.Valid()
    ensures var taken := Polling.Next(s, Polling.ServerPoll);
      && Represents(requests.View(), taken.reqRing)
      && if taken.busy.None? then responses.View() == old(responses.View())
         else
           var bytes := Polling.EchoBytes(taken.busy.value, ts, us);
           && responses.View() == RingModel.Write(old(responses.View()), bytes)
           && (Represents(responses.View(), Polling.Next(taken, Polling.ServerReply(ts, us)).respRing) <==>
               !Fits(s.respCap, s.respRing, bytes) || PrefixLands(old(responses.View()), bytes))
  {
    ReadRefinesGet(requests.View(), s.reqRing, buf.Length);
    var res := requests.Read(buf);
    if res.Got? {
      var n := |res.data|;
      assert buf[..n] == res.data;
      match DecodeRequest(buf[..n]) {
        case Some((_, request)) => Answer(responses, request, ts, us, s.respRing);
        case None =>
      }
    }
  }
}
