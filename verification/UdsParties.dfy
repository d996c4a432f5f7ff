/** What each party of the socket transport can do by itself, from every state the transport can
    reach and whatever the others have left half done: nobody waits for anybody else. */
module UdsParties {
  import opened LittleEndian
  import opened Fifo
  import opened Codec
  import opened CallCore
  import opened UdsNotify
  import opened Repeats

  lemma ExecCons(s: State, a: Action, acts: seq<Action>)
    ensures Exec(s, [a] + acts) == Exec(Next(s, a), acts)
  {
    assert ([a] + acts)[1..] == acts;
  }

  lemma ExecOne(s: State, a: Action)
    ensures Exec(s, [a]) == Next(s, a)
  {
    assert [a][1..] == [];
    assert Exec(Next(s, a), []) == Next(s, a);
  }

  // ---------- the caller ----------

  /** The state after a whole call up to its notification. */
  function CallMade(s: State, id: Id, q: Request, ok: bool): State {
    var c := s.core;
    if Fits(c.reqCap, c.reqRing, EncodeRequest(id, q)) then
      s.(core := c.(calls := c.calls[id := Call(q, if ok then Waiting else Failed)], pending := c.pending + {id},
                    reqRing := c.reqRing + [EncodeRequest(id, q)]),
         reqBytes := s.reqBytes + (if ok then 1 else 0), reqMissed := s.reqMissed + if ok then 0 else 1)
    else
      s.(core := c.(calls := c.calls[id := Call(q, Failed)], pending := c.pending + {id}, lost := c.lost + {id}))
  }

  lemma CallSteps(s: State, id: Id, q: Request, ok: bool)
    requires id !in s.core.calls
    ensures Exec(s, [StartCall(id, q)] + ([WriteRequest(id)] + [NotifyRequest(id, ok)])) == CallMade(s, id, q, ok)
  {
    var s1 := Next(s, StartCall(id, q));
    var s2 := Next(s1, WriteRequest(id));
    ExecCons(s, StartCall(id, q), [WriteRequest(id)] + [NotifyRequest(id, ok)]);
    ExecCons(s1, WriteRequest(id), [NotifyRequest(id, ok)]);
    ExecOne(s2, NotifyRequest(id, ok));
    RequestWritten(s, id, q);
    AfterWriting(s, s2, id, q, ok);
  }

  lemma AfterWriting(s: State, s2: State, id: Id, q: Request, ok: bool)
    requires var c := s.core;
      s2 == if Fits(c.reqCap, c.reqRing, EncodeRequest(id, q))
            then s.(core := c.(calls := c.calls[id := Call(q, Posted)], pending := c.pending + {id},
                               reqRing := c.reqRing + [EncodeRequest(id, q)]))
            else s.(core := c.(calls := c.calls[id := Call(q, Failed)], pending := c.pending + {id},
                               lost := c.lost + {id}))
    ensures Next(s2, NotifyRequest(id, ok)) == CallMade(s, id, q, ok)
  {
    if Fits(s.core.reqCap, s.core.reqRing, EncodeRequest(id, q)) {
      RequestNotified(s2, id, q, ok);
      assert s.core.calls[id := Call(q, Posted)][id := Call(q, if ok then Waiting else Failed)]
          == s.core.calls[id := Call(q, if ok then Waiting else Failed)];
    }
  }

  lemma RequestWritten(s: State, id: Id, q: Request)
    requires id !in s.core.calls
    ensures var c := s.core;
      Next(Next(s, StartCall(id, q)), WriteRequest(id)) ==
        if Fits(c.reqCap, c.reqRing, EncodeRequest(id, q))
        then s.(core := c.(calls := c.calls[id := Call(q, Posted)], pending := c.pending + {id},
                           reqRing := c.reqRing + [EncodeRequest(id, q)]))
        else s.(core := c.(calls := c.calls[id := Call(q, Failed)], pending := c.pending + {id},
                           lost := c.lost + {id}))
  {
    var s1 := Next(s, StartCall(id, q));
    assert s1.core.calls[id := Call(q, Posted)] == s.core.calls[id := Call(q, Posted)];
    assert s1.core.calls[id := Call(q, Failed)] == s.core.calls[id := Call(q, Failed)];
  }

  lemma RequestNotified(s: State, id: Id, q: Request, ok: bool)
    requires id in s.core.calls && s.core.calls[id] == Call(q, Posted)
    ensures Next(s, NotifyRequest(id, ok)) ==
      s.(core := s.core.(calls := s.core.calls[id := Call(q, if ok then Waiting else Failed)]),
         reqBytes := s.reqBytes + (if ok then 1 else 0), reqMissed := s.reqMissed + if ok then 0 else 1)
  {}

  /** A call under a fresh id starts, writes and notifies whatever else is pending or under way: its
      record joins the request ring and one byte is sent, or, if the ring has no room, it returns an
      error at once. Nothing else changes. */
  lemma CallerNeverWaits(s: State, id: Id, q: Request, ok: bool)
    requires UdsNotify.Inv(s) && id !in s.core.calls
    ensures var s' := Exec(s, [StartCall(id, q)] + ([WriteRequest(id)] + [NotifyRequest(id, ok)]));
      && s' == CallMade(s, id, q, ok)
      && (!ok || !Fits(s.core.reqCap, s.core.reqRing, EncodeRequest(id, q)) <==> Result(s'.core, id) == ReturnsErr)
  {
    CallSteps(s, id, q, ok);
    assert id !in s.core.replies;
  }

  // ---------- tasks ----------

  /** Any running task may finish next: it alone leaves the tasks, and its response, if there is room,
      becomes the last record of the response ring; otherwise its id is lost. Nothing else changes. */
  lemma AnyTaskMayFinish(s: State, k: nat, ts: I64, us: I64)
    requires UdsNotify.Inv(s) && k < |s.core.tasks|
    ensures var c, t := s.core, s.core.tasks[k];
      var rest, fits := c.tasks[..k] + c.tasks[k + 1..], Fits(c.respCap, c.respRing, ResponseBytes(t, ts, us));
      && Next(s, FinishTask(k, ts, us)) ==
           (if fits
            then s.(core := c.(tasks := rest, respRing := c.respRing + [ResponseBytes(t, ts, us)]),
                    toNotify := s.toNotify + 1)
            else s.(core := c.(tasks := rest, lost := c.lost + {t.id})))
      && (fits ==> ResponseIds(Next(s, FinishTask(k, ts, us)).core.respRing) == ResponseIds(c.respRing) + [t.id])
  {
    AcceptedIsLast(s.core, k, ts, us);
    CoreMoves(s, FinishTask(k, ts, us));
  }

  /** A task that has written its response notifies it, sending one byte if that succeeds. */
  lemma TaskNotificationNeverWaits(s: State, ok: bool)
    requires s.toNotify > 0
    ensures Next(s, NotifyResponse(ok)) ==
      s.(toNotify := s.toNotify - 1, respBytes := s.respBytes + (if ok then 1 else 0),
         respMissed := s.respMissed + if ok then 0 else 1)
  {}

  function Finishes(ks: seq<nat>, ts: I64, us: I64): seq<Action> {
    if ks == [] then [] else [FinishTask(ks[0], ts, us)] + Finishes(ks[1..], ts, us)
  }

  lemma {:induction false} FinishesRun(s: State, ks: seq<nat>, ts: I64, us: I64)
    ensures Exec(s, Finishes(ks, ts, us)).core == FinishEach(s.core, ks, ts, us)
    decreases |ks|
  {
    if ks != [] {
      var a := FinishTask(ks[0], ts, us);
      if CanTake(s, a) {
        CoreMoves(s, a);
      }
      ExecCons(s, a, Finishes(ks[1..], ts, us));
      FinishesRun(Next(s, a), ks[1..], ts, us);
    }
  }

  /** With room for all responses the running tasks can finish in every order. */
  lemma TasksFinishInAnyOrder(s: State, order: seq<Task>, ts: I64, us: I64) returns (ks: seq<nat>)
    requires UdsNotify.Inv(s) && multiset(order) == multiset(s.core.tasks)
    requires Cost(s.core.respRing) + AnswersCost(order) < s.core.respCap
    ensures |ks| == |order|
    ensures var c := Exec(s, Finishes(ks, ts, us)).core;
      && c.tasks == [] && ResponseIds(c.respRing) == ResponseIds(s.core.respRing) + TaskIds(order)
      && c.lost == s.core.lost
  {
    ks := AnyOrderOfTasks(s.core, order, ts, us);
    FinishesRun(s, ks, ts, us);
  }

  // ---------- the backend listener ----------

  /** A backend between bytes takes one byte and one record, whatever else is under way, and spawns
      the task the record asks for; if it cannot read the record, only the byte is gone. */
  lemma BackendNeverWaits(s: State)
    requires UdsNotify.Inv(s) && !s.backendHolds && s.reqBytes > 0
    ensures s.core.reqRing != []
    ensures var r := s.core.reqRing; var s' := Exec(s, [BackendTakeByte] + [BackendRead]);
      if |r[0]| <= REQUEST_BUFFER then
        s' == s.(core := s.core.(reqRing := r[1..], tasks := s.core.tasks + TasksOf([r[0]])),
                 reqBytes := s.reqBytes - 1)
        && |TasksOf([r[0]])| == 1
      else
        s' == s.(reqBytes := s.reqBytes - 1, reqMissed := s.reqMissed + 1)
  {
    assert s.core.reqRing != [] && DecodeRequest(s.core.reqRing[0]).Some? by {
      assert s.core.reqRing[0] in s.core.reqRing;
      assert RequestRecord(s.core.calls, s.core.reqRing[0]);
    }
    BackendTakesOne(s);
  }

  lemma BackendTakesOne(s: State)
    requires !s.backendHolds && s.reqBytes > 0 && s.core.reqRing != [] && DecodeRequest(s.core.reqRing[0]).Some?
    ensures var r := s.core.reqRing; var s' := Exec(s, [BackendTakeByte] + [BackendRead]);
      if |r[0]| <= REQUEST_BUFFER then
        s' == s.(core := s.core.(reqRing := r[1..], tasks := s.core.tasks + TasksOf([r[0]])),
                 reqBytes := s.reqBytes - 1)
        && |TasksOf([r[0]])| == 1
      else
        s' == s.(reqBytes := s.reqBytes - 1, reqMissed := s.reqMissed + 1)
  {
    ExecCons(s, BackendTakeByte, [BackendRead]);
    ExecOne(Next(s, BackendTakeByte), BackendRead);
    var head: seq<Payload> := [s.core.reqRing[0]];
    var (id, q) := DecodeRequest(head[0]).value;
    assert head[..0] == [] && TasksOf(head[..0]) == [];
    assert TasksOf(head) == [Task(id, q)];
  }

  // ---------- the gateway listener ----------

  lemma GatewayTakesOne(s: State)
    requires s.draining && s.core.respRing != [] && |s.core.respRing[0]| <= RESPONSE_BUFFER
    requires DecodeResponse(s.core.respRing[0]).Some? && ResponseId(s.core.respRing[0]) in s.core.pending
    ensures var (id, p) := DecodeResponse(s.core.respRing[0]).value;
      Next(s, GatewayDrain) ==
        s.(core := s.core.(respRing := s.core.respRing[1..], pending := s.core.pending - {id},
                           replies := s.core.replies[id := p]))
  {}

  lemma HeadCanBeGiven(s: State)
    requires UdsNotify.Inv(s)
    ensures s.core.respRing != [] ==>
      && |s.core.respRing[0]| <= RESPONSE_BUFFER
      && DecodeResponse(s.core.respRing[0]).Some? && ResponseId(s.core.respRing[0]) in s.core.pending
  {
    if s.core.respRing != [] {
      EveryResponseIsReadable(s);
      assert ResponseRecord(s.core.calls, s.core.respRing[0]) by {
        assert s.core.respRing[0] in s.core.respRing;
      }
      HeadIsPending(s.core);
    }
  }

  lemma {:induction false} GatewayDrainsMany(s: State, n: nat)
    requires UdsNotify.Inv(s) && s.draining && n <= |s.core.respRing|
    ensures Exec(s, Repeat(GatewayDrain, n)) ==
      s.(core := s.core.(respRing := s.core.respRing[n..],
                         pending := s.core.pending - AnswersOf(s.core.respRing[..n]).Keys,
                         replies := s.core.replies + AnswersOf(s.core.respRing[..n])))
    decreases n
  {
    if n > 0 {
      var r, s' := s.core.respRing, Exec(s, Repeat(GatewayDrain, n - 1));
      assert s'.core.respRing != [] ==>
        && |s'.core.respRing[0]| <= RESPONSE_BUFFER
        && DecodeResponse(s'.core.respRing[0]).Some? && ResponseId(s'.core.respRing[0]) in s'.core.pending by {
        RunKeepsInv(s, Repeat(GatewayDrain, n - 1));
        HeadCanBeGiven(s');
      }
      GatewayDrainsMany(s, n - 1);
      ExecSnoc(s, GatewayDrain, n - 1);
      assert s'.core.respRing == r[n - 1..] && s'.core.respRing[0] == r[n - 1];
      GatewayTakesOne(s');
      AnswersSnoc(s.core, r, n);
    }
  }

  lemma {:induction false} ExecSnoc(s: State, a: Action, n: nat)
    ensures Exec(s, Repeat(a, n + 1)) == Next(Exec(s, Repeat(a, n)), a)
    decreases n
  {
    RepeatFront(a, n + 1);
    if n > 0 {
      RepeatFront(a, n);
      ExecSnoc(Next(s, a), a, n - 1);
    }
  }

  /** A sleeping gateway that gets one byte empties the whole ring, whatever else is under way: it
      hands each response to the call it names, as it decodes, and then sleeps again. */
  lemma GatewayNeverWaits(s: State)
    requires UdsNotify.Inv(s) && !s.draining && s.respBytes > 0
    ensures Exec(s, [GatewayTakeByte] + Repeat(GatewayDrain, |s.core.respRing| + 1)) ==
      s.(core := s.core.(respRing := [], pending := s.core.pending - AnswersOf(s.core.respRing).Keys,
                         replies := s.core.replies + AnswersOf(s.core.respRing)),
         respBytes := s.respBytes - 1)
  {
    ExecCons(s, GatewayTakeByte, Repeat(GatewayDrain, |s.core.respRing| + 1));
    var s1 := ByteTaken(s);
    DrainsAfterByte(s, s1);
  }

  lemma ByteTaken(s: State) returns (s1: State)
    requires UdsNotify.Inv(s) && !s.draining && s.respBytes > 0
    ensures s1 == Next(s, GatewayTakeByte) && UdsNotify.Inv(s1)
    ensures s1 == s.(draining := true, respBytes := s.respBytes - 1)
  {
    s1 := s.(draining := true, respBytes := s.respBytes - 1);
    assert s1.core == s.core;
  }

  lemma DrainsAfterByte(s: State, s1: State)
    requires s.respBytes > 0 && !s.draining && UdsNotify.Inv(s1)
    requires s1 == s.(draining := true, respBytes := s.respBytes - 1)
    ensures Exec(s1, Repeat(GatewayDrain, |s.core.respRing| + 1)) ==
      s.(core := s.core.(respRing := [], pending := s.core.pending - AnswersOf(s.core.respRing).Keys,
                         replies := s.core.replies + AnswersOf(s.core.respRing)),
         respBytes := s.respBytes - 1)
  {
    GatewayDrainsAll(s1);
  }

  lemma GatewayDrainsAll(s: State)
    requires UdsNotify.Inv(s) && s.draining
    ensures Exec(s, Repeat(GatewayDrain, |s.core.respRing| + 1)) ==
      s.(core := s.core.(respRing := [], pending := s.core.pending - AnswersOf(s.core.respRing).Keys,
                         replies := s.core.replies + AnswersOf(s.core.respRing)),
         draining := false)
  {
    var n := |s.core.respRing|;
    GatewayDrainsMany(s, n);
    ExecSnoc(s, GatewayDrain, n);
    assert s.core.respRing[..n] == s.core.respRing && s.core.respRing[n..] == [];
    DrainEnds(Exec(s, Repeat(GatewayDrain, n)));
  }

  lemma DrainEnds(s: State)
    requires s.draining && s.core.respRing == []
    ensures Next(s, GatewayDrain) == s.(draining := false)
  {}
}
