/** What each party of the eventfd transport can do by itself, from every state the transport can
    reach and whatever the others have left half done: nobody waits for anybody else. */
module EventfdParties {
  import opened LittleEndian
  import opened Fifo
  import opened Codec
  import opened CallCore
  import opened Eventfd
  import opened Repeats

  lemma ExecCons(s: State, a: Action, acts: seq<Action>)
    ensures Exec(s, [a] + acts) == Exec(Next(s, a), acts)
  {
    assert ([a] + acts)[1..] == acts;
  }

  lemma ExecOne(s: State, a: Action)
    ensures Exec(s, [a]) == Next(s, a)
  {
    assert [a][1..] == [];
    assert Exec(Next(s, a), []) == Next(s, a);
  }

  // ---------- the caller ----------

  /** The state after a whole call up to its signal. */
  function CallMade(s: State, id: Id, q: Request, ok: bool): State {
    var c := s.core;
    if Fits(c.reqCap, c.reqRing, EncodeRequest(id, q)) then
      s.(core := c.(calls := c.calls[id := Call(q, if ok then Waiting else Failed)], pending := c.pending + {id},
                    reqRing := c.reqRing + [EncodeRequest(id, q)]),
         reqCounter := s.reqCounter + (if ok then 1 else 0), reqMissed := s.reqMissed + if ok then 0 else 1)
    else
      s.(core := c.(calls := c.calls[id := Call(q, Failed)], pending := c.pending + {id}, lost := c.lost + {id}))
  }

  lemma CallSteps(s: State, id: Id, q: Request, ok: bool)
    requires AddOne(s.reqCounter).Added? && id !in s.core.calls
    ensures Exec(s, [StartCall(id, q)] + ([WriteRequest(id)] + [SignalRequest(id, ok)])) == CallMade(s, id, q, ok)
  {
    var s1 := Next(s, StartCall(id, q));
    var s2 := Next(s1, WriteRequest(id));
    ExecCons(s, StartCall(id, q), [WriteRequest(id)] + [SignalRequest(id, ok)]);
    ExecCons(s1, WriteRequest(id), [SignalRequest(id, ok)]);
    ExecOne(s2, SignalRequest(id, ok));
    RequestWritten(s, id, q);
    if Fits(s.core.reqCap, s.core.reqRing, EncodeRequest(id, q)) {
      RequestSignalled(s2, id, q, ok);
      assert s.core.calls[id := Call(q, Posted)][id := Call(q, if ok then Waiting else Failed)]
          == s.core.calls[id := Call(q, if ok then Waiting else Failed)];
    }
  }

  lemma RequestWritten(s: State, id: Id, q: Request)
    requires id !in s.core.calls
    ensures var c := s.core;
      Next(Next(s, StartCall(id, q)), WriteRequest(id)) ==
        if Fits(c.reqCap, c.reqRing, EncodeRequest(id, q))
        then s.(core := c.(calls := c.calls[id := Call(q, Posted)], pending := c.pending + {id},
                           reqRing := c.reqRing + [EncodeRequest(id, q)]))
        else s.(core := c.(calls := c.calls[id := Call(q, Failed)], pending := c.pending + {id},
                           lost := c.lost + {id}))
  {
    var s1 := Next(s, StartCall(id, q));
    assert s1.core.calls[id := Call(q, Posted)] == s.core.calls[id := Call(q, Posted)];
    assert s1.core.calls[id := Call(q, Failed)] == s.core.calls[id := Call(q, Failed)];
  }

  lemma RequestSignalled(s: State, id: Id, q: Request, ok: bool)
    requires AddOne(s.reqCounter).Added? && id in s.core.calls && s.core.calls[id] == Call(q, Posted)
    ensures Next(s, SignalRequest(id, ok)) ==
      s.(core := s.core.(calls := s.core.calls[id := Call(q, if ok then Waiting else Failed)]),
         reqCounter := s.reqCounter + (if ok then 1 else 0), reqMissed := s.reqMissed + if ok then 0 else 1)
  {}

  /** A call under a fresh id starts, writes and signals whatever else is pending or under way: its
      record joins the request ring and one token is added, or, if the ring has no room, it returns
      an error at once. Nothing else changes. */
  lemma CallerNeverWaits(s: State, id: Id, q: Request, ok: bool)
    requires Eventfd.Inv(s) && id !in s.core.calls
    ensures var s' := Exec(s, [StartCall(id, q)] + ([WriteRequest(id)] + [SignalRequest(id, ok)]));
      && s' == CallMade(s, id, q, ok)
      && (!ok || !Fits(s.core.reqCap, s.core.reqRing, EncodeRequest(id, q)) <==> Result(s'.core, id) == ReturnsErr)
  {
    SignalNeverBlocks(s);
    CallSteps(s, id, q, ok);
    assert id !in s.core.replies;
  }

  // ---------- tasks ----------

  /** Any running task may finish next: it alone leaves the tasks, and its response, if there is room,
      becomes the last record of the response ring; otherwise its id is lost. Nothing else changes. */
  lemma AnyTaskMayFinish(s: State, k: nat, ts: I64, us: I64)
    requires Eventfd.Inv(s) && k < |s.core.tasks|
    ensures var c, t := s.core, s.core.tasks[k];
      var rest, fits := c.tasks[..k] + c.tasks[k + 1..], Fits(c.respCap, c.respRing, ResponseBytes(t, ts, us));
      && Next(s, FinishTask(k, ts, us)) ==
           (if fits
            then s.(core := c.(tasks := rest, respRing := c.respRing + [ResponseBytes(t, ts, us)]),
                    toSignal := s.toSignal + 1)
            else s.(core := c.(tasks := rest, lost := c.lost + {t.id})))
      && (fits ==> ResponseIds(Next(s, FinishTask(k, ts, us)).core.respRing) == ResponseIds(c.respRing) + [t.id])
  {
    AcceptedIsLast(s.core, k, ts, us);
    CoreMoves(s, FinishTask(k, ts, us));
  }

  /** A task that has written its response signals it, adding one token if the signal succeeds. */
  lemma TaskSignalNeverWaits(s: State, ok: bool)
    requires Eventfd.Inv(s) && s.toSignal > 0
    ensures Next(s, SignalResponse(ok)) ==
      s.(toSignal := s.toSignal - 1, respCounter := s.respCounter + (if ok then 1 else 0),
         respMissed := s.respMissed + if ok then 0 else 1)
  {
    SignalNeverBlocks(s);
  }

  function Finishes(ks: seq<nat>, ts: I64, us: I64): seq<Action> {
    if ks == [] then [] else [FinishTask(ks[0], ts, us)] + Finishes(ks[1..], ts, us)
  }

  lemma {:induction false} FinishesRun(s: State, ks: seq<nat>, ts: I64, us: I64)
    ensures Exec(s, Finishes(ks, ts, us)).core == FinishEach(s.core, ks, ts, us)
    decreases |ks|
  {
    if ks != [] {
      var a := FinishTask(ks[0], ts, us);
      if CanTake(s, a) {
        CoreMoves(s, a);
      }
      ExecCons(s, a, Finishes(ks[1..], ts, us));
      FinishesRun(Next(s, a), ks[1..], ts, us);
    }
  }

  /** With room for all responses the running tasks can finish in every order. */
  lemma TasksFinishInAnyOrder(s: State, order: seq<Task>, ts: I64, us: I64) returns (ks: seq<nat>)
    requires Eventfd.Inv(s) && multiset(order) == multiset(s.core.tasks)
    requires Cost(s.core.respRing) + AnswersCost(order) < s.core.respCap
    ensures |ks| == |order|
    ensures var c := Exec(s, Finishes(ks, ts, us)).core;
      && c.tasks == [] && ResponseIds(c.respRing) == ResponseIds(s.core.respRing) + TaskIds(order)
      && c.lost == s.core.lost
  {
    ks := AnyOrderOfTasks(s.core, order, ts, us);
    FinishesRun(s, ks, ts, us);
  }

  // ---------- the backend listener ----------

  lemma {:induction false} BackendTakesMany(s: State, n: nat)
    requires n <= s.backendLeft && n <= |s.core.reqRing|
    requires forall i :: 0 <= i < n ==> |s.core.reqRing[i]| <= BUFFER && DecodeRequest(s.core.reqRing[i]).Some?
    ensures Exec(s, Repeat(BackendIterate, n)) ==
      s.(core := s.core.(reqRing := s.core.reqRing[n..], tasks := s.core.tasks + TasksOf(s.core.reqRing[..n])),
         backendLeft := s.backendLeft - n)
    decreases n
  {
    if n > 0 {
      var r, s' := s.core.reqRing, Exec(s, Repeat(BackendIterate, n - 1));
      BackendTakesMany(s, n - 1);
      ExecSnoc(s, BackendIterate, n - 1);
      assert s'.core.reqRing == r[n - 1..] && s'.core.reqRing[0] == r[n - 1];
      BackendTakesOne(s');
      TasksSnoc(s.core.tasks, r, n);
    }
  }

  lemma BackendTakesOne(s: State)
    requires s.backendLeft > 0 && s.core.reqRing != [] && |s.core.reqRing[0]| <= BUFFER
    requires DecodeRequest(s.core.reqRing[0]).Some?
    ensures var (id, q) := DecodeRequest(s.core.reqRing[0]).value;
      Next(s, BackendIterate) ==
        s.(core := s.core.(reqRing := s.core.reqRing[1..], tasks := s.core.tasks + [Task(id, q)]),
           backendLeft := s.backendLeft - 1)
  {}

  /** A waiting backend takes all tokens at once and spawns one task for each of as many records, in
      order, whatever others have left half done. */
  lemma BackendNeverWaits(s: State)
    requires Eventfd.Inv(s) && s.backendLeft == 0 && s.reqCounter > 0
    requires forall i :: 0 <= i < s.reqCounter && i < |s.core.reqRing| ==> |s.core.reqRing[i]| <= BUFFER
    ensures s.reqCounter <= |s.core.reqRing|
    ensures var n := s.reqCounter;
      Exec(s, [BackendWait] + Repeat(BackendIterate, n)) ==
        s.(core := s.core.(reqRing := s.core.reqRing[n..], tasks := s.core.tasks + TasksOf(s.core.reqRing[..n])),
           reqCounter := 0)
  {
    RecordsParse(s);
    ExecCons(s, BackendWait, Repeat(BackendIterate, s.reqCounter));
    BackendTakesMany(Next(s, BackendWait), s.reqCounter);
  }

  // ---------- the gateway listener ----------

  lemma GatewayTakesOne(s: State)
    requires s.gatewayLeft > 0 && s.core.respRing != [] && |s.core.respRing[0]| <= BUFFER
    requires DecodeResponse(s.core.respRing[0]).Some? && ResponseId(s.core.respRing[0]) in s.core.pending
    ensures var (id, p) := DecodeResponse(s.core.respRing[0]).value;
      Next(s, GatewayIterate) ==
        s.(core := s.core.(respRing := s.core.respRing[1..], pending := s.core.pending - {id},
                           replies := s.core.replies[id := p]),
           gatewayLeft := s.gatewayLeft - 1)
  {}

  lemma HeadCanBeGiven(s: State)
    requires Eventfd.Inv(s)
    ensures s.core.respRing != [] ==>
      DecodeResponse(s.core.respRing[0]).Some? && ResponseId(s.core.respRing[0]) in s.core.pending
  {
    if s.core.respRing != [] {
      RecordsParse(s);
      assert s.core.respRing[0] in s.core.respRing;
      HeadIsPending(s.core);
    }
  }

  lemma {:induction false} GatewayTakesMany(s: State, n: nat)
    requires Eventfd.Inv(s) && n <= s.gatewayLeft && n <= |s.core.respRing|
    requires forall i :: 0 <= i < n ==> |s.core.respRing[i]| <= BUFFER
    ensures Exec(s, Repeat(GatewayIterate, n)) ==
      s.(core := s.core.(respRing := s.core.respRing[n..],
                         pending := s.core.pending - AnswersOf(s.core.respRing[..n]).Keys,
                         replies := s.core.replies + AnswersOf(s.core.respRing[..n])),
         gatewayLeft := s.gatewayLeft - n)
    decreases n
  {
    if n > 0 {
      var r, s' := s.core.respRing, Exec(s, Repeat(GatewayIterate, n - 1));
      assert s'.core.respRing != [] ==>
        DecodeResponse(s'.core.respRing[0]).Some? && ResponseId(s'.core.respRing[0]) in s'.core.pending by {
        RunKeepsInv(s, Repeat(GatewayIterate, n - 1));
        HeadCanBeGiven(s');
      }
      GatewayTakesMany(s, n - 1);
      ExecSnoc(s, GatewayIterate, n - 1);
      assert s'.core.respRing == r[n - 1..] && s'.core.respRing[0] == r[n - 1];
      GatewayTakesOne(s');
      AnswersSnoc(s.core, r, n);
    }
  }

  lemma {:induction false} ExecSnoc(s: State, a: Action, n: nat)
    ensures Exec(s, Repeat(a, n + 1)) == Next(Exec(s, Repeat(a, n)), a)
    decreases n
  {
    RepeatFront(a, n + 1);
    if n > 0 {
      RepeatFront(a, n);
      ExecSnoc(Next(s, a), a, n - 1);
    }
  }

  /** A waiting gateway takes all tokens at once and hands as many responses to the calls they name,
      each as it decodes, whatever others have left half done. */
  lemma GatewayNeverWaits(s: State)
    requires Eventfd.Inv(s) && s.gatewayLeft == 0 && s.respCounter > 0
    requires forall i :: 0 <= i < s.respCounter && i < |s.core.respRing| ==> |s.core.respRing[i]| <= BUFFER
    ensures s.respCounter <= |s.core.respRing|
    ensures var n := s.respCounter;
      Exec(s, [GatewayWait] + Repeat(GatewayIterate, n)) ==
        s.(core := s.core.(respRing := s.core.respRing[n..],
                           pending := s.core.pending - AnswersOf(s.core.respRing[..n]).Keys,
                           replies := s.core.replies + AnswersOf(s.core.respRing[..n])),
           respCounter := 0)
  {
    StepKeepsInv(s, GatewayWait);
    ExecCons(s, GatewayWait, Repeat(GatewayIterate, s.respCounter));
    GatewayTakesMany(Next(s, GatewayWait), s.respCounter);
  }

  // ---------- waiting ----------

  /** After a wait the counter is empty, and no listener can wait again before somebody signals. */
  lemma {:induction false} WaitsNeedSignals(s: State, acts: seq<Action>)
    requires forall a :: a in acts ==> !a.SignalRequest? && !a.SignalResponse?
    ensures s.reqCounter == 0 ==>
      Exec(s, acts).reqCounter == 0 && !CanTake(Exec(s, acts), BackendWait)
    ensures s.respCounter == 0 ==>
      Exec(s, acts).respCounter == 0 && !CanTake(Exec(s, acts), GatewayWait)
    decreases |acts|
  {
    if acts != [] {
      assert acts[0] in acts && forall a :: a in acts[1..] ==> a in acts;
      WaitsNeedSignals(Next(s, acts[0]), acts[1..]);
    }
  }

  lemma WaitTakesTheCounter(s: State, acts: seq<Action>)
    requires forall a :: a in acts ==> !a.SignalRequest? && !a.SignalResponse?
    ensures CanTake(s, BackendWait) ==>
      Next(s, BackendWait).backendLeft == s.reqCounter && !CanTake(Exec(Next(s, BackendWait), acts), BackendWait)
    ensures CanTake(s, GatewayWait) ==>
      Next(s, GatewayWait).gatewayLeft == s.respCounter && !CanTake(Exec(Next(s, GatewayWait), acts), GatewayWait)
  {
    WaitsNeedSignals(Next(s, BackendWait), acts);
    WaitsNeedSignals(Next(s, GatewayWait), acts);
  }
}
