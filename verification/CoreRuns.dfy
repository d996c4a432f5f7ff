/** Sequences of cores in which each comes from the one before by an operation or not at all: what
    any transport built on the shared core does, however its listeners are woken. */
module CoreRuns {
  import opened LittleEndian
  import opened Codec
  import opened CallCore
  import X = Exchange

  function EmptyCore(reqCap: nat, respCap: nat): Core {
    Core(reqCap, respCap, map[], {}, [], [], [], map[], {})
  }

  ghost predicate Moves(c: Core, op: Op, c': Core) {
    Enabled(c, op) && c' == Apply(c, op)
  }

  ghost predicate Step(c: Core, c': Core) {
    c' == c || exists op :: Moves(c, op, c')
  }

  ghost predicate StepAt(trace: seq<Core>, i: nat) {
    i + 1 < |trace| ==> Step(trace[i], trace[i + 1])
  }

  ghost predicate IsRun(trace: seq<Core>) {
    |trace| > 0 && forall i: nat :: StepAt(trace, i)
  }

  lemma RunExtends(c: Core, trace: seq<Core>)
    requires IsRun(trace) && Step(c, trace[0])
    ensures IsRun([c] + trace)
  {
    var t := [c] + trace;
    forall i: nat ensures StepAt(t, i) {
      assert i > 0 ==> StepAt(trace, i - 1);
    }
  }

  lemma EmptyHasInv(reqCap: nat, respCap: nat)
    requires 0 < reqCap <= U64 && 0 < respCap <= U64
    ensures Inv(EmptyCore(reqCap, respCap)) && Abs(EmptyCore(reqCap, respCap)) == X.EMPTY
  {
    assert InStage(map[], Registered) == {};
  }

  lemma StepKeepsInv(c: Core, c': Core)
    requires Inv(c) && Step(c, c')
    ensures Inv(c')
  {
    if op :| Moves(c, op, c') {
      OperationKeepsInv(c, op);
    }
  }

  lemma {:induction false} RunKeepsInv(trace: seq<Core>, i: nat)
    requires IsRun(trace) && Inv(trace[0]) && i < |trace|
    ensures Inv(trace[i])
  {
    if i > 0 {
      RunKeepsInv(trace, i - 1);
      assert StepAt(trace, i - 1);
      StepKeepsInv(trace[i - 1], trace[i]);
    }
  }

  ghost predicate InvAt(trace: seq<Core>, i: nat) {
    i < |trace| ==> Inv(trace[i])
  }

  ghost predicate GoodRun(trace: seq<Core>) {
    IsRun(trace) && forall i: nat :: InvAt(trace, i)
  }

  lemma RunIsGood(trace: seq<Core>)
    requires IsRun(trace) && Inv(trace[0])
    ensures GoodRun(trace)
  {
    forall i: nat ensures InvAt(trace, i) {
      if i < |trace| {
        RunKeepsInv(trace, i);
      }
    }
  }

  function AbsTrace(trace: seq<Core>): (t: seq<X.Exchange>)
    ensures |t| == |trace|
  {
    seq(|trace|, i requires 0 <= i < |trace| => Abs(trace[i]))
  }

  lemma StepRefinesExchange(c: Core, c': Core)
    requires Inv(c) && Step(c, c')
    ensures X.Step(Abs(c), Abs(c'))
  {
    if op :| Moves(c, op, c') {
      OperationRefinesExchange(c, op);
    }
  }

  lemma NextRefinesExchange(trace: seq<Core>, i: nat)
    requires IsRun(trace) && i + 1 < |trace| && Inv(trace[i])
    ensures X.Step(Abs(trace[i]), Abs(trace[i + 1]))
  {
    assert StepAt(trace, i);
    StepRefinesExchange(trace[i], trace[i + 1]);
  }

  /** Every run of cores is, seen abstractly, a run of the exchange. */
  lemma RunRefinesExchange(trace: seq<Core>)
    requires IsRun(trace) && Inv(trace[0])
    ensures X.IsRun(AbsTrace(trace))
  {
    var t := AbsTrace(trace);
    forall i: nat ensures X.StepAt(t, i) {
      if i + 1 < |t| {
        RunKeepsInv(trace, i);
        NextRefinesExchange(trace, i);
      }
    }
  }

  /** From `c` to `c'`, call `id` keeps what it has returned, and what was lost stays lost. */
  ghost predicate Keeps(c: Core, c': Core, id: Id) {
    && id in c.calls && id in c'.calls && c.lost <= c'.lost
    && (Result(c, id) != Running ==> Result(c', id) == Result(c, id))
  }

  lemma KeepsComposes(a: Core, b: Core, c: Core, id: Id)
    requires Keeps(a, b, id) && Keeps(b, c, id)
    ensures Keeps(a, c, id)
  {}

  lemma StepKeeps(c: Core, c': Core, id: Id)
    requires Inv(c) && Step(c, c') && id in c.calls
    ensures Keeps(c, c', id)
  {
    if op :| Moves(c, op, c') {
      ExtendsApply(c, op);
      LostGrows(c, op);
      if Result(c, id) != Running {
        ResultIsFinal(c, op, id);
      }
    }
  }

  lemma NextKeeps(trace: seq<Core>, i: nat, id: Id)
    requires GoodRun(trace) && i + 1 < |trace| && id in trace[i].calls
    ensures Keeps(trace[i], trace[i + 1], id)
  {
    assert StepAt(trace, i) && InvAt(trace, i);
    StepKeeps(trace[i], trace[i + 1], id);
  }

  lemma {:induction false} RunKeeps(trace: seq<Core>, i: nat, j: nat, id: Id)
    requires GoodRun(trace) && i <= j < |trace| && id in trace[i].calls
    ensures Keeps(trace[i], trace[j], id)
    decreases j
  {
    if i < j {
      RunKeeps(trace, i, j - 1, id);
      NextKeeps(trace, j - 1, id);
      KeepsComposes(trace[i], trace[j - 1], trace[j], id);
    }
  }

  /** What a call has returned is final, and an id that was lost stays in the pending map for good. */
  lemma ReturnsAndLossesAreFinal(trace: seq<Core>, i: nat, j: nat, id: Id)
    requires IsRun(trace) && Inv(trace[0]) && i <= j < |trace| && id in trace[i].calls
    ensures id in trace[j].calls
    ensures Result(trace[i], id) != Running ==> Result(trace[j], id) == Result(trace[i], id)
    ensures id in trace[i].lost ==> id in trace[j].lost && id in trace[j].pending
  {
    RunIsGood(trace);
    RunKeeps(trace, i, j, id);
    if id in trace[i].lost {
      assert InvAt(trace, j);
      LostIsPending(trace[j], id);
    }
  }

  /** The service a transport owes its callers, over one whole run from the start. */
  ghost predicate ServesExchange(trace: seq<Core>) {
    var t := AbsTrace(trace);
    // the run is a run of the exchange, from its empty state
    && X.IsRun(t) && t[0] == X.EMPTY
    // at all times every id asked is outstanding or answered by its own echo, never both
    && (forall i :: 0 <= i < |t| ==> X.Sound(t[i]))
    // an answer is never replaced or withdrawn
    && (forall i, j, id :: 0 <= i <= j < |t| && id in t[i].answered ==>
         id in t[j].answered && t[j].answered[id] == t[i].answered[id])
    // a call that returns Ok returns the echo of its own request
    && (forall i, id :: 0 <= i < |trace| && id in trace[i].calls && Result(trace[i], id).ReturnsOk? ==>
         IsEcho(trace[i].calls[id].request, Result(trace[i], id).response))
  }

  lemma RunsServeExchange(trace: seq<Core>, reqCap: nat, respCap: nat)
    requires 0 < reqCap <= U64 && 0 < respCap <= U64
    requires IsRun(trace) && trace[0] == EmptyCore(reqCap, respCap)
    ensures ServesExchange(trace)
  {
    EmptyHasInv(reqCap, respCap);
    RunRefinesExchange(trace);
    var t := AbsTrace(trace);
    assert t[0] == X.EMPTY && X.Sound(t[0]);
    forall i | 0 <= i < |t| ensures X.Sound(t[i]) {
      X.RunsAreSound(t, i);
    }
    forall i, j, id | 0 <= i <= j < |t| && id in t[i].answered
      ensures id in t[j].answered && t[j].answered[id] == t[i].answered[id]
    {
      X.AnswersAreFinal(t, i, j, id);
    }
    forall i, id | 0 <= i < |trace| && id in trace[i].calls && Result(trace[i], id).ReturnsOk?
      ensures IsEcho(trace[i].calls[id].request, Result(trace[i], id).response)
    {
      RunKeepsInv(trace, i);
      OkIsOwnEcho(trace[i], id);
    }
  }
}
