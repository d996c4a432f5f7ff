/** The service both id-carrying transports implement: requests are asked under fresh ids, and each
    outstanding one may be answered once, by its own echo. */
module Exchange {
  import opened Codec

  datatype Exchange = Exchange(asked: map<Id, Request>, outstanding: set<Id>, answered: map<Id, Response>)

  const EMPTY := Exchange(map[], {}, map[])

  ghost predicate Asks(x: Exchange, id: Id, q: Request, x': Exchange) {
    id !in x.asked && x' == Exchange(x.asked[id := q], x.outstanding + {id}, x.answered)
  }

  ghost predicate Answers(x: Exchange, id: Id, p: Response, x': Exchange) {
    && id in x.outstanding && id in x.asked && IsEcho(x.asked[id], p)
    && x' == Exchange(x.asked, x.outstanding - {id}, x.answered[id := p])
  }

  ghost predicate Step(x: Exchange, x': Exchange) {
    x' == x || (exists id, q :: Asks(x, id, q, x')) || (exists id, p :: Answers(x, id, p, x'))
  }

  ghost predicate StepAt(trace: seq<Exchange>, i: nat) {
    i + 1 < |trace| ==> Step(trace[i], trace[i + 1])
  }

  ghost predicate IsRun(trace: seq<Exchange>) {
    |trace| > 0 && forall i: nat :: StepAt(trace, i)
  }

  /** Every id asked is either outstanding or answered by an echo of what was asked, never both. */
  ghost predicate Sound(x: Exchange) {
    && x.asked.Keys == x.outstanding + x.answered.Keys
    && x.outstanding !! x.answered.Keys
    && forall id :: id in x.answered ==> IsEcho(x.asked[id], x.answered[id])
  }

  lemma {:induction false} RunsAreSound(trace: seq<Exchange>, i: nat)
    requires IsRun(trace) && Sound(trace[0]) && i < |trace|
    ensures Sound(trace[i])
  {
    if i > 0 {
      RunsAreSound(trace, i - 1);
      assert StepAt(trace, i - 1);
    }
  }

  /** An answer, once given, is final: no later step of a run replaces or withdraws it. */
  lemma {:induction false} AnswersAreFinal(trace: seq<Exchange>, i: nat, j: nat, id: Id)
    requires IsRun(trace) && Sound(trace[0]) && i <= j < |trace| && id in trace[i].answered
    ensures id in trace[j].answered && trace[j].answered[id] == trace[i].answered[id]
    ensures id in trace[i].asked && id in trace[j].asked && trace[j].asked[id] == trace[i].asked[id]
    decreases j
  {
    RunsAreSound(trace, i);
    if i < j {
      AnswersAreFinal(trace, i, j - 1, id);
      RunsAreSound(trace, j - 1);
      assert StepAt(trace, j - 1);
    }
  }
}
