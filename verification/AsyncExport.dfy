/** enginepool's AsyncExport: kick starts a goroutine and hands back an id; a guest interval
    polls that id until the result is reported. */
module AsyncExport {
  import opened Common

  /** Values and errors fn may return. */
  datatype Result = Value(v: string) | Error(e: string)

  /** One guest call, in kick order: call number i was given id i + 1. */
  datatype Call = Call(arg: string, returned: Option<Result>, reported: seq<Result>)

  datatype State = State(nextID: nat, results: map<nat, Result>, calls: seq<Call>)

  const INIT := State(0, map[], [])

  datatype Step =
    | Kick(arg: string)
    | GoroutineReturns(i: nat, result: Result)  // fn returned, then the locked write
    | Poll(id: nat)

  predicate Enabled(s: State, step: Step) {
    match step
    case Kick(_) => s.nextID < EXACT
    case GoroutineReturns(i, _) => i < |s.calls| && s.calls[i].returned.None?
    case Poll(id) => true
  }

  function Apply(s: State, step: Step): State
    requires Enabled(s, step)
  {
    match step
    case Kick(arg) => s.(nextID := s.nextID + 1, calls := s.calls + [Call(arg, None, [])])
    case GoroutineReturns(i, r) =>
      s.(results := s.results[i + 1 := r], calls := s.calls[i := s.calls[i].(returned := Some(r))])
    case Poll(id) =>
      if id in s.results && 1 <= id <= |s.calls| then
        s.(results := s.results - {id},
           calls := s.calls[id - 1 := s.calls[id - 1].(reported := s.calls[id - 1].reported + [s.results[id]])])
      else s
  }

  /** What the guest sees: done with a result, or not done yet. */
  function Answer(s: State, id: nat): Option<Result> {
    if id in s.results then Some(s.results[id]) else None
  }

  ghost predicate CallOk(s: State, i: nat)
    requires i < |s.calls|
  {
    var c := s.calls[i];
    && (i + 1 in s.results <==> c.returned.Some? && c.reported == [])
    && (i + 1 in s.results ==> s.results[i + 1] == c.returned.value)
    && (c.reported == [] || (c.returned.Some? && c.reported == [c.returned.value]))
  }

  ghost predicate Inv(s: State) {
    && s.nextID == |s.calls|
    && (forall id :: id in s.results ==> 1 <= id <= |s.calls|)
    && (forall i: nat :: i < |s.calls| ==> CallOk(s, i))
  }

  lemma {:induction false} StepKeepsInv(s: State, step: Step)
    requires Inv(s) && Enabled(s, step)
    ensures Inv(Apply(s, step))
  {
    var s' := Apply(s, step);
    forall i: nat | i < |s'.calls| ensures CallOk(s', i) {
      if i < |s.calls| { assert CallOk(s, i); }
    }
  }

  ghost function Run(s: State, steps: seq<Step>): (r: Option<State>)
    requires Inv(s)
    ensures r.Some? ==> Inv(r.value)
    decreases |steps|
  {
    if steps == [] then Some(s)
    else if !Enabled(s, steps[0]) then None
    else
      StepKeepsInv(s, steps[0]);
      Run(Apply(s, steps[0]), steps[1..])
  }

  ghost predicate Reachable(s: State) {
    Inv(INIT) && exists steps :: Run(INIT, steps) == Some(s)
  }

  /** In every reachable state the table holds exactly the finished but unreported calls, and
      each call has been reported at most once and only with its own function's result. */
  lemma {:induction false} TableIsUnreported(s: State)
    requires Reachable(s)
    ensures forall id: nat :: id in s.results <==>
              1 <= id <= |s.calls| && s.calls[id - 1].returned.Some? && s.calls[id - 1].reported == []
    ensures forall i :: 0 <= i < |s.calls| ==>
              |s.calls[i].reported| <= 1 && (s.calls[i].reported != [] ==>
                s.calls[i].returned == Some(s.calls[i].reported[0]))
  {
    forall id: nat ensures id in s.results <==>
              1 <= id <= |s.calls| && s.calls[id - 1].returned.Some? && s.calls[id - 1].reported == [] {
      if 1 <= id <= |s.calls| { assert CallOk(s, id - 1); }
    }
    forall i | 0 <= i < |s.calls|
      ensures |s.calls[i].reported| <= 1 && (s.calls[i].reported != [] ==>
                s.calls[i].returned == Some(s.calls[i].reported[0])) {
      assert CallOk(s, i);
    }
  }

  /** A poll of a finished, unreported call answers with that call's own result and reports it;
      any other poll answers "not done" and changes nothing. Polling one id never touches the
      result of another. */
  lemma {:induction false} PollReportsOnce(s: State, i: nat)
    requires Reachable(s) && i < |s.calls|
    ensures Answer(s, i + 1) == if s.calls[i].reported == [] then s.calls[i].returned else None
    ensures var s' := Apply(s, Poll(i + 1));
      && Answer(s', i + 1) == None
      && (Answer(s, i + 1) == None ==> s' == s)
      && (Answer(s, i + 1).Some? ==> s'.calls[i].reported == [Answer(s, i + 1).value])
      && forall id: nat :: id != i + 1 ==> Answer(s', id) == Answer(s, id)
  {
    assert CallOk(s, i);
  }

  /** What is polled for: a call just kicked is not done; once its function has returned, the answer
      is what the function returned. Neither makes a difference to other calls. */
  lemma {:induction false} ReturnIsAnswered(s: State, arg: string, i: nat, r: Result)
    requires Reachable(s)
    ensures s.nextID < EXACT ==>
      forall id: nat :: Answer(Apply(s, Kick(arg)), id) == if id == |s.calls| + 1 then None else Answer(s, id)
    ensures Enabled(s, GoroutineReturns(i, r)) ==>
      forall id: nat ::
        Answer(Apply(s, GoroutineReturns(i, r)), id) == if id == i + 1 then Some(r) else Answer(s, id)
  {
  }

  /** No result is lost: once fn returned, the next poll of its id reports it, whatever happens
      to other calls in between. */
  lemma {:induction false} ResultWaits(s: State, steps: seq<Step>, s': State, i: nat)
    requires Inv(s) && Run(s, steps) == Some(s') && i < |s.calls| && i + 1 in s.results
    requires forall k :: 0 <= k < |steps| ==> steps[k] != Poll(i + 1)
    ensures i < |s'.calls| && Answer(s', i + 1) == s.calls[i].returned
    decreases |steps|
  {
    assert CallOk(s, i);
    if steps != [] {
      StepKeepsInv(s, steps[0]);
      assert steps[0] != Poll(i + 1);
      ResultWaits(Apply(s, steps[0]), steps[1..], s', i);
    }
  }

  /** The shared closures and the guest's table as they are written. */
  class Export {
    var nextID: nat
    var results: map<nat, Result>
    ghost var model: State

    constructor ()
      ensures Valid() && model == INIT
    {
      nextID, results, model := 0, map[], INIT;
    }

    ghost predicate Valid()
      reads this
    {
      Inv(model) && nextID == model.nextID && results == model.results
    }

    method Kick(arg: string) returns (id: nat)
      requires Valid() && nextID < EXACT
      modifies this
      ensures Valid() && model == Apply(old(model), Step.Kick(arg))
      ensures id == |model.calls| && id !in results
    {
      StepKeepsInv(model, Step.Kick(arg));
      model := Apply(model, Step.Kick(arg));
      nextID := nextID + 1;
      id := nextID;
      assert CallOk(model, id - 1);
    }

    method StoreResult(id: nat, r: Result)
      requires Valid() && 1 <= id && Enabled(model, GoroutineReturns(id - 1, r))
      modifies this`results, this`model
      ensures Valid() && model == Apply(old(model), GoroutineReturns(id - 1, r))
    {
      StepKeepsInv(model, GoroutineReturns(id - 1, r));
      model := Apply(model, GoroutineReturns(id - 1, r));
      results := results[id := r];
    }

    method Poll(id: nat) returns (done: bool, r: Option<Result>)
      requires Valid()
      modifies this`results, this`model
      ensures Valid() && model == Apply(old(model), Step.Poll(id))
      ensures r == Answer(old(model), id) && done == r.Some?
    {
      StepKeepsInv(model, Step.Poll(id));
      model := Apply(model, Step.Poll(id));
      done := id in results;
      r := if done then Some(results[id]) else None;
      if done {
        results := results - {id};
      }
    }
  }
}
