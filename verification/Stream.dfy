/** Streaming responses on one pooled worker: the three callbacks shared by all requests, the
    generation that ties a pump to its request, and stale pumps that may call at any time. */
module Stream {
  import opened Common

  /** The generation travels through the guest as a float64: exact up to 2^53, then rounded to
      the nearest even multiple of two (round half to even). */
  function ThroughFloat(gen: nat): nat
    requires gen <= 2 * EXACT
  {
    if gen <= EXACT then gen
    else if gen % 4 == 1 then gen - 1
    else if gen % 4 == 3 then gen + 1
    else gen
  }

  /** A pump reads its stream, writes, and ends with exactly one of done and fail. */
  datatype Pump = Running | Erroring | DidDone | DidFail | NeverRan

  datatype Ending = Open | Clean | Aborted

  /** One streamed response and the pump that the glue started for it. */
  datatype Request = Request(
    body: Bytes,      // bytes handed to its ResponseWriter
    ending: Ending,
    pump: Pump,
    offered: Bytes,   // everything its pump passed to write, in order
    startFailed: bool)

  datatype Sink = Sink(pumpDone: bool, failed: bool)

  /** Request number i has generation i + 1. */
  datatype State = State(sink: Option<Sink>, streamGen: nat, requests: seq<Request>)

  const INIT := State(None, 0, [])

  datatype Step =
    | Begin                                // serveStreamingBody arms the callbacks
    | StartFails(live: bool)               // calling __fbw_stream_body failed; the pump may be live
    | Write(p: nat, chunk: Bytes, accepted: nat)  // accepted < |chunk|: the client went away
    | Throw(p: nat)                        // the stream errored, or a chunk of a wrong type
    | Done(p: nat)
    | Fail(p: nat)
    | End                                  // RunUntil returned

  /** A callback from the pump of request p reaches the armed sink. */
  predicate Reaches(s: State, p: nat)
    requires p < |s.requests| <= 2 * EXACT
  {
    s.sink.Some? && ThroughFloat(p + 1) == s.streamGen
  }

  predicate Enabled(s: State, step: Step) {
    && |s.requests| <= 2 * EXACT
    && match step
       case Begin => s.sink.None? && |s.requests| < 2 * EXACT
       case StartFails(live) =>
         && s.sink.Some? && s.requests != []
         && var r := s.requests[|s.requests| - 1];
            live || (r.pump.Running? && r.offered == [])
       case Write(p, chunk, accepted) =>
         p < |s.requests| && s.requests[p].pump.Running? && chunk != [] && accepted <= |chunk|
       case Throw(p) => p < |s.requests| && s.requests[p].pump.Running?
       case Done(p) => p < |s.requests| && s.requests[p].pump.Running?
       case Fail(p) => p < |s.requests| && s.requests[p].pump.Erroring?
       case End => s.sink.Some? && s.requests != []
  }

  /** hostWrite: the bytes go to the current request's writer; a rejected or failed write
      throws into the pump. */
  function DoWrite(s: State, p: nat, chunk: Bytes, accepted: nat): State
    requires p < |s.requests| <= 2 * EXACT && accepted <= |chunk|
  {
    var r := s.requests[p];
    var ok := Reaches(s, p) && accepted == |chunk|;
    var r' := r.(offered := r.offered + chunk, pump := if ok then Running else Erroring);
    var requests := s.requests[p := r'];
    if Reaches(s, p)
    then
      var cur := |requests| - 1;
      s.(requests := requests[cur := requests[cur].(body := requests[cur].body + chunk[..accepted])])
    else s.(requests := requests)
  }

  function Apply(s: State, step: Step): State
    requires Enabled(s, step)
  {
    match step
    case Begin => State(Some(Sink(false, false)), s.streamGen + 1, s.requests + [Request([], Open, Running, [], false)])
    case StartFails(live) =>
      var cur := |s.requests| - 1;
      var pump := if live then s.requests[cur].pump else NeverRan;
      s.(sink := Some(s.sink.value.(failed := true)),
         requests := s.requests[cur := s.requests[cur].(pump := pump, startFailed := true)])
    case Write(p, chunk, accepted) => DoWrite(s, p, chunk, accepted)
    case Throw(p) => s.(requests := s.requests[p := s.requests[p].(pump := Erroring)])
    case Done(p) =>
      s.(sink := if Reaches(s, p) then Some(s.sink.value.(pumpDone := true)) else s.sink,
         requests := s.requests[p := s.requests[p].(pump := DidDone)])
    case Fail(p) =>
      s.(sink := if Reaches(s, p) then Some(Sink(true, true)) else s.sink,
         requests := s.requests[p := s.requests[p].(pump := DidFail)])
    case End =>
      var cur := |s.requests| - 1;
      var sink := s.sink.value;
      var ending := if !sink.pumpDone || sink.failed then Aborted else Clean;
      s.(sink := None, requests := s.requests[cur := s.requests[cur].(ending := ending)])
  }

  // ---- Invariant, for generations that a float64 holds exactly ----

  ghost predicate RequestOk(s: State, i: nat)
    requires i < |s.requests|
  {
    var r := s.requests[i];
    && r.body <= r.offered
    && (r.ending == Open <==> s.sink.Some? && i == |s.requests| - 1)
    && (r.ending == Open && r.pump.Running? ==> r.body == r.offered)
    && (r.ending == Open && r.pump.DidDone? ==> r.body == r.offered)
    && (r.ending == Clean ==> r.pump.DidDone? && !r.startFailed && r.body == r.offered)
    && (r.pump.NeverRan? ==> r.offered == [] && r.startFailed)
  }

  /** The sink's flags are exactly what its own pump reported and whether its start failed. */
  ghost predicate SinkOk(s: State) {
    s.sink.Some? ==>
      && s.requests != []
      && var r := s.requests[|s.requests| - 1];
         && (s.sink.value.failed <==> r.pump.DidFail? || r.startFailed)
         && (s.sink.value.pumpDone <==> r.pump.DidDone? || r.pump.DidFail?)
  }

  ghost predicate Inv(s: State) {
    && s.streamGen == |s.requests|
    && SinkOk(s)
    && forall i: nat :: i < |s.requests| ==> RequestOk(s, i)
  }

  /** The only pump whose callbacks reach the sink is the current request's own. */
  lemma {:induction false} OnlyOwnPumpReaches(s: State, p: nat)
    requires Inv(s) && p < |s.requests| <= EXACT
    ensures Reaches(s, p) <==> s.sink.Some? && p == |s.requests| - 1
  {
  }

  lemma {:induction false} StepKeepsRequest(s: State, step: Step, i: nat)
    requires Inv(s) && Enabled(s, step) && |Apply(s, step).requests| <= EXACT && i < |Apply(s, step).requests|
    ensures RequestOk(Apply(s, step), i)
  {
    if i < |s.requests| { assert RequestOk(s, i); }
  }

  lemma {:induction false} StepKeepsSink(s: State, step: Step)
    requires Inv(s) && Enabled(s, step) && |Apply(s, step).requests| <= EXACT
    ensures SinkOk(Apply(s, step)) && Apply(s, step).streamGen == |Apply(s, step).requests|
  {
  }

  lemma {:induction false} StepKeepsInv(s: State, step: Step)
    requires Inv(s) && Enabled(s, step) && |Apply(s, step).requests| <= EXACT
    ensures Inv(Apply(s, step))
  {
    StepKeepsSink(s, step);
    forall i: nat | i < |Apply(s, step).requests| ensures RequestOk(Apply(s, step), i) {
      StepKeepsRequest(s, step, i);
    }
  }

  /** A write goes through exactly from the pump of the request being served and when the connection
      takes all of it; else it throws into the pump. What the connection took is in the response. */
  lemma {:induction false} WriteThrowsIff(s: State, p: nat, chunk: Bytes, accepted: nat)
    requires Inv(s) && |s.requests| <= EXACT && Enabled(s, Write(p, chunk, accepted))
    ensures var t := Apply(s, Write(p, chunk, accepted));
      && (t.requests[p].pump.Erroring? <==> s.sink.None? || p != |s.requests| - 1 || accepted < |chunk|)
      && (t.requests[p].pump.Running? <==> !t.requests[p].pump.Erroring?)
      && t.requests[p].offered == s.requests[p].offered + chunk
      && t.requests[p].body == s.requests[p].body
           + if s.sink.Some? && p == |s.requests| - 1 then chunk[..accepted] else []
  {
    OnlyOwnPumpReaches(s, p);
  }

  /** No step of any pump changes a response other than the one it was started for, and a pump
      whose request has ended changes no response and no sink at all. */
  lemma {:induction false} PumpsAreIsolated(s: State, step: Step, i: nat)
    requires Inv(s) && Enabled(s, step) && |s.requests| <= EXACT && i < |s.requests|
    requires step.Write? || step.Throw? || step.Done? || step.Fail?
    ensures step.p != i ==> Apply(s, step).requests[i] == s.requests[i]
    ensures s.requests[step.p].ending != Open ==>
              Apply(s, step).requests[i].body == s.requests[i].body && Apply(s, step).sink == s.sink
    ensures Apply(s, step).requests[i].body <= s.requests[i].body + (if step.Write? then step.chunk else [])
  {
    assert RequestOk(s, step.p) && RequestOk(s, i);
    OnlyOwnPumpReaches(s, step.p);
  }

  /** A streamed response ends without abort exactly when its own pump was started, has reported
      done, and so never failed. */
  lemma {:induction false} CleanEndIffOwnPumpDone(s: State)
    requires Inv(s) && Enabled(s, End)
    ensures var cur := |s.requests| - 1;
      && Apply(s, End).requests[cur].ending == (if s.requests[cur].pump.DidDone? && !s.requests[cur].startFailed
                                                 then Clean else Aborted)
      && Apply(s, End).sink.None?
  {
  }

  ghost function Run(s: State, steps: seq<Step>): (r: Option<State>)
    requires Inv(s)
    ensures r.Some? ==> Inv(r.value)
    decreases |steps|
  {
    if steps == [] then Some(s)
    else if !Enabled(s, steps[0]) || |Apply(s, steps[0]).requests| > EXACT then None
    else
      StepKeepsInv(s, steps[0]);
      Run(Apply(s, steps[0]), steps[1..])
  }

  lemma {:induction false} EndedStays(s: State, steps: seq<Step>, s': State, i: nat)
    requires Inv(s) && Run(s, steps) == Some(s') && i < |s.requests| && s.requests[i].ending != Open
    ensures i < |s'.requests|
    ensures s'.requests[i].body == s.requests[i].body && s'.requests[i].ending == s.requests[i].ending
    decreases |steps|
  {
    if steps != [] {
      var step := steps[0];
      StepKeepsInv(s, step);
      assert RequestOk(s, i);
      if step.Write? || step.Throw? || step.Done? || step.Fail? { PumpsAreIsolated(s, step, i); }
      EndedStays(Apply(s, step), steps[1..], s', i);
    }
  }

  lemma {:induction false} RunCons(s: State, step: Step, steps: seq<Step>)
    requires Inv(s) && Enabled(s, step) && |Apply(s, step).requests| <= EXACT
    ensures Inv(Apply(s, step)) && Run(s, [step] + steps) == Run(Apply(s, step), steps)
  {
    StepKeepsInv(s, step);
    assert ([step] + steps)[1..] == steps;
  }

  /** Whatever is to be streamed can be: from every state between two responses a response can come
      to a clean end with exactly these bytes. */
  lemma {:induction false} AnyResponseCanComplete(s: State, chunk: Bytes) returns (t: State)
    requires Inv(s) && s.sink.None? && |s.requests| < EXACT && chunk != []
    ensures var p := |s.requests|;
      && Run(s, [Begin] + ([Write(p, chunk, |chunk|)] + ([Done(p)] + ([End] + [])))) == Some(t)
      && |t.requests| == p + 1 && t.requests[p].body == chunk && t.requests[p].ending == Clean
  {
    var p := |s.requests|;
    var begun := Apply(s, Begin);
    RunCons(s, Begin, [Write(p, chunk, |chunk|)] + ([Done(p)] + ([End] + [])));
    WriteThrowsIff(begun, p, chunk, |chunk|);
    var written := Apply(begun, Write(p, chunk, |chunk|));
    RunCons(begun, Write(p, chunk, |chunk|), [Done(p)] + ([End] + []));
    var done := Apply(written, Done(p));
    RunCons(written, Done(p), [End] + []);
    RunCons(done, End, []);
    t := Apply(done, End);
    CleanEndIffOwnPumpDone(done);
    assert [] + chunk[..|chunk|] == chunk;
  }

  /** A pump that the glue never started stays silent. */
  lemma {:induction false} NeverStartedStaysSilent(s: State, steps: seq<Step>, s': State)
    requires Inv(s) && Enabled(s, StartFails(false)) && |s.requests| <= EXACT
    requires Inv(Apply(s, StartFails(false))) && Run(Apply(s, StartFails(false)), steps) == Some(s')
    ensures var i := |s.requests| - 1;
      i < |s'.requests| && s'.requests[i].pump.NeverRan? && s'.requests[i].offered == []
  {
    SilentStays(Apply(s, StartFails(false)), steps, s', |s.requests| - 1);
  }

  lemma {:induction false} SilentStays(s: State, steps: seq<Step>, s': State, i: nat)
    requires Inv(s) && Run(s, steps) == Some(s') && i < |s.requests| && s.requests[i].pump.NeverRan?
    ensures i < |s'.requests| && s'.requests[i].pump.NeverRan? && s'.requests[i].offered == []
    decreases |steps|
  {
    assert RequestOk(s, i);
    if steps != [] {
      var step := steps[0];
      StepKeepsInv(s, step);
      if step.Write? || step.Throw? || step.Done? || step.Fail? { PumpsAreIsolated(s, step, i); }
      SilentStays(Apply(s, step), steps[1..], s', i);
    }
  }

  /** Stream isolation over whole runs: the bytes of every response are, in order, a prefix of
      what its own pump wrote, and all of it when the response ended cleanly. */
  lemma {:induction false} ResponsesAreOwnStreams(steps: seq<Step>, s: State, i: nat)
    requires Inv(INIT) && Run(INIT, steps) == Some(s) && i < |s.requests|
    ensures s.requests[i].body <= s.requests[i].offered
    ensures s.requests[i].ending == Clean ==>
              s.requests[i].pump.DidDone? && s.requests[i].body == s.requests[i].offered
  {
    assert RequestOk(s, i);
  }

  // ---- Beyond 2^53 ----

  /** When generations are no longer exact, the pump of the request just before the current one
      can be mistaken for the current one, and the current one can be locked out: exactly when
      the current generation is a multiple of four, and exactly when it is odd. */
  lemma {:induction false} InexactGenerations(gen: nat)
    requires EXACT < gen < 2 * EXACT
    ensures ThroughFloat(gen) == gen <==> gen % 2 == 0
    ensures forall older: nat :: older < gen ==>
              (ThroughFloat(older) == gen <==> gen % 4 == 0 && older == gen - 1)
  {
    Even(gen);
    forall older: nat | older < gen
      ensures ThroughFloat(older) == gen <==> gen % 4 == 0 && older == gen - 1
    {
      TakenFor(older, gen);
    }
  }

  lemma {:induction false} Even(n: nat)
    ensures n % 2 == 0 <==> n % 4 == 0 || n % 4 == 2
  {
    assert n == 4 * (n / 4) + n % 4;
  }

  lemma {:induction false} BeforeFourth(n: nat)
    ensures n % 4 == 3 <==> (n + 1) % 4 == 0
  {
    assert n == 4 * (n / 4) + n % 4;
  }

  lemma {:induction false} TakenFor(older: nat, gen: nat)
    requires EXACT < gen < 2 * EXACT && older < gen
    ensures ThroughFloat(older) == gen <==> gen % 4 == 0 && older == gen - 1
  {
    if older < gen - 1 {
      assert ThroughFloat(older) <= older + 1;
    } else {
      BeforeFourth(older);
    }
  }
}
