/** The worker's streaming fields and callbacks as they are written, each proved to make the
    step of the Stream model it stands for. */
module StreamObject {
  import opened Common
  import opened Stream

  class ResponseWriter {
    var body: Bytes

    constructor ()
      ensures body == []
    {
      body := [];
    }
  }

  class StreamSink {
    const rw: ResponseWriter
    var pumpDone: bool
    var failed: bool

    constructor (rw: ResponseWriter)
      ensures this.rw == rw && !pumpDone && !failed
    {
      this.rw, pumpDone, failed := rw, false, false;
    }
  }

  class Worker {
    var sink: StreamSink?
    var streamGen: nat
    ghost var model: State

    constructor ()
      ensures Valid() && model == INIT
    {
      sink, streamGen, model := null, 0, INIT;
    }

    ghost predicate Valid()
      reads this, sink, if sink == null then null else sink.rw
    {
      && Inv(model)
      && streamGen == model.streamGen
      && (sink == null <==> model.sink.None?)
      && (sink != null ==>
            && model.sink.value == Sink(sink.pumpDone, sink.failed)
            && sink.rw.body == model.requests[|model.requests| - 1].body)
    }

    /** serveStreamingBody up to the call of the glue. */
    method Arm(rw: ResponseWriter)
      requires Valid() && sink == null && rw.body == [] && |model.requests| < EXACT
      modifies this
      ensures Valid() && sink != null && fresh(sink) && sink.rw == rw
      ensures Enabled(old(model), Begin) && model == Apply(old(model), Begin)
    {
      StepKeepsInv(model, Begin);
      model := Apply(model, Begin);
      streamGen := streamGen + 1;
      sink := new StreamSink(rw);
    }

    /** __fbw_host_write, called by the pump of request p; `accepted` is what the client's
        connection took. */
    method HostWrite(ghost p: nat, gen: nat, chunk: Bytes, accepted: nat) returns (thrown: bool)
      requires Valid() && |model.requests| <= EXACT && Enabled(model, Write(p, chunk, accepted))
      requires gen == ThroughFloat(p + 1)
      modifies this`model, if sink == null then null else sink.rw
      ensures Valid() && model == Apply(old(model), Write(p, chunk, accepted))
      ensures thrown <==> model.requests[p].pump.Erroring?
      ensures thrown <==> sink == null || p != |old(model).requests| - 1 || accepted < |chunk|
      ensures sink != null ==>
        sink.rw.body == old(sink.rw.body) + if p == |old(model).requests| - 1 then chunk[..accepted] else []
    {
      OnlyOwnPumpReaches(model, p);
      StepKeepsInv(model, Write(p, chunk, accepted));
      model := Apply(model, Write(p, chunk, accepted));
      if sink == null || gen != streamGen {
        return true;
      }
      sink.rw.body := sink.rw.body + chunk[..accepted];
      return accepted < |chunk|;
    }

    /** __fbw_host_done. */
    method HostDone(ghost p: nat, gen: nat)
      requires Valid() && |model.requests| <= EXACT && Enabled(model, Done(p)) && gen == ThroughFloat(p + 1)
      modifies this`model, sink
      ensures Valid() && model == Apply(old(model), Done(p))
    {
      StepKeepsInv(model, Done(p));
      model := Apply(model, Done(p));
      if sink != null && gen == streamGen {
        sink.pumpDone := true;
      }
    }

    /** __fbw_host_fail. */
    method HostFail(ghost p: nat, gen: nat)
      requires Valid() && |model.requests| <= EXACT && Enabled(model, Fail(p)) && gen == ThroughFloat(p + 1)
      modifies this`model, sink
      ensures Valid() && model == Apply(old(model), Fail(p))
    {
      StepKeepsInv(model, Fail(p));
      model := Apply(model, Fail(p));
      if sink != null && gen == streamGen {
        sink.pumpDone := true;
        sink.failed := true;
      }
    }

    /** The call of the glue returned an error; its pump may be live all the same. */
    method StartFailed(ghost live: bool)
      requires Valid() && |model.requests| <= EXACT && Enabled(model, StartFails(live))
      modifies this`model, sink
      ensures Valid() && model == Apply(old(model), StartFails(live))
    {
      StepKeepsInv(model, StartFails(live));
      model := Apply(model, StartFails(live));
      sink.failed := true;
    }

    /** The end of serveStreamingBody: the deferred clearing of the sink, and the abort. */
    method Finish() returns (aborted: bool)
      requires Valid() && sink != null && |model.requests| <= EXACT
      modifies this`model, this`sink
      ensures Valid() && Enabled(old(model), End) && model == Apply(old(model), End)
      ensures var own := old(model).requests[|model.requests| - 1];
        aborted <==> !own.pump.DidDone? || own.startFailed
      ensures sink == null
    {
      StepKeepsInv(model, End);
      CleanEndIffOwnPumpDone(model);
      model := Apply(model, End);
      aborted := !sink.pumpDone || sink.failed;
      sink := null;
    }
  }
}
