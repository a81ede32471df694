/** The log-capture objects: bounded buffers, captures, and the tracker shared by all requests of
    a pool. */
module LogCaptureObject {
  import opened Common
  import opened LogCapture

  class BoundedBuffer {
    var buf: Bytes

    constructor ()
      ensures buf == []
    {
      buf := [];
    }

    /** Keeps the first 32768 bytes of all it was given. The count returned is that of the bytes
        kept, unless the buffer was already full. */
    method Write(p: Bytes) returns (n: nat)
      requires |buf| <= MAX_OUTPUT
      modifies this
      ensures buf == First(MAX_OUTPUT, old(buf) + p)
      ensures n == if |old(buf)| == MAX_OUTPUT then |p| else |buf| - |old(buf)|
    {
      if |buf| >= MAX_OUTPUT {
        return |p|;
      }
      var remaining := MAX_OUTPUT - |buf|;
      var q := p;
      if |q| > remaining {
        q := q[..remaining];
      }
      buf := buf + q;
      n := |q|;
    }
  }

  class InvocationCapture<D> {
    const stdout: BoundedBuffer
    const stderr: BoundedBuffer
    var fetchDecisions: seq<D>

    constructor ()
      ensures fresh(stdout) && fresh(stderr) && stdout != stderr
      ensures Holds([], [], [])
    {
      stdout := new BoundedBuffer();
      stderr := new BoundedBuffer();
      fetchDecisions := [];
    }

    /** It holds the first bytes and decisions of what it was given in full. */
    ghost predicate Holds(out: Bytes, err: Bytes, decisions: seq<D>)
      reads this, stdout, stderr
    {
      && stdout.buf == First(MAX_OUTPUT, out) && stderr.buf == First(MAX_OUTPUT, err)
      && fetchDecisions == First(MAX_DECISIONS, decisions)
    }

    method RecordFetch(d: D)
      requires |fetchDecisions| <= MAX_DECISIONS
      modifies this
      ensures fetchDecisions == First(MAX_DECISIONS, old(fetchDecisions) + [d])
    {
      if |fetchDecisions| >= MAX_DECISIONS {
        return;
      }
      fetchDecisions := fetchDecisions + [d];
    }
  }

  class InvocationTracker<D> {
    var byGID: map<nat, InvocationCapture<D>>

    constructor ()
      ensures byGID == map[]
    {
      byGID := map[];
    }

    method Begin(gid: nat) returns (c: InvocationCapture<D>)
      modifies this
      ensures fresh(c) && fresh(c.stdout) && fresh(c.stderr) && c.stdout != c.stderr && c.Holds([], [], [])
      ensures byGID == old(byGID)[gid := c]
    {
      c := new InvocationCapture<D>();
      byGID := byGID[gid := c];
    }

    method End(gid: nat)
      modifies this
      ensures byGID == old(byGID) - {gid}
    {
      byGID := byGID - {gid};
    }

    /** A write reaches only the stream of the goroutine's own capture; with no capture it is
        discarded. */
    method WriteTo(gid: nat, stream: Stream, p: Bytes, ghost out: Bytes, ghost err: Bytes, ghost decisions: seq<D>)
      requires gid in byGID ==> byGID[gid].Holds(out, err, decisions) && byGID[gid].stdout != byGID[gid].stderr
      modifies if gid !in byGID then {} else if stream.Stdout? then {byGID[gid].stdout} else {byGID[gid].stderr}
      ensures gid in byGID ==>
        byGID[gid].Holds(if stream.Stdout? then out + p else out, if stream.Stdout? then err else err + p, decisions)
    {
      if gid in byGID {
        var c := byGID[gid];
        if stream.Stdout? {
          var n := c.stdout.Write(p);
          FirstOfAppended(out, p, MAX_OUTPUT);
        } else {
          var n := c.stderr.Write(p);
          FirstOfAppended(err, p, MAX_OUTPUT);
        }
      }
    }

    method RecordFetch(gid: nat, d: D, ghost out: Bytes, ghost err: Bytes, ghost decisions: seq<D>)
      requires gid in byGID ==> byGID[gid].Holds(out, err, decisions)
      modifies if gid in byGID then {byGID[gid]} else {}
      ensures gid in byGID ==> byGID[gid].Holds(out, err, decisions + [d])
    {
      if gid in byGID {
        byGID[gid].RecordFetch(d);
        FirstOfAppended(decisions, [d], MAX_DECISIONS);
      }
    }
  }
}
