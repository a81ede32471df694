/** Demultiplexing guest output and fetch decisions back to the invocations that caused them, by
    goroutine, with bounded retention. */
module LogCapture {
  import opened Common

  const MAX_OUTPUT := 32 * 1024
  const MAX_DECISIONS := 200

  datatype Stream = Stdout | Stderr

  /** What a goroutine does; fetch decisions are of any type. */
  datatype Op<D> = Begin | Write(stream: Stream, data: Bytes) | Fetch(decision: D) | End

  datatype Event<D> = Event(gid: nat, op: Op<D>)

  datatype Capture<D> = Capture(stdout: Bytes, stderr: Bytes, decisions: seq<D>)

  /** Truncating as the pieces arrive is truncating the whole. */
  lemma {:induction false} FirstOfAppended<T>(s: seq<T>, p: seq<T>, n: nat)
    ensures First(n, First(n, s) + p) == First(n, s + p)
  {}

  // ---- The tracker as a state machine ----

  /** Captures are named by the position of their begin in the trace. */
  datatype State<D> = State(byGID: map<nat, nat>, captures: map<nat, Capture<D>>)

  /** boundedBuffer.Write, as far as the contents go. */
  function Append(kept: Bytes, p: Bytes): Bytes {
    if |kept| >= MAX_OUTPUT then kept else kept + First(MAX_OUTPUT - |kept|, p)
  }

  function Add<D>(c: Capture<D>, op: Op<D>): Capture<D> {
    match op
    case Write(Stdout, p) => c.(stdout := Append(c.stdout, p))
    case Write(Stderr, p) => c.(stderr := Append(c.stderr, p))
    case Fetch(d) => c.(decisions := if |c.decisions| >= MAX_DECISIONS then c.decisions else c.decisions + [d])
    case _ => c
  }

  function Apply<D>(s: State<D>, at: nat, e: Event<D>): State<D> {
    match e.op
    case Begin => State(s.byGID[e.gid := at], s.captures[at := Capture([], [], [])])
    case End => s.(byGID := s.byGID - {e.gid})
    case _ =>
      if e.gid in s.byGID && s.byGID[e.gid] in s.captures then
        s.(captures := s.captures[s.byGID[e.gid] := Add(s.captures[s.byGID[e.gid]], e.op)])
      else s
  }

  function After<D>(trace: seq<Event<D>>): State<D> {
    if trace == [] then State(map[], map[])
    else Apply(After(trace[..|trace| - 1]), |trace| - 1, trace[|trace| - 1])
  }

  // ---- What belongs to an invocation ----

  /** Position b begins an invocation of goroutine g that has not ended, nor been begun anew, by
      position k. */
  ghost predicate Open<D>(trace: seq<Event<D>>, b: nat, k: nat) {
    && b < k <= |trace| && trace[b].op.Begin?
    && forall i :: b < i < k && trace[i].gid == trace[b].gid ==> !trace[i].op.Begin? && !trace[i].op.End?
  }

  /** Event k was done by the invocation begun at b. */
  ghost predicate Belongs<D>(trace: seq<Event<D>>, b: nat, k: nat) {
    k < |trace| && Open(trace, b, k) && trace[k].gid == trace[b].gid
  }

  /** Everything the invocation begun at b wrote to a stream, without any limit. */
  ghost function Written<D>(trace: seq<Event<D>>, b: nat, stream: Stream): Bytes {
    if |trace| <= b + 1 then []
    else
      var k := |trace| - 1;
      Written(trace[..k], b, stream)
      + if Belongs(trace, b, k) && trace[k].op.Write? && trace[k].op.stream == stream then trace[k].op.data else []
  }

  ghost function Fetched<D>(trace: seq<Event<D>>, b: nat): seq<D> {
    if |trace| <= b + 1 then []
    else
      var k := |trace| - 1;
      Fetched(trace[..k], b) + if Belongs(trace, b, k) && trace[k].op.Fetch? then [trace[k].op.decision] else []
  }

  ghost predicate Kept<D>(trace: seq<Event<D>>, b: nat, c: Capture<D>) {
    && c.stdout == First(MAX_OUTPUT, Written(trace, b, Stdout))
    && c.stderr == First(MAX_OUTPUT, Written(trace, b, Stderr))
    && c.decisions == First(MAX_DECISIONS, Fetched(trace, b))
  }

  // ---- Demultiplexing ----

  lemma {:induction false} OpenFront<D>(trace: seq<Event<D>>, b: nat)
    requires trace != [] && b < |trace| - 1
    ensures var n := |trace| - 1;
      Open(trace, b, |trace|)
      <==> Open(trace[..n], b, n) && (trace[n].gid == trace[b].gid ==> !trace[n].op.Begin? && !trace[n].op.End?)
  {
    var n := |trace| - 1;
    var front := trace[..n];
    assert forall i :: 0 <= i < n ==> front[i] == trace[i];
  }

  lemma {:induction false} BelongsFront<D>(trace: seq<Event<D>>, b: nat)
    requires trace != [] && b < |trace| - 1
    ensures var n := |trace| - 1;
      Belongs(trace, b, n) <==> Open(trace[..n], b, n) && trace[n].gid == trace[b].gid
  {
    var n := |trace| - 1;
    var front := trace[..n];
    assert forall i :: 0 <= i < n ==> front[i] == trace[i];
  }

  lemma {:induction false} AddKeeps<D>(w1: Bytes, w2: Bytes, f: seq<D>, c: Capture<D>, op: Op<D>)
    requires c.stdout == First(MAX_OUTPUT, w1) && c.stderr == First(MAX_OUTPUT, w2)
    requires c.decisions == First(MAX_DECISIONS, f)
    ensures var d := Add(c, op);
      && d.stdout == First(MAX_OUTPUT, w1 + (if op.Write? && op.stream == Stdout then op.data else []))
      && d.stderr == First(MAX_OUTPUT, w2 + (if op.Write? && op.stream == Stderr then op.data else []))
      && d.decisions == First(MAX_DECISIONS, f + (if op.Fetch? then [op.decision] else []))
  {}

  /** The goroutine map points at the open invocations, and only at them. */
  ghost predicate Tracks<D>(trace: seq<Event<D>>, s: State<D>) {
    && (forall g :: g in s.byGID ==> Open(trace, s.byGID[g], |trace|) && trace[s.byGID[g]].gid == g)
    && (forall b: nat :: Open(trace, b, |trace|) ==> trace[b].gid in s.byGID && s.byGID[trace[b].gid] == b)
    && (forall b: nat :: b in s.captures <==> b < |trace| && trace[b].op.Begin?)
  }

  lemma {:induction false} TracksOpen<D>(trace: seq<Event<D>>)
    ensures Tracks(trace, After(trace))
  {
    if trace != [] {
      var n := |trace| - 1;
      var front, e := trace[..n], trace[n];
      TracksOpen(front);
      var s, t := After(front), After(trace);
      forall b: nat | b < n ensures front[b] == trace[b] {}
      forall g | g in t.byGID ensures Open(trace, t.byGID[g], |trace|) && trace[t.byGID[g]].gid == g {
        if t.byGID[g] < n { OpenFront(trace, t.byGID[g]); }
      }
      forall b: nat | Open(trace, b, |trace|) ensures trace[b].gid in t.byGID && t.byGID[trace[b].gid] == b {
        if b < n { OpenFront(trace, b); }
      }
    }
  }

  /** In every interleaving each capture holds exactly the first 32768 bytes its own invocation
      wrote to each stream and its first 200 fetch decisions. */
  lemma {:induction false} EachCaptureIsItsOwn<D>(trace: seq<Event<D>>, b: nat)
    requires b < |trace| && trace[b].op.Begin?
    ensures b in After(trace).captures && Kept(trace, b, After(trace).captures[b])
    decreases |trace|
  {
    TracksOpen(trace);
    var n := |trace| - 1;
    var front := trace[..n];
    var s := After(front);
    TracksOpen(front);
    if b < n {
      assert front[b] == trace[b];
      EachCaptureIsItsOwn(front, b);
      NewCapture(trace, b);
      KeptNext(trace, b, s.captures[b]);
    }
  }

  lemma {:induction false} KeptNext<D>(trace: seq<Event<D>>, b: nat, c: Capture<D>)
    requires b < |trace| - 1 && Kept(trace[..|trace| - 1], b, c)
    ensures Kept(trace, b, if Belongs(trace, b, |trace| - 1) then Add(c, trace[|trace| - 1].op) else c)
  {
    var front := trace[..|trace| - 1];
    AddKeeps(Written(front, b, Stdout), Written(front, b, Stderr), Fetched(front, b), c, trace[|trace| - 1].op);
    assert Written(front, b, Stdout) + [] == Written(front, b, Stdout);
    assert Written(front, b, Stderr) + [] == Written(front, b, Stderr);
    assert Fetched(front, b) + [] == Fetched(front, b);
  }

  lemma {:induction false} NewCapture<D>(trace: seq<Event<D>>, b: nat)
    requires b < |trace| - 1 && trace[b].op.Begin?
    requires Tracks(trace[..|trace| - 1], After(trace[..|trace| - 1]))
    ensures var n := |trace| - 1;
      var s, t := After(trace[..n]), After(trace);
      && b in s.captures && b in t.captures
      && t.captures[b] == if Belongs(trace, b, n) then Add(s.captures[b], trace[n].op) else s.captures[b]
  {
    var n := |trace| - 1;
    BelongsFront(trace, b);
    assert trace[..n][b] == trace[b];
  }

  /** What other goroutines do makes no difference to a capture. */
  lemma {:induction false} OthersMakeNoDifference<D>(a: seq<Event<D>>, c: seq<Event<D>>, b: nat)
    requires |a| == |c| && b < |a| && a[b].op.Begin?
    requires forall k :: 0 <= k < |a| && (a[k].gid == a[b].gid || c[k].gid == a[b].gid) ==> a[k] == c[k]
    ensures b in After(a).captures && b in After(c).captures && After(a).captures[b] == After(c).captures[b]
  {
    EachCaptureIsItsOwn(a, b);
    EachCaptureIsItsOwn(c, b);
    SameWritten(a, c, b);
  }

  lemma {:induction false} SameWritten<D>(a: seq<Event<D>>, c: seq<Event<D>>, b: nat)
    requires |a| == |c| && b < |a| && a[b].op.Begin?
    requires forall k :: 0 <= k < |a| && (a[k].gid == a[b].gid || c[k].gid == a[b].gid) ==> a[k] == c[k]
    ensures Written(a, b, Stdout) == Written(c, b, Stdout) && Written(a, b, Stderr) == Written(c, b, Stderr)
    ensures Fetched(a, b) == Fetched(c, b)
    decreases |a|
  {
    if |a| > b + 1 {
      var n := |a| - 1;
      SameWritten(a[..n], c[..n], b);
      assert Belongs(a, b, n) <==> Belongs(c, b, n);
    }
  }
}
