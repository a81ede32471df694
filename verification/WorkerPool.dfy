/** enginepool.Pool: workers move between a channel, the requests being served and Close. */
module WorkerPool {
  import opened Common

  /** A Close call: how many workers it has taken, and whether it has returned. */
  datatype Closer = Closer(taken: nat, returned: bool)

  datatype State = State(
    capacity: nat,         // of the channel: the size NewPool was given
    idle: seq<nat>,        // the channel, oldest first
    serving: seq<nat>,     // the worker each request in flight holds
    closed: seq<nat>,      // workers shut down, in order
    size: nat,             // Pool.size
    closers: seq<Closer>)

  datatype Step =
    | Checkout
    | Return(i: nat)       // the deferred send of the i-th request in flight
    | BeginClose
    | CloseTake(c: nat)
    | CloseReturn(c: nat)

  function Ids(n: nat): (s: seq<nat>) { seq(n, i => i) }

  /** NewPool after warming `size` workers. */
  function Warmed(size: nat): State {
    State(size, Ids(size), [], [], size, [])
  }

  predicate Enabled(s: State, step: Step) {
    match step
    case Checkout => s.idle != []
    case Return(i) => i < |s.serving| && |s.idle| < s.capacity
    case BeginClose => true
    case CloseTake(c) =>
      c < |s.closers| && !s.closers[c].returned && s.closers[c].taken < s.size && s.idle != []
    case CloseReturn(c) => c < |s.closers| && !s.closers[c].returned && s.closers[c].taken >= s.size
  }

  function Apply(s: State, step: Step): State
    requires Enabled(s, step)
  {
    match step
    case Checkout => s.(idle := s.idle[1..], serving := s.serving + [s.idle[0]])
    case Return(i) => s.(idle := s.idle + [s.serving[i]], serving := s.serving[..i] + s.serving[i + 1..])
    case BeginClose => s.(closers := s.closers + [Closer(0, false)])
    case CloseTake(c) =>
      s.(idle := s.idle[1..], closed := s.closed + [s.idle[0]],
         closers := s.closers[c := Closer(s.closers[c].taken + 1, false)])
    case CloseReturn(c) =>
      s.(size := 0, closers := s.closers[c := Closer(s.closers[c].taken, true)])
  }

  function Taken(cs: seq<Closer>): nat {
    if cs == [] then 0 else cs[0].taken + Taken(cs[1..])
  }

  lemma {:induction false} TakenReplace(cs: seq<Closer>, c: nat, x: Closer)
    requires c < |cs|
    ensures Taken(cs[c := x]) == Taken(cs) - cs[c].taken + x.taken
    ensures Taken(cs) >= cs[c].taken
    ensures forall d :: 0 <= d < |cs| && d != c ==> Taken(cs) >= cs[c].taken + cs[d].taken
  {
    if c == 0 {
      assert cs[c := x][1..] == cs[1..];
      forall d | 0 < d < |cs| ensures Taken(cs) >= cs[0].taken + cs[d].taken {
        TakenReplace(cs[1..], d - 1, x);
      }
    } else {
      assert cs[c := x][1..] == cs[1..][c - 1 := x];
      TakenReplace(cs[1..], c - 1, x);
    }
  }

  lemma {:induction false} TakenAppend(cs: seq<Closer>, x: Closer)
    ensures Taken(cs + [x]) == Taken(cs) + x.taken
  {
    if cs == [] {
      assert cs + [x] == [x];
    } else {
      assert (cs + [x])[1..] == cs[1..] + [x];
      TakenAppend(cs[1..], x);
    }
  }

  /** Every worker is in exactly one place, exactly once. */
  ghost predicate Conserved(s: State) {
    multiset(s.idle) + multiset(s.serving) + multiset(s.closed) == multiset(Ids(s.capacity))
  }

  ghost predicate Inv(s: State) {
    && Conserved(s)
    && |s.closed| == Taken(s.closers)
    && (s.size == s.capacity || (s.size == 0 && |s.closed| == s.capacity))
    && (forall c :: 0 <= c < |s.closers| && s.closers[c].returned ==>
          s.size == 0 || s.capacity == 0)
  }

  lemma {:induction false} Counting(s: State)
    requires Conserved(s)
    ensures |s.idle| + |s.serving| + |s.closed| == s.capacity
  {
    assert |multiset(s.idle)| == |s.idle| && |multiset(s.serving)| == |s.serving| && |multiset(s.closed)| == |s.closed|;
    assert |multiset(s.idle) + multiset(s.serving) + multiset(s.closed)| == |s.idle| + |s.serving| + |s.closed|;
    assert |multiset(Ids(s.capacity))| == s.capacity;
  }

  lemma {:induction false} Regroup(a: multiset<nat>, b: multiset<nat>,
                                   c: multiset<nat>, a': multiset<nat>, b': multiset<nat>)
    requires a' + b' == a + b
    ensures a' + b' + c == a + b + c && b' + a' + c == b + a + c
    ensures a' + c + b' == a + c + b
  {
    assert b' + a' == a' + b' && b + a == a + b;
    assert a' + c + b' == a' + b' + c && a + c + b == a + b + c;
  }

  lemma {:induction false} MoveAt(from: seq<nat>, i: nat, to: seq<nat>)
    requires i < |from|
    ensures multiset(from[..i] + from[i + 1..]) + multiset(to + [from[i]]) == multiset(from) + multiset(to)
  {
    assert from == from[..i] + [from[i]] + from[i + 1..];
  }

  lemma {:induction false} MoveHead(from: seq<nat>, to: seq<nat>)
    requires from != []
    ensures multiset(from[1..]) + multiset(to + [from[0]]) == multiset(from) + multiset(to)
  {
    assert from == [from[0]] + from[1..];
  }

  lemma {:induction false} MovesConserve(s: State, step: Step)
    requires Conserved(s) && Enabled(s, step)
    ensures Conserved(Apply(s, step))
  {
    var s' := Apply(s, step);
    var idle, serving, closed := multiset(s.idle), multiset(s.serving), multiset(s.closed);
    match step
    case Checkout =>
      MoveHead(s.idle, s.serving);
      Regroup(idle, serving, closed, multiset(s'.idle), multiset(s'.serving));
    case Return(i) =>
      MoveAt(s.serving, i, s.idle);
      Regroup(serving, idle, closed, multiset(s'.serving), multiset(s'.idle));
    case CloseTake(c) =>
      MoveHead(s.idle, s.closed);
      Regroup(idle, closed, serving, multiset(s'.idle), multiset(s'.closed));
    case BeginClose =>
    case CloseReturn(c) =>
  }

  lemma {:induction false} StepKeepsInv(s: State, step: Step)
    requires Inv(s) && Enabled(s, step)
    ensures Inv(Apply(s, step))
  {
    var s' := Apply(s, step);
    MovesConserve(s, step);
    Counting(s);
    Counting(s');
    match step
    case BeginClose => TakenAppend(s.closers, Closer(0, false));
    case CloseTake(c) => TakenReplace(s.closers, c, s'.closers[c]);
    case CloseReturn(c) => TakenReplace(s.closers, c, s'.closers[c]);
    case _ =>
  }

  ghost function Run(s: State, steps: seq<Step>): (r: Option<State>)
    requires Inv(s)
    ensures r.Some? ==> Inv(r.value) && r.value.capacity == s.capacity
    decreases |steps|
  {
    if steps == [] then Some(s)
    else if !Enabled(s, steps[0]) then None
    else
      StepKeepsInv(s, steps[0]);
      Run(Apply(s, steps[0]), steps[1..])
  }

  ghost predicate Reachable(size: nat, s: State) {
    exists steps :: Inv(Warmed(size)) && Run(Warmed(size), steps) == Some(s)
  }

  lemma {:induction false} IdsAreDistinct(n: nat, w: nat)
    ensures multiset(Ids(n))[w] == if w < n then 1 else 0
  {
    if n > 0 {
      assert Ids(n) == Ids(n - 1) + [n - 1];
      IdsAreDistinct(n - 1, w);
    }
  }

  /** In every reachable state each of the original workers is idle, serving one request, or
      shut down, and only one of these; so no worker serves two requests, and none is shut down
      twice or while it serves. */
  lemma {:induction false} EachWorkerOnce(size: nat, s: State, w: nat)
    requires Reachable(size, s)
    ensures multiset(s.idle)[w] + multiset(s.serving)[w] + multiset(s.closed)[w] == if w < size then 1 else 0
    ensures |s.idle| + |s.serving| + |s.closed| == size
  {
    Counting(s);
    IdsAreDistinct(size, w);
  }

  /** Returning a worker never blocks: while a request holds one, the channel has room. */
  lemma {:induction false} ReturnNeverBlocks(size: nat, s: State, i: nat)
    requires Reachable(size, s) && i < |s.serving|
    ensures Enabled(s, Return(i))
  {
    Counting(s);
  }

  /** When the first Close returns, every worker has been shut down exactly once and no request
      holds one. */
  lemma {:induction false} CloseReclaimsAll(size: nat, s: State, c: nat)
    requires Reachable(size, s) && Enabled(s, CloseReturn(c)) && s.size == size
    ensures |s.closers| == 1 ==> s.closers[c].taken == size
    ensures s.serving == [] && s.idle == []
    ensures forall w: nat :: multiset(s.closed)[w] == if w < size then 1 else 0
  {
    Counting(s);
    TakenReplace(s.closers, c, s.closers[c]);
    forall w: nat ensures multiset(s.closed)[w] == if w < size then 1 else 0 {
      EachWorkerOnce(size, s, w);
    }
  }

  /** A Close is never stuck on its own: as long as it wants a worker there is an idle one, or a
      request in flight whose return makes one idle. */
  lemma {:induction false} SingleCloseProgresses(size: nat, s: State, c: nat)
    requires Reachable(size, s) && |s.closers| == 1 && c == 0 && !s.closers[c].returned
    ensures Enabled(s, CloseReturn(c)) || Enabled(s, CloseTake(c)) || s.serving != []
  {
    Counting(s);
    assert Taken(s.closers) == s.closers[0].taken + Taken(s.closers[1..]);
  }

  /** Two Close calls that have each taken a worker while Pool.size is unchanged can never
      return, neither now nor in any later state: the pool must be closed by one caller. */
  lemma {:induction false} OverlappingClosesHang(size: nat, s: State, c: nat, d: nat, steps: seq<Step>, s': State)
    requires Inv(s) && s.capacity == size && s.size == size && Run(s, steps) == Some(s')
    requires c < |s.closers| && d < |s.closers| && c != d
    requires s.closers[c].taken > 0 && s.closers[d].taken > 0
    requires forall x :: 0 <= x < |s.closers| ==> !s.closers[x].returned
    ensures s'.size == size && forall x :: 0 <= x < |s'.closers| ==> !s'.closers[x].returned
    decreases |steps|
  {
    if steps != [] {
      StepKeepsInv(s, steps[0]);
      HangStep(s, c, d, steps[0]);
      OverlappingClosesHang(size, Apply(s, steps[0]), c, d, steps[1..], s');
    }
  }

  /** Neither has all the workers, so neither returns. */
  lemma {:induction false} HangStep(s: State, c: nat, d: nat, step: Step)
    requires Inv(s) && s.capacity == s.size && Enabled(s, step)
    requires c < |s.closers| && d < |s.closers| && c != d
    requires s.closers[c].taken > 0 && s.closers[d].taken > 0
    requires forall x :: 0 <= x < |s.closers| ==> !s.closers[x].returned
    ensures var next := Apply(s, step);
      && next.size == s.size && next.capacity == s.capacity && |next.closers| >= |s.closers|
      && next.closers[c].taken > 0 && next.closers[d].taken > 0
      && forall x :: 0 <= x < |next.closers| ==> !next.closers[x].returned
  {
    Counting(s);
    if step.CloseReturn? { TakenReplace(s.closers, step.c, s.closers[step.c]); }
  }

  lemma {:induction false} StepKeepsClosed(s: State, step: Step)
    requires Enabled(s, step) && (HasReturned(s) <==> s.size == 0) && s.capacity > 0
    ensures HasReturned(Apply(s, step)) <==> Apply(s, step).size == 0
  {
    var t := Apply(s, step);
    if c :| 0 <= c < |s.closers| && s.closers[c].returned {
      assert t.closers[c].returned;
    }
    if step.CloseReturn? { assert t.closers[step.c].returned; }
  }

  lemma {:induction false} RunKeepsClosed(s: State, steps: seq<Step>, s': State)
    requires Inv(s) && Run(s, steps) == Some(s') && (HasReturned(s) <==> s.size == 0) && s.capacity > 0
    ensures HasReturned(s') <==> s'.size == 0
    decreases |steps|
  {
    if steps != [] {
      StepKeepsInv(s, steps[0]);
      StepKeepsClosed(s, steps[0]);
      RunKeepsClosed(Apply(s, steps[0]), steps[1..], s');
    }
  }

  /** Once a Close has returned, any other returns without waiting for a worker. */
  lemma {:induction false} ClosedPoolCloses(size: nat, s: State, c: nat)
    requires Reachable(size, s) && size > 0 && HasReturned(s)
    ensures s.size == 0 && (c < |s.closers| && !s.closers[c].returned ==> Enabled(s, CloseReturn(c)))
  {
    var steps :| Inv(Warmed(size)) && Run(Warmed(size), steps) == Some(s);
    RunKeepsClosed(Warmed(size), steps, s);
  }

  // ---- Exactly when some Close can return ----

  /** At most one Close call has taken workers so far. */
  ghost predicate OneTaker(s: State) {
    forall c, d :: 0 <= c < |s.closers| && 0 <= d < |s.closers| && c != d ==>
      s.closers[c].taken == 0 || s.closers[d].taken == 0
  }

  /** Some continuation lets a Close call return. */
  ghost predicate CanReturn(s: State)
    requires Inv(s)
  {
    exists steps, s' :: Run(s, steps) == Some(s') && HasReturned(s')
  }

  ghost predicate HasReturned(s: State) {
    exists c :: 0 <= c < |s.closers| && s.closers[c].returned
  }

  lemma {:induction false} NobodyTook(cs: seq<Closer>)
    requires forall c :: 0 <= c < |cs| ==> cs[c].taken == 0
    ensures Taken(cs) == 0
  {
    if cs != [] { NobodyTook(cs[1..]); }
  }

  /** With one taker its workers are all that are shut down. */
  lemma {:induction false} OnlyTaker(cs: seq<Closer>, c: nat)
    requires c < |cs| && forall d :: 0 <= d < |cs| && d != c ==> cs[d].taken == 0
    ensures Taken(cs) == cs[c].taken
  {
    if c == 0 {
      NobodyTook(cs[1..]);
    } else {
      OnlyTaker(cs[1..], c - 1);
    }
  }

  lemma {:induction false} RunCons(s: State, step: Step, steps: seq<Step>)
    requires Inv(s) && Enabled(s, step)
    ensures Inv(Apply(s, step)) && Run(s, [step] + steps) == Run(Apply(s, step), steps)
  {
    StepKeepsInv(s, step);
    assert ([step] + steps)[1..] == steps;
  }

  /** Requests give their workers back, the taker takes them all, and returns. */
  lemma {:induction false} TakerFinishes(s: State, c: nat) returns (steps: seq<Step>, s': State)
    requires Inv(s) && s.size == s.capacity && c < |s.closers| && !s.closers[c].returned
    requires Taken(s.closers) == s.closers[c].taken
    ensures Run(s, steps) == Some(s') && c < |s'.closers| && s'.closers[c].returned
    decreases s.capacity - s.closers[c].taken, |s.serving|
  {
    Counting(s);
    var step := if s.closers[c].taken == s.size then CloseReturn(c)
                else if s.serving != [] then Return(0) else CloseTake(c);
    var next := Apply(s, step);
    StepKeepsInv(s, step);
    if step.CloseReturn? {
      steps, s' := [step], next;
      RunCons(s, step, []);
      assert [step] + [] == [step];
    } else {
      if step.CloseTake? { TakenReplace(s.closers, c, next.closers[c]); }
      var rest, last := TakerFinishes(next, c);
      RunCons(s, step, rest);
      steps, s' := [step] + rest, last;
    }
  }

  /** In a reachable state with Close calls begun and none returned, some continuation lets one of
      them return if and only if at most one of them has taken a worker. */
  lemma {:induction false} CanReturnIffOneTaker(size: nat, s: State)
    requires Reachable(size, s) && s.size == size > 0 && s.closers != []
    ensures Inv(s) && (CanReturn(s) <==> OneTaker(s))
  {
    if OneTaker(s) {
      var c := 0;
      if d :| 0 <= d < |s.closers| && s.closers[d].taken > 0 { c := d; }
      OnlyTaker(s.closers, c);
      var steps, s' := TakerFinishes(s, c);
      assert HasReturned(s');
    } else {
      var c, d :| 0 <= c < |s.closers| && 0 <= d < |s.closers| && c != d
                  && s.closers[c].taken > 0 && s.closers[d].taken > 0;
      forall steps, s' | Run(s, steps) == Some(s') ensures !HasReturned(s') {
        OverlappingClosesHang(size, s, c, d, steps, s');
      }
    }
  }

  lemma {:induction false} BothTake(s: State) returns (t: State)
    requires Inv(s) && |s.idle| >= 2 && s.size >= 2
    requires s.closers == [Closer(0, false), Closer(0, false)]
    ensures Run(s, [CloseTake(0)] + ([CloseTake(1)] + [])) == Some(t)
    ensures t.size == s.size && t.closers == [Closer(1, false), Closer(1, false)]
  {
    var m := Apply(s, CloseTake(0));
    RunCons(s, CloseTake(0), [CloseTake(1)] + []);
    RunCons(m, CloseTake(1), []);
    t := Apply(m, CloseTake(1));
  }

  lemma {:induction false} BothBegin(s: State) returns (t: State)
    requires Inv(s) && s.closers == []
    ensures Inv(t) && t == s.(closers := [Closer(0, false), Closer(0, false)])
    ensures forall steps :: Run(s, [BeginClose] + ([BeginClose] + steps)) == Run(t, steps)
  {
    var m := Apply(s, BeginClose);
    RunCons(s, BeginClose, []);
    RunCons(m, BeginClose, []);
    t := Apply(m, BeginClose);
    forall steps ensures Run(s, [BeginClose] + ([BeginClose] + steps)) == Run(t, steps) {
      RunCons(s, BeginClose, [BeginClose] + steps);
      RunCons(m, BeginClose, steps);
    }
  }

  /** A pool of two or more workers can get into the state in which no Close call returns. */
  lemma {:induction false} HangIsReachable(size: nat) returns (s: State)
    requires size >= 2
    ensures Reachable(size, s) && s.size == size && s.closers != [] && !CanReturn(s)
  {
    var warmed := Warmed(size);
    assert multiset(warmed.idle) + multiset(warmed.serving) + multiset(warmed.closed) == multiset(Ids(size));
    var begun := BothBegin(warmed);
    s := BothTake(begun);
    var steps := [CloseTake(0)] + ([CloseTake(1)] + []);
    assert Run(warmed, [BeginClose] + ([BeginClose] + steps)) == Some(s);
    CanReturnIffOneTaker(size, s);
    assert s.closers[0].taken == 1 && s.closers[1].taken == 1;
  }

  // ---- NewPool and Close as loops ----

  /** A worker as far as its shutdown is concerned. */
  class Worker {
    var closes: nat
    constructor ()
      ensures closes == 0
    {
      closes := 0;
    }

    method Close()
      modifies this
      ensures closes == old(closes) + 1
    {
      closes := closes + 1;
    }
  }

  /** NewPool's warming: warms[i] says whether the i-th newWorker succeeds. On a failure every
      worker created so far is closed, and none survives. */
  method NewPool(warms: seq<bool>) returns (created: seq<Worker>, ok: bool)
    ensures ok <==> forall i :: 0 <= i < |warms| ==> warms[i]
    ensures forall i :: 0 <= i < |created| ==> fresh(created[i]) && created[i].closes == if ok then 0 else 1
    ensures forall i, j :: 0 <= i < j < |created| ==> created[i] != created[j]
    ensures ok ==> |created| == |warms|
    ensures !ok ==> |created| < |warms| && !warms[|created|] && forall i :: 0 <= i < |created| ==> warms[i]
  {
    created := [];
    for i := 0 to |warms|
      invariant |created| == i && forall j :: 0 <= j < i ==> warms[j]
      invariant forall j :: 0 <= j < i ==> fresh(created[j]) && created[j].closes == 0
      invariant forall j, k :: 0 <= j < k < i ==> created[j] != created[k]
    {
      if !warms[i] {
        for k := 0 to |created|
          invariant forall j :: 0 <= j < |created| ==> fresh(created[j]) && created[j].closes == if j < k then 1 else 0
        {
          created[k].Close();
        }
        return created, false;
      }
      var w := new Worker();
      created := created + [w];
    }
    ok := true;
  }

  class Pool {
    var workers: seq<Worker>  // the channel
    var size: nat

    constructor (workers: seq<Worker>)
      ensures this.workers == workers && size == |workers|
    {
      this.workers, size := workers, |workers|;
    }

    /** Close once every worker is back in the channel. */
    method Close()
      requires |workers| == size
      requires forall i, j :: 0 <= i < j < |workers| ==> workers[i] != workers[j]
      modifies this, workers
      ensures workers == [] && size == 0
      ensures forall i :: 0 <= i < |old(workers)| ==> old(workers)[i].closes == old(workers[i].closes) + 1
    {
      var i := 0;
      ghost var all := workers;
      while i < size
        modifies this`workers, all
        invariant 0 <= i <= size == |all| && workers == all[i..]
        invariant forall j :: 0 <= j < |all| ==> all[j].closes == old(all[j].closes) + if j < i then 1 else 0
      {
        var w := workers[0];
        assert w == all[i];
        workers := workers[1..];
        w.Close();
        i := i + 1;
      }
      size := 0;
    }
  }
}
