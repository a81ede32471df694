/** What every run of the pool manager satisfies: the life of each managed pool, and the
    recency theorem for its capped table. */
module ManagerRuns {
  import opened Common
  import opened PoolTable
  import opened Manager

  ghost function Run(cfg: Config, s: State, steps: seq<Step>): (r: Option<State>)
    requires Inv(cfg, s)
    ensures r.Some? ==> Inv(cfg, r.value)
    decreases |steps|
  {
    if steps == [] then Some(s)
    else if !Enabled(cfg, s, steps[0]) then None
    else
      StepKeepsInv(cfg, s, steps[0]);
      Run(cfg, Apply(cfg, s, steps[0]), steps[1..])
  }

  ghost predicate Reachable(cfg: Config, s: State) {
    InitInv(cfg);
    exists steps :: Run(cfg, INIT, steps) == Some(s)
  }

  lemma {:induction false} ReachableInv(cfg: Config, s: State)
    requires Reachable(cfg, s)
    ensures Inv(cfg, s)
  {
    InitInv(cfg);
    var steps :| Run(cfg, INIT, steps) == Some(s);
  }

  lemma {:induction false} ReportsAreOwned(ts: seq<Thread>, mp: nat)
    ensures Count(ts, HasReported, mp) <= Count(ts, HasClosed, mp) <= Count(ts, Owns, mp)
  {
    if ts != [] { ReportsAreOwned(ts[..|ts| - 1], mp); }
  }

  /** Every incarnation of a pool, in every reachable state: built at most once, closed at most
      once and only after its build and after leaving the map; if its build produced a pool it
      is either tracked or has exactly one closer; the hook is called at most once, and only
      for a pool the cap evicted. */
  lemma {:induction false} PoolLife(cfg: Config, s: State, mp: nat)
    requires Reachable(cfg, s) && mp < |s.outcomes|
    ensures s.history[Built(mp)] <= 1 && (Ready(s, mp) <==> s.history[Built(mp)] == 1)
    ensures s.history[CloseCalled(mp)] <= 1
    ensures s.history[CloseCalled(mp)] == 1 ==>
              Ready(s, mp) && s.outcomes[mp].value.pool && !Tracked(s.table, mp)
    ensures Ready(s, mp) && s.outcomes[mp].value.pool ==>
              One(Tracked(s.table, mp)) + Count(s.threads, Owns, mp) == 1
    ensures s.history[HookCalled(mp)] <= s.history[EvictedBy(mp)] <= 1
    ensures s.history[EvictedBy(mp)] == 1 ==> !Tracked(s.table, mp)
  {
    ReachableInv(cfg, s);
    assert LifeOk(s, mp);
    ReportsAreOwned(s.threads, mp);
    if !Tracked(s.table, mp) {
      var t := CountWitness(s.threads, Owns, mp);
      assert ThreadOk(s, s.threads[t]);
      if s.history[HookCalled(mp)] > 0 {
        var u := CountWitness(s.threads, HasReported, mp);
        assert ThreadOk(s, s.threads[u]);
      }
    }
  }

  predicate FromOutside(step: Step) {
    step.Call? || step.Invalidate? || step.BeginShutdown?
  }

  /** Nothing the manager started is still to be done. */
  ghost predicate Quiescent(cfg: Config, s: State) {
    forall step :: Enabled(cfg, s, step) ==> FromOutside(step)
  }

  lemma {:induction false} NotQuiescentWhileBuilding(cfg: Config, s: State, t: nat)
    requires t < |s.threads| && s.threads[t].Building? && s.threads[t].mp < |s.outcomes|
    ensures !Quiescent(cfg, s)
  {
    var step := FinishBuild(t, Outcome(true, None));
    assert Enabled(cfg, s, step) && !FromOutside(step);
  }

  lemma {:induction false} QuiescentIsBuilt(cfg: Config, s: State, mp: nat)
    requires Inv(cfg, s) && Quiescent(cfg, s) && mp < |s.outcomes|
    ensures Ready(s, mp)
  {
    assert LifeOk(s, mp);
    if !Ready(s, mp) {
      var t := CountWitness(s.threads, Builds, mp);
      NotQuiescentWhileBuilding(cfg, s, t);
    }
  }

  lemma {:induction false} QuiescentOwner(cfg: Config, s: State, mp: nat) returns (t: nat)
    requires Inv(cfg, s) && Quiescent(cfg, s) && mp < |s.outcomes| && !Tracked(s.table, mp)
    ensures t < |s.threads| && Plays(s.threads[t], Owns, mp) == 1 && Plays(s.threads[t], HasClosed, mp) == 1
    ensures cfg.hook && s.threads[t].Evictor? ==> Plays(s.threads[t], HasReported, mp) == 1
  {
    assert LifeOk(s, mp);
    t := CountWitness(s.threads, Owns, mp);
    QuiescentIsBuilt(cfg, s, mp);
    assert !Enabled(cfg, s, CallPoolClose(t)) && !Enabled(cfg, s, PoolCloseReturns(t));
    assert !Enabled(cfg, s, CallHook(t)) && !Enabled(cfg, s, ShutdownNext(t, mp));
  }

  /** No goroutine is stuck and nothing leaks: when only new requests could still move the
      manager, every build has finished, every untracked pool has been closed exactly once,
      and the hook has been called once for each eviction and for nothing else. */
  lemma {:induction false} NothingLeaks(cfg: Config, s: State, mp: nat)
    requires Reachable(cfg, s) && Quiescent(cfg, s) && mp < |s.outcomes|
    ensures s.history[Built(mp)] == 1 && Ready(s, mp)
    ensures s.history[CloseCalled(mp)] == One(s.outcomes[mp].value.pool && !Tracked(s.table, mp))
    ensures s.history[HookCalled(mp)] == if cfg.hook then s.history[EvictedBy(mp)] else 0
  {
    ReachableInv(cfg, s);
    assert LifeOk(s, mp);
    PoolLife(cfg, s, mp);
    ReportsAreOwned(s.threads, mp);
    QuiescentIsBuilt(cfg, s, mp);
    if s.history[HookCalled(mp)] > 0 {
      assert HookCalled(mp) in s.history;
    }
    if !Tracked(s.table, mp) {
      var t := QuiescentOwner(cfg, s, mp);
      assert ThreadOk(s, s.threads[t]);
      CountReplace(s.threads, t, s.threads[t], HasClosed, mp);
      CountReplace(s.threads, t, s.threads[t], HasReported, mp);
    }
  }

  // ---- The hook comes after the close ----

  /** A goroutine that closes one managed pool has got past the call of Close. */
  predicate PastClose(th: Thread) {
    (th.Evictor? || th.Invalidator?) && th.phase in {Closed, Reported}
  }

  predicate InClose(th: Thread) {
    (th.Evictor? || th.Invalidator?) && th.phase.Closing?
  }

  /** Among these steps is the return from the Close of goroutine t. */
  predicate CloseReturned(steps: seq<Step>, t: nat) { PoolCloseReturns(t) in steps }

  /** What one step may do to goroutine t, as far as its closing goes. */
  ghost predicate ClosingStep(s: State, step: Step, s': State, t: nat)
    requires t < |s'.threads|
  {
    var th, known := s'.threads[t], t < |s.threads|;
    && (PastClose(th) && Ready(s', th.mp) && s'.outcomes[th.mp].value.pool ==>
          || step == PoolCloseReturns(t)
          || (known && PastClose(s.threads[t]) && s.threads[t].mp == th.mp))
    && (InClose(th) && !(known && InClose(s.threads[t])) ==>
          step == CallPoolClose(t) && Ready(s', th.mp) && s'.outcomes[th.mp].value.pool)
    && (known && InClose(th) && InClose(s.threads[t]) ==> s.threads[t].mp == th.mp)
  }

  lemma {:induction false} NewThreadsClose(cfg: Config, s: State, step: Step, t: nat)
    requires Inv(cfg, s) && Enabled(cfg, s, step) && |s.threads| <= t < |Apply(cfg, s, step).threads|
    ensures !PastClose(Apply(cfg, s, step).threads[t]) && !InClose(Apply(cfg, s, step).threads[t])
  {
  }

  predicate Moves(step: Step, t: nat) {
    match step
    case FinishBuild(u, _) => u == t
    case Select(u, _) => u == t
    case CallPoolClose(u) => u == t
    case PoolCloseReturns(u) => u == t
    case CallHook(u) => u == t
    case ShutdownNext(u, _) => u == t
    case _ => false
  }

  lemma {:induction false} OthersStay(cfg: Config, s: State, step: Step, t: nat)
    requires Inv(cfg, s) && Enabled(cfg, s, step) && t < |s.threads| && !Moves(step, t)
    ensures t < |Apply(cfg, s, step).threads| && Apply(cfg, s, step).threads[t] == s.threads[t]
  {
  }

  lemma {:induction false} MovedCloses(cfg: Config, s: State, step: Step, t: nat)
    requires Inv(cfg, s) && Enabled(cfg, s, step) && t < |s.threads| && Moves(step, t)
    ensures t < |Apply(cfg, s, step).threads| && ClosingStep(s, step, Apply(cfg, s, step), t)
  {
  }

  lemma {:induction false} StepPastClose(cfg: Config, s: State, step: Step, t: nat)
    requires Inv(cfg, s) && Enabled(cfg, s, step) && t < |Apply(cfg, s, step).threads|
    ensures ClosingStep(s, step, Apply(cfg, s, step), t)
  {
    if t >= |s.threads| {
      NewThreadsClose(cfg, s, step, t);
    } else if Moves(step, t) {
      MovedCloses(cfg, s, step, t);
    } else {
      OthersStay(cfg, s, step, t);
    }
  }

  lemma {:induction false} PastCloseIsReady(cfg: Config, s: State, t: nat)
    requires Inv(cfg, s) && t < |s.threads| && (PastClose(s.threads[t]) || InClose(s.threads[t]))
    ensures Ready(s, s.threads[t].mp)
  {
    assert ThreadOk(s, s.threads[t]);
    CountReplace(s.threads, t, s.threads[t], HasClosed, s.threads[t].mp);
    assert LifeOk(s, s.threads[t].mp);
  }

  lemma {:induction false} RunPastClose(cfg: Config, s: State, steps: seq<Step>, s': State, t: nat)
    requires Inv(cfg, s) && Run(cfg, s, steps) == Some(s') && t < |s'.threads| && PastClose(s'.threads[t])
    requires Ready(s', s'.threads[t].mp) && s'.outcomes[s'.threads[t].mp].value.pool
    ensures CloseReturned(steps, t)
            || (t < |s.threads| && PastClose(s.threads[t]) && s.threads[t].mp == s'.threads[t].mp)
    decreases |steps|
  {
    if steps != [] {
      var next := Apply(cfg, s, steps[0]);
      StepKeepsInv(cfg, s, steps[0]);
      RunPastClose(cfg, next, steps[1..], s', t);
      if !CloseReturned(steps[1..], t) {
        PastCloseIsReady(cfg, next, t);
        OutcomeIsFinal(cfg, next, steps[1..], s', next.threads[t].mp);
        StepPastClose(cfg, s, steps[0], t);
      }
    }
  }

  /** In every run the eviction hook is called for a pool that was built only once its Close has
      returned. */
  lemma {:induction false} HookAfterClose(cfg: Config, steps: seq<Step>, s: State, t: nat)
    requires Inv(cfg, INIT) && Run(cfg, INIT, steps) == Some(s) && Enabled(cfg, s, CallHook(t))
    ensures Ready(s, s.threads[t].mp)
    ensures s.outcomes[s.threads[t].mp].value.pool ==> CloseReturned(steps, t)
  {
    PastCloseIsReady(cfg, s, t);
    if s.outcomes[s.threads[t].mp].value.pool {
      RunPastClose(cfg, INIT, steps, s, t);
    }
  }

  lemma {:induction false} RunInClose(cfg: Config, s: State, steps: seq<Step>, s': State, t: nat)
    requires Inv(cfg, s) && Run(cfg, s, steps) == Some(s') && t < |s'.threads| && InClose(s'.threads[t])
    requires t < |s.threads| && InClose(s.threads[t]) ==>
               Ready(s, s.threads[t].mp) && s.outcomes[s.threads[t].mp].value.pool
    ensures Ready(s', s'.threads[t].mp) && s'.outcomes[s'.threads[t].mp].value.pool
    decreases |steps|
  {
    if steps != [] {
      var next := Apply(cfg, s, steps[0]);
      StepKeepsInv(cfg, s, steps[0]);
      if t < |next.threads| {
        StepPastClose(cfg, s, steps[0], t);
        if t < |s.threads| && InClose(s.threads[t]) && InClose(next.threads[t]) {
          OneStepIsFinal(cfg, s, steps[0], s.threads[t].mp);
        }
      }
      RunInClose(cfg, next, steps[1..], s', t);
    }
  }

  lemma {:induction false} OneStepIsFinal(cfg: Config, s: State, step: Step, mp: nat)
    requires Inv(cfg, s) && Enabled(cfg, s, step) && Ready(s, mp)
    ensures Ready(Apply(cfg, s, step), mp) && Apply(cfg, s, step).outcomes[mp] == s.outcomes[mp]
  {
    if step.FinishBuild? { FinishBuildKeepsInv(cfg, s, step.t, step.outcome); }
  }

  /** Close is called only on a pool that was built. */
  lemma {:induction false} OnlyBuiltIsClosed(cfg: Config, steps: seq<Step>, s: State, t: nat)
    requires Inv(cfg, INIT) && Run(cfg, INIT, steps) == Some(s) && Enabled(cfg, s, PoolCloseReturns(t))
    ensures Ready(s, s.threads[t].mp) && s.outcomes[s.threads[t].mp].value.pool
  {
    RunInClose(cfg, INIT, steps, s, t);
  }

  // ---- Answers ----

  /** A finished build is never redone or changed: its outcome, error or pool, is what every
      later step still sees. */
  lemma {:induction false} OutcomeIsFinal(cfg: Config, s: State, steps: seq<Step>, s': State, mp: nat)
    requires Inv(cfg, s) && Run(cfg, s, steps) == Some(s') && Ready(s, mp)
    ensures Ready(s', mp) && s'.outcomes[mp] == s.outcomes[mp]
    decreases |steps|
  {
    if steps != [] {
      var next := Apply(cfg, s, steps[0]);
      StepKeepsInv(cfg, s, steps[0]);
      if steps[0].FinishBuild? { FinishBuildKeepsInv(cfg, s, steps[0].t, steps[0].outcome); }
      OutcomeIsFinal(cfg, next, steps[1..], s', mp);
    }
  }

  /** A HandlerFor call stays with its incarnation, whose key never changes. */
  lemma {:induction false} StepKeepsCaller(cfg: Config, s: State, step: Step, t: nat)
    requires Inv(cfg, s) && Enabled(cfg, s, step) && t < |s.threads| && Serves(s.threads[t]).Some?
    ensures var s' := Apply(cfg, s, step);
      && t < |s'.threads| && Serves(s'.threads[t]) == Serves(s.threads[t]) && s.table.keys <= s'.table.keys
  {
    match step
    case Call(key) => GetKeepsTable(cfg.maxPools, s.table, key);
    case Invalidate(key) => DropKeepsTable(cfg.maxPools, s.table, key);
    case _ =>
  }

  lemma {:induction false} RunKeepsCaller(cfg: Config, s: State, steps: seq<Step>, s': State, t: nat)
    requires Inv(cfg, s) && Run(cfg, s, steps) == Some(s') && t < |s.threads| && Serves(s.threads[t]).Some?
    ensures t < |s'.threads| && Serves(s'.threads[t]) == Serves(s.threads[t]) && s.table.keys <= s'.table.keys
    decreases |steps|
  {
    if steps != [] {
      StepKeepsInv(cfg, s, steps[0]);
      StepKeepsCaller(cfg, s, steps[0], t);
      RunKeepsCaller(cfg, Apply(cfg, s, steps[0]), steps[1..], s', t);
    }
  }

  /** A call joins the incarnation tracked under its key, or starts a new one for that key. */
  lemma {:induction false} CallJoins(cfg: Config, s: State, key: Key)
    requires Inv(cfg, s)
    ensures var s', t := Apply(cfg, s, Call(key)), |s.threads|;
      var mp := if key in s.table.pools then s.table.pools[key] else |s.table.keys|;
      && t < |s'.threads| && Serves(s'.threads[t]) == Some(mp) && mp < |s'.table.keys| && s'.table.keys[mp] == key
  {
    GetKeepsTable(cfg.maxPools, s.table, key);
  }

  /** What HandlerFor returns, whatever else happens before it does: a caller that does not give up
      is answered by the incarnation it joined, one that carries its key and has been built; with
      that incarnation's own pool if the build had no error, and else with the build's error. */
  lemma {:induction false} CallerGetsItsPool(cfg: Config, s: State, key: Key, steps: seq<Step>, s': State)
    requires Reachable(cfg, s) && Inv(cfg, Apply(cfg, s, Call(key)))
    requires Run(cfg, Apply(cfg, s, Call(key)), steps) == Some(s') && |s.threads| < |s'.threads|
    requires s'.threads[|s.threads|].Answered? && s'.threads[|s.threads|].answer != ContextDone
    ensures var mp := s'.threads[|s.threads|].mp;
      && mp == (if key in s.table.pools then s.table.pools[key] else |s.table.keys|)
      && mp < |s'.table.keys| && s'.table.keys[mp] == key
      && mp < |s'.outcomes| && s'.outcomes[mp].Some? && s'.history[Built(mp)] == 1
      && match s'.outcomes[mp].value.err
         case None => s'.threads[|s.threads|].answer == Handler(mp)
         case Some(e) => s'.threads[|s.threads|].answer == BuildError(e)
  {
    ReachableInv(cfg, s);
    var t := |s.threads|;
    CallJoins(cfg, s, key);
    RunKeepsCaller(cfg, Apply(cfg, s, Call(key)), steps, s', t);
    assert ThreadOk(s', s'.threads[t]);
    assert LifeOk(s', s'.threads[t].mp);
  }

  /** All callers that share one incarnation and do not give up get the same answer: the
      handler, or the build's error when it failed. */
  lemma {:induction false} SameAnswer(cfg: Config, s: State, t: nat, u: nat)
    requires Reachable(cfg, s) && t < |s.threads| && u < |s.threads|
    requires s.threads[t].Answered? && s.threads[u].Answered? && s.threads[t].mp == s.threads[u].mp
    requires s.threads[t].answer != ContextDone && s.threads[u].answer != ContextDone
    ensures s.threads[t].answer == s.threads[u].answer
    ensures s.threads[t].answer == AnswerOf(s.threads[t].mp, s.outcomes[s.threads[t].mp].value)
  {
    ReachableInv(cfg, s);
    assert ThreadOk(s, s.threads[t]) && ThreadOk(s, s.threads[u]);
  }

  /** A failed build stays cached: while its entry is tracked, a call for its key starts no new
      build and can only be answered with that error (or give up). */
  lemma {:induction false} FailedBuildStaysCached(cfg: Config, s: State, key: Key, canceled: bool)
    requires Reachable(cfg, s) && key in s.table.pools
    requires Ready(s, s.table.pools[key]) && s.outcomes[s.table.pools[key]].value.err.Some?
    ensures var called := Apply(cfg, s, Call(key)); var t := |s.threads|;
      && called.outcomes == s.outcomes && called.history == s.history
      && Inv(cfg, called) && Enabled(cfg, called, Select(t, canceled))
      && Apply(cfg, called, Select(t, canceled)).threads[t]
         == Answered(s.table.pools[key],
                     if canceled then ContextDone
                     else BuildError(s.outcomes[s.table.pools[key]].value.err.value))
  {
    ReachableInv(cfg, s);
    StepKeepsInv(cfg, s, Call(key));
  }

  // ---- Recency ----

  /** The keys of an access sequence, each once, most recently accessed first. */
  function Recency(accesses: seq<Key>): seq<Key> {
    if accesses == [] then []
    else
      var n := |accesses| - 1;
      [accesses[n]] + Without(Recency(accesses[..n]), accesses[n])
  }

  function LastAccess(accesses: seq<Key>, key: Key): (i: int)
    ensures key in accesses ==> 0 <= i < |accesses| && accesses[i] == key
    ensures key !in accesses ==> i == -1
    ensures forall j :: i < j < |accesses| ==> accesses[j] != key
  {
    if accesses == [] then -1
    else if accesses[|accesses| - 1] == key then |accesses| - 1
    else LastAccess(accesses[..|accesses| - 1], key)
  }

  ghost predicate ByLastAccess(accesses: seq<Key>, s: seq<Key>) {
    forall i, j :: 0 <= i < j < |s| ==> LastAccess(accesses, s[i]) > LastAccess(accesses, s[j])
  }

  lemma {:induction false} ConsOrdered(accesses: seq<Key>, x: Key, s: seq<Key>)
    requires ByLastAccess(accesses, s)
    requires forall y :: y in s ==> LastAccess(accesses, x) > LastAccess(accesses, y)
    ensures ByLastAccess(accesses, [x] + s)
  {
    var r := [x] + s;
    forall i, j | 0 <= i < j < |r| ensures LastAccess(accesses, r[i]) > LastAccess(accesses, r[j]) {
      assert r[j] == s[j - 1] && s[j - 1] in s;
    }
  }

  lemma {:induction false} WithoutOrdered(s: seq<Key>, x: Key, accesses: seq<Key>)
    requires ByLastAccess(accesses, s)
    ensures ByLastAccess(accesses, Without(s, x))
  {
    if s != [] {
      var tail := s[1..];
      assert forall i :: 0 <= i < |tail| ==> tail[i] == s[i + 1];
      WithoutOrdered(tail, x, accesses);
      var r := Without(tail, x);
      forall y | y in r ensures LastAccess(accesses, s[0]) > LastAccess(accesses, y) {
        var k :| 0 <= k < |tail| && tail[k] == y;
        assert s[k + 1] == y;
      }
      ConsOrdered(accesses, s[0], r);
    }
  }

  lemma {:induction false} AccessedNow(before: seq<Key>, last: Key, tail: seq<Key>)
    requires ByLastAccess(before, tail) && last !in tail && forall k :: k in tail ==> k in before
    ensures ByLastAccess(before + [last], [last] + tail)
  {
    var accesses := before + [last];
    assert accesses[..|before|] == before;
    forall k | k in tail ensures LastAccess(accesses, k) == LastAccess(before, k) {}
    forall i, j | 0 <= i < j < |tail| ensures LastAccess(accesses, tail[i]) > LastAccess(accesses, tail[j]) {
      assert tail[i] in tail && tail[j] in tail;
    }
    ConsOrdered(accesses, last, tail);
  }

  /** Recency lists exactly the accessed keys, without repetition, by decreasing time of last
      access. */
  lemma {:induction false} RecencyMeaning(accesses: seq<Key>)
    ensures var r := Recency(accesses);
      && Distinct(r)
      && (forall k :: k in r <==> k in accesses)
      && ByLastAccess(accesses, r)
  {
    if accesses != [] {
      var n := |accesses| - 1;
      var before, last := accesses[..n], accesses[n];
      assert accesses == before + [last];
      RecencyMeaning(before);
      WithoutKeepsDistinct(Recency(before), last);
      WithoutOrdered(Recency(before), last, before);
      AccessedNow(before, last, Without(Recency(before), last));
    }
  }

  function NameOf(keys: seq<Key>, mp: nat): Key {
    if mp < |keys| then keys[mp] else ""
  }

  function Names(keys: seq<Key>, lru: seq<nat>): (ks: seq<Key>)
    ensures |ks| == |lru|
    ensures forall i :: 0 <= i < |ks| ==> ks[i] == NameOf(keys, lru[i])
  {
    if lru == [] then [] else [NameOf(keys, lru[0])] + Names(keys, lru[1..])
  }

  /** The tracked keys, most recently used first. */
  function TrackedKeys(t: Table): seq<Key> {
    Names(t.keys, t.lru)
  }

  lemma {:induction false} FirstCons(n: nat, x: Key, s: seq<Key>)
    requires n > 0
    ensures First(n, [x] + s) == [x] + First(n - 1, s)
  {
  }

  lemma {:induction false} WithoutOfFirst(n: nat, s: seq<Key>, k: Key)
    requires Distinct(s) && n > 0
    ensures First(n - 1, Without(s, k)) ==
              if k in First(n, s) then Without(First(n, s), k) else First(n - 1, s)
  {
    if s != [] {
      var tail := s[1..];
      assert s == [s[0]] + tail;
      assert forall i, j :: 0 <= i < j < |tail| ==> tail[i] == s[i + 1] && tail[j] == s[j + 1];
      FirstCons(n, s[0], tail);
      if s[0] == k {
        assert k !in tail;
        WithoutAbsent(tail, k);
        WithoutAbsent(First(n - 1, tail), k);
      } else if n > 1 {
        WithoutOfFirst(n - 1, tail, k);
        FirstCons(n - 1, s[0], Without(tail, k));
        FirstCons(n - 1, s[0], tail);
        assert k in First(n, s) <==> k in First(n - 1, tail);
      }
    }
  }

  lemma {:induction false} NamesWithout(keys: seq<Key>, lru: seq<nat>, mp: nat)
    requires forall i :: 0 <= i < |lru| && NameOf(keys, lru[i]) == NameOf(keys, mp) ==> lru[i] == mp
    ensures Names(keys, Without(lru, mp)) == Without(Names(keys, lru), NameOf(keys, mp))
  {
    if lru != [] {
      var tail: seq<nat> := lru[1..];
      assert forall i :: 0 <= i < |tail| ==> tail[i] == lru[i + 1];
      NamesWithout(keys, tail, mp);
    }
  }

  lemma {:induction false} HitOnKeys(cap: int, t: Table, key: Key)
    requires Consistent(cap, t) && cap > 0 && key in t.pools
    ensures key in TrackedKeys(t)
    ensures TrackedKeys(Get(cap, t, key).table) == [key] + Without(TrackedKeys(t), key)
  {
    var mp := t.pools[key];
    assert Tracked(t, mp) && mp in t.lru;
    var i :| 0 <= i < |t.lru| && t.lru[i] == mp;
    assert TrackedKeys(t)[i] == key;
    forall j | 0 <= j < |t.lru| && NameOf(t.keys, t.lru[j]) == key ensures t.lru[j] == mp {
      assert t.lru[j] in t.lru && Tracked(t, t.lru[j]);
    }
    NamesWithout(t.keys, t.lru, mp);
  }

  /** Old pools keep their names when a key is appended. */
  lemma {:induction false} NamesAppended(keys: seq<Key>, key: Key, lru: seq<nat>)
    requires forall i :: 0 <= i < |lru| ==> lru[i] < |keys|
    ensures Names(keys + [key], lru) == Names(keys, lru)
    ensures Names(keys + [key], [|keys|] + lru) == [key] + Names(keys, lru)
  {
    assert ([|keys|] + lru)[1..] == lru;
    assert |Names(keys + [key], lru)| == |Names(keys, lru)|;
  }

  lemma {:induction false} NamesOfFirst(keys: seq<Key>, lru: seq<nat>, n: nat)
    ensures First(n, Names(keys, lru)) == Names(keys, First(n, lru))
  {
  }

  lemma {:induction false} KeyOfNoneTracked(cap: int, t: Table, key: Key)
    requires Consistent(cap, t) && cap > 0 && key !in t.pools
    ensures key !in TrackedKeys(t)
    ensures forall i :: 0 <= i < |t.lru| ==> t.lru[i] < |t.keys|
  {
    forall i | 0 <= i < |t.lru| ensures TrackedKeys(t)[i] != key && t.lru[i] < |t.keys| {
      assert t.lru[i] in t.lru && Tracked(t, t.lru[i]);
    }
  }

  lemma {:induction false} MissOnKeys(cap: int, t: Table, key: Key)
    requires Consistent(cap, t) && cap > 0 && key !in t.pools
    ensures key !in TrackedKeys(t)
    ensures TrackedKeys(Get(cap, t, key).table) == [key] + First(cap - 1, TrackedKeys(t))
  {
    MissShape(cap, t, key);
    KeyOfNoneTracked(cap, t, key);
    var after := Get(cap, t, key).table;
    var rest := First(cap - 1, t.lru);
    assert after.lru == [|t.keys|] + rest && after.keys == t.keys + [key];
    NamesAppended(t.keys, key, rest);
    NamesOfFirst(t.keys, t.lru, cap - 1);
  }

  /** The keys a lookup leaves tracked depend only on the keys tracked before. */
  lemma {:induction false} GetOnKeys(cap: int, t: Table, key: Key)
    requires Consistent(cap, t) && cap > 0
    ensures TrackedKeys(Get(cap, t, key).table) ==
              if key in TrackedKeys(t) then [key] + Without(TrackedKeys(t), key)
              else [key] + First(cap - 1, TrackedKeys(t))
  {
    if key in t.pools { HitOnKeys(cap, t, key); } else { MissOnKeys(cap, t, key); }
  }

  function Accesses(steps: seq<Step>): seq<Key> {
    if steps == [] then []
    else (if steps[0].Call? then [steps[0].key] else []) + Accesses(steps[1..])
  }

  ghost predicate OnlyCalls(steps: seq<Step>) {
    forall i :: 0 <= i < |steps| ==> !steps[i].Invalidate? && !steps[i].BeginShutdown?
  }

  /** The table after looking up each key in turn. */
  ghost function GetAll(cap: int, t: Table, accesses: seq<Key>): (after: Table)
    requires Consistent(cap, t)
    ensures Consistent(cap, after)
    decreases |accesses|
  {
    if accesses == [] then t
    else
      GetKeepsTable(cap, t, accesses[0]);
      GetAll(cap, Get(cap, t, accesses[0]).table, accesses[1..])
  }

  lemma {:induction false} RecencyStep(cap: int, before: seq<Key>, key: Key)
    requires cap > 0
    ensures var ks := First(cap, Recency(before));
      First(cap, Recency(before + [key])) ==
        if key in ks then [key] + Without(ks, key) else [key] + First(cap - 1, ks)
  {
    var r := Recency(before);
    assert (before + [key])[..|before|] == before;
    RecencyMeaning(before);
    FirstCons(cap, key, Without(r, key));
    WithoutOfFirst(cap, r, key);
    assert First(cap - 1, First(cap, r)) == First(cap - 1, r);
  }

  lemma {:induction false} OneGetIsRecency(cap: int, t: Table, before: seq<Key>, key: Key)
    requires cap > 0 && Consistent(cap, t)
    requires TrackedKeys(t) == First(cap, Recency(before))
    ensures Consistent(cap, Get(cap, t, key).table)
    ensures TrackedKeys(Get(cap, t, key).table) == First(cap, Recency(before + [key]))
  {
    GetKeepsTable(cap, t, key);
    GetOnKeys(cap, t, key);
    RecencyStep(cap, before, key);
  }

  lemma {:induction false} GetAllIsRecency(cap: int, t: Table, before: seq<Key>, accesses: seq<Key>)
    requires cap > 0 && Consistent(cap, t)
    requires TrackedKeys(t) == First(cap, Recency(before))
    ensures TrackedKeys(GetAll(cap, t, accesses)) == First(cap, Recency(before + accesses))
    decreases |accesses|
  {
    if accesses == [] {
      assert before + accesses == before;
    } else {
      var now, rest := before + [accesses[0]], accesses[1..];
      assert before + accesses == now + rest;
      OneGetIsRecency(cap, t, before, accesses[0]);
      GetAllIsRecency(cap, Get(cap, t, accesses[0]).table, now, rest);
    }
  }

  lemma {:induction false} StepOnTable(cfg: Config, s: State, step: Step)
    requires Consistent(cfg.maxPools, s.table) && Enabled(cfg, s, step)
    requires !step.Invalidate? && !step.BeginShutdown?
    ensures Apply(cfg, s, step).table ==
              if step.Call? then Get(cfg.maxPools, s.table, step.key).table else s.table
  {
  }

  lemma {:induction false} TableOfRun(cfg: Config, s: State, steps: seq<Step>, s': State)
    requires Inv(cfg, s) && Run(cfg, s, steps) == Some(s') && OnlyCalls(steps)
    ensures s'.table == GetAll(cfg.maxPools, s.table, Accesses(steps))
    decreases |steps|
  {
    if steps != [] {
      StepKeepsInv(cfg, s, steps[0]);
      StepOnTable(cfg, s, steps[0]);
      TableOfRun(cfg, Apply(cfg, s, steps[0]), steps[1..], s');
      if steps[0].Call? {
        assert Accesses(steps)[1..] == Accesses(steps[1..]);
      } else {
        assert Accesses(steps) == Accesses(steps[1..]);
      }
    }
  }

  /** With a positive cap, in any run without Invalidate and Close from a state with nothing
      tracked, the tracked keys are exactly the cap most recently accessed distinct keys, in that
      order, whatever builds, selects and closings are interleaved. */
  lemma {:induction false} TrackedAreMostRecent(cfg: Config, start: State, steps: seq<Step>, s: State)
    requires cfg.maxPools > 0 && Inv(cfg, start) && start.table.lru == []
    requires Run(cfg, start, steps) == Some(s) && OnlyCalls(steps)
    ensures TrackedKeys(s.table) == First(cfg.maxPools, Recency(Accesses(steps)))
  {
    TableOfRun(cfg, start, steps, s);
    assert [] + Accesses(steps) == Accesses(steps);
    GetAllIsRecency(cfg.maxPools, start.table, [], Accesses(steps));
  }

  /** Hence a larger cap never tracks less, on the same accesses however they interleave. */
  lemma {:induction false} LargerCapTracksMore(cfg: Config, more: Config, start: State, start': State,
                                               steps: seq<Step>, steps': seq<Step>, s: State, s': State)
    requires 0 < cfg.maxPools <= more.maxPools && Accesses(steps) == Accesses(steps')
    requires Inv(cfg, start) && start.table.lru == [] && Run(cfg, start, steps) == Some(s) && OnlyCalls(steps)
    requires Inv(more, start') && start'.table.lru == [] && Run(more, start', steps') == Some(s') && OnlyCalls(steps')
    ensures TrackedKeys(s.table) <= TrackedKeys(s'.table)
  {
    TrackedAreMostRecent(cfg, start, steps, s);
    TrackedAreMostRecent(more, start', steps', s');
  }
}
