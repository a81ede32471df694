/** runtime.Manager as an interleaving of atomic steps. Every critical section, every Build
    completion, every return from HandlerFor and every move of a closing goroutine is one
    step; a run is any sequence of enabled steps. */
module Manager {
  import opened Common
  import opened PoolTable

  /** What Build stored in managedPool.pool and managedPool.err before closing `ready`. */
  datatype Outcome = Outcome(pool: bool, err: Option<string>)

  datatype Answer = Handler(mp: nat) | BuildError(err: string) | ContextDone

  /** A goroutine that has to close one managed pool. */
  datatype Phase = Waiting | Closing | Closed | Reported

  datatype Thread =
    | Building(mp: nat)                           // HandlerFor after a miss, inside Build
    | Selecting(mp: nat)                          // HandlerFor in its final select
    | Answered(mp: nat, answer: Answer)
    | Evictor(mp: nat, phase: Phase)              // evictAsync
    | Invalidator(mp: nat, phase: Phase)          // Invalidate's goroutine
    | Shutdown(todo: set<nat>, done: set<nat>)    // Manager.Close

  datatype Event = Built(mp: nat) | EvictedBy(mp: nat) | CloseCalled(mp: nat) | HookCalled(mp: nat)

  datatype Config = Config(maxPools: int, hook: bool)

  datatype State = State(
    table: Table,
    outcomes: seq<Option<Outcome>>,   // per managed pool; Some once ready is closed
    threads: seq<Thread>,
    history: multiset<Event>)

  datatype Step =
    | Call(key: Key)
    | FinishBuild(t: nat, outcome: Outcome)
    | Select(t: nat, canceled: bool)
    | CallPoolClose(t: nat)
    | PoolCloseReturns(t: nat)
    | CallHook(t: nat)
    | Invalidate(key: Key)
    | BeginShutdown
    | ShutdownNext(t: nat, mp: nat)

  const INIT := State(EMPTY, [], [], multiset{})

  predicate Ready(s: State, mp: nat) {
    mp < |s.outcomes| && s.outcomes[mp].Some?
  }

  predicate Enabled(cfg: Config, s: State, step: Step) {
    match step
    case Call(_) => true
    case Invalidate(_) => true
    case BeginShutdown => true
    case FinishBuild(t, _) =>
      t < |s.threads| && s.threads[t].Building? && s.threads[t].mp < |s.outcomes|
    case Select(t, canceled) =>
      t < |s.threads| && s.threads[t].Selecting? && (canceled || Ready(s, s.threads[t].mp))
    case CallPoolClose(t) =>
      && t < |s.threads| && (s.threads[t].Evictor? || s.threads[t].Invalidator?)
      && s.threads[t].phase == Waiting && Ready(s, s.threads[t].mp)
    case PoolCloseReturns(t) =>
      && t < |s.threads| && (s.threads[t].Evictor? || s.threads[t].Invalidator?)
      && s.threads[t].phase == Closing
    case CallHook(t) =>
      t < |s.threads| && s.threads[t].Evictor? && s.threads[t].phase == Closed && cfg.hook
    case ShutdownNext(t, mp) =>
      t < |s.threads| && s.threads[t].Shutdown? && mp in s.threads[t].todo && Ready(s, mp)
  }

  /** HandlerFor's result once `ready` is closed. */
  function AnswerOf(mp: nat, o: Outcome): Answer {
    if o.err.Some? then BuildError(o.err.value) else Handler(mp)
  }

  /** A closing goroutine skips Close when the build produced no pool. */
  function CloseEvents(s: State, mp: nat): multiset<Event>
    requires Ready(s, mp)
  {
    if s.outcomes[mp].value.pool then multiset{CloseCalled(mp)} else multiset{}
  }

  function AfterClose(s: State, mp: nat): Phase
    requires Ready(s, mp)
  {
    if s.outcomes[mp].value.pool then Closing else Closed
  }

  function Evictors(victims: seq<nat>): (ts: seq<Thread>) {
    seq(|victims|, i requires 0 <= i < |victims| => Evictor(victims[i], Waiting))
  }

  function Evictions(victims: seq<nat>): multiset<Event> {
    if victims == [] then multiset{} else multiset{EvictedBy(victims[0])}
  }

  function Apply(cfg: Config, s: State, step: Step): State
    requires Enabled(cfg, s, step) && Consistent(cfg.maxPools, s.table)
  {
    match step
    case Call(key) =>
      var g := Get(cfg.maxPools, s.table, key);
      if g.hit then s.(table := g.table, threads := s.threads + [Selecting(g.mp)])
      else
        s.(table := g.table, outcomes := s.outcomes + [None],
           threads := s.threads + [Building(g.mp)] + Evictors(g.victims),
           history := s.history + Evictions(g.victims))
    case FinishBuild(t, o) =>
      var mp := s.threads[t].mp;
      s.(outcomes := s.outcomes[mp := Some(o)], threads := s.threads[t := Selecting(mp)],
         history := s.history + multiset{Built(mp)})
    case Select(t, canceled) =>
      var mp := s.threads[t].mp;
      var a := if canceled then ContextDone else AnswerOf(mp, s.outcomes[mp].value);
      s.(threads := s.threads[t := Answered(mp, a)])
    case CallPoolClose(t) =>
      var th := s.threads[t];
      s.(threads := s.threads[t := th.(phase := AfterClose(s, th.mp))],
         history := s.history + CloseEvents(s, th.mp))
    case PoolCloseReturns(t) =>
      s.(threads := s.threads[t := s.threads[t].(phase := Closed)])
    case CallHook(t) =>
      s.(threads := s.threads[t := s.threads[t].(phase := Reported)],
         history := s.history + multiset{HookCalled(s.threads[t].mp)})
    case Invalidate(key) =>
      var (table, gone) := Drop(s.table, key);
      if gone == [] then s.(table := table)
      else s.(table := table, threads := s.threads + [Invalidator(gone[0], Waiting)])
    case BeginShutdown =>
      s.(table := Clear(s.table), threads := s.threads + [Shutdown(s.table.pools.Values, {})])
    case ShutdownNext(t, mp) =>
      var th := s.threads[t];
      s.(threads := s.threads[t := Shutdown(th.todo - {mp}, th.done + {mp})],
         history := s.history + CloseEvents(s, mp))
  }

  /** The managed pool a HandlerFor call is working on. */
  function Serves(th: Thread): Option<nat> {
    match th
    case Building(mp) => Some(mp)
    case Selecting(mp) => Some(mp)
    case Answered(mp, _) => Some(mp)
    case _ => None
  }

  // ---- Counting the threads that play a given part for one managed pool ----

  datatype Part = Builds | Owns | HasClosed | HasReported

  function Plays(th: Thread, part: Part, mp: nat): nat {
    var yes := match part
      case Builds => th.Building? && th.mp == mp
      case Owns =>
        || ((th.Evictor? || th.Invalidator?) && th.mp == mp)
        || (th.Shutdown? && (mp in th.todo || mp in th.done))
      case HasClosed =>
        || ((th.Evictor? || th.Invalidator?) && th.mp == mp && th.phase != Waiting)
        || (th.Shutdown? && mp in th.done)
      case HasReported => th.Evictor? && th.mp == mp && th.phase == Reported;
    if yes then 1 else 0
  }

  function Count(ts: seq<Thread>, part: Part, mp: nat): nat {
    if ts == [] then 0 else Plays(ts[|ts| - 1], part, mp) + Count(ts[..|ts| - 1], part, mp)
  }

  lemma {:induction false} CountAppend(ts: seq<Thread>, us: seq<Thread>, part: Part, mp: nat)
    ensures Count(ts + us, part, mp) == Count(ts, part, mp) + Count(us, part, mp)
  {
    if us == [] {
      assert ts + us == ts;
    } else {
      assert (ts + us)[..|ts + us| - 1] == ts + us[..|us| - 1];
      CountAppend(ts, us[..|us| - 1], part, mp);
    }
  }

  lemma {:induction false} CountReplace(ts: seq<Thread>, t: nat, th: Thread, part: Part, mp: nat)
    requires t < |ts|
    ensures Count(ts[t := th], part, mp) == Count(ts, part, mp) - Plays(ts[t], part, mp) + Plays(th, part, mp)
    ensures Count(ts, part, mp) >= Plays(ts[t], part, mp)
  {
    var n := |ts| - 1;
    if t == n {
      assert ts[t := th][..n] == ts[..n];
    } else {
      assert ts[t := th][..n] == ts[..n][t := th];
      CountReplace(ts[..n], t, th, part, mp);
    }
  }

  lemma {:induction false} CountWitness(ts: seq<Thread>, part: Part, mp: nat) returns (t: nat)
    requires Count(ts, part, mp) > 0
    ensures t < |ts| && Plays(ts[t], part, mp) == 1
  {
    var n := |ts| - 1;
    if Plays(ts[n], part, mp) == 1 { t := n; } else { t := CountWitness(ts[..n], part, mp); }
  }

  // ---- The invariant ----

  function One(b: bool): nat { if b then 1 else 0 }

  /** The whole life of one managed pool: one builder until it is built, and then exactly one
      of "tracked" and "owned by one closing goroutine". */
  ghost predicate LifeOk(s: State, mp: nat)
    requires |s.outcomes| == |s.table.keys| && mp < |s.outcomes|
  {
    var ready := s.outcomes[mp].Some?;
    var pooled := ready && s.outcomes[mp].value.pool;
    && Count(s.threads, Builds, mp) == One(!ready)
    && s.history[Built(mp)] == One(ready)
    && Count(s.threads, Owns, mp) == One(!Tracked(s.table, mp))
    && (Count(s.threads, HasClosed, mp) > 0 ==> ready)
    && s.history[CloseCalled(mp)] == (if pooled then Count(s.threads, HasClosed, mp) else 0)
    && s.history[HookCalled(mp)] == Count(s.threads, HasReported, mp)
  }

  /** What one thread may know. */
  ghost predicate ThreadOk(s: State, th: Thread) {
    match th
    case Building(mp) => mp < |s.outcomes|
    case Selecting(mp) => mp < |s.outcomes|
    case Answered(mp, a) =>
      mp < |s.outcomes| && (a != ContextDone ==> Ready(s, mp) && a == AnswerOf(mp, s.outcomes[mp].value))
    case Evictor(mp, _) => mp < |s.outcomes| && s.history[EvictedBy(mp)] == 1
    case Invalidator(mp, _) => mp < |s.outcomes| && s.history[EvictedBy(mp)] == 0
    case Shutdown(todo, done) =>
      todo !! done && forall mp :: mp in todo || mp in done ==> mp < |s.outcomes| && s.history[EvictedBy(mp)] == 0
  }

  ghost predicate Inv(cfg: Config, s: State) {
    && Consistent(cfg.maxPools, s.table)
    && |s.outcomes| == |s.table.keys|
    && (forall mp: nat :: mp < |s.outcomes| ==> LifeOk(s, mp))
    && (forall t :: 0 <= t < |s.threads| ==> ThreadOk(s, s.threads[t]))
    && (forall e :: e in s.history ==> e.mp < |s.outcomes| && (e.HookCalled? ==> cfg.hook))
    && (forall mp: nat :: Tracked(s.table, mp) ==> s.history[EvictedBy(mp)] == 0)
  }

  lemma {:induction false} InitInv(cfg: Config)
    ensures Inv(cfg, INIT)
  {
  }

  // ---- Each step keeps the invariant ----

  lemma {:induction false} CountsReplace(ts: seq<Thread>, t: nat, th: Thread, mp: nat)
    requires t < |ts|
    ensures forall part :: Count(ts[t := th], part, mp)
              == Count(ts, part, mp) - Plays(ts[t], part, mp) + Plays(th, part, mp)
    ensures forall part :: Count(ts, part, mp) >= Plays(ts[t], part, mp)
  {
    forall part ensures Count(ts[t := th], part, mp)
                          == Count(ts, part, mp) - Plays(ts[t], part, mp) + Plays(th, part, mp)
                        && Count(ts, part, mp) >= Plays(ts[t], part, mp) {
      CountReplace(ts, t, th, part, mp);
    }
  }

  lemma {:induction false} CountsAppend(ts: seq<Thread>, us: seq<Thread>, mp: nat)
    requires |us| <= 2
    ensures forall part :: Count(ts + us, part, mp) == Count(ts, part, mp)
              + (if |us| >= 1 then Plays(us[0], part, mp) else 0)
              + (if |us| == 2 then Plays(us[1], part, mp) else 0)
  {
    forall part ensures Count(ts + us, part, mp) == Count(ts, part, mp)
              + (if |us| >= 1 then Plays(us[0], part, mp) else 0)
              + (if |us| == 2 then Plays(us[1], part, mp) else 0) {
      CountAppend(ts, us, part, mp);
      if |us| == 2 { assert us[..1] == [us[0]]; }
    }
  }

  /** A thread that owns a managed pool shows it is not tracked. */
  lemma {:induction false} OwnerMeansUntracked(cfg: Config, s: State, t: nat, mp: nat)
    requires Inv(cfg, s) && t < |s.threads| && mp < |s.outcomes|
    requires Plays(s.threads[t], Owns, mp) == 1
    ensures !Tracked(s.table, mp)
  {
    CountReplace(s.threads, t, s.threads[t], Owns, mp);
    assert LifeOk(s, mp);
  }

  lemma {:induction false} HitKeepsInv(cfg: Config, s: State, key: Key)
    requires Inv(cfg, s) && key in s.table.pools
    ensures Inv(cfg, Apply(cfg, s, Call(key)))
  {
    var s' := Apply(cfg, s, Call(key));
    var g := Get(cfg.maxPools, s.table, key);
    GetKeepsTable(cfg.maxPools, s.table, key);
    forall mp: nat | mp < |s'.outcomes| ensures LifeOk(s', mp) {
      assert LifeOk(s, mp);
      CountsAppend(s.threads, [Selecting(g.mp)], mp);
      assert Tracked(s'.table, mp) <==> Tracked(s.table, mp);
    }
  }

  lemma {:induction false} MissKeepsLife(cfg: Config, s: State, key: Key, mp: nat)
    requires Consistent(cfg.maxPools, s.table) && |s.outcomes| == |s.table.keys|
    requires key !in s.table.pools && mp < |s.outcomes| && LifeOk(s, mp)
    ensures Consistent(cfg.maxPools, Apply(cfg, s, Call(key)).table)
    ensures LifeOk(Apply(cfg, s, Call(key)), mp)
  {
    var s', g := Apply(cfg, s, Call(key)), Get(cfg.maxPools, s.table, key);
    MissTracking(cfg.maxPools, s.table, key, mp);
    MissCounts(s.threads, g.mp, g.victims, mp);
    assert s'.threads == s.threads + ([Building(g.mp)] + Evictors(g.victims));
    MissHistory(s.history, g.victims, mp);
  }

  /** One eviction goroutine, for the victim, is all a miss adds for an older pool. */
  lemma {:induction false} MissCounts(ts: seq<Thread>, newPool: nat, victims: seq<nat>, mp: nat)
    requires mp != newPool && |victims| <= 1
    ensures forall part :: Count(ts + ([Building(newPool)] + Evictors(victims)), part, mp)
              == Count(ts, part, mp) + if part.Owns? && victims == [mp] then 1 else 0
  {
    CountsAppend(ts, [Building(newPool)] + Evictors(victims), mp);
  }

  lemma {:induction false} MissHistory(h: multiset<Event>, victims: seq<nat>, mp: nat)
    ensures var after := h + Evictions(victims);
      after[Built(mp)] == h[Built(mp)] && after[CloseCalled(mp)] == h[CloseCalled(mp)]
      && after[HookCalled(mp)] == h[HookCalled(mp)]
  {
  }

  lemma {:induction false} MissTracking(cap: int, t: Table, key: Key, mp: nat)
    requires Consistent(cap, t) && key !in t.pools && mp < |t.keys|
    ensures var g := Get(cap, t, key);
      && Consistent(cap, g.table) && |g.table.keys| == |t.keys| + 1 && g.mp == |t.keys|
      && |g.victims| <= 1
      && (g.victims == [mp] ==> Tracked(t, mp))
      && (Tracked(g.table, mp) <==> Tracked(t, mp) && g.victims != [mp])
  {
    GetKeepsTable(cap, t, key);
  }

  lemma {:induction false} MissStartsLife(cfg: Config, s: State, key: Key)
    requires Inv(cfg, s) && key !in s.table.pools
    ensures LifeOk(Apply(cfg, s, Call(key)), |s.outcomes|)
  {
    var s', g := Apply(cfg, s, Call(key)), Get(cfg.maxPools, s.table, key);
    GetKeepsTable(cfg.maxPools, s.table, key);
    var added := [Building(g.mp)] + Evictors(g.victims);
    assert s'.threads == s.threads + added;
    CountsAppend(s.threads, added, g.mp);
    NobodyKnows(cfg, s, g.mp);
    assert Built(g.mp) !in s.history && CloseCalled(g.mp) !in s.history && HookCalled(g.mp) !in s.history;
  }

  /** A miss evicts what was tracked, so no tracked managed pool has been evicted. */
  lemma {:induction false} MissKeepsHistory(cfg: Config, s: State, key: Key)
    requires Inv(cfg, s) && key !in s.table.pools
    ensures var s' := Apply(cfg, s, Call(key));
      && (forall e :: e in s'.history ==> e.mp < |s'.outcomes| && (e.HookCalled? ==> cfg.hook))
      && (forall mp: nat :: Tracked(s'.table, mp) ==> s'.history[EvictedBy(mp)] == 0)
  {
    var s', g := Apply(cfg, s, Call(key)), Get(cfg.maxPools, s.table, key);
    GetKeepsTable(cfg.maxPools, s.table, key);
    if g.victims != [] { assert Tracked(s.table, g.victims[0]); }
    assert EvictedBy(g.mp) !in s.history;
    forall mp: nat | Tracked(s'.table, mp) ensures s'.history[EvictedBy(mp)] == 0 {
      if mp != g.mp { MissTracking(cfg.maxPools, s.table, key, mp); }
    }
  }

  lemma {:induction false} MissKeepsThreads(cfg: Config, s: State, key: Key)
    requires Inv(cfg, s) && key !in s.table.pools
    ensures var s' := Apply(cfg, s, Call(key));
      forall t :: 0 <= t < |s'.threads| ==> ThreadOk(s', s'.threads[t])
  {
    var s', g := Apply(cfg, s, Call(key)), Get(cfg.maxPools, s.table, key);
    GetKeepsTable(cfg.maxPools, s.table, key);
    forall t | 0 <= t < |s'.threads| ensures ThreadOk(s', s'.threads[t]) {
      if t < |s.threads| {
        MissKeepsThread(cfg, s, key, t);
        assert s'.threads[t] == s.threads[t];
      } else if t > |s.threads| {
        assert g.victims != [] && s'.threads[t] == Evictor(g.victims[0], Waiting);
        assert Tracked(s.table, g.victims[0]);
      }
    }
  }

  lemma {:induction false} MissKeepsInv(cfg: Config, s: State, key: Key)
    requires Inv(cfg, s) && key !in s.table.pools
    ensures Inv(cfg, Apply(cfg, s, Call(key)))
  {
    var s' := Apply(cfg, s, Call(key));
    GetKeepsTable(cfg.maxPools, s.table, key);
    forall mp: nat | mp < |s'.outcomes| ensures LifeOk(s', mp) {
      if mp == |s.outcomes| { MissStartsLife(cfg, s, key); } else { MissKeepsLife(cfg, s, key, mp); }
    }
    MissKeepsThreads(cfg, s, key);
    MissKeepsHistory(cfg, s, key);
  }

  /** No thread speaks of a managed pool that does not exist yet. */
  lemma {:induction false} NobodyKnows(cfg: Config, s: State, mp: nat)
    requires Inv(cfg, s) && mp >= |s.outcomes|
    ensures forall part :: Count(s.threads, part, mp) == 0
  {
    forall part ensures Count(s.threads, part, mp) == 0 {
      if Count(s.threads, part, mp) > 0 {
        var t := CountWitness(s.threads, part, mp);
        assert false;
      }
    }
  }

  lemma {:induction false} MissKeepsThread(cfg: Config, s: State, key: Key, t: nat)
    requires Inv(cfg, s) && key !in s.table.pools && t < |s.threads|
    ensures ThreadOk(Apply(cfg, s, Call(key)), s.threads[t])
  {
    var g := Get(cfg.maxPools, s.table, key);
    GetKeepsTable(cfg.maxPools, s.table, key);
    assert ThreadOk(s, s.threads[t]);
    if g.victims != [] {
      var victim := g.victims[0];
      assert Tracked(s.table, victim);
      if Plays(s.threads[t], Owns, victim) == 1 {
        OwnerMeansUntracked(cfg, s, t, victim);
      }
    }
  }

  lemma {:induction false} FinishBuildKeepsLife(cfg: Config, s: State, t: nat, o: Outcome, mp: nat)
    requires Consistent(cfg.maxPools, s.table) && |s.outcomes| == |s.table.keys|
    requires Enabled(cfg, s, FinishBuild(t, o))
    requires mp < |s.outcomes| && LifeOk(s, mp)
    ensures LifeOk(Apply(cfg, s, FinishBuild(t, o)), mp)
  {
    CountsReplace(s.threads, t, Selecting(s.threads[t].mp), mp);
  }

  lemma {:induction false} FinishBuildKeepsInv(cfg: Config, s: State, t: nat, o: Outcome)
    requires Inv(cfg, s) && Enabled(cfg, s, FinishBuild(t, o))
    ensures !Ready(s, s.threads[t].mp)
    ensures Inv(cfg, Apply(cfg, s, FinishBuild(t, o)))
  {
    var s', built := Apply(cfg, s, FinishBuild(t, o)), s.threads[t].mp;
    assert LifeOk(s, built);
    CountsReplace(s.threads, t, Selecting(built), built);
    forall mp: nat | mp < |s'.outcomes| ensures LifeOk(s', mp) {
      FinishBuildKeepsLife(cfg, s, t, o, mp);
    }
    forall u | 0 <= u < |s'.threads| ensures ThreadOk(s', s'.threads[u]) {
      assert ThreadOk(s, s.threads[u]);
    }
  }

  lemma {:induction false} SelectKeepsInv(cfg: Config, s: State, t: nat, canceled: bool)
    requires Inv(cfg, s) && Enabled(cfg, s, Select(t, canceled))
    ensures Inv(cfg, Apply(cfg, s, Select(t, canceled)))
  {
    var s' := Apply(cfg, s, Select(t, canceled));
    assert ThreadOk(s, s.threads[t]);
    forall mp: nat | mp < |s'.outcomes| ensures LifeOk(s', mp) {
      assert LifeOk(s, mp);
      CountsReplace(s.threads, t, s'.threads[t], mp);
    }
    forall u | 0 <= u < |s'.threads| ensures ThreadOk(s', s'.threads[u]) {
      assert ThreadOk(s, s.threads[u]);
    }
  }

  lemma {:induction false} CallPoolCloseKeepsLife(cfg: Config, s: State, t: nat, mp: nat)
    requires Consistent(cfg.maxPools, s.table) && |s.outcomes| == |s.table.keys|
    requires Enabled(cfg, s, CallPoolClose(t)) && ThreadOk(s, s.threads[t])
    requires mp < |s.outcomes| && LifeOk(s, mp)
    ensures LifeOk(Apply(cfg, s, CallPoolClose(t)), mp)
  {
    CountsReplace(s.threads, t, Apply(cfg, s, CallPoolClose(t)).threads[t], mp);
  }

  lemma {:induction false} CallPoolCloseKeepsInv(cfg: Config, s: State, t: nat)
    requires Inv(cfg, s) && Enabled(cfg, s, CallPoolClose(t))
    ensures Inv(cfg, Apply(cfg, s, CallPoolClose(t)))
  {
    var s' := Apply(cfg, s, CallPoolClose(t));
    assert ThreadOk(s, s.threads[t]);
    forall mp: nat | mp < |s'.outcomes| ensures LifeOk(s', mp) {
      CallPoolCloseKeepsLife(cfg, s, t, mp);
    }
    forall u | 0 <= u < |s'.threads| ensures ThreadOk(s', s'.threads[u]) {
      assert ThreadOk(s, s.threads[u]);
    }
  }

  lemma {:induction false} PoolCloseReturnsKeepsInv(cfg: Config, s: State, t: nat)
    requires Inv(cfg, s) && Enabled(cfg, s, PoolCloseReturns(t))
    ensures Inv(cfg, Apply(cfg, s, PoolCloseReturns(t)))
  {
    var s' := Apply(cfg, s, PoolCloseReturns(t));
    assert ThreadOk(s, s.threads[t]);
    forall mp: nat | mp < |s'.outcomes| ensures LifeOk(s', mp) {
      assert LifeOk(s, mp);
      CountsReplace(s.threads, t, s'.threads[t], mp);
    }
    forall u | 0 <= u < |s'.threads| ensures ThreadOk(s', s'.threads[u]) {
      assert ThreadOk(s, s.threads[u]);
    }
  }

  lemma {:induction false} CallHookKeepsInv(cfg: Config, s: State, t: nat)
    requires Inv(cfg, s) && Enabled(cfg, s, CallHook(t))
    ensures Inv(cfg, Apply(cfg, s, CallHook(t)))
  {
    var s' := Apply(cfg, s, CallHook(t));
    assert ThreadOk(s, s.threads[t]);
    forall mp: nat | mp < |s'.outcomes| ensures LifeOk(s', mp) {
      assert LifeOk(s, mp);
      CountsReplace(s.threads, t, s'.threads[t], mp);
    }
    forall u | 0 <= u < |s'.threads| ensures ThreadOk(s', s'.threads[u]) {
      assert ThreadOk(s, s.threads[u]);
    }
  }

  lemma {:induction false} ShutdownNextKeepsLife(cfg: Config, s: State, t: nat, closed: nat, mp: nat)
    requires Consistent(cfg.maxPools, s.table) && |s.outcomes| == |s.table.keys|
    requires Enabled(cfg, s, ShutdownNext(t, closed)) && ThreadOk(s, s.threads[t])
    requires mp < |s.outcomes| && LifeOk(s, mp)
    ensures LifeOk(Apply(cfg, s, ShutdownNext(t, closed)), mp)
  {
    CountsReplace(s.threads, t, Apply(cfg, s, ShutdownNext(t, closed)).threads[t], mp);
  }

  lemma {:induction false} ShutdownNextKeepsInv(cfg: Config, s: State, t: nat, closed: nat)
    requires Inv(cfg, s) && Enabled(cfg, s, ShutdownNext(t, closed))
    ensures Inv(cfg, Apply(cfg, s, ShutdownNext(t, closed)))
  {
    var s' := Apply(cfg, s, ShutdownNext(t, closed));
    assert ThreadOk(s, s.threads[t]);
    forall mp: nat | mp < |s'.outcomes| ensures LifeOk(s', mp) {
      ShutdownNextKeepsLife(cfg, s, t, closed, mp);
    }
    forall u | 0 <= u < |s'.threads| ensures ThreadOk(s', s'.threads[u]) {
      assert ThreadOk(s, s.threads[u]);
    }
  }

  lemma {:induction false} InvalidateKeepsInv(cfg: Config, s: State, key: Key)
    requires Inv(cfg, s)
    ensures Inv(cfg, Apply(cfg, s, Invalidate(key)))
  {
    var s' := Apply(cfg, s, Invalidate(key));
    var (after, gone) := Drop(s.table, key);
    DropKeepsTable(cfg.maxPools, s.table, key);
    forall mp: nat | mp < |s'.outcomes| ensures LifeOk(s', mp) {
      assert LifeOk(s, mp);
      if gone != [] { CountsAppend(s.threads, [Invalidator(gone[0], Waiting)], mp); }
    }
    forall u | 0 <= u < |s'.threads| ensures ThreadOk(s', s'.threads[u]) {
      if u < |s.threads| { assert ThreadOk(s, s.threads[u]); }
    }
  }

  lemma {:induction false} ShutdownTakesTracked(cap: int, t: Table)
    requires Consistent(cap, t)
    ensures forall mp: nat :: mp in t.pools.Values <==> Tracked(t, mp)
  {
    forall mp: nat | mp in t.pools.Values ensures Tracked(t, mp) {
      var k :| k in t.pools && t.pools[k] == mp;
    }
  }

  lemma {:induction false} BeginShutdownKeepsLife(cfg: Config, s: State, mp: nat)
    requires Consistent(cfg.maxPools, s.table) && |s.outcomes| == |s.table.keys|
    requires mp < |s.outcomes| && LifeOk(s, mp)
    ensures LifeOk(Apply(cfg, s, BeginShutdown), mp)
  {
    ShutdownTakesTracked(cfg.maxPools, s.table);
    CountsAppend(s.threads, [Shutdown(s.table.pools.Values, {})], mp);
  }

  lemma {:induction false} BeginShutdownKeepsInv(cfg: Config, s: State)
    requires Inv(cfg, s)
    ensures Inv(cfg, Apply(cfg, s, BeginShutdown))
  {
    var s' := Apply(cfg, s, BeginShutdown);
    ShutdownTakesTracked(cfg.maxPools, s.table);
    forall mp: nat | mp < |s'.outcomes| ensures LifeOk(s', mp) {
      BeginShutdownKeepsLife(cfg, s, mp);
    }
    forall u | 0 <= u < |s'.threads| ensures ThreadOk(s', s'.threads[u]) {
      if u < |s.threads| { assert ThreadOk(s, s.threads[u]); }
    }
  }

  lemma {:induction false} StepKeepsInv(cfg: Config, s: State, step: Step)
    requires Inv(cfg, s) && Enabled(cfg, s, step)
    ensures Inv(cfg, Apply(cfg, s, step))
  {
    match step
    case Call(key) => if key in s.table.pools { HitKeepsInv(cfg, s, key); } else { MissKeepsInv(cfg, s, key); }
    case FinishBuild(t, o) => FinishBuildKeepsInv(cfg, s, t, o);
    case Select(t, canceled) => SelectKeepsInv(cfg, s, t, canceled);
    case Invalidate(key) => InvalidateKeepsInv(cfg, s, key);
    case BeginShutdown => BeginShutdownKeepsInv(cfg, s);
    case CallPoolClose(t) => CallPoolCloseKeepsInv(cfg, s, t);
    case PoolCloseReturns(t) => PoolCloseReturnsKeepsInv(cfg, s, t);
    case CallHook(t) => CallHookKeepsInv(cfg, s, t);
    case ShutdownNext(t, mp) => ShutdownNextKeepsInv(cfg, s, t, mp);
  }
}
