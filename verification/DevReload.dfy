/** `funcbox dev`: one key served through the pool manager while reloads swap the snapshot
    and then invalidate that key. Snapshots are numbered by the order of devState.set. */
module DevReload {
  import opened Common
  import opened PoolTable
  import opened Manager

  const DEV_KEY: Key := "dev"
  const DEV := Config(0, false)  // NewManager() without options

  /** One firing of the reload closure: it has read the directory (`disk` says which state of
      it), then installed snapshot number n, then invalidated the key. */
  datatype Reload = ReadDisk(disk: nat) | Installed(disk: nat, n: nat) | Finished(disk: nat, n: nat)

  datatype DevState = DevState(
    mgr: State,
    contents: seq<nat>,     // contents[n]: the directory state behind snapshot n
    reloads: seq<Reload>,
    floor: nat,             // the newest snapshot whose reload has finished
    born: seq<nat>,         // per managed pool: current snapshot when it was inserted
    read: map<nat, nat>,    // per managed pool: the snapshot its build read
    begun: map<nat, nat>)   // per HandlerFor call (thread): floor when it began

  datatype DevStep =
    | Runtime(step: Step)
    | ReadSnapshot(t: nat)      // st.get() at the start of buildDevPool
    | StartReload(disk: nat)    // buildDevSnapshot succeeded
    | SetSnapshot(r: nat)       // st.set
    | InvalidateKey(r: nat)     // manager.Invalidate

  /** Snapshot 0 is set before the server starts. */
  function Start(disk: nat): DevState {
    DevState(INIT, [disk], [], 0, [], map[], map[])
  }

  predicate DevEnabled(d: DevState, step: DevStep) {
    match step
    case Runtime(st) =>
      && Enabled(DEV, d.mgr, st)
      && !st.Invalidate?
      && (st.Call? ==> st.key == DEV_KEY)
      && (st.FinishBuild? ==> d.mgr.threads[st.t].mp in d.read)
    case ReadSnapshot(t) =>
      t < |d.mgr.threads| && d.mgr.threads[t].Building? && d.mgr.threads[t].mp !in d.read
    case StartReload(_) => true
    case SetSnapshot(r) => r < |d.reloads| && d.reloads[r].ReadDisk?
    case InvalidateKey(r) => r < |d.reloads| && d.reloads[r].Installed?
  }

  function DevApply(d: DevState, step: DevStep): DevState
    requires DevEnabled(d, step) && Consistent(0, d.mgr.table) && d.contents != []
  {
    match step
    case Runtime(st) =>
      var mgr := Apply(DEV, d.mgr, st);
      if st.Call? then
        d.(mgr := mgr,
           born := if DEV_KEY in d.mgr.table.pools then d.born else d.born + [|d.contents| - 1],
           begun := d.begun[|d.mgr.threads| := d.floor])
      else d.(mgr := mgr)
    case ReadSnapshot(t) => d.(read := d.read[d.mgr.threads[t].mp := |d.contents| - 1])
    case StartReload(disk) => d.(reloads := d.reloads + [ReadDisk(disk)])
    case SetSnapshot(r) =>
      var disk := d.reloads[r].disk;
      d.(contents := d.contents + [disk], reloads := d.reloads[r := Installed(disk, |d.contents|)])
    case InvalidateKey(r) =>
      var re := d.reloads[r];
      d.(mgr := Apply(DEV, d.mgr, Invalidate(DEV_KEY)),
         reloads := d.reloads[r := Finished(re.disk, re.n)],
         floor := if re.n > d.floor then re.n else d.floor)
  }

  ghost predicate PoolOk(d: DevState, mp: nat)
    requires mp < |d.born|
  {
    && d.born[mp] < |d.contents|
    && (Tracked(d.mgr.table, mp) ==> d.born[mp] >= d.floor)
    && (mp in d.read ==> d.born[mp] <= d.read[mp] < |d.contents|)
    && (Ready(d.mgr, mp) ==> mp in d.read)
  }

  ghost predicate CallOk(d: DevState, t: nat) {
    t in d.begun ==>
      && t < |d.mgr.threads| && Serves(d.mgr.threads[t]).Some?
      && Serves(d.mgr.threads[t]).value < |d.born|
      && d.begun[t] <= d.born[Serves(d.mgr.threads[t]).value]
  }

  ghost predicate ReloadOk(d: DevState, re: Reload) {
    match re
    case ReadDisk(_) => true
    case Installed(disk, n) => n < |d.contents| && d.contents[n] == disk
    case Finished(disk, n) => n < |d.contents| && d.contents[n] == disk && n <= d.floor
  }

  ghost predicate DevInv(d: DevState) {
    && Inv(DEV, d.mgr)
    && d.contents != [] && d.floor < |d.contents|
    && |d.born| == |d.mgr.outcomes|
    && (forall k :: k in d.mgr.table.pools ==> k == DEV_KEY)
    && (forall mp: nat :: mp < |d.born| ==> PoolOk(d, mp))
    && (forall mp :: mp in d.read ==> mp < |d.born|)
    && (forall t: nat :: CallOk(d, t))
    && (forall r :: 0 <= r < |d.reloads| ==> ReloadOk(d, d.reloads[r]))
  }

  lemma {:induction false} CallStep(s: State, key: Key)
    requires Inv(DEV, s)
    ensures var s' := Apply(DEV, s, Call(key)); var g := Get(0, s.table, key);
      && Inv(DEV, s')
      && s'.threads == s.threads + [if g.hit then Selecting(g.mp) else Building(g.mp)]
      && (forall k :: k in s'.table.pools <==> k in s.table.pools || k == key)
      && (forall mp: nat :: Tracked(s'.table, mp) <==> Tracked(s.table, mp) || mp == g.mp)
      && g.hit == (key in s.table.pools) && (g.hit ==> Tracked(s.table, g.mp)) && (!g.hit ==> g.mp == |s.outcomes|)
      && s'.outcomes == if g.hit then s.outcomes else s.outcomes + [None]
  {
    StepKeepsInv(DEV, s, Call(key));
    GetKeepsTable(0, s.table, key);
    if key !in s.table.pools { MissShape(0, s.table, key); }
  }

  /** Steps other than calls and invalidations add no tracked pool and leave every handler
      call on its own managed pool. */
  lemma {:induction false} QuietStep(s: State, st: Step)
    requires Inv(DEV, s) && Enabled(DEV, s, st) && !st.Call? && !st.Invalidate?
    ensures var s' := Apply(DEV, s, st);
      && Inv(DEV, s')
      && |s'.outcomes| == |s.outcomes| && |s'.threads| >= |s.threads|
      && (forall k :: k in s'.table.pools ==> k in s.table.pools)
      && (forall mp: nat :: Tracked(s'.table, mp) ==> Tracked(s.table, mp))
      && (forall mp: nat :: Ready(s', mp) ==> Ready(s, mp) || (st.FinishBuild? && mp == s.threads[st.t].mp))
      && (forall t :: 0 <= t < |s.threads| ==> Serves(s'.threads[t]) == Serves(s.threads[t]))
  {
    StepKeepsInv(DEV, s, st);
  }

  lemma {:induction false} CallKeepsDevInv(d: DevState)
    requires DevInv(d)
    ensures DevInv(DevApply(d, Runtime(Call(DEV_KEY))))
  {
    var d' := DevApply(d, Runtime(Call(DEV_KEY)));
    CallStep(d.mgr, DEV_KEY);
    forall mp: nat | mp < |d'.born| ensures PoolOk(d', mp) {
      if mp < |d.born| {
        assert PoolOk(d, mp);
      } else {
        assert mp !in d.read;
      }
    }
    var mp := Get(0, d.mgr.table, DEV_KEY).mp;
    if mp < |d.born| { assert PoolOk(d, mp); }
    forall t: nat ensures CallOk(d', t) {
      assert CallOk(d, t);
    }
  }

  lemma {:induction false} QuietKeepsDevInv(d: DevState, st: Step)
    requires DevInv(d) && DevEnabled(d, Runtime(st)) && !st.Call?
    ensures DevInv(DevApply(d, Runtime(st)))
  {
    var d' := DevApply(d, Runtime(st));
    QuietStep(d.mgr, st);
    forall mp: nat | mp < |d'.born| ensures PoolOk(d', mp) {
      assert PoolOk(d, mp);
    }
    forall t: nat ensures CallOk(d', t) {
      assert CallOk(d, t);
    }
  }

  lemma {:induction false} InvalidateKeepsDevInv(d: DevState, r: nat)
    requires DevInv(d) && DevEnabled(d, InvalidateKey(r))
    ensures DevInv(DevApply(d, InvalidateKey(r)))
  {
    var d' := DevApply(d, InvalidateKey(r));
    StepKeepsInv(DEV, d.mgr, Invalidate(DEV_KEY));
    DropKeepsTable(0, d.mgr.table, DEV_KEY);
    assert forall k :: k !in d'.mgr.table.pools;
    forall mp: nat | mp < |d'.born| ensures PoolOk(d', mp) {
      assert PoolOk(d, mp);
    }
    forall t: nat ensures CallOk(d', t) {
      assert CallOk(d, t);
    }
    forall q | 0 <= q < |d'.reloads| ensures ReloadOk(d', d'.reloads[q]) {
      assert ReloadOk(d, d.reloads[q]);
    }
  }

  lemma {:induction false} LocalKeepsDevInv(d: DevState, step: DevStep)
    requires DevInv(d) && DevEnabled(d, step)
    requires step.ReadSnapshot? || step.StartReload? || step.SetSnapshot?
    ensures DevInv(DevApply(d, step))
  {
    var d' := DevApply(d, step);
    if step.ReadSnapshot? { assert ThreadOk(d.mgr, d.mgr.threads[step.t]); }
    forall mp: nat | mp < |d'.born| ensures PoolOk(d', mp) {
      assert PoolOk(d, mp);
    }
    forall t: nat ensures CallOk(d', t) {
      assert CallOk(d, t);
    }
    forall q | 0 <= q < |d'.reloads| ensures ReloadOk(d', d'.reloads[q]) {
      if q < |d.reloads| { assert ReloadOk(d, d.reloads[q]); }
    }
  }

  lemma {:induction false} DevStepKeepsInv(d: DevState, step: DevStep)
    requires DevInv(d) && DevEnabled(d, step)
    ensures DevInv(DevApply(d, step))
  {
    match step
    case Runtime(st) => if st.Call? { CallKeepsDevInv(d); } else { QuietKeepsDevInv(d, st); }
    case InvalidateKey(r) => InvalidateKeepsDevInv(d, r);
    case _ => LocalKeepsDevInv(d, step);
  }

  ghost function DevRun(d: DevState, steps: seq<DevStep>): (r: Option<DevState>)
    requires DevInv(d)
    ensures r.Some? ==> DevInv(r.value)
    decreases |steps|
  {
    if steps == [] then Some(d)
    else if !DevEnabled(d, steps[0]) then None
    else
      DevStepKeepsInv(d, steps[0]);
      DevRun(DevApply(d, steps[0]), steps[1..])
  }

  ghost predicate DevReachable(d: DevState) {
    exists disk, steps :: DevInv(Start(disk)) && DevRun(Start(disk), steps) == Some(d)
  }

  /** A call records, as it begins, a snapshot no older than that of every finished reload. */
  lemma {:induction false} CallBeginsAfterReloads(d: DevState, r: nat)
    requires DevReachable(d) && r < |d.reloads| && d.reloads[r].Finished?
    ensures DevInv(d)
    ensures var d' := DevApply(d, Runtime(Call(DEV_KEY)));
      |d.mgr.threads| in d'.begun && d.reloads[r].n <= d'.begun[|d.mgr.threads|]
  {
    assert ReloadOk(d, d.reloads[r]);
  }

  /** A call that began after snapshot `begun[t]` was installed and invalidated is answered by
      a pool, or by a build error, that comes from that snapshot or a later one, even when an
      older build was in flight across the reload. */
  lemma {:induction false} AnswersAreFresh(d: DevState, t: nat)
    requires DevReachable(d) && t in d.begun && t < |d.mgr.threads|
    requires d.mgr.threads[t].Answered? && d.mgr.threads[t].answer != ContextDone
    ensures d.mgr.threads[t].mp in d.read
    ensures d.begun[t] <= d.read[d.mgr.threads[t].mp] < |d.contents|
  {
    FreshAnswer(d, t);
  }

  lemma {:induction false} FreshAnswer(d: DevState, t: nat)
    requires DevInv(d) && t in d.begun && t < |d.mgr.threads|
    requires d.mgr.threads[t].Answered? && d.mgr.threads[t].answer != ContextDone
    ensures d.mgr.threads[t].mp in d.read
    ensures d.begun[t] <= d.read[d.mgr.threads[t].mp] < |d.contents|
  {
    assert CallOk(d, t);
    assert ThreadOk(d.mgr, d.mgr.threads[t]);
    assert PoolOk(d, d.mgr.threads[t].mp);
  }

  // ---- Freshness of the directory's contents ----

  /** Every snapshot after the first was installed by some reload. */
  ghost predicate Sourced(d: DevState) {
    forall n: nat :: 1 <= n < |d.contents| ==> InstalledBy(d, n)
  }

  ghost predicate InstalledBy(d: DevState, n: nat) {
    exists r :: 0 <= r < |d.reloads| && !d.reloads[r].ReadDisk? && d.reloads[r].n == n
  }

  lemma {:induction false} StepKeepsSourced(d: DevState, step: DevStep)
    requires DevInv(d) && DevEnabled(d, step) && Sourced(d)
    ensures Sourced(DevApply(d, step))
  {
    var d' := DevApply(d, step);
    forall n: nat | 1 <= n < |d'.contents| ensures InstalledBy(d', n) {
      if n < |d.contents| {
        assert InstalledBy(d, n);
        var r :| 0 <= r < |d.reloads| && !d.reloads[r].ReadDisk? && d.reloads[r].n == n;
        assert !d'.reloads[r].ReadDisk? && d'.reloads[r].n == n;
      } else {
        assert !d'.reloads[step.r].ReadDisk? && d'.reloads[step.r].n == n;
      }
    }
  }

  lemma {:induction false} RunKeepsSourced(d: DevState, steps: seq<DevStep>, d': DevState)
    requires DevInv(d) && Sourced(d) && DevRun(d, steps) == Some(d')
    ensures Sourced(d')
    decreases |steps|
  {
    if steps != [] {
      StepKeepsSourced(d, steps[0]);
      DevStepKeepsInv(d, steps[0]);
      RunKeepsSourced(DevApply(d, steps[0]), steps[1..], d');
    }
  }

  /** Freshness is about the order of st.set. When snapshots were installed in the order in
      which the directory was read, it is also freshness of the directory's contents, even while
      reloads are under way. */
  lemma {:induction false} InOrderReloadsServeNewContents(d: DevState, t: nat, r: nat)
    requires DevReachable(d) && t in d.begun && t < |d.mgr.threads|
    requires d.mgr.threads[t].Answered? && d.mgr.threads[t].answer != ContextDone
    requires r < |d.reloads| && d.reloads[r].Finished? && d.reloads[r].n <= d.begun[t]
    requires forall i, j :: 0 <= i <= j < |d.contents| ==> d.contents[i] <= d.contents[j]
    ensures d.mgr.threads[t].mp in d.read && d.read[d.mgr.threads[t].mp] < |d.contents|
    ensures d.reloads[r].disk <= d.contents[d.read[d.mgr.threads[t].mp]]
  {
    AnswersAreFresh(d, t);
    assert ReloadOk(d, d.reloads[r]);
  }

  /** No reload stands between its set and its Invalidate. */
  ghost predicate Settled(d: DevState) {
    forall r :: 0 <= r < |d.reloads| ==> !d.reloads[r].Installed?
  }

  /** Then the newest finished snapshot is the newest there is. */
  lemma {:induction false} SettledFloor(d: DevState)
    requires DevInv(d) && Sourced(d) && Settled(d)
    ensures d.floor == |d.contents| - 1
  {
    var n := |d.contents| - 1;
    if n >= 1 {
      assert InstalledBy(d, n);
      var r :| 0 <= r < |d.reloads| && !d.reloads[r].ReadDisk? && d.reloads[r].n == n;
      assert ReloadOk(d, d.reloads[r]);
    }
  }

  ghost predicate NoSet(steps: seq<DevStep>) {
    forall i :: 0 <= i < |steps| ==> !steps[i].SetSnapshot?
  }

  /** Without a set the snapshots stay, and calls keep what they began with. */
  lemma {:induction false} NoSetKeeps(d: DevState, steps: seq<DevStep>, d': DevState, t: nat)
    requires DevInv(d) && DevRun(d, steps) == Some(d') && NoSet(steps)
    requires t < |d.mgr.threads| && t in d.begun
    ensures d'.contents == d.contents && t in d'.begun && d'.begun[t] == d.begun[t]
    ensures DevInv(d') && t < |d'.mgr.threads|
    decreases |steps|
  {
    if steps != [] {
      var next := DevApply(d, steps[0]);
      DevStepKeepsInv(d, steps[0]);
      assert !steps[0].SetSnapshot?;
      assert CallOk(next, t);
      BegunStays(d, steps[0], t);
      NoSetKeeps(next, steps[1..], d', t);
    }
  }

  lemma {:induction false} BegunStays(d: DevState, step: DevStep, t: nat)
    requires DevInv(d) && DevEnabled(d, step) && !step.SetSnapshot?
    requires t < |d.mgr.threads| && t in d.begun
    ensures DevApply(d, step).contents == d.contents
    ensures t in DevApply(d, step).begun && DevApply(d, step).begun[t] == d.begun[t]
  {
  }

  /** The directory state behind the newest snapshot is as new as what every finished reload read. */
  ghost predicate LastIsNewest(d: DevState)
    requires d.contents != []
  {
    forall r :: 0 <= r < |d.reloads| && d.reloads[r].Finished? ==> d.reloads[r].disk <= d.contents[|d.contents| - 1]
  }

  /** In a reachable state without a reload between set and Invalidate, a call that begins now and
      is answered before the next set is served exactly the newest snapshot. */
  lemma {:induction false} ServesLastInstalled(d: DevState, steps: seq<DevStep>, d': DevState)
    requires DevReachable(d) && Settled(d) && NoSet(steps)
    requires DevInv(d) && DevRun(d, [Runtime(Call(DEV_KEY))] + steps) == Some(d')
    requires var t := |d.mgr.threads|;
      t < |d'.mgr.threads| && d'.mgr.threads[t].Answered? && d'.mgr.threads[t].answer != ContextDone
    ensures var mp := d'.mgr.threads[|d.mgr.threads|].mp;
      mp in d'.read && d'.read[mp] == |d.contents| - 1 && d'.contents == d.contents
  {
    var disk, run :| DevInv(Start(disk)) && DevRun(Start(disk), run) == Some(d);
    RunKeepsSourced(Start(disk), run, d);
    SettledFloor(d);
    NextCallReadsLast(d, steps, d');
  }

  lemma {:induction false} CallBeginsAtFloor(d: DevState)
    requires DevInv(d)
    ensures var called := DevApply(d, Runtime(Call(DEV_KEY)));
      && DevInv(called) && called.contents == d.contents
      && |d.mgr.threads| in called.begun && called.begun[|d.mgr.threads|] == d.floor
      && |d.mgr.threads| < |called.mgr.threads|
  {
    var called := DevApply(d, Runtime(Call(DEV_KEY)));
    CallKeepsDevInv(d);
    assert CallOk(called, |d.mgr.threads|);
  }

  lemma {:induction false} NextCallReadsLast(d: DevState, steps: seq<DevStep>, d': DevState)
    requires DevInv(d) && d.floor == |d.contents| - 1 && NoSet(steps)
    requires DevRun(d, [Runtime(Call(DEV_KEY))] + steps) == Some(d')
    requires var t := |d.mgr.threads|;
      t < |d'.mgr.threads| && d'.mgr.threads[t].Answered? && d'.mgr.threads[t].answer != ContextDone
    ensures var mp := d'.mgr.threads[|d.mgr.threads|].mp;
      mp in d'.read && d'.read[mp] == |d.contents| - 1 && d'.contents == d.contents
  {
    var called := DevApply(d, Runtime(Call(DEV_KEY)));
    RunStep(d, Runtime(Call(DEV_KEY)), steps);
    CallBeginsAtFloor(d);
    NoSetKeeps(called, steps, d', |d.mgr.threads|);
    FreshAnswer(d', |d.mgr.threads|);
  }

  /** A firing of the closure reads the directory only when no other stands between its read and
      its set, and finds it no older than any did before. */
  ghost predicate InTurn(d: DevState, step: DevStep)
    requires d.contents != []
  {
    step.StartReload? ==>
      && d.contents[0] <= step.disk
      && forall r :: 0 <= r < |d.reloads| ==> !d.reloads[r].ReadDisk? && d.reloads[r].disk <= step.disk
  }

  ghost predicate Ordered(d: DevState) {
    && d.contents != [] && d.contents[0] <= d.contents[|d.contents| - 1]
    && (forall r :: 0 <= r < |d.reloads| && !d.reloads[r].ReadDisk? ==>
          d.reloads[r].disk <= d.contents[|d.contents| - 1])
    && (forall r :: 0 <= r < |d.reloads| && d.reloads[r].ReadDisk? ==>
          d.contents[|d.contents| - 1] <= d.reloads[r].disk)
    && (forall r, q :: 0 <= r < q < |d.reloads| ==> !d.reloads[r].ReadDisk? || !d.reloads[q].ReadDisk?)
  }

  /** What the newest snapshot shows is what some reload read, or the start. */
  lemma {:induction false} InTurnStep(d: DevState, step: DevStep)
    requires DevInv(d) && Sourced(d) && DevEnabled(d, step) && Ordered(d) && InTurn(d, step)
    ensures Ordered(DevApply(d, step))
  {
    if step.StartReload? {
      var n := |d.contents| - 1;
      if n >= 1 {
        assert InstalledBy(d, n);
        var r :| 0 <= r < |d.reloads| && !d.reloads[r].ReadDisk? && d.reloads[r].n == n;
        assert ReloadOk(d, d.reloads[r]);
      }
    }
  }

  /** Firings that take turns keep the condition, in every run. */
  lemma {:induction false} TurnsKeepLastNewest(d: DevState, steps: seq<DevStep>, d': DevState)
    requires DevInv(d) && Sourced(d) && Ordered(d) && DevRun(d, steps) == Some(d') && AllInTurn(d, steps)
    ensures DevInv(d') && Ordered(d') && LastIsNewest(d')
    decreases |steps|
  {
    if steps != [] {
      InTurnStep(d, steps[0]);
      StepKeepsSourced(d, steps[0]);
      DevStepKeepsInv(d, steps[0]);
      TurnsKeepLastNewest(DevApply(d, steps[0]), steps[1..], d');
    }
  }

  ghost predicate AllInTurn(d: DevState, steps: seq<DevStep>)
    requires DevInv(d)
    decreases |steps|
  {
    steps != [] && DevEnabled(d, steps[0]) ==>
      && InTurn(d, steps[0])
      && (DevStepKeepsInv(d, steps[0]); AllInTurn(DevApply(d, steps[0]), steps[1..]))
  }

  lemma {:induction false} TurnsFromStart(disk: nat, steps: seq<DevStep>, d: DevState)
    requires DevInv(Start(disk)) && DevRun(Start(disk), steps) == Some(d) && AllInTurn(Start(disk), steps)
    ensures DevInv(d) && LastIsNewest(d)
  {
    TurnsKeepLastNewest(Start(disk), steps, d);
  }

  lemma {:induction false} RunStep(d: DevState, step: DevStep, rest: seq<DevStep>)
    requires DevInv(d) && DevEnabled(d, step)
    ensures DevInv(DevApply(d, step))
    ensures DevRun(d, [step] + rest) == DevRun(DevApply(d, step), rest)
  {
    DevStepKeepsInv(d, step);
    assert ([step] + rest)[1..] == rest;
  }

  /** Two overlapping firings of the reload closure: the first reads directory state 1, the
      second reads 2, installs and invalidates, and only then the first installs and
      invalidates. */
  const INSTALL_OLD: seq<DevStep> := [SetSnapshot(0)] + ([InvalidateKey(0)] + [])
  const INSTALL_NEW: seq<DevStep> := [SetSnapshot(1)] + ([InvalidateKey(1)] + INSTALL_OLD)
  const OVERLAP: seq<DevStep> := [StartReload(1)] + ([StartReload(2)] + INSTALL_NEW)

  function Idle(contents: seq<nat>, reloads: seq<Reload>, floor: nat): DevState {
    DevState(INIT, contents, reloads, floor, [], map[], map[])
  }

  const BOTH_READ := Idle([0], [ReadDisk(1), ReadDisk(2)], 0)
  const NEW_SERVED := Idle([0, 2], [ReadDisk(1), Finished(2, 1)], 1)
  const AFTER_OVERLAP := Idle([0, 2, 1], [Finished(1, 2), Finished(2, 1)], 2)

  /** With nothing in the map, Invalidate does nothing and HandlerFor inserts the first pool. */
  lemma {:induction false} OnEmptyManager()
    ensures Inv(DEV, INIT) && Apply(DEV, INIT, Invalidate(DEV_KEY)) == INIT
    ensures Apply(DEV, INIT, Call(DEV_KEY)) ==
              State(Table(map[DEV_KEY := 0], [], [DEV_KEY]), [None], [Building(0)], multiset{})
  {
    MissShape(0, EMPTY, DEV_KEY);
  }

  lemma {:induction false} BothRead()
    ensures DevInv(Start(0)) && DevInv(BOTH_READ) && DevRun(Start(0), OVERLAP) == DevRun(BOTH_READ, INSTALL_NEW)
  {
    RunStep(Start(0), StartReload(1), [StartReload(2)] + INSTALL_NEW);
    RunStep(DevApply(Start(0), StartReload(1)), StartReload(2), INSTALL_NEW);
    assert DevApply(DevApply(Start(0), StartReload(1)), StartReload(2)) == BOTH_READ;
  }

  const NEW_SET := Idle([0, 2], [ReadDisk(1), Installed(2, 1)], 0)

  lemma {:induction false} NewSet()
    requires DevInv(BOTH_READ)
    ensures DevInv(NEW_SET) && DevRun(BOTH_READ, INSTALL_NEW) == DevRun(NEW_SET, [InvalidateKey(1)] + INSTALL_OLD)
  {
    RunStep(BOTH_READ, SetSnapshot(1), [InvalidateKey(1)] + INSTALL_OLD);
    assert DevApply(BOTH_READ, SetSnapshot(1)) == NEW_SET;
  }

  lemma {:induction false} NewInstalled()
    requires DevInv(NEW_SET)
    ensures DevInv(NEW_SERVED)
    ensures DevRun(NEW_SET, [InvalidateKey(1)] + INSTALL_OLD) == DevRun(NEW_SERVED, INSTALL_OLD)
  {
    OnEmptyManager();
    RunStep(NEW_SET, InvalidateKey(1), INSTALL_OLD);
    assert DevApply(NEW_SET, InvalidateKey(1)) == NEW_SERVED;
  }

  lemma {:induction false} OldInstalled()
    requires DevInv(NEW_SERVED)
    ensures DevInv(AFTER_OVERLAP) && DevRun(NEW_SERVED, INSTALL_OLD) == Some(AFTER_OVERLAP)
  {
    OnEmptyManager();
    RunStep(NEW_SERVED, SetSnapshot(0), [InvalidateKey(0)] + []);
    var d := DevApply(NEW_SERVED, SetSnapshot(0));
    RunStep(d, InvalidateKey(0), []);
    assert DevApply(d, InvalidateKey(0)) == AFTER_OVERLAP;
  }

  const BUILT := Outcome(true, None)
  const ANSWER: seq<DevStep> := [Runtime(FinishBuild(0, BUILT))] + ([Runtime(Select(0, false))] + [])
  const REQUEST: seq<DevStep> := [Runtime(Call(DEV_KEY))] + ([ReadSnapshot(0)] + ANSWER)

  const BUILDING := AFTER_OVERLAP.(
    mgr := State(Table(map[DEV_KEY := 0], [], [DEV_KEY]), [None], [Building(0)], multiset{}),
    born := [2], read := map[0 := 2], begun := map[0 := 2])

  const ANSWERED := BUILDING.(
    mgr := State(Table(map[DEV_KEY := 0], [], [DEV_KEY]), [Some(BUILT)], [Answered(0, Handler(0))], multiset{Built(0)}))

  lemma {:induction false} RequestBuilds()
    requires DevInv(AFTER_OVERLAP)
    ensures DevInv(BUILDING) && DevRun(AFTER_OVERLAP, REQUEST) == DevRun(BUILDING, ANSWER)
  {
    OnEmptyManager();
    RunStep(AFTER_OVERLAP, Runtime(Call(DEV_KEY)), [ReadSnapshot(0)] + ANSWER);
    var d := DevApply(AFTER_OVERLAP, Runtime(Call(DEV_KEY)));
    assert d == BUILDING.(read := map[]);
    RunStep(d, ReadSnapshot(0), ANSWER);
    assert DevApply(d, ReadSnapshot(0)) == BUILDING;
  }

  lemma {:induction false} RequestAnswered()
    requires DevInv(BUILDING)
    ensures DevRun(BUILDING, ANSWER) == Some(ANSWERED)
  {
    RunStep(BUILDING, Runtime(FinishBuild(0, BUILT)), [Runtime(Select(0, false))] + []);
    var d := DevApply(BUILDING, Runtime(FinishBuild(0, BUILT)));
    RunStep(d, Runtime(Select(0, false)), []);
    assert DevApply(d, Runtime(Select(0, false))) == ANSWERED;
  }

  /** Then a call that begins after both reloads finished is served directory state 1, although
      the reload that read state 2 had finished: the timer does not serialise reloads. */
  lemma {:induction false} OverlappingReloadsServeOldContents()
    ensures DevInv(Start(0)) && DevRun(Start(0), OVERLAP) == Some(AFTER_OVERLAP)
    ensures DevInv(AFTER_OVERLAP) && DevRun(AFTER_OVERLAP, REQUEST) == Some(ANSWERED)
    ensures ANSWERED.reloads[1] == Finished(2, 1) && ANSWERED.begun[0] >= 1
    ensures ANSWERED.mgr.threads[0] == Answered(0, Handler(0))
    ensures ANSWERED.contents[ANSWERED.read[0]] == 1
  {
    BothRead();
    NewSet();
    NewInstalled();
    OldInstalled();
    RequestBuilds();
    RequestAnswered();
  }
}
