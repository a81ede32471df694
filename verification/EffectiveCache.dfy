/** The effective-policy cache in front of the stored settings: every answer equals recomputing
    from the settings the call just read, as long as settings updates do not overlap. */
module EffectiveCache {
  import opened Common
  import opened FetchPolicy
  import opened Text

  datatype LevelId = Organization | Workspace(id: string)

  /** A stored settings row; `fetch` is None when the stored text does not parse. */
  datatype Settings = Settings(gen: nat, fetch: Option<Level>)

  datatype Owner = User | OwnedBy(ws: string)

  /** A function version: its owner and its manifest never change. */
  datatype Version = Version(owner: Owner, manifest: Level)

  // ---- What recomputing gives ----

  function Levels(org: Level, ws: Option<Level>, manifest: Level): seq<Level> {
    [org] + (if ws.Some? then [ws.value] else []) + [manifest]
  }

  /** A request is allowed when the organization, the workspace if there is one, and the manifest
      each allow it. */
  lemma {:induction false} AllThreeDecide(org: Level, ws: Option<Level>, manifest: Level, host: string, port: int)
    ensures Decision(Effective(Levels(org, ws, manifest)), host, port)
            <==> Allows(org, host, port) && (ws.Some? ==> Allows(ws.value, host, port)) && Allows(manifest, host, port)
  {
    var levels := Levels(org, ws, manifest);
    DecisionIsMeet(levels, host, port);
    assert levels[0] == org && levels[|levels| - 1] == manifest && (ws.Some? ==> levels[1] == ws.value);
    assert forall l :: l in levels <==> l == org || (ws.Some? && l == ws.value) || l == manifest;
  }

  const REFUSAL := Effective([Level(Deny, [])])

  /** The policy resolveFetch denies with allows nothing. */
  lemma {:induction false} RefusalAllowsNothing(host: string, port: int)
    ensures !Decision(REFUSAL, host, port)
  {
    var l := Level(Deny, []);
    DecisionIsMeet([l], host, port);
    assert l in [l];
  }

  predicate Usable(row: Option<Settings>) { row.Some? && row.value.fetch.Some? }

  function WsGen(ws: Option<Settings>): nat { if ws.Some? then ws.value.gen else 0 }

  function WsFetch(ws: Option<Settings>): Option<Level> {
    if ws.Some? then ws.value.fetch else None
  }

  // ---- Keys ----

  function Key(org: nat, ws: nat, version: string): string {
    Itoa(org) + ":" + Itoa(ws) + ":" + version
  }

  lemma {:induction false} FirstColon(a: string, b: string, x: string, y: string)
    requires ':' !in a && ':' !in b && a + ":" + x == b + ":" + y
    ensures a == b && x == y
  {
    var s := a + ":" + x;
    assert a == s[..|a|] && s[|a|] == ':' && b == s[..|b|] && s[|b|] == ':';
    assert forall i :: 0 <= i < |a| ==> s[i] in a;
    assert forall i :: 0 <= i < |b| ==> s[i] in b;
    assert x == s[|a| + 1..] && y == s[|b| + 1..];
  }

  /** No two generation pairs and versions share a key, whatever the version id contains. */
  lemma {:induction false} KeyInjective(o1: nat, w1: nat, v1: string, o2: nat, w2: nat, v2: string)
    requires Key(o1, w1, v1) == Key(o2, w2, v2)
    ensures o1 == o2 && w1 == w2 && v1 == v2
  {
    var r1, r2 := Itoa(w1) + ":" + v1, Itoa(w2) + ":" + v2;
    assert Key(o1, w1, v1) == Itoa(o1) + ":" + r1;
    assert Key(o2, w2, v2) == Itoa(o2) + ":" + r2;
    FirstColon(Itoa(o1), Itoa(o2), r1, r2);
    FirstColon(Itoa(w1), Itoa(w2), v1, v2);
    ItoaInjective(o1, o2);
    ItoaInjective(w1, w2);
  }

  // ---- The state machine ----

  datatype Call =
    | Begun(version: string, seen: map<LevelId, nat>)
    | HasOrg(version: string, seen: map<LevelId, nat>, org: Settings)
    | HasBoth(version: string, seen: map<LevelId, nat>, org: Settings, ws: Option<Settings>)
    | Missed(version: string, seen: map<LevelId, nat>, org: Settings, ws: Option<Settings>)
    | Returned(version: string, seen: map<LevelId, nat>, org: Settings, ws: Option<Settings>, result: Effect)
    | Refused(version: string)

  /** An update handler between its Get and its Update. */
  datatype Update = Update(level: LevelId, base: Settings)

  /** `history` records which policy each generation of each level has carried. */
  datatype State = State(
    settings: map<LevelId, Settings>,
    history: map<(LevelId, nat), Option<Level>>,
    updates: map<nat, Update>,
    entries: map<string, Effect>,
    calls: map<nat, Call>)

  datatype Event =
    | BeginUpdate(u: nat, level: LevelId)
    | WriteUpdate(u: nat, fetch: Option<Level>)
    | CreateWorkspace(id: string, fetch: Option<Level>)
    | DeleteWorkspace(id: string)
    | Begin(c: nat, version: string)
    | ReadOrg(c: nat, answered: bool)
    | ReadWorkspace(c: nat, answered: bool)
    | Probe(c: nat)
    | Store(c: nat)

  function Row(s: State, l: LevelId): Option<Settings> {
    if l in s.settings then Some(s.settings[l]) else None
  }

  function Gens(s: State): map<LevelId, nat> {
    map l | l in s.settings :: s.settings[l].gen
  }

  function Put(s: State, l: LevelId, row: Settings): State {
    s.(settings := s.settings[l := row], history := s.history[(l, row.gen) := row.fetch])
  }

  ghost predicate Step(versions: map<string, Version>, s: State, e: Event, t: State) {
    match e
    case BeginUpdate(u, l) =>
      u !in s.updates && l in s.settings && t == s.(updates := s.updates[u := Update(l, s.settings[l])])
    case WriteUpdate(u, fetch) =>
      && u in s.updates && s.updates[u].level in s.settings
      && t == Put(s.(updates := s.updates - {u}), s.updates[u].level, Settings(s.updates[u].base.gen + 1, fetch))
    case CreateWorkspace(id, fetch) =>
      && (forall g: nat :: (Workspace(id), g) !in s.history)
      && t == Put(s, Workspace(id), Settings(1, fetch))
    case DeleteWorkspace(id) =>
      t == s.(settings := s.settings - {Workspace(id)})
    case Begin(c, v) =>
      c !in s.calls && v in versions && t == s.(calls := s.calls[c := Begun(v, Gens(s))])
    case ReadOrg(c, answered) =>
      && c in s.calls && s.calls[c].Begun?
      && t == s.(calls := s.calls[c := AfterOrg(s.calls[c], if answered then Row(s, Organization) else None)])
    case ReadWorkspace(c, answered) =>
      && c in s.calls && s.calls[c].HasOrg? && s.calls[c].version in versions
      && var owner := versions[s.calls[c].version].owner;
         t == s.(calls := s.calls[c :=
           if owner.User? then HasBoth(s.calls[c].version, s.calls[c].seen, s.calls[c].org, None)
           else AfterWorkspace(s.calls[c], if answered then Row(s, Workspace(owner.ws)) else None)])
    case Probe(c) =>
      && c in s.calls && s.calls[c].HasBoth?
      && var call := s.calls[c];
         var k := Key(call.org.gen, WsGen(call.ws), call.version);
         t == s.(calls := s.calls[c :=
           if k in s.entries then Returned(call.version, call.seen, call.org, call.ws, s.entries[k])
           else Missed(call.version, call.seen, call.org, call.ws)])
    case Store(c) =>
      && c in s.calls && s.calls[c].Missed? && s.calls[c].org.fetch.Some? && s.calls[c].version in versions
      && var call := s.calls[c];
         var eff := Effective(Levels(call.org.fetch.value, WsFetch(call.ws), versions[call.version].manifest));
         t == s.(entries := s.entries[Key(call.org.gen, WsGen(call.ws), call.version) := eff],
                 calls := s.calls[c := Returned(call.version, call.seen, call.org, call.ws, eff)])
  }

  function AfterOrg(call: Call, row: Option<Settings>): Call
    requires call.Begun?
  {
    if Usable(row) then HasOrg(call.version, call.seen, row.value) else Refused(call.version)
  }

  function AfterWorkspace(call: Call, row: Option<Settings>): Call
    requires call.HasOrg?
  {
    if Usable(row) then HasBoth(call.version, call.seen, call.org, row) else Refused(call.version)
  }

  /** A row as some generation of the level really carried it. */
  ghost predicate Carried(h: map<(LevelId, nat), Option<Level>>, l: LevelId, row: Settings) {
    (l, row.gen) in h && h[(l, row.gen)] == row.fetch
  }

  /** The organization row exists from the start at some generation; no call has been made. */
  ghost predicate Initial(s: State) {
    && s.updates == map[] && s.entries == map[] && s.calls == map[]
    && Organization in s.settings
    && (forall l :: l in s.settings ==> Carried(s.history, l, s.settings[l]))
    && (forall l, g :: (l, g) in s.history ==> l in s.settings && g == s.settings[l].gen)
  }

  // ---- The invariant ----

  ghost predicate SettingsInv(s: State) {
    && (forall l :: l in s.settings ==> Carried(s.history, l, s.settings[l]))
    && (forall l, g :: (l, g) in s.history && l in s.settings ==> g <= s.settings[l].gen)
  }

  /** `eff` is what the policies recorded at these generations give for the version. */
  ghost predicate Agrees(h: map<(LevelId, nat), Option<Level>>, og: nat, wg: nat, v: Version, eff: Effect) {
    && (Organization, og) in h && h[(Organization, og)].Some?
    && match v.owner
       case User =>
         wg == 0 && eff == Effective(Levels(h[(Organization, og)].value, None, v.manifest))
       case OwnedBy(ws) =>
         && (Workspace(ws), wg) in h && h[(Workspace(ws), wg)].Some?
         && eff == Effective(Levels(h[(Organization, og)].value, h[(Workspace(ws), wg)], v.manifest))
  }

  ghost predicate EntriesInv(versions: map<string, Version>, s: State) {
    forall og: nat, wg: nat, v: string :: Key(og, wg, v) in s.entries ==>
      v in versions && Agrees(s.history, og, wg, versions[v], s.entries[Key(og, wg, v)])
  }

  /** A generation read by a call is no older than the one current when the call began. */
  predicate NotBefore(seen: map<LevelId, nat>, l: LevelId, row: Settings) {
    l in seen ==> seen[l] <= row.gen
  }

  ghost predicate OrgOk(h: map<(LevelId, nat), Option<Level>>, seen: map<LevelId, nat>, org: Settings) {
    org.fetch.Some? && Carried(h, Organization, org) && NotBefore(seen, Organization, org)
  }

  ghost predicate WsOk(h: map<(LevelId, nat), Option<Level>>, seen: map<LevelId, nat>, owner: Owner,
                       ws: Option<Settings>) {
    match owner
    case User => ws == None
    case OwnedBy(id) =>
      Usable(ws) && Carried(h, Workspace(id), ws.value) && NotBefore(seen, Workspace(id), ws.value)
  }

  ghost predicate CallInv(versions: map<string, Version>, s: State, call: Call) {
    && call.version in versions
    && match call
       case Begun(v, seen) => SeenInv(s, seen)
       case HasOrg(v, seen, org) => SeenInv(s, seen) && OrgOk(s.history, seen, org)
       case HasBoth(v, seen, org, ws) =>
         OrgOk(s.history, seen, org) && WsOk(s.history, seen, versions[v].owner, ws)
       case Missed(v, seen, org, ws) =>
         OrgOk(s.history, seen, org) && WsOk(s.history, seen, versions[v].owner, ws)
       case Returned(v, seen, org, ws, result) =>
         && OrgOk(s.history, seen, org) && WsOk(s.history, seen, versions[v].owner, ws)
         && result == Effective(Levels(org.fetch.value, WsFetch(ws), versions[v].manifest))
       case Refused(v) => true
  }

  ghost predicate SeenInv(s: State, seen: map<LevelId, nat>) {
    forall l :: l in seen ==> (l, seen[l]) in s.history
  }

  ghost predicate CallsInv(versions: map<string, Version>, s: State) {
    forall c :: c in s.calls ==> CallInv(versions, s, s.calls[c])
  }

  ghost predicate Inv(versions: map<string, Version>, s: State) {
    SettingsInv(s) && EntriesInv(versions, s) && CallsInv(versions, s)
  }

  lemma {:induction false} InitialInv(versions: map<string, Version>, s: State)
    requires Initial(s)
    ensures Inv(versions, s)
  {}

  /** A settings write is serial when nobody has written that level since its handler read it. */
  ghost predicate Serial(s: State, e: Event) {
    e.WriteUpdate? && e.u in s.updates && s.updates[e.u].level in s.settings
    ==> s.settings[s.updates[e.u].level].gen == s.updates[e.u].base.gen
  }

  /** A row written under a generation nobody used before disturbs nothing. */
  lemma {:induction false} PutKeepsInv(versions: map<string, Version>, s: State, l: LevelId, row: Settings)
    requires Inv(versions, s)
    requires forall g: nat :: (l, g) in s.history ==> g < row.gen
    requires l in s.settings ==> s.settings[l].gen < row.gen
    ensures Inv(versions, Put(s, l, row))
  {
    var t := Put(s, l, row);
    assert (l, row.gen) !in s.history;
    forall og: nat, wg: nat, v: string | Key(og, wg, v) in t.entries
      ensures v in versions && Agrees(t.history, og, wg, versions[v], t.entries[Key(og, wg, v)])
    {
      assert Agrees(s.history, og, wg, versions[v], s.entries[Key(og, wg, v)]);
    }
    forall c | c in t.calls ensures CallInv(versions, t, t.calls[c]) {
      assert CallInv(versions, s, s.calls[c]);
    }
  }

  lemma {:induction false} CallStepKeepsInv(versions: map<string, Version>, s: State, c: nat, t: State, call: Call)
    requires Inv(versions, s) && t == s.(calls := s.calls[c := call]) && CallInv(versions, s, call)
    ensures Inv(versions, t)
  {
    forall d | d in t.calls ensures CallInv(versions, t, t.calls[d]) {
      assert d != c ==> CallInv(versions, s, s.calls[d]);
    }
  }

  lemma {:induction false} StoreKeepsInv(versions: map<string, Version>, s: State, c: nat, t: State)
    requires Inv(versions, s) && Step(versions, s, Store(c), t)
    ensures Inv(versions, t)
  {
    var call := s.calls[c];
    assert CallInv(versions, s, call);
    var og, wg := call.org.gen, WsGen(call.ws);
    forall o: nat, w: nat, v: string | Key(o, w, v) in t.entries
      ensures v in versions && Agrees(t.history, o, w, versions[v], t.entries[Key(o, w, v)])
    {
      if Key(o, w, v) == Key(og, wg, call.version) {
        KeyInjective(o, w, v, og, wg, call.version);
      }
    }
    forall d | d in t.calls ensures CallInv(versions, t, t.calls[d]) {
      assert CallInv(versions, s, s.calls[d]);
    }
  }

  lemma {:induction false} ProbeKeepsInv(versions: map<string, Version>, s: State, c: nat, t: State)
    requires Inv(versions, s) && Step(versions, s, Probe(c), t)
    ensures Inv(versions, t)
  {
    var call := s.calls[c];
    assert CallInv(versions, s, call);
    var k := Key(call.org.gen, WsGen(call.ws), call.version);
    if k in s.entries {
      assert Agrees(s.history, call.org.gen, WsGen(call.ws), versions[call.version], s.entries[k]);
    }
    CallStepKeepsInv(versions, s, c, t, t.calls[c]);
  }

  lemma {:induction false} ReadKeepsInv(versions: map<string, Version>, s: State, e: Event, t: State)
    requires Inv(versions, s) && Step(versions, s, e, t)
    requires e.Begin? || e.ReadOrg? || e.ReadWorkspace?
    ensures Inv(versions, t)
  {
    if e.Begin? {
      assert forall l :: l in Gens(s) ==> Carried(s.history, l, s.settings[l]);
    } else {
      assert CallInv(versions, s, s.calls[e.c]);
    }
    CallStepKeepsInv(versions, s, e.c, t, t.calls[e.c]);
  }

  /** Steps that touch neither the history, the entries nor the calls keep the invariant. */
  lemma {:induction false} FrameKeepsInv(versions: map<string, Version>, s: State, t: State)
    requires Inv(versions, s)
    requires t.history == s.history && t.entries == s.entries && t.calls == s.calls
    requires forall l :: l in t.settings ==> l in s.settings && t.settings[l] == s.settings[l]
    ensures Inv(versions, t)
  {
    forall c | c in t.calls ensures CallInv(versions, t, t.calls[c]) {
      assert CallInv(versions, s, s.calls[c]);
    }
  }

  lemma {:induction false} WriteKeepsInv(versions: map<string, Version>, s: State, e: Event, t: State)
    requires Inv(versions, s) && Step(versions, s, e, t) && Serial(s, e)
    requires e.WriteUpdate? || e.CreateWorkspace?
    ensures Inv(versions, t)
  {
    if e.WriteUpdate? {
      var m := s.(updates := s.updates - {e.u});
      FrameKeepsInv(versions, s, m);
      PutKeepsInv(versions, m, s.updates[e.u].level, Settings(s.updates[e.u].base.gen + 1, e.fetch));
    } else {
      assert Workspace(e.id) in s.settings ==> Carried(s.history, Workspace(e.id), s.settings[Workspace(e.id)]);
      PutKeepsInv(versions, s, Workspace(e.id), Settings(1, e.fetch));
    }
  }

  /** Every step keeps the invariant, settings writes provided they are serial. */
  lemma {:induction false} StepKeepsInv(versions: map<string, Version>, s: State, e: Event, t: State)
    requires Inv(versions, s) && Step(versions, s, e, t) && Serial(s, e)
    ensures Inv(versions, t)
  {
    match e
    case BeginUpdate(u, l) => FrameKeepsInv(versions, s, t);
    case WriteUpdate(u, fetch) => WriteKeepsInv(versions, s, e, t);
    case CreateWorkspace(id, fetch) => WriteKeepsInv(versions, s, e, t);
    case DeleteWorkspace(id) => FrameKeepsInv(versions, s, t);
    case Begin(c, v) => ReadKeepsInv(versions, s, e, t);
    case ReadOrg(c, answered) => ReadKeepsInv(versions, s, e, t);
    case ReadWorkspace(c, answered) => ReadKeepsInv(versions, s, e, t);
    case Probe(c) => ProbeKeepsInv(versions, s, c, t);
    case Store(c) => StoreKeepsInv(versions, s, c, t);
  }

  // ---- Whole runs ----

  ghost predicate SerialRun(versions: map<string, Version>, trace: seq<State>, events: seq<Event>) {
    && |trace| == |events| + 1 && Initial(trace[0])
    && (forall i {:trigger events[i]} :: 0 <= i < |events| ==> Step(versions, trace[i], events[i], trace[i + 1]))
    && (forall i {:trigger events[i]} :: 0 <= i < |events| ==> Serial(trace[i], events[i]))
  }

  lemma {:induction false} RunKeepsInv(versions: map<string, Version>, trace: seq<State>, events: seq<Event>, n: nat)
    requires SerialRun(versions, trace, events) && n < |trace|
    ensures Inv(versions, trace[n])
  {
    if n == 0 {
      InitialInv(versions, trace[0]);
    } else {
      RunKeepsInv(versions, trace, events, n - 1);
      StepKeepsInv(versions, trace[n - 1], events[n - 1], trace[n]);
    }
  }

  /** In every run whose settings writes do not overlap, whatever a call returns, cached or not,
      is what recomputing from the settings it read gives; those settings really were stored under
      the generations read, and are no older than those current when the call began. */
  lemma {:induction false} AnswersEqualRecomputing(versions: map<string, Version>, trace: seq<State>,
                                                   events: seq<Event>, n: nat, c: nat)
    requires SerialRun(versions, trace, events) && n < |trace|
    requires c in trace[n].calls && trace[n].calls[c].Returned?
    ensures var call := trace[n].calls[c];
      && call.version in versions && call.org.fetch.Some?
      && call.result == Effective(Levels(call.org.fetch.value, WsFetch(call.ws), versions[call.version].manifest))
      && OrgOk(trace[n].history, call.seen, call.org)
      && WsOk(trace[n].history, call.seen, versions[call.version].owner, call.ws)
  {
    RunKeepsInv(versions, trace, events, n);
    assert CallInv(versions, trace[n], trace[n].calls[c]);
  }

  /** So an answer allows exactly what the organization's, the workspace's and the manifest's
      policies all allow. */
  lemma {:induction false} AnswersAreTheMeet(versions: map<string, Version>, trace: seq<State>, events: seq<Event>,
                                             n: nat, c: nat, host: string, port: int)
    requires SerialRun(versions, trace, events) && n < |trace|
    requires c in trace[n].calls && trace[n].calls[c].Returned?
    ensures var call := trace[n].calls[c];
      && call.version in versions && call.org.fetch.Some?
      && match versions[call.version].owner
         case User =>
           Decision(call.result, host, port)
           <==> Allows(call.org.fetch.value, host, port) && Allows(versions[call.version].manifest, host, port)
         case OwnedBy(_) =>
           && call.ws.Some? && call.ws.value.fetch.Some?
           && (Decision(call.result, host, port)
               <==> Allows(call.org.fetch.value, host, port) && Allows(call.ws.value.fetch.value, host, port)
                    && Allows(versions[call.version].manifest, host, port))
  {
    AnswersEqualRecomputing(versions, trace, events, n, c);
    var call := trace[n].calls[c];
    AllThreeDecide(call.org.fetch.value, WsFetch(call.ws), versions[call.version].manifest, host, port);
  }

  /** A read the store does not answer, or of a row that is missing or does not parse, ends the call
      with the refusal; any other hands on the row as stored. */
  lemma {:induction false} UnusableRowRefuses(versions: map<string, Version>, s: State, e: Event, t: State)
    requires Step(versions, s, e, t)
    ensures e.ReadOrg? ==>
              && e.c in t.calls && t.calls.Keys == s.calls.Keys
              && if e.answered && Organization in s.settings && s.settings[Organization].fetch.Some?
                 then t.calls[e.c].HasOrg? && t.calls[e.c].org == s.settings[Organization]
                 else t.calls[e.c].Refused?
    ensures e.ReadWorkspace? ==>
              && e.c in s.calls && e.c in t.calls && s.calls[e.c].HasOrg? && s.calls[e.c].version in versions
              && match versions[s.calls[e.c].version].owner
                 case User => t.calls[e.c].HasBoth? && t.calls[e.c].ws == None
                 case OwnedBy(id) =>
                   if e.answered && Workspace(id) in s.settings && s.settings[Workspace(id)].fetch.Some?
                   then t.calls[e.c].HasBoth? && t.calls[e.c].ws == Some(s.settings[Workspace(id)])
                   else t.calls[e.c].Refused?
  {
  }

  /** Call c goes on in t as it was begun in s. */
  ghost predicate GoesOn(s: State, t: State, c: nat)
    requires c in s.calls
  {
    && c in t.calls && t.calls[c].version == s.calls[c].version
    && (!t.calls[c].Refused? ==> !s.calls[c].Refused? && t.calls[c].seen == s.calls[c].seen)
  }

  lemma {:induction false} StepGoesOn(versions: map<string, Version>, s: State, e: Event, t: State, c: nat)
    requires Step(versions, s, e, t) && c in s.calls
    ensures GoesOn(s, t, c)
  {
    match e
    case ReadOrg(_, _) => if e.c == c { assert s.calls[c].Begun?; }
    case ReadWorkspace(_, _) => if e.c == c { assert s.calls[c].HasOrg?; }
    case Probe(_) => if e.c == c { assert s.calls[c].HasBoth?; }
    case Store(_) => if e.c == c { assert s.calls[c].Missed?; }
    case _ =>
  }

  lemma {:induction false} RunGoesOn(versions: map<string, Version>, trace: seq<State>, events: seq<Event>,
                                     n: nat, c: nat)
    requires SerialRun(versions, trace, events) && n < |events| && c in trace[n].calls
    ensures GoesOn(trace[n], trace[n + 1], c)
  {
    StepGoesOn(versions, trace[n], events[n], trace[n + 1], c);
  }

  lemma {:induction false} RunBegins(versions: map<string, Version>, trace: seq<State>, events: seq<Event>,
                                     k: nat, c: nat, v: string)
    requires SerialRun(versions, trace, events) && k < |events| && events[k] == Begin(c, v)
    ensures c in trace[k + 1].calls && trace[k + 1].calls[c] == Begun(v, Gens(trace[k]))
  {
    assert Step(versions, trace[k], events[k], trace[k + 1]);
  }

  /** What a call remembers of its beginning: the version, and the generations stored then. */
  lemma {:induction false} CallRemembers(versions: map<string, Version>, trace: seq<State>, events: seq<Event>,
                                         k: nat, n: nat, c: nat, v: string)
    requires SerialRun(versions, trace, events) && k < n < |trace| && events[k] == Begin(c, v)
    ensures c in trace[n].calls && trace[n].calls[c].version == v
    ensures !trace[n].calls[c].Refused? ==> trace[n].calls[c].seen == Gens(trace[k])
  {
    if k < n - 1 {
      CallRemembers(versions, trace, events, k, n - 1, c, v);
      RunGoesOn(versions, trace, events, n - 1, c);
    } else {
      RunBegins(versions, trace, events, k, c, v);
    }
  }

  /** The settings an answer goes by are no older than those stored when its call began. */
  lemma {:induction false} AnswersAreFresh(versions: map<string, Version>, trace: seq<State>, events: seq<Event>,
                                           k: nat, n: nat, c: nat, v: string)
    requires SerialRun(versions, trace, events) && k < n < |trace| && events[k] == Begin(c, v)
    requires c in trace[n].calls && trace[n].calls[c].Returned?
    ensures var call, rows := trace[n].calls[c], trace[k].settings;
      && call.version == v && v in versions
      && (Organization in rows ==> rows[Organization].gen <= call.org.gen)
      && (versions[v].owner.OwnedBy? ==> call.ws.Some?)
      && (versions[v].owner.OwnedBy? && Workspace(versions[v].owner.ws) in rows ==>
            rows[Workspace(versions[v].owner.ws)].gen <= call.ws.value.gen)
  {
    CallRemembers(versions, trace, events, k, n, c, v);
    AnswersEqualRecomputing(versions, trace, events, n, c);
  }

  /** At some point of the run so far the row of level l was this one. */
  ghost predicate WasStored(trace: seq<State>, n: nat, l: LevelId, row: Settings)
    requires n < |trace|
  {
    exists i :: 0 <= i <= n && l in trace[i].settings && trace[i].settings[l] == row
  }

  lemma {:induction false} StepStores(versions: map<string, Version>, s: State, e: Event, t: State,
                                      l: LevelId, row: Settings)
    requires Step(versions, s, e, t) && Carried(t.history, l, row)
    ensures Carried(s.history, l, row) || (l in t.settings && t.settings[l] == row)
  {
  }

  lemma {:induction false} RunStores(versions: map<string, Version>, trace: seq<State>, events: seq<Event>,
                                     n: nat, l: LevelId, row: Settings)
    requires SerialRun(versions, trace, events) && n < |events| && Carried(trace[n + 1].history, l, row)
    ensures Carried(trace[n].history, l, row) || (l in trace[n + 1].settings && trace[n + 1].settings[l] == row)
  {
    StepStores(versions, trace[n], events[n], trace[n + 1], l, row);
  }

  /** What the records say a generation carried was really stored. */
  lemma {:induction false} CarriedWasStored(versions: map<string, Version>, trace: seq<State>, events: seq<Event>,
                                            n: nat, l: LevelId, row: Settings)
    requires SerialRun(versions, trace, events) && n < |trace| && Carried(trace[n].history, l, row)
    ensures WasStored(trace, n, l, row)
  {
    if n > 0 {
      RunStores(versions, trace, events, n - 1, l, row);
      if Carried(trace[n - 1].history, l, row) {
        CarriedWasStored(versions, trace, events, n - 1, l, row);
      }
    }
  }

  /** So the rows an answer goes by were really stored at some point. */
  lemma {:induction false} AnswersGoByStoredRows(versions: map<string, Version>, trace: seq<State>, events: seq<Event>,
                                                 n: nat, c: nat)
    requires SerialRun(versions, trace, events) && n < |trace|
    requires c in trace[n].calls && trace[n].calls[c].Returned?
    ensures var call := trace[n].calls[c];
      && call.version in versions && WasStored(trace, n, Organization, call.org)
      && match versions[call.version].owner
         case User => call.ws == None
         case OwnedBy(id) => call.ws.Some? && WasStored(trace, n, Workspace(id), call.ws.value)
  {
    AnswersEqualRecomputing(versions, trace, events, n, c);
    var call := trace[n].calls[c];
    CarriedWasStored(versions, trace, events, n, Organization, call.org);
    if versions[call.version].owner.OwnedBy? {
      CarriedWasStored(versions, trace, events, n, Workspace(versions[call.version].owner.ws), call.ws.value);
    }
  }

  /** In every such run each cache entry agrees with the policies recorded at its generations. */
  lemma {:induction false} EntriesAgree(versions: map<string, Version>, trace: seq<State>, events: seq<Event>, n: nat,
                     og: nat, wg: nat, v: string)
    requires SerialRun(versions, trace, events) && n < |trace|
    requires Key(og, wg, v) in trace[n].entries
    ensures v in versions && Agrees(trace[n].history, og, wg, versions[v], trace[n].entries[Key(og, wg, v)])
  {
    RunKeepsInv(versions, trace, events, n);
  }

  // ---- The object ----

  /** server/internal/invoke/effective.go's cache object. The two settings reads are parameters:
      None when the store did not answer or the row is missing. */
  class Cache {
    var entries: map<string, Effect>

    constructor ()
      ensures entries == map[]
    {
      entries := map[];
    }

    /** With entries that agree with the recorded policies and rows that were really stored, the
        answer is the recomputed policy, or the refusal when a row cannot be used; the entries
        still agree, and nothing but this call's own key changes. */
    method ResolveFetch(ghost h: map<(LevelId, nat), Option<Level>>, ghost versions: map<string, Version>,
                        orgRow: Option<Settings>, wsRow: Option<Settings>, owner: Owner,
                        version: string, manifest: Level)
      returns (eff: Effect)
      requires version in versions && versions[version] == Version(owner, manifest)
      requires orgRow.Some? ==> Carried(h, Organization, orgRow.value)
      requires owner.OwnedBy? && wsRow.Some? ==> Carried(h, Workspace(owner.ws), wsRow.value)
      requires forall og: nat, wg: nat, v: string :: Key(og, wg, v) in entries ==>
        v in versions && Agrees(h, og, wg, versions[v], entries[Key(og, wg, v)])
      modifies this
      ensures !Usable(orgRow) || (owner.OwnedBy? && !Usable(wsRow)) ==> eff == REFUSAL && entries == old(entries)
      ensures Usable(orgRow) && owner.User? ==>
        && eff == Effective(Levels(orgRow.value.fetch.value, None, manifest))
        && entries == old(entries)[Key(orgRow.value.gen, 0, version) := eff]
      ensures Usable(orgRow) && owner.OwnedBy? && Usable(wsRow) ==>
        && eff == Effective(Levels(orgRow.value.fetch.value, wsRow.value.fetch, manifest))
        && entries == old(entries)[Key(orgRow.value.gen, wsRow.value.gen, version) := eff]
      ensures Usable(orgRow) && owner.User? ==>
        forall host, port :: Decision(eff, host, port)
          <==> Allows(orgRow.value.fetch.value, host, port) && Allows(manifest, host, port)
      ensures Usable(orgRow) && owner.OwnedBy? && Usable(wsRow) ==>
        forall host, port :: Decision(eff, host, port)
          <==> Allows(orgRow.value.fetch.value, host, port) && Allows(wsRow.value.fetch.value, host, port)
               && Allows(manifest, host, port)
      ensures forall og: nat, wg: nat, v: string :: Key(og, wg, v) in entries ==>
        v in versions && Agrees(h, og, wg, versions[v], entries[Key(og, wg, v)])
    {
      if !Usable(orgRow) {
        return REFUSAL;
      }
      var org := orgRow.value;
      var ws: Option<Settings> := None;
      if owner.OwnedBy? {
        if !Usable(wsRow) {
          return REFUSAL;
        }
        ws := wsRow;
      }
      forall host, port ensures Decision(Effective(Levels(org.fetch.value, WsFetch(ws), manifest)), host, port)
          <==> Allows(org.fetch.value, host, port) && (ws.Some? ==> Allows(ws.value.fetch.value, host, port))
               && Allows(manifest, host, port)
      {
        AllThreeDecide(org.fetch.value, WsFetch(ws), manifest, host, port);
      }
      var key := Key(org.gen, WsGen(ws), version);
      if key in entries {
        assert entries == entries[key := entries[key]];
        return entries[key];
      }
      var levels := [org.fetch.value];
      if ws.Some? {
        levels := levels + [ws.value.fetch.value];
      }
      levels := levels + [manifest];
      assert levels == Levels(org.fetch.value, WsFetch(ws), manifest);
      eff := ComputeEffective(levels);
      forall og: nat, wg: nat, v: string | Key(og, wg, v) == key
        ensures og == org.gen && wg == WsGen(ws) && v == version
      {
        KeyInjective(og, wg, v, org.gen, WsGen(ws), version);
      }
      entries := entries[key := eff];
    }
  }
}
