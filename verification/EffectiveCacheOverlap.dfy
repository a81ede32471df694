/** Settings writes and the effective-policy cache: writes that do not overlap keep its answers
    right, and one that does can always make it serve a policy that is stored no longer. */
module EffectiveCacheOverlap {
  import opened Common
  import opened EffectiveCache
  import opened EffectiveCacheAnswers
  import opened FetchPolicy

  // ---- Agreement with one history is coherence ----

  /** Rows stored, rows held by calls and entries all go back to one policy per generation. */
  ghost predicate OneHistory(versions: map<string, Version>, s: State) {
    && (forall l :: l in s.settings ==> Carried(s.history, l, s.settings[l]))
    && EntriesInv(versions, s)
    && (forall c :: c in s.calls ==> CallInv(versions, s, s.calls[c]))
  }

  lemma {:induction false} InvIsOneHistory(versions: map<string, Version>, s: State)
    requires Inv(versions, s)
    ensures OneHistory(versions, s)
  {
  }

  ghost predicate ReadCarried(versions: map<string, Version>, h: map<(LevelId, nat), Option<Level>>, r: Read)
    requires r.version in versions
  {
    && Carried(h, Organization, r.org)
    && match versions[r.version].owner
       case User => r.ws == None
       case OwnedBy(id) => r.ws.Some? && Carried(h, Workspace(id), r.ws.value)
  }

  lemma {:induction false} GivesCarried(versions: map<string, Version>, s: State, src: Source, r: Read)
    requires OneHistory(versions, s) && Gives(versions, s, src, r)
    ensures ReadCarried(versions, s.history, r)
  {
    if src.At? { assert CallInv(versions, s, s.calls[src.c]); }
  }

  lemma {:induction false} StoresCarried(versions: map<string, Version>, s: State, c: nat, q: Read)
    requires OneHistory(versions, s) && WillStore(versions, s, c, q)
    ensures ReadCarried(versions, s.history, q)
  {
    assert CallInv(versions, s, s.calls[c]);
  }

  lemma {:induction false} CarriedValues(versions: map<string, Version>, h: map<(LevelId, nat), Option<Level>>,
                                         r: Read, q: Read)
    requires Sound(versions, r) && Sound(versions, q) && KeyOf(r) == KeyOf(q)
    requires ReadCarried(versions, h, r) && ReadCarried(versions, h, q)
    ensures Value(versions, r) == Value(versions, q)
  {
    EffectiveCache.KeyInjective(r.org.gen, WsGen(r.ws), r.version, q.org.gen, WsGen(q.ws), q.version);
  }

  lemma {:induction false} OneHistoryIsCoherent(versions: map<string, Version>, s: State)
    requires OneHistory(versions, s)
    ensures Shaped(versions, s) && Coherent(versions, s)
  {
    forall c | c in s.calls ensures CallInv(versions, s, s.calls[c]) {}
    forall src, r | Gives(versions, s, src, r) && KeyOf(r) in s.entries
      ensures s.entries[KeyOf(r)] == Value(versions, r)
    {
      GivesCarried(versions, s, src, r);
      assert Agrees(s.history, r.org.gen, WsGen(r.ws), versions[r.version], s.entries[KeyOf(r)]);
    }
    forall src, r, other, q | Gives(versions, s, src, r) && Gives(versions, s, other, q) && KeyOf(r) == KeyOf(q)
      ensures Value(versions, r) == Value(versions, q)
    {
      GivesCarried(versions, s, src, r);
      GivesCarried(versions, s, other, q);
      CarriedValues(versions, s.history, r, q);
    }
    forall src, r, c, q | Gives(versions, s, src, r) && WillStore(versions, s, c, q) && KeyOf(r) == KeyOf(q)
      ensures Value(versions, r) == Value(versions, q)
    {
      GivesCarried(versions, s, src, r);
      StoresCarried(versions, s, c, q);
      CarriedValues(versions, s.history, r, q);
    }
  }

  // ---- What one settings write does ----

  /** After any settings write the answers are right exactly when the state it leaves is coherent;
      it is whenever the write is serial, or repeats the policy its generation had. */
  lemma {:induction false} WriteKeepsAnswersIff(versions: map<string, Version>, s: State, u: nat,
                                                fetch: Option<Level>, t: State)
    requires Inv(versions, s) && Step(versions, s, WriteUpdate(u, fetch), t)
    ensures AllAnswersRight(versions, t) <==> Coherent(versions, t)
    ensures Serial(s, WriteUpdate(u, fetch)) ==> AllAnswersRight(versions, t)
    ensures Carried(s.history, s.updates[u].level, Settings(s.updates[u].base.gen + 1, fetch)) ==>
              AllAnswersRight(versions, t)
  {
    InvIsOneHistory(versions, s);
    OneHistoryIsCoherent(versions, s);
    StepKeepsShaped(versions, s, WriteUpdate(u, fetch), t);
    AnswersRightIffCoherent(versions, t);
    if Serial(s, WriteUpdate(u, fetch)) {
      StepKeepsInv(versions, s, WriteUpdate(u, fetch), t);
      InvIsOneHistory(versions, t);
      OneHistoryIsCoherent(versions, t);
    }
    if Carried(s.history, s.updates[u].level, Settings(s.updates[u].base.gen + 1, fetch)) {
      SamePolicyKeepsHistory(versions, s, u, fetch, t);
      OneHistoryIsCoherent(versions, t);
    }
  }

  lemma {:induction false} SamePolicyKeepsHistory(versions: map<string, Version>, s: State, u: nat,
                                                  fetch: Option<Level>, t: State)
    requires OneHistory(versions, s) && Step(versions, s, WriteUpdate(u, fetch), t)
    requires Carried(s.history, s.updates[u].level, Settings(s.updates[u].base.gen + 1, fetch))
    ensures OneHistory(versions, t)
  {
    assert t.history == s.history;
    forall c | c in t.calls ensures CallInv(versions, t, t.calls[c]) {
      assert CallInv(versions, s, s.calls[c]);
    }
  }

  // ---- What a stale write can do ----

  /** One can get from s to t by these events, every settings write among them being serial. */
  ghost predicate SerialLeads(versions: map<string, Version>, s: State, events: seq<Event>, t: State) {
    exists trace ::
      && Chain(versions, trace, events) && trace[0] == s && trace[|events|] == t
      && forall i :: 0 <= i < |events| ==> Serial(trace[i], events[i])
  }

  lemma {:induction false} QuietIsSerial(versions: map<string, Version>, s: State, events: seq<Event>, t: State)
    requires Leads(versions, s, events, t) && Quiet(events)
    ensures SerialLeads(versions, s, events, t)
  {
    var trace :| Chain(versions, trace, events) && trace[0] == s && trace[|events|] == t;
    assert forall i :: 0 <= i < |events| ==> IsQuiet(events[i]) && Serial(trace[i], events[i]);
  }

  lemma {:induction false} SerialThen(versions: map<string, Version>, s: State, d: seq<Event>, m: State,
                                      e: seq<Event>, t: State)
    requires SerialLeads(versions, s, d, m) && SerialLeads(versions, m, e, t)
    ensures SerialLeads(versions, s, d + e, t)
  {
    var a :| Chain(versions, a, d) && a[0] == s && a[|d|] == m && forall i :: 0 <= i < |d| ==> Serial(a[i], d[i]);
    var b :| Chain(versions, b, e) && b[0] == m && b[|e|] == t && forall i :: 0 <= i < |e| ==> Serial(b[i], e[i]);
    SplicedIsChain(versions, a, d, b, e);
    forall i | 0 <= i < |d + e| ensures Serial(Spliced(a, b)[i], (d + e)[i]) {
      SplicedAt(versions, a, d, b, e, i);
    }
  }

  /** A whole serial update. */
  lemma {:induction false} SerialUpdate(versions: map<string, Version>, s: State, l: LevelId, fetch: Option<Level>)
    returns (t: State, events: seq<Event>)
    requires l in s.settings
    ensures t == Put(s, l, Settings(s.settings[l].gen + 1, fetch)) && SerialLeads(versions, s, events, t)
  {
    var k := NewId(s.updates);
    var m := s.(updates := s.updates[k := Update(l, s.settings[l])]);
    t := Put(s, l, Settings(s.settings[l].gen + 1, fetch));
    assert m.updates - {k} == s.updates;
    assert Step(versions, s, BeginUpdate(k, l), m);
    assert Step(versions, m, WriteUpdate(k, fetch), t);
    var trace := [s, m, t];
    events := [BeginUpdate(k, l), WriteUpdate(k, fetch)];
    assert Chain(versions, trace, events) && trace[0] == s && trace[|events|] == t;
  }

  /** Serial updates that write the same policy until a generation is reached. */
  lemma {:induction false} BumpTo(versions: map<string, Version>, s: State, l: LevelId, gen: nat, q: Level)
    returns (t: State, events: seq<Event>)
    requires l in s.settings && s.settings[l].gen <= gen && s.settings[l].fetch == Some(q)
    ensures SerialLeads(versions, s, events, t)
    ensures t.settings == s.settings[l := Settings(gen, Some(q))] && t.entries == s.entries && t.calls == s.calls
    decreases gen - s.settings[l].gen
  {
    if s.settings[l].gen == gen {
      t, events := s, [];
      LeadsNowhere(versions, s);
      QuietIsSerial(versions, s, [], s);
    } else {
      var m, first := SerialUpdate(versions, s, l, Some(q));
      var rest;
      t, rest := BumpTo(versions, m, l, gen, q);
      SerialThen(versions, s, first, m, rest, t);
      events := first + rest;
    }
  }

  /** The row of a level as a call reads it, the other level's row being `org`. */
  function ReadAt(l: LevelId, v: string, org: Settings, row: Settings): Read {
    if l.Organization? then Read(v, row, None) else Read(v, org, Some(row))
  }

  ghost predicate Governs(versions: map<string, Version>, l: LevelId, v: string) {
    && v in versions
    && match l
       case Organization => versions[v].owner.User?
       case Workspace(id) => versions[v].owner == OwnedBy(id)
  }

  lemma {:induction false} CleanUpdate(versions: map<string, Version>, s: State, l: LevelId, p: Level)
    returns (t: State, events: seq<Event>)
    requires Inv(versions, s) && l in s.settings
    ensures Inv(versions, t) && SerialLeads(versions, s, events, t)
    ensures t.settings == s.settings[l := Settings(s.settings[l].gen + 1, Some(p))]
    ensures t.updates == s.updates && t.calls == s.calls
  {
    t, events := SerialUpdate(versions, s, l, Some(p));
    PutKeepsInv(versions, s, l, Settings(s.settings[l].gen + 1, Some(p)));
  }

  /** Both levels made readable, the given level carrying policy p under a new generation. */
  lemma {:induction false} SetUp(versions: map<string, Version>, s: State, l: LevelId, p: Level)
    returns (t: State, events: seq<Event>)
    requires Inv(versions, s) && l in s.settings && Organization in s.settings
    ensures Inv(versions, t) && SerialLeads(versions, s, events, t)
    ensures l in t.settings && t.settings[l] == Settings(s.settings[l].gen + 1, Some(p))
    ensures Organization in t.settings && t.settings[Organization].fetch.Some?
    ensures t.updates == s.updates && t.calls == s.calls
  {
    if l.Organization? {
      t, events := CleanUpdate(versions, s, l, p);
    } else {
      var m, first := CleanUpdate(versions, s, Organization, p);
      var last;
      t, last := CleanUpdate(versions, m, l, p);
      SerialThen(versions, s, first, m, last, t);
      events := first + last;
    }
  }

  /** A call answers with the policy of the state it finds; it leaves an entry for it. */
  lemma {:induction false} FillRightly(versions: map<string, Version>, s: State, r: Read)
    returns (t: State, events: seq<Event>)
    requires Inv(versions, s) && Gives(versions, s, Fresh, r)
    ensures SerialLeads(versions, s, events, t)
    ensures t.settings == s.settings && t.updates == s.updates
    ensures KeyOf(r) in t.entries && t.entries[KeyOf(r)] == Value(versions, r)
    ensures forall c :: c in s.calls ==> c in t.calls
  {
    InvIsOneHistory(versions, s);
    OneHistoryIsCoherent(versions, s);
    var c;
    c, t, events := Answers(versions, s, Fresh, r);
    QuietIsSerial(versions, s, events, t);
  }

  /** From every state in which an update is stale, whatever it is about to write, and for any two
      policies p and q: there is a run, in which no settings write but this one overlaps another,
      after which q is stored and a new call that has just read q answers with p. */
  lemma {:induction false} StaleWriteServesTheLostPolicy(versions: map<string, Version>, s: State, u: nat,
                                                         v: string, p: Level, q: Level)
    returns (before: seq<Event>, m: State, w: State, after: seq<Event>, t: State, c: nat, org: Settings)
    requires Inv(versions, s) && Organization in s.settings
    requires u in s.updates && s.updates[u].level in s.settings && Governs(versions, s.updates[u].level, v)
    requires s.updates[u].base.gen < s.settings[s.updates[u].level].gen
    ensures SerialLeads(versions, s, before, m)
    ensures Step(versions, m, WriteUpdate(u, Some(q)), w)
    ensures SerialLeads(versions, w, after, t)
    ensures var l := s.updates[u].level;
      var row := Settings(s.settings[l].gen + 1, Some(q));
      var r := ReadAt(l, v, org, row);
      && c !in s.calls && c in t.calls && t.calls[c].Returned?
      && l in t.settings && Organization in t.settings
      && t.settings[l] == row && t.settings[Organization] == r.org && org.fetch.Some?
      && Read(t.calls[c].version, t.calls[c].org, t.calls[c].ws) == r
      && t.calls[c].result == Value(versions, ReadAt(l, v, org, Settings(row.gen, Some(p))))
  {
    var l := s.updates[u].level;
    var gen := s.settings[l].gen + 1;
    m, before, org := LoseSoon(versions, s, l, v, p);
    w := Put(m.(updates := m.updates - {u}), l, Settings(s.updates[u].base.gen + 1, Some(q)));
    var lost := ReadAt(l, v, org, Settings(gen, Some(p)));
    c, t, after := AnswerWithLost(versions, w, l, v, org, gen, q, KeyOf(lost), Value(versions, lost));
  }

  /** The policy p is stored, and cached, under the next generation. */
  lemma {:induction false} LoseSoon(versions: map<string, Version>, s: State, l: LevelId, v: string, p: Level)
    returns (m: State, before: seq<Event>, org: Settings)
    requires Inv(versions, s) && Organization in s.settings && l in s.settings && Governs(versions, l, v)
    ensures SerialLeads(versions, s, before, m)
    ensures org.fetch.Some? && m.updates == s.updates && (forall c :: c in s.calls ==> c in m.calls)
    ensures var row := Settings(s.settings[l].gen + 1, Some(p));
      var r := ReadAt(l, v, org, row);
      && l in m.settings && m.settings[l] == row && Organization in m.settings && m.settings[Organization] == r.org
      && KeyOf(r) in m.entries && m.entries[KeyOf(r)] == Value(versions, r)
  {
    var ready, first := SetUp(versions, s, l, p);
    org := ready.settings[Organization];
    var lost := ReadAt(l, v, org, Settings(s.settings[l].gen + 1, Some(p)));
    assert Gives(versions, ready, Fresh, lost);
    var second;
    m, second := FillRightly(versions, ready, lost);
    SerialThen(versions, s, first, ready, second, m);
    before := first + second;
  }

  /** The stored policy q is brought to that generation; then a call finds the entry there. */
  lemma {:induction false} AnswerWithLost(versions: map<string, Version>, w: State, l: LevelId, v: string,
                                          org: Settings, gen: nat, q: Level, key: string, lost: Effect)
    returns (c: nat, t: State, after: seq<Event>)
    requires l in w.settings && w.settings[l].gen <= gen && w.settings[l].fetch == Some(q) && Governs(versions, l, v)
    requires Organization in w.settings && org.fetch.Some? && (!l.Organization? ==> w.settings[Organization] == org)
    requires key == KeyOf(ReadAt(l, v, org, Settings(gen, Some(q)))) && key in w.entries && w.entries[key] == lost
    ensures SerialLeads(versions, w, after, t)
    ensures var row := Settings(gen, Some(q));
      var r := ReadAt(l, v, org, row);
      && c !in w.calls && c in t.calls && t.calls[c].Returned?
      && l in t.settings && Organization in t.settings
      && t.settings[l] == row && t.settings[Organization] == r.org
      && Read(t.calls[c].version, t.calls[c].org, t.calls[c].ws) == r && t.calls[c].result == lost
  {
    var bumped, third := BumpTo(versions, w, l, gen, q);
    var now := ReadAt(l, v, org, Settings(gen, Some(q)));
    assert Gives(versions, bumped, Fresh, now);
    var fourth;
    c, t, fourth := Answers(versions, bumped, Fresh, now);
    QuietIsSerial(versions, bumped, fourth, t);
    SerialThen(versions, w, third, bumped, fourth, t);
    after := third + fourth;
  }
}
