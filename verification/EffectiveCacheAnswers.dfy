/** When the effective-policy cache answers rightly: the exact condition on a state, whatever
    settings writes led to it, and what an overlapping write can always do. */
module EffectiveCacheAnswers {
  import opened Common
  import opened EffectiveCache
  import opened FetchPolicy

  // ---- Pieces of runs ----

  ghost predicate Chain(versions: map<string, Version>, trace: seq<State>, events: seq<Event>) {
    && |trace| == |events| + 1
    && forall i :: 0 <= i < |events| ==> Step(versions, trace[i], events[i], trace[i + 1])
  }

  /** No settings row is written, created or deleted. */
  predicate IsQuiet(e: Event) { !e.WriteUpdate? && !e.CreateWorkspace? && !e.DeleteWorkspace? }

  ghost predicate Quiet(events: seq<Event>) {
    forall i :: 0 <= i < |events| ==> IsQuiet(events[i])
  }

  /** One can get from s to t by these events. */
  ghost predicate Leads(versions: map<string, Version>, s: State, events: seq<Event>, t: State) {
    exists trace :: Chain(versions, trace, events) && trace[0] == s && trace[|events|] == t
  }

  lemma {:induction false} LeadsNowhere(versions: map<string, Version>, s: State)
    ensures Leads(versions, s, [], s)
  {
    var trace, none := [s], [];
    assert Chain(versions, trace, none) && trace[0] == s && trace[|none|] == s;
  }

  lemma {:induction false} LeadsOne(versions: map<string, Version>, s: State, e: Event, t: State)
    requires Step(versions, s, e, t)
    ensures Leads(versions, s, [e], t)
  {
    var trace, events := [s, t], [e];
    assert Chain(versions, trace, events) && trace[0] == s && trace[|events|] == t;
  }

  /** Two pieces of a run, the second beginning where the first ends. */
  function Spliced(a: seq<State>, b: seq<State>): seq<State>
    requires b != []
  {
    a + b[1..]
  }

  lemma {:induction false} SplicedAt(versions: map<string, Version>, a: seq<State>, d: seq<Event>, b: seq<State>,
                                     e: seq<Event>, i: nat)
    requires Chain(versions, a, d) && Chain(versions, b, e) && a[|d|] == b[0] && i < |d + e|
    ensures var at, state := if i < |d| then i else i - |d|, if i < |d| then a else b;
      && at < |state| - 1 && (d + e)[i] == (if i < |d| then d else e)[at]
      && |Spliced(a, b)| == |d + e| + 1
      && Spliced(a, b)[i] == state[at] && Spliced(a, b)[i + 1] == state[at + 1]
  {
  }

  lemma {:induction false} SplicedIsChain(versions: map<string, Version>, a: seq<State>, d: seq<Event>, b: seq<State>,
                                          e: seq<Event>)
    requires Chain(versions, a, d) && Chain(versions, b, e) && a[|d|] == b[0]
    ensures Chain(versions, Spliced(a, b), d + e)
    ensures Spliced(a, b)[0] == a[0] && Spliced(a, b)[|d + e|] == b[|e|]
  {
    var trace, events := Spliced(a, b), d + e;
    forall i | 0 <= i < |events| ensures Step(versions, trace[i], events[i], trace[i + 1]) {
      SplicedAt(versions, a, d, b, e, i);
    }
  }

  lemma {:induction false} LeadsThen(versions: map<string, Version>, s: State, d: seq<Event>, m: State, e: seq<Event>,
                                     t: State)
    requires Leads(versions, s, d, m) && Leads(versions, m, e, t)
    ensures Leads(versions, s, d + e, t)
  {
    var a :| Chain(versions, a, d) && a[0] == s && a[|d|] == m;
    var b :| Chain(versions, b, e) && b[0] == m && b[|e|] == t;
    SplicedIsChain(versions, a, d, b, e);
  }

  // ---- What a call may read ----

  /** The rows a call for a version goes by. */
  datatype Read = Read(version: string, org: Settings, ws: Option<Settings>)

  function KeyOf(r: Read): string { Key(r.org.gen, WsGen(r.ws), r.version) }

  /** Rows resolveFetch would go by: readable, and a workspace row exactly for a workspace's
      version. */
  ghost predicate Sound(versions: map<string, Version>, r: Read) {
    && r.version in versions && r.org.fetch.Some?
    && (if versions[r.version].owner.User? then r.ws == None else Usable(r.ws))
  }

  function Value(versions: map<string, Version>, r: Read): Effect
    requires r.version in versions && r.org.fetch.Some?
  {
    Effective(Levels(r.org.fetch.value, WsFetch(r.ws), versions[r.version].manifest))
  }

  /** A call that has not begun, or one in flight. */
  datatype Source = Fresh | At(c: nat)

  ghost predicate CurrentWs(versions: map<string, Version>, s: State, r: Read)
    requires r.version in versions
  {
    versions[r.version].owner.User? || r.ws == Row(s, Workspace(versions[r.version].owner.ws))
  }

  /** The source can still come to probe the cache by these rows, the store being as it is. */
  ghost predicate Gives(versions: map<string, Version>, s: State, src: Source, r: Read) {
    && Sound(versions, r)
    && match src
       case Fresh => Row(s, Organization) == Some(r.org) && CurrentWs(versions, s, r)
       case At(c) =>
         && c in s.calls
         && match s.calls[c]
            case HasOrg(v, seen, org) => v == r.version && org == r.org && CurrentWs(versions, s, r)
            case HasBoth(v, seen, org, ws) => Read(v, org, ws) == r
            case _ => false
  }

  /** Call c has missed by these rows and will store what they give. */
  ghost predicate WillStore(versions: map<string, Version>, s: State, c: nat, r: Read) {
    && Sound(versions, r)
    && c in s.calls && s.calls[c].Missed?
    && Read(s.calls[c].version, s.calls[c].org, s.calls[c].ws) == r
  }

  /** Whoever may probe a key finds there what its rows give, now and after any call in flight has
      stored its own. */
  ghost predicate Coherent(versions: map<string, Version>, s: State) {
    && (forall src, r :: Gives(versions, s, src, r) && KeyOf(r) in s.entries ==>
          s.entries[KeyOf(r)] == Value(versions, r))
    && (forall src, r, other, q ::
          Gives(versions, s, src, r) && Gives(versions, s, other, q) && KeyOf(r) == KeyOf(q) ==>
            Value(versions, r) == Value(versions, q))
    && (forall src, r, c, q ::
          Gives(versions, s, src, r) && WillStore(versions, s, c, q) && KeyOf(r) == KeyOf(q) ==>
            Value(versions, r) == Value(versions, q))
  }

  /** What every reachable call looks like. */
  ghost predicate Shaped(versions: map<string, Version>, s: State) {
    forall c :: c in s.calls ==>
      && s.calls[c].version in versions
      && match s.calls[c]
         case HasOrg(v, seen, org) => org.fetch.Some?
         case HasBoth(v, seen, org, ws) => Sound(versions, Read(v, org, ws))
         case Missed(v, seen, org, ws) => Sound(versions, Read(v, org, ws))
         case Returned(v, seen, org, ws, result) => Sound(versions, Read(v, org, ws))
         case _ => true
  }

  /** Call c is answered in t, was not in s, and the answer is not what its rows give. */
  ghost predicate AnsweredWrongly(versions: map<string, Version>, s: State, t: State, c: nat) {
    && c in t.calls && t.calls[c].Returned? && (c in s.calls ==> !s.calls[c].Returned?)
    && t.calls[c].version in versions && t.calls[c].org.fetch.Some?
    && t.calls[c].result != Value(versions, Read(t.calls[c].version, t.calls[c].org, t.calls[c].ws))
  }

  ghost predicate AllAnswersRight(versions: map<string, Version>, s: State) {
    forall events, t, c :: Leads(versions, s, events, t) && Quiet(events) ==> !AnsweredWrongly(versions, s, t, c)
  }

  // ---- A coherent state answers rightly ----

  lemma {:induction false} StepKeepsShaped(versions: map<string, Version>, s: State, e: Event, t: State)
    requires Shaped(versions, s) && Step(versions, s, e, t)
    ensures Shaped(versions, t)
  {
  }

  /** A step without settings writes opens no new way to read... */
  lemma {:induction false} NoNewReads(versions: map<string, Version>, s: State, e: Event, t: State,
                                      src: Source, r: Read)
    returns (from: Source)
    requires Shaped(versions, s) && Step(versions, s, e, t) && IsQuiet(e)
    requires Gives(versions, t, src, r)
    ensures Gives(versions, s, from, r)
  {
    assert t.settings == s.settings;
    if src.At? && e.ReadOrg? && e.c == src.c {
      from := Fresh;
    } else {
      from := src;
    }
  }

  /** ...and none to store. */
  lemma {:induction false} NoNewStores(versions: map<string, Version>, s: State, e: Event, t: State, c: nat, q: Read)
    requires Shaped(versions, s) && Step(versions, s, e, t) && IsQuiet(e)
    requires WillStore(versions, t, c, q)
    ensures WillStore(versions, s, c, q) || Gives(versions, s, At(c), q)
  {
  }

  /** Two ways to come to a key mean the same. */
  ghost predicate SameValue(versions: map<string, Version>, r: Read, q: Read) {
    Sound(versions, r) && Sound(versions, q) && KeyOf(r) == KeyOf(q) ==> Value(versions, r) == Value(versions, q)
  }

  lemma {:induction false} StoredValue(versions: map<string, Version>, s: State, c: nat, t: State)
    requires Shaped(versions, s) && Step(versions, s, Store(c), t)
    ensures var q := Read(s.calls[c].version, s.calls[c].org, s.calls[c].ws);
      WillStore(versions, s, c, q) && t.entries == s.entries[KeyOf(q) := Value(versions, q)]
  {
  }

  lemma {:induction false} StepKeepsEntries(versions: map<string, Version>, s: State, e: Event, t: State,
                                            src: Source, r: Read)
    requires Shaped(versions, s) && Coherent(versions, s) && Step(versions, s, e, t) && IsQuiet(e)
    requires Gives(versions, t, src, r) && KeyOf(r) in t.entries
    ensures t.entries[KeyOf(r)] == Value(versions, r)
  {
    var from := NoNewReads(versions, s, e, t, src, r);
    if e.Store? {
      StoredValue(versions, s, e.c, t);
    } else {
      assert t.entries == s.entries;
    }
  }

  lemma {:induction false} StepKeepsPairs(versions: map<string, Version>, s: State, e: Event, t: State,
                                          src: Source, r: Read, other: Source, q: Read)
    requires Shaped(versions, s) && Coherent(versions, s) && Step(versions, s, e, t) && IsQuiet(e)
    requires Gives(versions, t, src, r) && Gives(versions, t, other, q)
    ensures SameValue(versions, r, q)
  {
    var a := NoNewReads(versions, s, e, t, src, r);
    var b := NoNewReads(versions, s, e, t, other, q);
  }

  lemma {:induction false} StepKeepsStores(versions: map<string, Version>, s: State, e: Event, t: State,
                                           src: Source, r: Read, c: nat, q: Read)
    requires Shaped(versions, s) && Coherent(versions, s) && Step(versions, s, e, t) && IsQuiet(e)
    requires Gives(versions, t, src, r) && WillStore(versions, t, c, q)
    ensures SameValue(versions, r, q)
  {
    var a := NoNewReads(versions, s, e, t, src, r);
    NoNewStores(versions, s, e, t, c, q);
  }

  lemma {:induction false} StepKeepsCoherent(versions: map<string, Version>, s: State, e: Event, t: State)
    requires Shaped(versions, s) && Coherent(versions, s) && Step(versions, s, e, t) && IsQuiet(e)
    ensures Coherent(versions, t)
  {
    forall src, r | Gives(versions, t, src, r) && KeyOf(r) in t.entries
      ensures t.entries[KeyOf(r)] == Value(versions, r)
    {
      StepKeepsEntries(versions, s, e, t, src, r);
    }
    forall src, r, other, q | Gives(versions, t, src, r) && Gives(versions, t, other, q) && KeyOf(r) == KeyOf(q)
      ensures Value(versions, r) == Value(versions, q)
    {
      StepKeepsPairs(versions, s, e, t, src, r, other, q);
    }
    forall src, r, c, q | Gives(versions, t, src, r) && WillStore(versions, t, c, q) && KeyOf(r) == KeyOf(q)
      ensures Value(versions, r) == Value(versions, q)
    {
      StepKeepsStores(versions, s, e, t, src, r, c, q);
    }
  }

  lemma {:induction false} StepAnswersRight(versions: map<string, Version>, s: State, e: Event, t: State, c: nat)
    requires Shaped(versions, s) && Coherent(versions, s) && Step(versions, s, e, t) && IsQuiet(e)
    ensures !AnsweredWrongly(versions, s, t, c)
  {
    if c in t.calls && t.calls[c].Returned? && (c in s.calls ==> !s.calls[c].Returned?) {
      var r := Read(t.calls[c].version, t.calls[c].org, t.calls[c].ws);
      if e.Probe? {
        assert Gives(versions, s, At(c), r);
      }
    }
  }

  lemma {:induction false} CoherentAnswersRight(versions: map<string, Version>, trace: seq<State>,
                                                events: seq<Event>, n: nat, c: nat)
    requires Chain(versions, trace, events) && Quiet(events) && n <= |events|
    requires Shaped(versions, trace[0]) && Coherent(versions, trace[0])
    ensures Shaped(versions, trace[n]) && Coherent(versions, trace[n])
    ensures !AnsweredWrongly(versions, trace[0], trace[n], c)
  {
    if n > 0 {
      CoherentAnswersRight(versions, trace, events, n - 1, c);
      var s, e, t := trace[n - 1], events[n - 1], trace[n];
      assert Step(versions, s, e, t) && IsQuiet(e);
      StepKeepsShaped(versions, s, e, t);
      StepKeepsCoherent(versions, s, e, t);
      StepAnswersRight(versions, s, e, t, c);
      if c in s.calls { AnswersStay(versions, s, e, t, c); }
    }
  }

  lemma {:induction false} AnswersStay(versions: map<string, Version>, s: State, e: Event, t: State, c: nat)
    requires Step(versions, s, e, t) && c in s.calls
    ensures c in t.calls && (s.calls[c].Returned? ==> t.calls[c] == s.calls[c])
  {
  }

  // ---- An incoherent state can answer wrongly ----

  lemma {:induction false} NewId<T>(m: map<nat, T>) returns (k: nat)
    ensures k !in m
  {
    k := Above(m.Keys);
  }

  lemma {:induction false} ReadWs(versions: map<string, Version>, s: State, c: nat, r: Read)
    requires Gives(versions, s, At(c), r) && s.calls[c].HasOrg?
    ensures var t := s.(calls := s.calls[c := HasBoth(r.version, s.calls[c].seen, r.org, r.ws)]);
      Step(versions, s, ReadWorkspace(c, true), t)
  {
  }

  lemma {:induction false} BeginAndReadOrg(versions: map<string, Version>, s: State, c: nat, r: Read)
    requires Gives(versions, s, Fresh, r) && c !in s.calls
    ensures var t := s.(calls := s.calls[c := HasOrg(r.version, Gens(s), r.org)]);
      Leads(versions, s, [Begin(c, r.version), ReadOrg(c, true)], t) && Gives(versions, t, At(c), r)
  {
    var m := s.(calls := s.calls[c := Begun(r.version, Gens(s))]);
    var t := s.(calls := s.calls[c := HasOrg(r.version, Gens(s), r.org)]);
    assert m.calls[c := HasOrg(r.version, Gens(s), r.org)] == t.calls;
    LeadsOne(versions, s, Begin(c, r.version), m);
    LeadsOne(versions, m, ReadOrg(c, true), t);
    LeadsThen(versions, s, [Begin(c, r.version)], m, [ReadOrg(c, true)], t);
    assert [Begin(c, r.version)] + [ReadOrg(c, true)] == [Begin(c, r.version), ReadOrg(c, true)];
  }

  /** The source goes on until it holds both rows, while nothing else moves. */
  lemma {:induction false} Approach(versions: map<string, Version>, s: State, src: Source, r: Read)
    returns (c: nat, seen: map<LevelId, nat>, events: seq<Event>)
    requires Gives(versions, s, src, r)
    ensures if src.At? then c == src.c else c !in s.calls
    ensures c in s.calls ==> !s.calls[c].Returned?
    ensures Quiet(events)
    ensures Leads(versions, s, events, s.(calls := s.calls[c := HasBoth(r.version, seen, r.org, r.ws)]))
  {
    if src.Fresh? {
      c := NewId(s.calls);
      seen := Gens(s);
      BeginAndReadOrg(versions, s, c, r);
      var m := s.(calls := s.calls[c := HasOrg(r.version, seen, r.org)]);
      var t := m.(calls := m.calls[c := HasBoth(r.version, seen, r.org, r.ws)]);
      ReadWs(versions, m, c, r);
      LeadsOne(versions, m, ReadWorkspace(c, true), t);
      events := [Begin(c, r.version), ReadOrg(c, true)] + [ReadWorkspace(c, true)];
      LeadsThen(versions, s, [Begin(c, r.version), ReadOrg(c, true)], m, [ReadWorkspace(c, true)], t);
      assert t.calls == s.calls[c := HasBoth(r.version, seen, r.org, r.ws)];
    } else {
      c := src.c;
      seen := s.calls[c].seen;
      if s.calls[c].HasOrg? {
        events := [ReadWorkspace(c, true)];
        ReadWs(versions, s, c, r);
        LeadsOne(versions, s, events[0], s.(calls := s.calls[c := HasBoth(r.version, seen, r.org, r.ws)]));
      } else {
        events := [];
        LeadsNowhere(versions, s);
        assert s.calls[c := s.calls[c]] == s.calls;
      }
    }
  }

  lemma {:induction false} Hits(versions: map<string, Version>, s: State, c: nat, r: Read)
    requires c in s.calls && s.calls[c].HasBoth? && Read(s.calls[c].version, s.calls[c].org, s.calls[c].ws) == r
    requires KeyOf(r) in s.entries
    ensures Leads(versions, s, [Probe(c)],
              s.(calls := s.calls[c := Returned(r.version, s.calls[c].seen, r.org, r.ws, s.entries[KeyOf(r)])]))
  {
    LeadsOne(versions, s, Probe(c),
             s.(calls := s.calls[c := Returned(r.version, s.calls[c].seen, r.org, r.ws, s.entries[KeyOf(r)])]));
  }

  lemma {:induction false} Fills(versions: map<string, Version>, s: State, c: nat, r: Read)
    requires Sound(versions, r)
    requires c in s.calls && s.calls[c].Missed? && Read(s.calls[c].version, s.calls[c].org, s.calls[c].ws) == r
    ensures Leads(versions, s, [Store(c)],
              s.(entries := s.entries[KeyOf(r) := Value(versions, r)],
                 calls := s.calls[c := Returned(r.version, s.calls[c].seen, r.org, r.ws, Value(versions, r))]))
  {
    var t := s.(entries := s.entries[KeyOf(r) := Value(versions, r)],
                calls := s.calls[c := Returned(r.version, s.calls[c].seen, r.org, r.ws, Value(versions, r))]);
    LeadsOne(versions, s, Store(c), t);
  }

  lemma {:induction false} MissesAndFills(versions: map<string, Version>, s: State, c: nat, r: Read)
    requires Sound(versions, r) && KeyOf(r) !in s.entries
    requires c in s.calls && s.calls[c].HasBoth? && Read(s.calls[c].version, s.calls[c].org, s.calls[c].ws) == r
    ensures Leads(versions, s, [Probe(c), Store(c)],
              s.(entries := s.entries[KeyOf(r) := Value(versions, r)],
                 calls := s.calls[c := Returned(r.version, s.calls[c].seen, r.org, r.ws, Value(versions, r))]))
  {
    var m := s.(calls := s.calls[c := Missed(r.version, s.calls[c].seen, r.org, r.ws)]);
    LeadsOne(versions, s, Probe(c), m);
    Fills(versions, m, c, r);
    var done := Returned(r.version, s.calls[c].seen, r.org, r.ws, Value(versions, r));
    assert m.calls[c := done] == s.calls[c := done];
    var t := s.(entries := s.entries[KeyOf(r) := Value(versions, r)], calls := s.calls[c := done]);
    LeadsThen(versions, s, [Probe(c)], m, [Store(c)], t);
    assert [Probe(c)] + [Store(c)] == [Probe(c), Store(c)];
  }

  /** The source's whole call, while nothing else moves: it answers with the entry if there is one,
      and else fills it. */
  lemma {:induction false} Answers(versions: map<string, Version>, s: State, src: Source, r: Read)
    returns (c: nat, t: State, events: seq<Event>)
    requires Gives(versions, s, src, r)
    ensures if src.At? then c == src.c else c !in s.calls
    ensures (c in s.calls ==> !s.calls[c].Returned?) && c in t.calls
    ensures Quiet(events) && Leads(versions, s, events, t)
    ensures t.settings == s.settings && t.calls == s.calls[c := t.calls[c]] && t.calls[c].Returned?
    ensures Read(t.calls[c].version, t.calls[c].org, t.calls[c].ws) == r
    ensures var value := if KeyOf(r) in s.entries then s.entries[KeyOf(r)] else Value(versions, r);
      t.calls[c].result == value && t.entries == s.entries[KeyOf(r) := value]
    ensures t.updates == s.updates && t.history == s.history
  {
    var seen, first;
    c, seen, first := Approach(versions, s, src, r);
    var m := s.(calls := s.calls[c := HasBoth(r.version, seen, r.org, r.ws)]);
    var value := if KeyOf(r) in s.entries then s.entries[KeyOf(r)] else Value(versions, r);
    var done := Returned(r.version, seen, r.org, r.ws, value);
    assert m.calls[c := done] == s.calls[c := done];
    t := s.(entries := s.entries[KeyOf(r) := value], calls := s.calls[c := done]);
    var last: seq<Event>;
    if KeyOf(r) in s.entries {
      last := [Probe(c)];
      Hits(versions, m, c, r);
      assert s.entries[KeyOf(r) := value] == s.entries;
    } else {
      last := [Probe(c), Store(c)];
      MissesAndFills(versions, m, c, r);
    }
    events := first + last;
    LeadsThen(versions, s, first, m, last, t);
  }

  /** With a foreign value under its key, a call answers wrongly. */
  lemma {:induction false} WrongEntryAnswers(versions: map<string, Version>, s: State, src: Source, r: Read)
    returns (c: nat, t: State, events: seq<Event>)
    requires Gives(versions, s, src, r)
    requires KeyOf(r) in s.entries && s.entries[KeyOf(r)] != Value(versions, r)
    ensures src.At? ==> c == src.c
    ensures (c in s.calls ==> !s.calls[c].Returned?) && Quiet(events) && Leads(versions, s, events, t)
    ensures AnsweredWrongly(versions, s, t, c)
  {
    c, t, events := Answers(versions, s, src, r);
  }

  /** Another call has just put a foreign value under the key. */
  lemma {:induction false} ThenAnswersWrongly(versions: map<string, Version>, s: State, first: seq<Event>, m: State,
                                              done: nat, src: Source, r: Read)
    requires Quiet(first) && Leads(versions, s, first, m) && Gives(versions, s, src, r) && src != At(done)
    requires m.settings == s.settings && done in m.calls && m.calls[done].Returned?
    requires m.calls == s.calls[done := m.calls[done]]
    requires KeyOf(r) in m.entries && m.entries[KeyOf(r)] != Value(versions, r)
    ensures !AllAnswersRight(versions, s)
  {
    assert Gives(versions, m, src, r);
    var c, t, last := WrongEntryAnswers(versions, m, src, r);
    LeadsThen(versions, s, first, m, last, t);
    assert Quiet(first + last);
    assert AnsweredWrongly(versions, s, t, c);
  }

  lemma {:induction false} TwoReadsClash(versions: map<string, Version>, s: State,
                                         src: Source, r: Read, other: Source, q: Read)
    requires Gives(versions, s, src, r) && Gives(versions, s, other, q)
    requires KeyOf(r) == KeyOf(q) && Value(versions, r) != Value(versions, q)
    ensures !AllAnswersRight(versions, s)
  {
    if KeyOf(r) in s.entries {
      var wrong := if s.entries[KeyOf(r)] != Value(versions, r) then (src, r) else (other, q);
      var c, t, events := WrongEntryAnswers(versions, s, wrong.0, wrong.1);
    } else {
      var done, m, first := Answers(versions, s, other, q);
      if src == At(done) {
        SameCallSameRead(versions, s, done, r, q);
      } else {
        ThenAnswersWrongly(versions, s, first, m, done, src, r);
      }
    }
  }

  /** One call cannot come to the same key by two values. */
  lemma {:induction false} SameCallSameRead(versions: map<string, Version>, s: State, c: nat, r: Read, q: Read)
    requires Gives(versions, s, At(c), r) && Gives(versions, s, At(c), q)
    requires KeyOf(r) == KeyOf(q)
    ensures Value(versions, r) == Value(versions, q)
  {
    EffectiveCache.KeyInjective(r.org.gen, WsGen(r.ws), r.version, q.org.gen, WsGen(q.ws), q.version);
  }

  lemma {:induction false} StoreClashes(versions: map<string, Version>, s: State, src: Source, r: Read, c: nat, q: Read)
    requires Gives(versions, s, src, r) && WillStore(versions, s, c, q)
    requires KeyOf(r) == KeyOf(q) && Value(versions, r) != Value(versions, q)
    ensures !AllAnswersRight(versions, s)
  {
    var t := s.(entries := s.entries[KeyOf(q) := Value(versions, q)],
                calls := s.calls[c := Returned(q.version, s.calls[c].seen, q.org, q.ws, Value(versions, q))]);
    Fills(versions, s, c, q);
    ThenAnswersWrongly(versions, s, [Store(c)], t, c, src, r);
  }

  /** The exact condition: every answer given before the next settings write is what its own rows
      give if and only if the cache and the calls in flight are coherent. */
  lemma {:induction false} AnswersRightIffCoherent(versions: map<string, Version>, s: State)
    requires Shaped(versions, s)
    ensures AllAnswersRight(versions, s) <==> Coherent(versions, s)
  {
    if Coherent(versions, s) {
      forall events, t, c | Leads(versions, s, events, t) && Quiet(events) ensures !AnsweredWrongly(versions, s, t, c) {
        var trace :| Chain(versions, trace, events) && trace[0] == s && trace[|events|] == t;
        CoherentAnswersRight(versions, trace, events, |events|, c);
      }
    } else if src, r :| Gives(versions, s, src, r) && KeyOf(r) in s.entries
                        && s.entries[KeyOf(r)] != Value(versions, r) {
      var c, t, events := WrongEntryAnswers(versions, s, src, r);
    } else if src, r, other, q :| Gives(versions, s, src, r) && Gives(versions, s, other, q) && KeyOf(r) == KeyOf(q)
                                  && Value(versions, r) != Value(versions, q) {
      TwoReadsClash(versions, s, src, r, other, q);
    } else {
      var src, r, c, q :| Gives(versions, s, src, r) && WillStore(versions, s, c, q) && KeyOf(r) == KeyOf(q)
                          && Value(versions, r) != Value(versions, q);
      StoreClashes(versions, s, src, r, c, q);
    }
  }
}
