/** The sliding window of CLI credentials when requests interleave: exactly when a credential can
    still yield a token, and exactly when it can become usable again. */
module CliAuthWindow {
  import opened CliAuth
  import opened CliAuthRuns
  import opened Common

  ghost predicate MintOf(v: Vault, m: nat, id: string) {
    m in v.mints && v.mints[m].cred == id
  }

  // ---- Yielding a token ----

  /** The credential is stored and inside its window; or a mint of it is past its Touch; or it is
      stored and a mint of it is past its check, or has read a record that is still live. */
  ghost predicate MayMint(now: nat, v: Vault, id: string) {
    || (id in v.creds && Active(v.creds[id], now))
    || (exists m :: MintOf(v, m, id) && v.mints[m].Touched?)
    || (id in v.creds && exists m :: MintOf(v, m, id) && Pressing(now, v.mints[m]))
  }

  /** It needs nothing more than that the credential is still stored. */
  predicate Pressing(now: nat, mint: Mint) {
    mint.Checked? || (mint.Read? && Active(mint.record, now))
  }

  ghost predicate CanYieldToken(h: Hashes, s: State, id: string) {
    exists events, t :: Leads(h, s, events, t) && !NoneIssued(s.vault, t.vault, id)
  }

  lemma {:induction false} SpentStep(h: Hashes, s: State, e: Event, t: State, id: string)
    requires Step(h, s, e, t) && id in s.vault.owner && !MayMint(s.now, s.vault, id)
    ensures id in t.vault.owner && !MayMint(t.now, t.vault, id) && NoneIssued(s.vault, t.vault, id)
  {
    var v, w := s.vault, t.vault;
    assert forall m :: m in v.mints && v.mints[m].cred == id ==> MintOf(v, m, id);
    forall m | MintOf(w, m, id) ensures !w.mints[m].Touched? {}
    if id in w.creds {
      assert id in v.creds;
      forall m | MintOf(w, m, id) ensures !Pressing(t.now, w.mints[m]) {}
    }
  }

  /** Once none of that holds it never holds again, and no token is issued from the credential. */
  lemma {:induction false} SpentForever(h: Hashes, s: State, events: seq<Event>, t: State, id: string)
    requires Leads(h, s, events, t) && id in s.vault.owner && !MayMint(s.now, s.vault, id)
    ensures id in t.vault.owner && !MayMint(t.now, t.vault, id) && NoneIssued(s.vault, t.vault, id)
    decreases |events|
  {
    if events != [] {
      var m :| Step(h, s, events[0], m) && Leads(h, m, events[1..], t);
      SpentStep(h, s, events[0], m, id);
      SpentForever(h, m, events[1..], t, id);
    }
  }

  lemma {:induction false} IssueFromTouched(h: Hashes, s: State, m: nat) returns (t: State)
    requires m in s.vault.mints && s.vault.mints[m].Touched?
    ensures Leads(h, s, [IssueToken(m, 1)], t)
    ensures t.vault.tokens == s.vault.tokens + [TokenAt(s.vault.mints[m].cred, s.vault.mints[m].user, s.now, 1)]
  {
    t := s.(vault := AfterToken(s.vault, m, 1, s.now));
    assert Step(h, s, IssueToken(m, 1), t);
    LeadsCons(h, s, IssueToken(m, 1), t, [], t);
    assert [IssueToken(m, 1)] + [] == [IssueToken(m, 1)];
  }

  lemma {:induction false} IssueFromChecked(h: Hashes, s: State, m: nat) returns (events: seq<Event>, t: State)
    requires m in s.vault.mints && s.vault.mints[m].Checked? && s.vault.mints[m].cred in s.vault.creds
    ensures Leads(h, s, events, t) && Yields(s, t, s.vault.mints[m].cred)
  {
    var touched := s.(vault := AfterTouch(s.vault, m));
    assert Step(h, s, TouchCredential(m), touched);
    t := IssueFromTouched(h, touched, m);
    LeadsCons(h, s, TouchCredential(m), touched, [IssueToken(m, 1)], t);
    events := [TouchCredential(m)] + [IssueToken(m, 1)];
  }

  lemma {:induction false} IssueFromRead(h: Hashes, s: State, m: nat) returns (events: seq<Event>, t: State)
    requires m in s.vault.mints && s.vault.mints[m].Read? && s.vault.mints[m].cred in s.vault.creds
    requires Active(s.vault.mints[m].record, s.now)
    ensures Leads(h, s, events, t) && Yields(s, t, s.vault.mints[m].cred)
  {
    var checked := s.(vault := AfterCheck(s.vault, m, true, s.now));
    assert Step(h, s, Check(m, true), checked);
    var rest;
    rest, t := IssueFromChecked(h, checked, m);
    LeadsCons(h, s, Check(m, true), checked, rest, t);
    events := [Check(m, true)] + rest;
  }

  /** t has one more token than s, from this credential. */
  ghost predicate Yields(s: State, t: State, id: string) {
    |t.vault.tokens| == |s.vault.tokens| + 1 && t.vault.tokens[|s.vault.tokens|].cred == id
  }

  lemma {:induction false} NewMint(v: Vault) returns (m: nat)
    ensures m !in v.mints
  {
    m := Above(v.mints.Keys);
  }

  lemma {:induction false} IssueFromStored(h: Hashes, s: State, id: string) returns (events: seq<Event>, t: State)
    requires id in s.vault.creds && Active(s.vault.creds[id], s.now)
    ensures Leads(h, s, events, t) && Yields(s, t, id)
  {
    var m := NewMint(s.vault);
    var read := s.(vault := AfterRead(s.vault, m, id));
    assert Step(h, s, ReadCredential(m, id), read);
    var rest;
    rest, t := IssueFromRead(h, read, m);
    LeadsCons(h, s, ReadCredential(m, id), read, rest, t);
    events := [ReadCredential(m, id)] + rest;
  }

  /** The exact condition: a credential that exists or existed can still yield a token if and only
      if one of the cases of MayMint holds now. */
  lemma {:induction false} TokenStillPossibleIff(h: Hashes, s: State, id: string)
    requires id in s.vault.owner
    ensures CanYieldToken(h, s, id) <==> MayMint(s.now, s.vault, id)
  {
    if MayMint(s.now, s.vault, id) {
      var events, t;
      if m :| MintOf(s.vault, m, id) && s.vault.mints[m].Touched? {
        events := [IssueToken(m, 1)];
        t := IssueFromTouched(h, s, m);
      } else if id in s.vault.creds && Active(s.vault.creds[id], s.now) {
        events, t := IssueFromStored(h, s, id);
      } else {
        var m :| MintOf(s.vault, m, id) && Pressing(s.now, s.vault.mints[m]);
        if s.vault.mints[m].Checked? {
          events, t := IssueFromChecked(h, s, m);
        } else {
          events, t := IssueFromRead(h, s, m);
        }
      }
      assert Yields(s, t, id);
    } else {
      forall events, t | Leads(h, s, events, t) ensures NoneIssued(s.vault, t.vault, id) {
        SpentForever(h, s, events, t, id);
      }
    }
  }

  // ---- Becoming usable again ----

  ghost predicate Usable(now: nat, v: Vault, id: string) {
    id in v.creds && Active(v.creds[id], now)
  }

  /** It is stored, and inside its window now, or a mint of it is in flight that has read a live
      record, or whose check is less than 90 days old. */
  ghost predicate MayRevive(now: nat, v: Vault, id: string) {
    && id in v.creds
    && (|| Active(v.creds[id], now)
        || exists m :: MintOf(v, m, id) && Reviving(now, v.mints[m]))
  }

  predicate Reviving(now: nat, mint: Mint) {
    || (mint.Checked? && now < Unix(mint.at) * SECOND + SLIDING_WINDOW)
    || (mint.Read? && Active(mint.record, now))
  }

  lemma {:induction false} ExpiredStep(h: Hashes, s: State, e: Event, t: State, id: string)
    requires Step(h, s, e, t) && id in s.vault.owner && !MayRevive(s.now, s.vault, id)
    ensures id in t.vault.owner && !MayRevive(t.now, t.vault, id)
  {
    var v, w := s.vault, t.vault;
    assert forall m :: m in v.mints && v.mints[m].cred == id ==> MintOf(v, m, id);
    if id in w.creds {
      assert id in v.creds;
      forall m | MintOf(w, m, id) ensures !Reviving(t.now, w.mints[m]) {}
    }
  }

  lemma {:induction false} ExpiredForever(h: Hashes, s: State, events: seq<Event>, t: State, id: string)
    requires Leads(h, s, events, t) && id in s.vault.owner && !MayRevive(s.now, s.vault, id)
    ensures id in t.vault.owner && !MayRevive(t.now, t.vault, id)
    decreases |events|
  {
    if events != [] {
      var m :| Step(h, s, events[0], m) && Leads(h, m, events[1..], t);
      ExpiredStep(h, s, events[0], m, id);
      ExpiredForever(h, m, events[1..], t, id);
    }
  }

  lemma {:induction false} TouchRevives(h: Hashes, s: State, m: nat) returns (t: State)
    requires m in s.vault.mints && s.vault.mints[m].Checked? && s.vault.mints[m].cred in s.vault.creds
    requires Reviving(s.now, s.vault.mints[m])
    ensures Leads(h, s, [TouchCredential(m)], t) && Usable(t.now, t.vault, s.vault.mints[m].cred)
  {
    t := s.(vault := AfterTouch(s.vault, m));
    assert Step(h, s, TouchCredential(m), t);
    LeadsCons(h, s, TouchCredential(m), t, [], t);
    assert [TouchCredential(m)] + [] == [TouchCredential(m)];
  }

  /** The exact condition: some continuation has the credential stored and inside its window if
      and only if MayRevive holds now. So with nothing in flight an idle credential is dead. */
  lemma {:induction false} UsableAgainIff(h: Hashes, s: State, id: string)
    requires id in s.vault.owner
    ensures (exists events, t :: Leads(h, s, events, t) && Usable(t.now, t.vault, id))
            <==> MayRevive(s.now, s.vault, id)
  {
    if MayRevive(s.now, s.vault, id) {
      if Active(s.vault.creds[id], s.now) {
        var none: seq<Event> := [];
        assert Leads(h, s, none, s);
      } else {
        var m :| MintOf(s.vault, m, id) && Reviving(s.now, s.vault.mints[m]);
        if s.vault.mints[m].Checked? {
          var t := TouchRevives(h, s, m);
          assert Leads(h, s, [TouchCredential(m)], t) && Usable(t.now, t.vault, id);
        } else {
          var checked := s.(vault := AfterCheck(s.vault, m, true, s.now));
          assert Step(h, s, Check(m, true), checked);
          var t := TouchRevives(h, checked, m);
          LeadsCons(h, s, Check(m, true), checked, [TouchCredential(m)], t);
          assert Leads(h, s, [Check(m, true)] + [TouchCredential(m)], t) && Usable(t.now, t.vault, id);
        }
      }
    } else {
      forall events, t | Leads(h, s, events, t) ensures !Usable(t.now, t.vault, id) {
        ExpiredForever(h, s, events, t, id);
      }
    }
  }

  /** So a credential idle for 90 days with no mint of it in flight is never usable again and
      yields no token. */
  lemma {:induction false} IdleForever(h: Hashes, s: State, events: seq<Event>, t: State, id: string)
    requires Leads(h, s, events, t) && id in s.vault.owner
    requires id in s.vault.creds ==> !Active(s.vault.creds[id], s.now)
    requires forall m :: m in s.vault.mints ==> s.vault.mints[m].cred != id
    ensures !Usable(t.now, t.vault, id) && NoneIssued(s.vault, t.vault, id)
  {
    SpentForever(h, s, events, t, id);
    ExpiredForever(h, s, events, t, id);
  }
}
