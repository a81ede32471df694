/** What holds of every run of the CLI login protocol: one credential per code, the sliding window,
    and how long tokens outlive a revocation. */
module CliAuthRuns {
  import opened Common
  import opened CliAuth

  const EMPTY := State(0, Desk(map[], map[], map[], map[], map[]), Vault(map[], map[], map[], map[], []))

  ghost predicate Run(h: Hashes, trace: seq<State>, events: seq<Event>) {
    && |trace| == |events| + 1 && trace[0] == EMPTY
    && forall i :: 0 <= i < |events| ==> Step(h, trace[i], events[i], trace[i + 1])
  }

  /** One can get from s to t by these events. */
  ghost predicate Leads(h: Hashes, s: State, events: seq<Event>, t: State)
    decreases |events|
  {
    if events == [] then s == t else exists m :: Step(h, s, events[0], m) && Leads(h, m, events[1..], t)
  }

  lemma {:induction false} LeadsCons(h: Hashes, s: State, e: Event, m: State, events: seq<Event>, t: State)
    requires Step(h, s, e, m) && Leads(h, m, events, t)
    ensures Leads(h, s, [e] + events, t)
  {
    assert ([e] + events)[1..] == events;
  }

  /** Desk and vault know the same credentials, for the same users. */
  ghost predicate Linked(d: Desk, v: Vault) {
    && (forall id :: id in d.origin <==> id in v.owner)
    && (forall id :: id in d.origin ==> d.origin[id].user == v.owner[id])
  }

  ghost predicate Inv(h: Hashes, s: State) {
    DeskInv(h, s.desk) && VaultInv(s.now, s.vault) && Linked(s.desk, s.vault)
  }

  lemma {:induction false} StepKeepsLinked(h: Hashes, s: State, e: Event, t: State)
    requires Linked(s.desk, s.vault) && Step(h, s, e, t)
    ensures Linked(t.desk, t.vault)
  {
    if !e.CreateCredential? {
      assert t.desk.origin == s.desk.origin && t.vault.owner == s.vault.owner;
    }
  }

  lemma {:induction false} RunKeepsInv(h: Hashes, trace: seq<State>, events: seq<Event>, n: nat)
    requires Run(h, trace, events) && n < |trace|
    ensures Inv(h, trace[n])
  {
    if n > 0 {
      RunKeepsInv(h, trace, events, n - 1);
      var s, e, t := trace[n - 1], events[n - 1], trace[n];
      assert Step(h, s, e, t);
      DeskStepKeepsInv(h, s.now, s.desk, e, t.desk);
      VaultStepKeepsInv(s.now, s.desk, s.vault, e, t.vault);
      WaitingKeepsVaultInv(s.now, t.now, t.vault);
      StepKeepsLinked(h, s, e, t);
    }
  }

  /** In every run: two credentials never come from one code; a credential exists only for a code
      that was approved for its user, presented within five minutes of the approval, with a
      verifier whose S256 hash is the stored challenge. */
  lemma {:induction false} OneCredentialPerCode(h: Hashes, trace: seq<State>, events: seq<Event>, n: nat, id: string,
                                                other: string)
    requires Run(h, trace, events) && n < |trace|
    requires id in trace[n].desk.origin && other in trace[n].desk.origin
    ensures var d := trace[n].desk;
      var x := d.origin[id];
      && (id != other ==> x.code != d.origin[other].code)
      && x.code in d.issued
      && h.s256(x.verifier) == d.issued[x.code].challenge
      && x.user == d.issued[x.code].user
      && x.at < d.issued[x.code].approved + CODE_LIFETIME
    ensures id in trace[n].vault.creds ==> trace[n].vault.creds[id].user == trace[n].desk.origin[id].user
  {
    RunKeepsInv(h, trace, events, n);
    assert RedeemedOk(h, trace[n].desk, id) && RedeemedOk(h, trace[n].desk, other);
  }

  // ---- Where a credential comes from ----

  /** Event k consumed a live code with a matching verifier, and left this exchange. */
  ghost predicate ConsumedAt(h: Hashes, trace: seq<State>, events: seq<Event>, k: nat, ex: Exchange)
    requires |trace| == |events| + 1
  {
    && k < |events| && events[k].Consume? && h.secret(events[k].raw) == ex.code && events[k].at <= trace[k].now
    && ex.code in trace[k].desk.codes
    && var code := trace[k].desk.codes[ex.code];
       && code.expires > Unix(events[k].at) && h.s256(events[k].verifier) == code.challenge
       && ex == Exchange(ex.code, code.user, events[k].verifier, events[k].at)
  }

  /** Event i issued this code, with the challenge it names, to the user it names. */
  ghost predicate IssuedAt(h: Hashes, trace: seq<State>, events: seq<Event>, i: nat, id: string, code: Code)
    requires |trace| == |events| + 1
  {
    && i < |events| && events[i].IssueCode? && h.secret(events[i].raw) == id
    && code == Code(events[i].user, events[i].challenge, trace[i].now, Unix(trace[i].now + 300 * 1_000_000_000))
  }

  lemma {:induction false} DeskStepOf(h: Hashes, trace: seq<State>, events: seq<Event>, n: nat)
    requires Run(h, trace, events) && n < |events|
    ensures DeskStep(h, trace[n].now, trace[n].desk, events[n], trace[n + 1].desk)
  {
    assert Step(h, trace[n], events[n], trace[n + 1]);
  }

  lemma {:induction false} CodeWasIssued(h: Hashes, trace: seq<State>, events: seq<Event>, n: nat, id: string)
    returns (i: nat)
    requires Run(h, trace, events) && n < |trace| && id in trace[n].desk.codes
    ensures i < n && IssuedAt(h, trace, events, i, id, trace[n].desk.codes[id])
  {
    DeskStepOf(h, trace, events, n - 1);
    var e := events[n - 1];
    if e.IssueCode? && h.secret(e.raw) == id {
      i := n - 1;
    } else {
      i := CodeWasIssued(h, trace, events, n - 1, id);
    }
  }

  lemma {:induction false} ExchangeWasConsumed(h: Hashes, trace: seq<State>, events: seq<Event>, n: nat, x: nat)
    returns (k: nat)
    requires Run(h, trace, events) && n < |trace| && x in trace[n].desk.exchanges
    ensures k < n && ConsumedAt(h, trace, events, k, trace[n].desk.exchanges[x])
  {
    DeskStepOf(h, trace, events, n - 1);
    if x in trace[n - 1].desk.exchanges {
      k := ExchangeWasConsumed(h, trace, events, n - 1, x);
    } else {
      k := n - 1;
    }
  }

  lemma {:induction false} OriginWasConsumed(h: Hashes, trace: seq<State>, events: seq<Event>, n: nat, id: string)
    returns (k: nat)
    requires Run(h, trace, events) && n < |trace| && id in trace[n].desk.origin
    ensures k < n && ConsumedAt(h, trace, events, k, trace[n].desk.origin[id])
  {
    DeskStepOf(h, trace, events, n - 1);
    var e := events[n - 1];
    if id in trace[n - 1].desk.origin {
      k := OriginWasConsumed(h, trace, events, n - 1, id);
    } else {
      k := ExchangeWasConsumed(h, trace, events, n - 1, e.x);
    }
  }

  /** Behind every credential there is an approval by its user, and within five minutes of it one
      presentation of the code that was issued then, with a verifier for the challenge of then. */
  lemma {:induction false} CredentialHistory(h: Hashes, trace: seq<State>, events: seq<Event>, n: nat, id: string)
    returns (i: nat, k: nat)
    requires Run(h, trace, events) && n < |trace| && id in trace[n].vault.owner
    ensures i < k < n && events[i].IssueCode? && events[k].Consume?
    ensures events[i].user == trace[n].vault.owner[id]
    ensures h.secret(events[k].raw) == h.secret(events[i].raw) && h.s256(events[k].verifier) == events[i].challenge
    ensures events[k].at < trace[i].now + 300 * 1_000_000_000
    ensures id in trace[n].desk.origin && trace[n].desk.origin[id].code == h.secret(events[i].raw)
  {
    RunKeepsInv(h, trace, events, n);
    k := OriginWasConsumed(h, trace, events, n, id);
    i := CodeWasIssued(h, trace, events, k, trace[n].desk.origin[id].code);
  }

  /** Two credentials go back to two approvals. */
  lemma {:induction false} EachItsOwnApproval(h: Hashes, trace: seq<State>, events: seq<Event>, n: nat,
                                              id: string, other: string)
    returns (i: nat, j: nat)
    requires Run(h, trace, events) && n < |trace| && id != other
    requires id in trace[n].vault.owner && other in trace[n].vault.owner
    ensures i < n && j < n && i != j && events[i].IssueCode? && events[j].IssueCode?
    ensures events[i].user == trace[n].vault.owner[id] && events[j].user == trace[n].vault.owner[other]
    ensures h.secret(events[i].raw) != h.secret(events[j].raw)
  {
    var k;
    i, k := CredentialHistory(h, trace, events, n, id);
    j, k := CredentialHistory(h, trace, events, n, other);
    OneCredentialPerCode(h, trace, events, n, id, other);
  }

  /** A code that can no longer yield a credential, and has not. */
  ghost predicate Burned(d: Desk, code: string) {
    code in d.issued && code !in d.codes && code !in d.holder
  }

  /** Presenting a live code with a wrong verifier burns it. */
  lemma {:induction false} MismatchBurns(h: Hashes, d: Desk, x: nat, raw: string, verifier: string, at: nat)
    requires DeskInv(h, d)
    requires h.secret(raw) in d.codes && d.codes[h.secret(raw)].expires > Unix(at)
    requires h.s256(verifier) != d.codes[h.secret(raw)].challenge
    ensures Burned(AfterConsume(h, d, x, raw, verifier, at), h.secret(raw))
  {}

  lemma {:induction false} BurnedStep(h: Hashes, now: nat, d: Desk, e: Event, t: Desk, code: string)
    requires DeskInv(h, d) && DeskStep(h, now, d, e, t) && Burned(d, code)
    ensures Burned(t, code)
  {
    if e.CreateCredential? {
      assert PendingOk(h, d, e.x);
    }
  }

  lemma {:induction false} BurnedStaysBurned(h: Hashes, trace: seq<State>, events: seq<Event>, k: nat, n: nat,
                                             code: string)
    requires Run(h, trace, events) && k <= n < |trace| && Burned(trace[k].desk, code)
    ensures Burned(trace[n].desk, code)
  {
    if k < n {
      BurnedStaysBurned(h, trace, events, k, n - 1, code);
      RunKeepsInv(h, trace, events, n - 1);
      assert Step(h, trace[n - 1], events[n - 1], trace[n]);
      BurnedStep(h, trace[n - 1].now, trace[n - 1].desk, events[n - 1], trace[n].desk, code);
    }
  }

  /** So after a mismatch no verifier, not even the right one, ever turns that code into a
      credential. */
  lemma {:induction false} MismatchIsFinal(h: Hashes, trace: seq<State>, events: seq<Event>, k: nat, n: nat, id: string)
    requires Run(h, trace, events) && k < n < |trace| && events[k].Consume?
    requires var code := h.secret(events[k].raw);
      && code in trace[k].desk.codes && trace[k].desk.codes[code].expires > Unix(events[k].at)
      && h.s256(events[k].verifier) != trace[k].desk.codes[code].challenge
    requires id in trace[n].desk.origin
    ensures trace[n].desk.origin[id].code != h.secret(events[k].raw)
  {
    var e := events[k];
    RunKeepsInv(h, trace, events, k);
    assert Step(h, trace[k], e, trace[k + 1]);
    MismatchBurns(h, trace[k].desk, e.x, e.raw, e.verifier, e.at);
    BurnedStaysBurned(h, trace, events, k + 1, n, h.secret(e.raw));
    RunKeepsInv(h, trace, events, n);
    assert RedeemedOk(h, trace[n].desk, id);
  }

  /** A mint whose user may not sign in, or whose record has run out, ends at its check. */
  lemma {:induction false} RefusedCheckEndsMint(h: Hashes, s: State, m: nat, userOk: bool, t: State)
    requires Step(h, s, Check(m, userOk), t)
    ensures m in s.vault.mints && s.vault.mints[m].Read?
    ensures m in t.vault.mints <==> userOk && Active(s.vault.mints[m].record, s.now)
    ensures t.vault.tokens == s.vault.tokens && t.vault.creds == s.vault.creds
  {
  }

  // ---- Revocation ----

  /** `w`'s tokens are `v`'s and possibly more, none of the new ones from this credential. */
  ghost predicate NoneIssued(v: Vault, w: Vault, id: string) {
    && |v.tokens| <= |w.tokens|
    && (forall i :: 0 <= i < |v.tokens| ==> w.tokens[i] == v.tokens[i])
    && (forall i :: |v.tokens| <= i < |w.tokens| ==> w.tokens[i].cred != id)
  }

  /** Whole-second expiry never lengthens a token's life. */
  lemma {:induction false} TokenLife(v: Vault, now: nat, t: Token, at: nat)
    requires TokenOk(v, now, t) && Verifies(t, at)
    ensures at < t.at + MAX_TTL
  {}

  /** A token verifies in every second before the one in which its lifetime ends, and in none after. */
  lemma {:induction false} TokenWorks(cred: string, user: string, now: nat, ttl: int, at: nat)
    ensures Verifies(TokenAt(cred, user, now, ttl), at) <==> Unix(at) < Unix(now + ClampTTL(ttl))
    ensures at + 1_000_000_000 <= now + ClampTTL(ttl) ==> Verifies(TokenAt(cred, user, now, ttl), at)
    ensures at >= now + ClampTTL(ttl) ==> !Verifies(TokenAt(cred, user, now, ttl), at)
  {
    UnixMeaning(at);
    UnixMeaning(now + ClampTTL(ttl));
  }

  /** No mint of the credential stands between its Touch and its token. */
  ghost predicate NoTouchedMint(v: Vault, id: string) {
    forall m :: m in v.mints && v.mints[m].cred == id ==> !v.mints[m].Touched?
  }

  ghost predicate Gone(v: Vault, id: string) {
    id in v.owner && id !in v.creds && NoTouchedMint(v, id)
  }

  lemma {:induction false} GoneStep(now: nat, d: Desk, v: Vault, e: Event, w: Vault, id: string)
    requires VaultStep(now, d, v, e, w) && Gone(v, id)
    ensures Gone(w, id) && NoneIssued(v, w, id)
  {
    match e
    case CreateCredential(x, i) =>
    case ReadCredential(m, i) =>
    case Check(m, userOk) =>
    case TouchCredential(m) =>
    case IssueToken(m, ttl) =>
    case Revoke(i) =>
    case _ =>
  }

  lemma {:induction false} GoneForever(h: Hashes, trace: seq<State>, events: seq<Event>, k: nat, n: nat, id: string)
    requires Run(h, trace, events) && k <= n < |trace| && Gone(trace[k].vault, id)
    ensures Gone(trace[n].vault, id) && NoneIssued(trace[k].vault, trace[n].vault, id)
  {
    if k < n {
      GoneForever(h, trace, events, k, n - 1, id);
      var s, e, t := trace[n - 1], events[n - 1], trace[n];
      assert Step(h, s, e, t);
      GoneStep(s.now, s.desk, s.vault, e, t.vault, id);
    }
  }

  /** If no mint of the credential stands between its Touch and its token when the credential is
      revoked, no token minted from it, before or ever after, verifies an hour or more after the
      revocation. */
  lemma {:induction false} RevocationTakesHold(h: Hashes, trace: seq<State>, events: seq<Event>, k: nat, n: nat,
                                               id: string, i: nat, at: nat)
    requires Run(h, trace, events) && k < n < |trace|
    requires events[k] == Revoke(id) && id in trace[k].vault.creds && NoTouchedMint(trace[k].vault, id)
    requires i < |trace[n].vault.tokens| && trace[n].vault.tokens[i].cred == id
    requires at >= trace[k].now + HOUR
    ensures !Verifies(trace[n].vault.tokens[i], at)
  {
    RunKeepsInv(h, trace, events, k);
    assert Step(h, trace[k], events[k], trace[k + 1]);
    GoneForever(h, trace, events, k + 1, n, id);
    var v, t := trace[k].vault, trace[n].vault.tokens[i];
    assert t == v.tokens[i] && TokenOk(v, trace[k].now, t);
    if Verifies(t, at) {
      TokenLife(v, trace[k].now, t, at);
    }
  }

  /** The condition is needed: whenever such a mint is in flight, there is a continuation in which
      the token it issues verifies an hour after the revocation, and for as long after that as the
      mint was delayed. */
  lemma {:induction false} InFlightMintOutlivesRevocation(h: Hashes, s: State, m: nat, delay: nat)
    returns (revoked: State, later: State, t: State)
    requires m in s.vault.mints && s.vault.mints[m].Touched? && s.vault.mints[m].cred in s.vault.creds
    requires delay >= SECOND
    ensures Step(h, s, Revoke(s.vault.mints[m].cred), revoked)
    ensures Step(h, revoked, Tick(delay), later) && Step(h, later, IssueToken(m, HOUR), t)
    ensures revoked.vault.revoked[s.vault.mints[m].cred] == s.now
    ensures |t.vault.tokens| > 0 && t.vault.tokens[|t.vault.tokens| - 1].cred == s.vault.mints[m].cred
    ensures Verifies(t.vault.tokens[|t.vault.tokens| - 1], s.now + HOUR + delay - SECOND)
  {
    revoked := s.(vault := AfterRevoke(s.vault, s.vault.mints[m].cred, s.now));
    later := revoked.(now := revoked.now + delay);
    t := later.(vault := AfterToken(later.vault, m, HOUR, later.now));
  }

  lemma {:induction false} GoneLeads(h: Hashes, s: State, events: seq<Event>, t: State, id: string)
    requires Leads(h, s, events, t) && Gone(s.vault, id)
    ensures NoneIssued(s.vault, t.vault, id)
    decreases |events|
  {
    if events != [] {
      var m :| Step(h, s, events[0], m) && Leads(h, m, events[1..], t);
      GoneStep(s.now, s.desk, s.vault, events[0], m.vault, id);
      GoneLeads(h, m, events[1..], t, id);
    }
  }

  /** Some continuation of revoking the credential has a token of it that verifies an hour or more
      after the revocation. */
  ghost predicate CanOutlive(h: Hashes, s: State, id: string) {
    exists revoked, events, t, i, at ::
      Step(h, s, Revoke(id), revoked) && Leads(h, revoked, events, t) && OutlivedBy(s, t, id, i, at)
  }

  ghost predicate OutlivedBy(s: State, t: State, id: string, i: nat, at: nat) {
    && i < |t.vault.tokens| && t.vault.tokens[i].cred == id
    && at >= s.now + HOUR && Verifies(t.vault.tokens[i], at)
  }

  lemma {:induction false} CannotOutlive(h: Hashes, s: State, id: string, revoked: State, events: seq<Event>, t: State,
                                         i: nat, at: nat)
    requires Inv(h, s) && id in s.vault.creds && NoTouchedMint(s.vault, id)
    requires Step(h, s, Revoke(id), revoked) && Leads(h, revoked, events, t)
    ensures !OutlivedBy(s, t, id, i, at)
  {
    GoneLeads(h, revoked, events, t, id);
    if OutlivedBy(s, t, id, i, at) {
      assert t.vault.tokens[i] == s.vault.tokens[i] && TokenOk(s.vault, s.now, s.vault.tokens[i]);
      TokenLife(s.vault, s.now, t.vault.tokens[i], at);
    }
  }

  /** The exact condition: in a reachable state, revoking a stored credential ends all its tokens
      within the hour, in every continuation, if and only if no mint of it stands between its Touch
      and its token. */
  lemma {:induction false} RevocationTakesHoldIff(h: Hashes, trace: seq<State>, events: seq<Event>, k: nat, id: string)
    requires Run(h, trace, events) && k < |trace| && id in trace[k].vault.creds
    ensures !CanOutlive(h, trace[k], id) <==> NoTouchedMint(trace[k].vault, id)
  {
    var s := trace[k];
    RunKeepsInv(h, trace, events, k);
    if NoTouchedMint(s.vault, id) {
      forall revoked, more, t, i, at | Step(h, s, Revoke(id), revoked) && Leads(h, revoked, more, t)
        ensures !OutlivedBy(s, t, id, i, at)
      {
        CannotOutlive(h, s, id, revoked, more, t, i, at);
      }
    } else {
      var m :| m in s.vault.mints && s.vault.mints[m].cred == id && s.vault.mints[m].Touched?;
      var revoked, later, t := InFlightMintOutlivesRevocation(h, s, m, SECOND);
      LeadsCons(h, later, IssueToken(m, HOUR), t, [], t);
      LeadsCons(h, revoked, Tick(SECOND), later, [IssueToken(m, HOUR)] + [], t);
      assert OutlivedBy(s, t, id, |t.vault.tokens| - 1, s.now + HOUR);
    }
  }
}
