/** The CLI login handlers as they change the stored codes and credentials, one request at a time,
    and device revocation. */
module CliAuthObject {
  import opened Common
  import opened CliAuth
  import opened CliAuthRuns
  import opened Text

  /** What url.Parse gives for the redirect. */
  datatype Url = Url(scheme: string, hasUser: bool, hostname: string, port: string, path: string)

  predicate LoopbackRedirect(redirect: Option<Url>) {
    && redirect.Some?
    && redirect.value.scheme == "http" && !redirect.value.hasUser && redirect.value.path == "/callback"
    && redirect.value.hostname in {"127.0.0.1", "localhost", "::1"} && redirect.value.port != ""
  }

  datatype Issued = CodeIssued(code: string) | InvalidRequest

  datatype Exchanged = Granted(credential: string) | CodeInvalid | Mismatch

  datatype Minted = Signed(token: Token) | CredentialInvalid

  datatype Revocation = Done | NotFound | BadKind

  class Auth {
    const h: Hashes
    var codes: map<string, Code>
    var creds: map<string, Credential>
    // Which credential a secret's hash belongs to.
    var byHash: map<string, string>
    // The users that own the other kind of device, an OAuth grant.
    var grants: map<string, string>
    // The run of the protocol that the requests so far amount to.
    ghost var trace: seq<State>
    ghost var events: seq<Event>

    constructor (h: Hashes)
      ensures Valid() && events == [] && this.h == h
    {
      this.h := h;
      codes, creds, byHash, grants := map[], map[], map[], map[];
      trace, events := [EMPTY], [];
    }

    ghost function Current(): State
      reads this
    {
      if trace == [] then EMPTY else trace[|trace| - 1]
    }

    /** The stored codes and credentials are those of a run of the protocol, between requests. */
    ghost predicate Valid()
      reads this
    {
      && Run(h, trace, events)
      && Current().desk.codes == codes && Current().vault.creds == creds
      && Current().desk.exchanges == map[] && Current().vault.mints == map[]
    }

    ghost method Advance(e: Event, t: State)
      requires Run(h, trace, events) && Step(h, Current(), e, t)
      modifies this`trace, this`events
      ensures Run(h, trace, events) && Current() == t
      ensures events == old(events) + [e] && trace == old(trace) + [t]
    {
      ghost var before, done := trace, events;
      trace, events := trace + [t], events + [e];
      forall i | 0 <= i < |events| ensures Step(h, trace[i], events[i], trace[i + 1]) {
        if i < |done| { assert trace[i] == before[i] && trace[i + 1] == before[i + 1] && events[i] == done[i]; }
      }
    }

    /** A malformed redirect or challenge never gets a code; a good request is the protocol's
        issuing step. */
    method IssueCLIAuthCode(user: string, redirect: Option<Url>, challenge: string, raw: string, now: nat)
      returns (r: Issued)
      requires Valid() && Current().now <= now && h.secret(raw) !in Current().desk.issued
      modifies this`codes, this`trace, this`events
      ensures Valid()
      ensures r == if LoopbackRedirect(redirect) && ValidChallenge(challenge) then CodeIssued(raw) else InvalidRequest
      ensures events == old(events) + if r.InvalidRequest? then []
                else [Tick(now - old(Current()).now), IssueCode(raw, user, challenge)]
      ensures r.CodeIssued? <==>
                && redirect.Some? && redirect.value.scheme == "http" && !redirect.value.hasUser
                && redirect.value.hostname in ["127.0.0.1", "localhost", "::1"]
                && redirect.value.port != "" && redirect.value.path == "/callback"
                && |challenge| == 43 && forall c :: c in challenge ==> c in UPPER + LOWER + DIGITS + "-_"
      ensures r.InvalidRequest? ==> codes == old(codes)
      ensures r.CodeIssued? ==>
        && h.secret(raw) in codes
        && codes[h.secret(raw)] == Code(user, challenge, now, Unix(now + 300 * 1_000_000_000))
        && forall k :: k != h.secret(raw) ==>
             && (k in codes <==> k in old(codes) && old(codes)[k].expires > Unix(now))
             && (k in codes ==> codes[k] == old(codes)[k])
    {
      ValidChallengeMeaning(challenge);
      if !LoopbackRedirect(redirect) || !ValidChallenge(challenge) {
        return InvalidRequest;
      }
      ghost var s := Current();
      Advance(Tick(now - s.now), s.(now := now));
      ghost var desk := AfterIssue(h, s.desk, raw, user, challenge, now);
      Advance(IssueCode(raw, user, challenge), s.(now := now, desk := desk));
      codes := Unexpired(codes, Unix(now));
      codes := codes[h.secret(raw) := Code(user, challenge, now, Unix(now + CODE_LIFETIME))];
      r := CodeIssued(raw);
    }

    /** The protocol's consuming step, whatever the verifier, and its creating step exactly when
        the verifier's hash is the challenge of a live code. */
    method ExchangeCLICode(raw: string, verifier: string, now: nat, id: string, plaintext: string)
      returns (r: Exchanged)
      requires Valid() && Current().now <= now && id !in Current().desk.origin && id !in Current().vault.owner
      modifies this`codes, this`creds, this`byHash, this`trace, this`events
      ensures Valid()
      ensures var live := raw != "" && verifier != "" && h.secret(raw) in old(codes)
                          && old(codes)[h.secret(raw)].expires > Unix(now);
        && (r.CodeInvalid? <==> !live)
        && (r.Granted? <==> live && h.s256(verifier) == old(codes)[h.secret(raw)].challenge)
      ensures r.Granted? ==> r.credential == plaintext
      ensures byHash == if r.Granted? then old(byHash)[h.secret(plaintext) := id] else old(byHash)
      ensures codes == if r.CodeInvalid? then old(codes) else old(codes) - {h.secret(raw)}
      ensures creds == if r.Granted? then old(creds)[id := Credential(old(codes)[h.secret(raw)].user, Unix(now), None)]
                       else old(creds)
      ensures events == old(events)
                + (if r.CodeInvalid? then []
                   else [Tick(now - old(Current()).now), Consume(0, raw, verifier, now)])
                + (if r.Granted? then [CreateCredential(0, id)] else [])
    {
      if raw == "" || verifier == "" {
        return CodeInvalid;
      }
      var hash := h.secret(raw);
      if hash !in codes || codes[hash].expires <= Unix(now) {
        return CodeInvalid;
      }
      var code := codes[hash];
      RunConsume(raw, verifier, now);
      codes := codes - {hash};
      if h.s256(verifier) != code.challenge {
        return Mismatch;
      }
      RunCreate(id);
      creds := creds[id := Credential(code.user, Unix(now), None)];
      byHash := byHash[h.secret(plaintext) := id];
      r := Granted(plaintext);
    }

    ghost method RunConsume(raw: string, verifier: string, now: nat)
      requires Run(h, trace, events) && Current().now <= now && Current().desk.exchanges == map[]
      requires raw != "" && verifier != "" && h.secret(raw) in Current().desk.codes
      requires Current().desk.codes[h.secret(raw)].expires > Unix(now)
      modifies this`trace, this`events
      ensures Run(h, trace, events) && Current().now == now && Current().vault == old(Current()).vault
      ensures events == old(events) + [Tick(now - old(Current()).now), Consume(0, raw, verifier, now)]
      ensures var code := old(Current()).desk.codes[h.secret(raw)];
        && Current().desk.codes == old(Current()).desk.codes - {h.secret(raw)}
        && Current().desk.origin == old(Current()).desk.origin
        && Current().desk.exchanges == if h.s256(verifier) == code.challenge
             then map[0 := Exchange(h.secret(raw), code.user, verifier, now)] else map[]
    {
      ghost var s := Current();
      ghost var desk := AfterConsume(h, s.desk, 0, raw, verifier, now);
      Advance(Tick(now - s.now), s.(now := now));
      Advance(Consume(0, raw, verifier, now), s.(now := now, desk := desk));
    }

    ghost method RunCreate(id: string)
      requires Run(h, trace, events) && Current().desk.exchanges.Keys == {0}
      requires id !in Current().desk.origin && id !in Current().vault.owner
      modifies this`trace, this`events
      ensures Run(h, trace, events) && events == old(events) + [CreateCredential(0, id)]
      ensures Current() == Created(old(Current()), 0, id) && Current().desk.exchanges == map[]
    {
      ghost var t := Created(Current(), 0, id);
      assert t.desk.exchanges.Keys == {};
      Advance(CreateCredential(0, id), t);
    }

    /** The protocol's four minting steps exactly for a stored credential inside its window whose
        user may sign in; the token returned is the one they issue. */
    method MintAccessToken(raw: string, ttl: int, now: nat, userOk: bool) returns (r: Minted)
      requires Valid() && Current().now <= now
      modifies this`creds, this`trace, this`events
      ensures Valid() && codes == old(codes)
      ensures var known := |raw| >= 5 && raw[..5] == "fbxc_"
                           && h.secret(raw) in byHash && byHash[h.secret(raw)] in old(creds);
        r.Signed? <==> known && userOk && Active(old(creds)[byHash[h.secret(raw)]], now)
      ensures r.Signed? ==>
        && events == old(events) + [Tick(now - old(Current()).now), ReadCredential(0, byHash[h.secret(raw)]),
                                    Check(0, true), TouchCredential(0), IssueToken(0, ttl)]
        && Current().vault.tokens == old(Current()).vault.tokens + [r.token]
        && r.token.cred == byHash[h.secret(raw)]
      ensures !r.Signed? ==> events == old(events) && creds == old(creds)
      ensures r.Signed? ==>
        var id := byHash[h.secret(raw)];
        var cred, lifetime := old(creds)[id], if ttl <= 0 then 900 * 1_000_000_000
                                              else if ttl > 3600 * 1_000_000_000 then 3600 * 1_000_000_000 else ttl;
        && now < ((if cred.lastUsed.Some? then cred.lastUsed.value else cred.created) + 90 * 86400) * 1_000_000_000
        && creds == old(creds)[id := Credential(cred.user, cred.created, Some(Unix(now)))]
        && r.token == Token(id, cred.user, now, Unix(now), Unix(now + lifetime))
      ensures !r.Signed? ==>
        || |raw| < 5 || raw[..5] != "fbxc_" || h.secret(raw) !in byHash || byHash[h.secret(raw)] !in creds || !userOk
        || var cred := creds[byHash[h.secret(raw)]];
           now >= ((if cred.lastUsed.Some? then cred.lastUsed.value else cred.created) + 90 * 86400) * 1_000_000_000
    {
      if |raw| < 5 || raw[..5] != "fbxc_" {
        return CredentialInvalid;
      }
      var hash := h.secret(raw);
      if hash !in byHash || byHash[hash] !in creds {
        return CredentialInvalid;
      }
      var id := byHash[hash];
      var cred := creds[id];
      if !Active(cred, now) || !userOk {
        return CredentialInvalid;
      }
      ghost var s := Current();
      RunMint(id, ttl, now);
      assert s.vault.mints == map[];
      creds := creds[id := cred.(lastUsed := Some(Unix(now)))];
      r := Signed(TokenAt(id, cred.user, now, ttl));
    }

    ghost method RunMint(id: string, ttl: int, now: nat)
      requires Run(h, trace, events) && Current().now <= now && Current().vault.mints == map[]
      requires id in Current().vault.creds && Active(Current().vault.creds[id], now)
      modifies this`trace, this`events
      ensures Run(h, trace, events)
      ensures events == old(events) + [Tick(now - old(Current()).now), ReadCredential(0, id), Check(0, true),
                                       TouchCredential(0), IssueToken(0, ttl)]
      ensures Current().now == now && Current().desk == old(Current()).desk
      ensures var v, cred := old(Current()).vault, old(Current()).vault.creds[id];
        && Current().vault.mints == map[]
        && Current().vault.creds == v.creds[id := cred.(lastUsed := Some(Unix(now)))]
        && Current().vault.tokens == v.tokens + [TokenAt(id, cred.user, now, ttl)]
    {
      ghost var s := Current();
      ghost var v1 := AfterRead(s.vault, 0, id);
      ghost var v2 := AfterCheck(v1, 0, true, now);
      ghost var v3 := AfterTouch(v2, 0);
      ghost var v4 := AfterToken(v3, 0, ttl, now);
      Advance(Tick(now - s.now), s.(now := now));
      Advance(ReadCredential(0, id), s.(now := now, vault := v1));
      Advance(Check(0, true), s.(now := now, vault := v2));
      Advance(TouchCredential(0), s.(now := now, vault := v3));
      Advance(IssueToken(0, ttl), s.(now := now, vault := v4));
      assert v4.mints == map[];
    }

    /** Revocation: the owner may, and for a CLI device an admin where the caller allows the
        override; it is the protocol's revoking step, and no other device is removed. The two lists
        are what the store returned for the acting user. */
    method RevokeDevice(act: string, isAdmin: bool, kind: string, id: string, allowAdminOverride: bool,
                        listedCreds: seq<string>, listedGrants: seq<string>, now: nat)
      returns (r: Revocation)
      requires Valid() && Current().now <= now
      requires forall k :: k in listedCreds <==> k in creds && creds[k].user == act
      requires forall k :: k in listedGrants <==> k in grants && grants[k] == act
      modifies this`creds, this`grants, this`trace, this`events
      ensures Valid() && codes == old(codes)
      ensures r.BadKind? <==> kind != "cli" && kind != "oauth"
      ensures kind == "cli" ==>
        (r.Done? <==> (id in old(creds) && old(creds)[id].user == act) || (allowAdminOverride && isAdmin))
      ensures kind == "oauth" ==> (r.Done? <==> id in old(grants) && old(grants)[id] == act)
      ensures creds == (if r.Done? && kind == "cli" then old(creds) - {id} else old(creds))
      ensures grants == (if r.Done? && kind == "oauth" then old(grants) - {id} else old(grants))
      ensures events == old(events) + (if r.Done? && kind == "cli"
                                then [Tick(now - old(Current()).now), Revoke(id)] else [])
    {
      if kind == "cli" {
        var owned := Listed(listedCreds, id);
        if !owned && !(allowAdminOverride && isAdmin) {
          return NotFound;
        }
        ghost var s := Current();
        Advance(Tick(now - s.now), s.(now := now));
        Advance(Revoke(id), s.(now := now, vault := AfterRevoke(s.vault, id, now)));
        assert [Tick(now - s.now)] + [Revoke(id)] == [Tick(now - s.now), Revoke(id)];
        creds := creds - {id};
        r := Done;
      } else if kind == "oauth" {
        var owned := Listed(listedGrants, id);
        if !owned {
          return NotFound;
        }
        grants := grants - {id};
        r := Done;
      } else {
        r := BadKind;
      }
    }
  }

  /** The state after a credential has been created from a pending exchange. */
  ghost function Created(s: State, x: nat, id: string): State
    requires x in s.desk.exchanges
  {
    var user := s.desk.exchanges[x].user;
    s.(desk := AfterCreate(s.desk, x, id),
       vault := s.vault.(creds := s.vault.creds[id := Credential(user, Unix(s.now), None)],
                         owner := s.vault.owner[id := user]))
  }

  /** The handlers' credentials are the protocol's: no two stored ever came from one code. */
  lemma {:induction false} HandlersKeepCodesApart(a: Auth, id: string, other: string)
    requires a.Valid() && id in a.creds && other in a.creds && id != other
    ensures id in a.Current().desk.origin && other in a.Current().desk.origin
    ensures a.Current().desk.origin[id].code != a.Current().desk.origin[other].code
  {
    RunKeepsInv(a.h, a.trace, a.events, |a.events|);
    OneCredentialPerCode(a.h, a.trace, a.events, |a.events|, id, other);
  }

  method Listed(ids: seq<string>, id: string) returns (owned: bool)
    ensures owned <==> id in ids
  {
    owned := false;
    for i := 0 to |ids|
      invariant !owned && id !in ids[..i]
    {
      if ids[i] == id {
        owned := true;
        break;
      }
    }
  }
}
