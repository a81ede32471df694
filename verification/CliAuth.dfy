/** The CLI login protocol as a timed state machine: one-time codes bound to a PKCE challenge, the
    credentials they are exchanged for, the tokens minted from those, and revocation. Every store
    operation and every reading of the clock is a step of its own, so requests interleave. */
module CliAuth {
  import opened Common
  import opened Text

  // Time is in nanoseconds; stored timestamps and token claims are whole seconds.
  const SECOND: nat := 1_000_000_000
  const MINUTE: nat := 60 * SECOND
  const HOUR: nat := 60 * MINUTE
  const CODE_LIFETIME: nat := 5 * MINUTE
  const SLIDING_WINDOW: nat := 90 * 24 * HOUR
  const DEFAULT_TTL: nat := 15 * MINUTE
  const MAX_TTL: nat := HOUR
  const CHALLENGE_LENGTH := 43

  function Unix(t: nat): nat { t / SECOND }

  /** The whole second a time falls in. */
  lemma {:induction false} UnixMeaning(t: nat)
    ensures Unix(t) * 1_000_000_000 <= t < (Unix(t) + 1) * 1_000_000_000
  {
  }

  /** The two one-way functions, uninterpreted: nothing below needs them to be injective. */
  datatype Hashes = Hashes(secret: string -> string, s256: string -> string)

  // ---- Pure parts ----

  function ClampTTL(requested: int): (ttl: nat)
    ensures 0 < ttl <= MAX_TTL
    ensures 0 < requested ==> ttl <= requested
    ensures 0 < requested <= MAX_TTL ==> ttl == requested
  {
    if requested <= 0 then DEFAULT_TTL else if requested > MAX_TTL then MAX_TTL else requested
  }

  /** Clamping again changes nothing, and never reverses the order of two positive requests. */
  lemma {:induction false} ClampIsStable(a: int, b: int)
    ensures ClampTTL(ClampTTL(a)) == ClampTTL(a)
    ensures 0 < a <= b ==> ClampTTL(a) <= ClampTTL(b)
  {}

  predicate Base64UrlChar(c: char) {
    'A' <= c <= 'Z' || 'a' <= c <= 'z' || '0' <= c <= '9' || c == '-' || c == '_'
  }

  lemma {:induction false} Base64UrlCharMeaning(c: char)
    ensures Base64UrlChar(c) <==> c in UPPER || c in LOWER || c in DIGITS || c == '-' || c == '_'
  {
    if 'A' <= c <= 'Z' { Alphabet(c as int - 'A' as int); }
    if 'a' <= c <= 'z' { Alphabet(c as int - 'a' as int); }
    if '0' <= c <= '9' { Numerals(c as int - '0' as int); }
    if n :| 0 <= n < 26 && (c == UPPER[n] || c == LOWER[n]) { Alphabet(n); }
    if n :| 0 <= n < 10 && c == DIGITS[n] { Numerals(n); }
  }

  /** Decodes, unpadded, to exactly 32 bytes. */
  predicate ValidChallenge(challenge: string) {
    |challenge| == CHALLENGE_LENGTH && forall i :: 0 <= i < |challenge| ==> Base64UrlChar(challenge[i])
  }

  lemma {:induction false} ValidChallengeMeaning(challenge: string)
    ensures ValidChallenge(challenge)
            <==> |challenge| == 43 && forall c :: c in challenge ==> c in UPPER + LOWER + DIGITS + "-_"
  {
    forall c ensures Base64UrlChar(c) <==> c in UPPER + LOWER + DIGITS + "-_" {
      Base64UrlCharMeaning(c);
    }
  }

  // ---- State ----

  /** `approved` is when the user clicked Approve; the store keeps only whole seconds. */
  datatype Code = Code(user: string, challenge: string, approved: nat, expires: nat)

  datatype Credential = Credential(user: string, created: nat, lastUsed: Option<nat>)

  /** An exchange that consumed its code at time `at` and matched its challenge. */
  datatype Exchange = Exchange(code: string, user: string, verifier: string, at: nat)

  /** A mint request between its store operations. */
  datatype Mint =
    | Read(cred: string, record: Credential)
    | Checked(cred: string, user: string, at: nat)
    | Touched(cred: string, user: string)

  /** `cred` and `at` are history: the claims carry only user, iat and exp. */
  datatype Token = Token(cred: string, user: string, at: nat, iat: nat, exp: nat)

  predicate Verifies(t: Token, now: nat) { Unix(now) < t.exp }

  /** The sliding window, from the last use or else the creation. */
  predicate Active(c: Credential, now: nat) {
    now < (if c.lastUsed.Some? then c.lastUsed.value else c.created) * SECOND + SLIDING_WINDOW
  }

  /** Who came to hold a consumed code. */
  datatype Holder = Pending(x: nat) | Redeemed(cred: string)

  /** The code desk. `issued`, `origin` and `holder` record what has ever happened; the server
      keeps no such records. */
  datatype Desk = Desk(codes: map<string, Code>, exchanges: map<nat, Exchange>,
                       issued: map<string, Code>, origin: map<string, Exchange>, holder: map<string, Holder>)

  /** The credential vault. `owner` and `revoked` are records of the same kind, and so is the list
      of tokens. */
  datatype Vault = Vault(creds: map<string, Credential>, mints: map<nat, Mint>,
                         owner: map<string, string>, revoked: map<string, nat>, tokens: seq<Token>)

  datatype State = State(now: nat, desk: Desk, vault: Vault)

  datatype Event =
    | Tick(d: nat)
    | IssueCode(raw: string, user: string, challenge: string)
    | Consume(x: nat, raw: string, verifier: string, at: nat)
    | CreateCredential(x: nat, id: string)
    | ReadCredential(m: nat, id: string)
    | Check(m: nat, userOk: bool)
    | TouchCredential(m: nat)
    | IssueToken(m: nat, ttl: int)
    | Revoke(id: string)

  function Unexpired(codes: map<string, Code>, seconds: nat): map<string, Code> {
    map k | k in codes && codes[k].expires > seconds :: codes[k]
  }

  function AfterConsume(h: Hashes, d: Desk, x: nat, raw: string, verifier: string, at: nat): Desk {
    var id := h.secret(raw);
    if id in d.codes && d.codes[id].expires > Unix(at) then
      var code := d.codes[id];
      if h.s256(verifier) == code.challenge then
        d.(codes := d.codes - {id}, exchanges := d.exchanges[x := Exchange(id, code.user, verifier, at)],
           holder := d.holder[id := Pending(x)])
      else d.(codes := d.codes - {id})
    else d
  }

  function AfterIssue(h: Hashes, d: Desk, raw: string, user: string, challenge: string, now: nat): Desk {
    var code := Code(user, challenge, now, Unix(now + CODE_LIFETIME));
    d.(codes := Unexpired(d.codes, Unix(now))[h.secret(raw) := code], issued := d.issued[h.secret(raw) := code])
  }

  function AfterCreate(d: Desk, x: nat, id: string): Desk
    requires x in d.exchanges
  {
    d.(origin := d.origin[id := d.exchanges[x]], exchanges := d.exchanges - {x},
       holder := d.holder[d.exchanges[x].code := Redeemed(id)])
  }

  ghost predicate DeskStep(h: Hashes, now: nat, d: Desk, e: Event, t: Desk) {
    match e
    case IssueCode(raw, user, challenge) =>
      h.secret(raw) !in d.issued && ValidChallenge(challenge) && t == AfterIssue(h, d, raw, user, challenge, now)
    case Consume(x, raw, verifier, at) =>
      raw != "" && verifier != "" && x !in d.exchanges && at <= now
      && t == AfterConsume(h, d, x, raw, verifier, at)
    case CreateCredential(x, id) =>
      x in d.exchanges && id !in d.origin && t == AfterCreate(d, x, id)
    case _ => t == d
  }

  function AfterRead(v: Vault, m: nat, id: string): Vault
    requires id in v.creds
  {
    v.(mints := v.mints[m := Read(id, v.creds[id])])
  }

  function AfterCheck(v: Vault, m: nat, userOk: bool, now: nat): Vault
    requires m in v.mints && v.mints[m].Read?
  {
    var mint := v.mints[m];
    if Active(mint.record, now) && userOk then
      v.(mints := v.mints[m := Checked(mint.cred, mint.record.user, now)])
    else v.(mints := v.mints - {m})
  }

  /** The update touches no row once the credential is deleted, and then the mint fails. */
  function AfterTouch(v: Vault, m: nat): Vault
    requires m in v.mints && v.mints[m].Checked?
  {
    var mint := v.mints[m];
    if mint.cred in v.creds then
      v.(creds := v.creds[mint.cred := v.creds[mint.cred].(lastUsed := Some(Unix(mint.at)))],
         mints := v.mints[m := Touched(mint.cred, mint.user)])
    else v.(mints := v.mints - {m})
  }

  function TokenAt(cred: string, user: string, now: nat, ttl: int): Token {
    Token(cred, user, now, Unix(now), Unix(now + ClampTTL(ttl)))
  }

  function AfterToken(v: Vault, m: nat, ttl: int, now: nat): Vault
    requires m in v.mints && v.mints[m].Touched?
  {
    v.(tokens := v.tokens + [TokenAt(v.mints[m].cred, v.mints[m].user, now, ttl)], mints := v.mints - {m})
  }

  function AfterRevoke(v: Vault, id: string, now: nat): Vault {
    if id in v.creds then v.(creds := v.creds - {id}, revoked := v.revoked[id := now]) else v
  }

  ghost predicate VaultStep(now: nat, d: Desk, v: Vault, e: Event, w: Vault) {
    match e
    case CreateCredential(x, id) =>
      && x in d.exchanges && id !in v.owner
      && w == v.(creds := v.creds[id := Credential(d.exchanges[x].user, Unix(now), None)],
                 owner := v.owner[id := d.exchanges[x].user])
    case ReadCredential(m, id) => m !in v.mints && id in v.creds && w == AfterRead(v, m, id)
    case Check(m, userOk) => m in v.mints && v.mints[m].Read? && w == AfterCheck(v, m, userOk, now)
    case TouchCredential(m) => m in v.mints && v.mints[m].Checked? && w == AfterTouch(v, m)
    case IssueToken(m, ttl) => m in v.mints && v.mints[m].Touched? && w == AfterToken(v, m, ttl, now)
    case Revoke(id) => w == AfterRevoke(v, id, now)
    case _ => w == v
  }

  ghost predicate Step(h: Hashes, s: State, e: Event, t: State) {
    && t.now == s.now + (if e.Tick? then e.d else 0)
    && DeskStep(h, s.now, s.desk, e, t.desk)
    && VaultStep(s.now, s.desk, s.vault, e, t.vault)
  }

  // ---- Codes and credentials ----

  ghost predicate ExchangeOk(h: Hashes, d: Desk, x: Exchange) {
    && x.code in d.issued && x.code !in d.codes
    && h.s256(x.verifier) == d.issued[x.code].challenge && x.user == d.issued[x.code].user
    && Unix(x.at) < d.issued[x.code].expires
  }

  ghost predicate IssuedInv(d: Desk) {
    && (forall k :: k in d.codes ==> k in d.issued && d.codes[k] == d.issued[k] && k !in d.holder)
    && (forall k :: k in d.holder ==> k in d.issued)
    && (forall k :: k in d.issued ==> d.issued[k].expires == Unix(d.issued[k].approved + CODE_LIFETIME))
  }

  ghost predicate PendingOk(h: Hashes, d: Desk, x: nat) {
    x in d.exchanges ==>
      && ExchangeOk(h, d, d.exchanges[x])
      && d.exchanges[x].code in d.holder && d.holder[d.exchanges[x].code] == Pending(x)
  }

  ghost predicate RedeemedOk(h: Hashes, d: Desk, id: string) {
    id in d.origin ==>
      && ExchangeOk(h, d, d.origin[id])
      && d.origin[id].code in d.holder && d.holder[d.origin[id].code] == Redeemed(id)
  }

  ghost predicate DeskInv(h: Hashes, d: Desk) {
    IssuedInv(d) && (forall x :: PendingOk(h, d, x)) && (forall id :: RedeemedOk(h, d, id))
  }

  lemma {:induction false} IssueKeepsDeskInv(h: Hashes, d: Desk, raw: string, user: string, challenge: string, now: nat)
    requires DeskInv(h, d) && h.secret(raw) !in d.issued
    ensures DeskInv(h, AfterIssue(h, d, raw, user, challenge, now))
  {
    var t := AfterIssue(h, d, raw, user, challenge, now);
    forall x ensures PendingOk(h, t, x) { assert PendingOk(h, d, x); }
    forall id ensures RedeemedOk(h, t, id) { assert RedeemedOk(h, d, id); }
  }

  lemma {:induction false} BurnKeepsDeskInv(h: Hashes, d: Desk, id: string)
    requires DeskInv(h, d)
    ensures DeskInv(h, d.(codes := d.codes - {id}))
  {
    var t := d.(codes := d.codes - {id});
    forall y ensures PendingOk(h, t, y) { assert PendingOk(h, d, y); }
    forall i ensures RedeemedOk(h, t, i) { assert RedeemedOk(h, d, i); }
  }

  lemma {:induction false} PendingKeepsDeskInv(h: Hashes, d: Desk, x: nat, ex: Exchange)
    requires DeskInv(h, d) && x !in d.exchanges && ExchangeOk(h, d, ex) && ex.code !in d.holder
    ensures DeskInv(h, d.(exchanges := d.exchanges[x := ex], holder := d.holder[ex.code := Pending(x)]))
  {
    var t := d.(exchanges := d.exchanges[x := ex], holder := d.holder[ex.code := Pending(x)]);
    forall y ensures PendingOk(h, t, y) { assert PendingOk(h, d, y); }
    forall id ensures RedeemedOk(h, t, id) { assert RedeemedOk(h, d, id); }
  }

  lemma {:induction false} ConsumeKeepsDeskInv(h: Hashes, d: Desk, x: nat, raw: string, verifier: string, at: nat)
    requires DeskInv(h, d) && x !in d.exchanges
    ensures DeskInv(h, AfterConsume(h, d, x, raw, verifier, at))
  {
    var id := h.secret(raw);
    if id in d.codes && d.codes[id].expires > Unix(at) {
      var burned := d.(codes := d.codes - {id});
      BurnKeepsDeskInv(h, d, id);
      if h.s256(verifier) == d.codes[id].challenge {
        PendingKeepsDeskInv(h, burned, x, Exchange(id, d.codes[id].user, verifier, at));
      }
    }
  }

  lemma {:induction false} CreateKeepsDeskInv(h: Hashes, d: Desk, x: nat, id: string)
    requires DeskInv(h, d) && x in d.exchanges && id !in d.origin
    ensures DeskInv(h, AfterCreate(d, x, id))
  {
    var t := AfterCreate(d, x, id);
    assert PendingOk(h, d, x);
    forall y ensures PendingOk(h, t, y) { assert PendingOk(h, d, y); }
    forall i ensures RedeemedOk(h, t, i) { assert RedeemedOk(h, d, i); }
  }

  lemma {:induction false} DeskStepKeepsInv(h: Hashes, now: nat, d: Desk, e: Event, t: Desk)
    requires DeskInv(h, d) && DeskStep(h, now, d, e, t)
    ensures DeskInv(h, t)
  {
    match e
    case IssueCode(raw, user, challenge) => IssueKeepsDeskInv(h, d, raw, user, challenge, now);
    case Consume(x, raw, verifier, at) => ConsumeKeepsDeskInv(h, d, x, raw, verifier, at);
    case CreateCredential(x, id) => CreateKeepsDeskInv(h, d, x, id);
    case _ =>
  }

  // ---- Credentials and tokens ----

  ghost predicate MintOk(v: Vault, now: nat, m: Mint) {
    && m.cred in v.owner
    && match m
       case Read(c, record) => record.user == v.owner[c]
       case Checked(c, user, at) => user == v.owner[c] && at <= now
       case Touched(c, user) => user == v.owner[c]
  }

  ghost predicate TokenOk(v: Vault, now: nat, t: Token) {
    && t.cred in v.owner && t.user == v.owner[t.cred] && t.at <= now
    && t.iat == Unix(t.at) && t.exp <= Unix(t.at + MAX_TTL)
  }

  ghost predicate CredInv(now: nat, v: Vault) {
    && (forall id :: id in v.creds ==> id in v.owner && id !in v.revoked && v.creds[id].user == v.owner[id])
    && (forall id :: id in v.revoked ==> id in v.owner && v.revoked[id] <= now)
  }

  ghost predicate MintInv(now: nat, v: Vault) {
    forall m :: m in v.mints ==> MintOk(v, now, v.mints[m])
  }

  ghost predicate TokenInv(now: nat, v: Vault) {
    forall i :: 0 <= i < |v.tokens| ==> TokenOk(v, now, v.tokens[i])
  }

  ghost predicate VaultInv(now: nat, v: Vault) { CredInv(now, v) && MintInv(now, v) && TokenInv(now, v) }

  lemma {:induction false} CreateKeepsVaultInv(now: nat, d: Desk, v: Vault, x: nat, id: string, w: Vault)
    requires VaultInv(now, v) && VaultStep(now, d, v, CreateCredential(x, id), w)
    ensures VaultInv(now, w)
  {
    forall m | m in w.mints ensures MintOk(w, now, w.mints[m]) { assert MintOk(v, now, v.mints[m]); }
    forall i | 0 <= i < |w.tokens| ensures TokenOk(w, now, w.tokens[i]) { assert TokenOk(v, now, v.tokens[i]); }
  }

  /** A step that changes one mint only. */
  lemma {:induction false} MintChangeKeepsVaultInv(now: nat, v: Vault, m: nat, w: Vault)
    requires VaultInv(now, v)
    requires w.creds == v.creds && w.owner == v.owner && w.revoked == v.revoked && w.tokens == v.tokens
    requires forall k :: k in w.mints && k != m ==> k in v.mints && w.mints[k] == v.mints[k]
    requires m in w.mints ==> MintOk(v, now, w.mints[m])
    ensures VaultInv(now, w)
  {
    forall k | k in w.mints ensures MintOk(w, now, w.mints[k]) {
      if k != m { assert MintOk(v, now, v.mints[k]); }
    }
    forall i | 0 <= i < |w.tokens| ensures TokenOk(w, now, w.tokens[i]) { assert TokenOk(v, now, v.tokens[i]); }
  }

  lemma {:induction false} TouchKeepsVaultInv(now: nat, v: Vault, m: nat)
    requires VaultInv(now, v) && m in v.mints && v.mints[m].Checked?
    ensures VaultInv(now, AfterTouch(v, m))
  {
    var w := AfterTouch(v, m);
    assert MintOk(v, now, v.mints[m]);
    MintChangeKeepsVaultInv(now, v, m, w.(creds := v.creds));
  }

  lemma {:induction false} TokenKeepsVaultInv(now: nat, v: Vault, m: nat, ttl: int)
    requires VaultInv(now, v) && m in v.mints && v.mints[m].Touched?
    ensures VaultInv(now, AfterToken(v, m, ttl, now))
  {
    var w := AfterToken(v, m, ttl, now);
    assert MintOk(v, now, v.mints[m]);
    MintChangeKeepsVaultInv(now, v, m, w.(tokens := v.tokens));
    forall i | 0 <= i < |w.tokens| ensures TokenOk(w, now, w.tokens[i]) {
      if i < |v.tokens| { assert TokenOk(v, now, v.tokens[i]); }
    }
  }

  lemma {:induction false} RevokeKeepsVaultInv(now: nat, v: Vault, id: string)
    requires VaultInv(now, v)
    ensures VaultInv(now, AfterRevoke(v, id, now))
  {
    var w := AfterRevoke(v, id, now);
    forall m | m in w.mints ensures MintOk(w, now, w.mints[m]) { assert MintOk(v, now, v.mints[m]); }
    forall i | 0 <= i < |w.tokens| ensures TokenOk(w, now, w.tokens[i]) { assert TokenOk(v, now, v.tokens[i]); }
  }

  lemma {:induction false} WaitingKeepsVaultInv(now: nat, later: nat, v: Vault)
    requires VaultInv(now, v) && now <= later
    ensures VaultInv(later, v)
  {
    forall m | m in v.mints ensures MintOk(v, later, v.mints[m]) { assert MintOk(v, now, v.mints[m]); }
    forall i | 0 <= i < |v.tokens| ensures TokenOk(v, later, v.tokens[i]) { assert TokenOk(v, now, v.tokens[i]); }
  }

  lemma {:induction false} VaultStepKeepsInv(now: nat, d: Desk, v: Vault, e: Event, w: Vault)
    requires VaultInv(now, v) && VaultStep(now, d, v, e, w)
    ensures VaultInv(now, w)
  {
    match e
    case CreateCredential(x, id) => CreateKeepsVaultInv(now, d, v, x, id, w);
    case ReadCredential(m, id) => MintChangeKeepsVaultInv(now, v, m, w);
    case Check(m, userOk) =>
      assert MintOk(v, now, v.mints[m]);
      MintChangeKeepsVaultInv(now, v, m, w);
    case TouchCredential(m) => TouchKeepsVaultInv(now, v, m);
    case IssueToken(m, ttl) => TokenKeepsVaultInv(now, v, m, ttl);
    case Revoke(id) => RevokeKeepsVaultInv(now, v, id);
    case _ =>
  }
}
