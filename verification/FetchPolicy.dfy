/** Fetch permission levels: the min-mode-and-filter computation of Effective, the per-request
    Decision, and their meaning as a meet of the levels. */
module FetchPolicy {
  import opened Text

  datatype Mode = Deny | Allowlist | AllowAll

  function Rank(m: Mode): nat {
    match m
    case Deny => 0
    case Allowlist => 1
    case AllowAll => 2
  }

  /** A parsed pattern: `host` is lower case, and without the leading `*.` for a wildcard; port 0
      means no explicit port. */
  datatype Pattern = Pattern(host: string, wildcard: bool, port: nat)

  datatype Level = Level(mode: Mode, allow: seq<Pattern>)

  datatype Effect = Effect(mode: Mode, levels: seq<Level>)

  // ---- policy/pattern.go ----

  predicate PortMatches(p: Pattern, port: int) {
    port == 0 || (if p.port != 0 then port == p.port else port == 80 || port == 443)
  }

  function TrimDot(host: string): string {
    if HasSuffix(host, ".") then host[..|host| - 1] else host
  }

  predicate HostMatches(p: Pattern, host: string) {
    var h := Lowered(TrimDot(host));
    if p.wildcard then HasSuffix(h, "." + p.host) && h != p.host else h == p.host
  }

  predicate Matches(p: Pattern, host: string, port: int) {
    PortMatches(p, port) && HostMatches(p, host)
  }

  ghost predicate AnyMatches(allow: seq<Pattern>, host: string, port: int) {
    exists i :: 0 <= i < |allow| && Matches(allow[i], host, port)
  }

  method AnyPatternMatches(allow: seq<Pattern>, host: string, port: int) returns (any: bool)
    ensures any <==> AnyMatches(allow, host, port)
  {
    for i := 0 to |allow|
      invariant forall j :: 0 <= j < i ==> !Matches(allow[j], host, port)
    {
      if Matches(allow[i], host, port) {
        return true;
      }
    }
    any := false;
  }

  // ---- policy/fetch.go ----

  function MinMode(levels: seq<Level>): Mode {
    if levels == [] then AllowAll
    else
      var m := MinMode(levels[..|levels| - 1]);
      var l := levels[|levels| - 1].mode;
      if Rank(l) < Rank(m) then l else m
  }

  function Allowlists(levels: seq<Level>): seq<Level> {
    if levels == [] then []
    else
      Allowlists(levels[..|levels| - 1])
      + if levels[|levels| - 1].mode.Allowlist? then [levels[|levels| - 1]] else []
  }

  function Effective(levels: seq<Level>): Effect {
    if levels == [] then Effect(Deny, [])
    else Effect(MinMode(levels), if MinMode(levels).Allowlist? then Allowlists(levels) else [])
  }

  method ComputeEffective(levels: seq<Level>) returns (e: Effect)
    ensures e == Effective(levels)
  {
    if |levels| == 0 {
      return Effect(Deny, []);
    }
    var mode := AllowAll;
    for i := 0 to |levels|
      invariant mode == MinMode(levels[..i])
    {
      assert levels[..i + 1][..i] == levels[..i];
      if Rank(levels[i].mode) < Rank(mode) {
        mode := levels[i].mode;
      }
    }
    var kept: seq<Level> := [];
    if mode == Allowlist {
      for i := 0 to |levels|
        invariant kept == Allowlists(levels[..i])
      {
        assert levels[..i + 1][..i] == levels[..i];
        if levels[i].mode == Allowlist {
          kept := kept + [levels[i]];
        }
      }
    }
    assert levels[..|levels|] == levels;
    e := Effect(mode, kept);
  }

  ghost predicate Decision(e: Effect, host: string, port: int) {
    match e.mode
    case AllowAll => true
    case Allowlist => forall i :: 0 <= i < |e.levels| ==> AnyMatches(e.levels[i].allow, host, port)
    case Deny => false
  }

  method Decide(e: Effect, host: string, port: int) returns (allowed: bool)
    ensures allowed <==> Decision(e, host, port)
  {
    if e.mode == AllowAll {
      return true;
    }
    if e.mode == Deny {
      return false;
    }
    for i := 0 to |e.levels|
      invariant forall j :: 0 <= j < i ==> AnyMatches(e.levels[j].allow, host, port)
    {
      var any := AnyPatternMatches(e.levels[i].allow, host, port);
      if !any {
        return false;
      }
    }
    allowed := true;
  }

  // ---- The meet ----

  /** What one level says by itself. */
  ghost predicate Allows(l: Level, host: string, port: int) {
    l.mode.AllowAll? || (l.mode.Allowlist? && AnyMatches(l.allow, host, port))
  }

  lemma {:induction false} MinModeMeaning(levels: seq<Level>)
    ensures MinMode(levels).Deny? <==> exists l :: l in levels && l.mode.Deny?
    ensures MinMode(levels).AllowAll? <==> forall l :: l in levels ==> l.mode.AllowAll?
  {
    if levels != [] {
      var front, last := levels[..|levels| - 1], levels[|levels| - 1];
      MinModeMeaning(front);
      assert forall l :: l in levels <==> l in front || l == last;
    }
  }

  lemma {:induction false} AllowlistsMeaning(levels: seq<Level>, l: Level)
    ensures l in Allowlists(levels) <==> l in levels && l.mode.Allowlist?
  {
    if levels != [] {
      AllowlistsMeaning(levels[..|levels| - 1], l);
      assert l in levels <==> l in levels[..|levels| - 1] || l == levels[|levels| - 1];
    }
  }

  /** Effective followed by Decision allows a request exactly when there is a level and every
      level by itself allows it. */
  lemma {:induction false} DecisionIsMeet(levels: seq<Level>, host: string, port: int)
    ensures Decision(Effective(levels), host, port)
            <==> levels != [] && forall l :: l in levels ==> Allows(l, host, port)
  {
    MinModeMeaning(levels);
    var kept := Allowlists(levels);
    forall l ensures l in kept <==> l in levels && l.mode.Allowlist? {
      AllowlistsMeaning(levels, l);
    }
    if levels != [] && MinMode(levels).Allowlist? {
      if forall l :: l in levels ==> Allows(l, host, port) {
        forall i | 0 <= i < |kept| ensures AnyMatches(kept[i].allow, host, port) {
          assert kept[i] in kept;
        }
      }
    }
  }

  /** So only the set of levels matters: order and repetition do not. */
  lemma {:induction false} OnlyTheLevelSetMatters(a: seq<Level>, b: seq<Level>, host: string, port: int)
    requires forall l :: l in a <==> l in b
    ensures Decision(Effective(a), host, port) <==> Decision(Effective(b), host, port)
  {
    DecisionIsMeet(a, host, port);
    DecisionIsMeet(b, host, port);
    assert a == [] <==> b == [] by {
      if a != [] { assert a[0] in b; }
      if b != [] { assert b[0] in a; }
    }
  }

  /** Added levels only narrow what an existing policy allows. */
  lemma {:induction false} MoreLevelsNarrow(levels: seq<Level>, more: seq<Level>, host: string, port: int)
    requires levels != [] && Decision(Effective(levels + more), host, port)
    ensures Decision(Effective(levels), host, port)
  {
    DecisionIsMeet(levels, host, port);
    DecisionIsMeet(levels + more, host, port);
  }

  // ---- The port-0 pre-check ----

  ghost predicate RealPort(port: int) { 1 <= port <= 65535 }

  ghost predicate WellFormedLevel(l: Level) {
    forall i :: 0 <= i < |l.allow| ==> l.allow[i].port <= 65535
  }

  /** The pre-check made before the port is known never rejects a host that some later port would
      be allowed for. */
  lemma {:induction false} PreCheckNeverRejectsTooMuch(levels: seq<Level>, host: string, port: int)
    requires Decision(Effective(levels), host, port)
    ensures Decision(Effective(levels), host, 0)
  {
    DecisionIsMeet(levels, host, port);
    DecisionIsMeet(levels, host, 0);
    forall l | l in levels ensures Allows(l, host, 0) {
      if l.mode.Allowlist? {
        var i :| 0 <= i < |l.allow| && Matches(l.allow[i], host, port);
        assert Matches(l.allow[i], host, 0);
      }
    }
  }

  /** The ports a level leaves open for a host. */
  ghost predicate Opens(l: Level, host: string, port: int) {
    l.mode.AllowAll? ||
    (l.mode.Allowlist? && exists i :: 0 <= i < |l.allow| && NamesPort(l.allow[i], host, port))
  }

  predicate NamesPort(p: Pattern, host: string, port: int) {
    HostMatches(p, host) && if p.port != 0 then port == p.port else port == 80 || port == 443
  }

  /** For one level the pre-check is exact: it passes when some port is allowed, and only then. */
  lemma {:induction false} PreCheckExactForOneLevel(l: Level, host: string)
    requires WellFormedLevel(l)
    ensures Decision(Effective([l]), host, 0)
            <==> exists port :: RealPort(port) && Decision(Effective([l]), host, port)
  {
    DecisionIsMeet([l], host, 0);
    if Decision(Effective([l]), host, 0) {
      assert l in [l];
      var port := 80;
      if l.mode.Allowlist? {
        var i :| 0 <= i < |l.allow| && Matches(l.allow[i], host, 0);
        port := if l.allow[i].port != 0 then l.allow[i].port else 80;
        assert Matches(l.allow[i], host, port);
      }
      DecisionIsMeet([l], host, port);
      assert RealPort(port) && Decision(Effective([l]), host, port);
    }
    forall port | RealPort(port) && Decision(Effective([l]), host, port) ensures Decision(Effective([l]), host, 0) {
      PreCheckNeverRejectsTooMuch([l], host, port);
    }
  }

  /** 80, 443 and the ports the patterns name. */
  ghost function Ports(levels: seq<Level>): set<int> {
    {80, 443} + set l, p | l in levels && p in l.allow :: p.port
  }

  ghost predicate AllOpen(levels: seq<Level>, host: string, port: int) {
    forall l :: l in levels ==> Opens(l, host, port)
  }

  lemma {:induction false} AllowedIsAllOpen(levels: seq<Level>, host: string, port: int)
    requires RealPort(port) && levels != []
    ensures Decision(Effective(levels), host, port) <==> AllOpen(levels, host, port)
  {
    DecisionIsMeet(levels, host, port);
    forall l ensures Allows(l, host, port) <==> Opens(l, host, port) {
      OpensIsAllows(l, host, port);
    }
  }

  /** A port that an allowlist opens is named by one of its patterns, or is 80 or 443. */
  lemma {:induction false} OpenedIsNamed(levels: seq<Level>, l: Level, host: string, port: int)
    requires l in levels && l.mode.Allowlist? && Opens(l, host, port)
    ensures port in Ports(levels)
  {
    var i :| 0 <= i < |l.allow| && NamesPort(l.allow[i], host, port);
    assert l.allow[i] in l.allow;
  }

  /** Whether some port is allowed is settled by finitely many: some port is if and only if one of
      80, 443 and the ports named in the patterns is open at every level. */
  lemma {:induction false} SomePortAllowedIff(levels: seq<Level>, host: string)
    ensures (exists port :: RealPort(port) && Decision(Effective(levels), host, port))
            <==> levels != [] && exists port :: port in Ports(levels) && RealPort(port) && AllOpen(levels, host, port)
  {
    if levels != [] {
      forall port | RealPort(port) ensures Decision(Effective(levels), host, port) <==> AllOpen(levels, host, port) {
        AllowedIsAllOpen(levels, host, port);
      }
      if port :| RealPort(port) && AllOpen(levels, host, port) {
        if l :| l in levels && l.mode.Allowlist? {
          OpenedIsNamed(levels, l, host, port);
        } else {
          assert AllOpen(levels, host, 80) && 80 in Ports(levels) && RealPort(80);
        }
      }
    }
  }

  lemma {:induction false} OpensIsAllows(l: Level, host: string, port: int)
    requires RealPort(port)
    ensures Allows(l, host, port) <==> Opens(l, host, port)
  {
    if Opens(l, host, port) && l.mode.Allowlist? {
      var i :| 0 <= i < |l.allow| && NamesPort(l.allow[i], host, port);
      assert Matches(l.allow[i], host, port);
    }
    if Allows(l, host, port) && l.mode.Allowlist? {
      var i :| 0 <= i < |l.allow| && Matches(l.allow[i], host, port);
      assert NamesPort(l.allow[i], host, port);
    }
  }

  // ---- Which hosts a pattern admits ----

  /** An ASCII host in lower case, without a final dot. */
  ghost predicate PlainHost(host: string) {
    && (forall i :: 0 <= i < |host| ==> host[i] !in UPPER && host[i] < '\U{0080}')
    && (host != "" ==> host[|host| - 1] != '.')
  }

  /** What a pattern says of such a host and a real port: itself, or for a wildcard whatever ends in
      its domain after a dot; on its own port, or else on 80 and 443. */
  ghost predicate Admits(p: Pattern, host: string, port: int) {
    && (if p.wildcard then exists sub: string :: host == sub + ("." + p.host) else host == p.host)
    && port in (if p.port != 0 then {p.port} else {80, 443})
  }

  lemma {:induction false} PlainHostIsKept(host: string)
    requires PlainHost(host)
    ensures Lowered(TrimDot(host)) == host
  {
    DotTrimmed(host);
    forall i | 0 <= i < |host| ensures Lowered(host)[i] == host[i] {
      LoweredMeaning(host, i);
    }
  }

  lemma {:induction false} AdmitsIff(p: Pattern, host: string, port: int)
    requires PlainHost(host) && RealPort(port)
    ensures Matches(p, host, port) <==> Admits(p, host, port)
  {
    PlainHostIsKept(host);
    if p.wildcard { WildcardMeansProperSubdomain(p, host); }
  }

  /** One level by itself, on a plain host and a real port. */
  lemma {:induction false} OneLevelMeaning(l: Level, host: string, port: int)
    requires PlainHost(host) && RealPort(port)
    ensures Decision(Effective([l]), host, port)
            <==> match l.mode
                 case AllowAll => true
                 case Allowlist => exists i :: 0 <= i < |l.allow| && Admits(l.allow[i], host, port)
                 case Deny => false
  {
    DecisionIsMeet([l], host, port);
    assert l in [l];
    forall i | 0 <= i < |l.allow| ensures Matches(l.allow[i], host, port) <==> Admits(l.allow[i], host, port) {
      AdmitsIff(l.allow[i], host, port);
    }
  }

  /** The same host with some of its letters written as capitals. */
  ghost predicate OtherCase(host: string, other: string) {
    && |host| == |other|
    && forall i :: 0 <= i < |host| ==> other[i] == host[i] || CapitalOf(host[i], other[i])
  }

  ghost predicate CapitalOf(small: char, capital: char) {
    exists n :: 0 <= n < 26 && small == LOWER[n] && capital == UPPER[n]
  }

  lemma {:induction false} CapitalShift(c: char, d: char)
    requires CapitalOf(c, d)
    ensures 'A' as int <= d as int <= 'Z' as int && c as int == d as int + 32
  {
    var n :| 0 <= n < 26 && c == LOWER[n] && d == UPPER[n];
    Alphabet(n);
  }

  lemma {:induction false} SameLowered(c: char, d: char)
    requires c == d || CapitalOf(c, d)
    ensures ToLower(c) == ToLower(d) && (c == '.' <==> d == '.')
  {
    if c != d { CapitalShift(c, d); }
  }

  lemma {:induction false} DotTrimmed(host: string)
    ensures (host == "" || host[|host| - 1] != '.') ==> TrimDot(host) == host && TrimDot(host + ".") == host
    ensures host != "" && host[|host| - 1] == '.' ==> TrimDot(host) == host[..|host| - 1]
  {
    assert host != "" ==> host[|host| - 1..] == [host[|host| - 1]];
    assert (host + ".")[|host|..] == "." && (host + ".")[..|host|] == host;
  }

  lemma {:induction false} OtherCaseLowers(host: string, other: string)
    requires OtherCase(host, other)
    ensures Lowered(TrimDot(host)) == Lowered(TrimDot(other))
  {
    forall i | 0 <= i < |host| ensures ToLower(host[i]) == ToLower(other[i]) && (host[i] == '.' <==> other[i] == '.') {
      SameLowered(host[i], other[i]);
    }
    DotTrimmed(host);
    DotTrimmed(other);
  }

  lemma {:induction false} SameMatchesSameDecision(levels: seq<Level>, host: string, other: string, port: int)
    requires Lowered(TrimDot(host)) == Lowered(TrimDot(other))
    ensures Decision(Effective(levels), host, port) <==> Decision(Effective(levels), other, port)
  {
    assert forall p :: Matches(p, host, port) <==> Matches(p, other, port);
  }

  /** Neither a final dot nor the case of a letter makes a difference. */
  lemma {:induction false} SpellingMakesNoDifference(levels: seq<Level>, host: string, other: string, port: int)
    ensures OtherCase(host, other) ==>
              (Decision(Effective(levels), host, port) <==> Decision(Effective(levels), other, port))
    ensures (host == "" || host[|host| - 1] != '.') ==>
              (Decision(Effective(levels), host, port) <==> Decision(Effective(levels), host + ".", port))
  {
    if OtherCase(host, other) {
      OtherCaseLowers(host, other);
      SameMatchesSameDecision(levels, host, other, port);
    }
    if host == "" || host[|host| - 1] != '.' {
      DotTrimmed(host);
      SameMatchesSameDecision(levels, host, host + ".", port);
    }
  }

  lemma {:induction false} LowerCaseHost()
    ensures Lowered(TrimDot("db.example.com")) == "db.example.com"
  {
  }

  /** So "allowed for at least one port" is too strong a reading of the pre-check once two levels
      name the same host with different ports. */
  lemma {:induction false} PreCheckMayPassForNoPort()
    ensures var org := Level(Allowlist, [Pattern("db.example.com", false, 5432)]);
      var manifest := Level(Allowlist, [Pattern("db.example.com", false, 0)]);
      && Decision(Effective([org, manifest]), "db.example.com", 0)
      && forall port :: RealPort(port) ==> !Decision(Effective([org, manifest]), "db.example.com", port)
  {
    var org := Level(Allowlist, [Pattern("db.example.com", false, 5432)]);
    var manifest := Level(Allowlist, [Pattern("db.example.com", false, 0)]);
    var host := "db.example.com";
    LowerCaseHost();
    assert Matches(org.allow[0], host, 0) && Matches(manifest.allow[0], host, 0);
    DecisionIsMeet([org, manifest], host, 0);
    forall port | RealPort(port) ensures !Decision(Effective([org, manifest]), host, port) {
      DecisionIsMeet([org, manifest], host, port);
      assert org in [org, manifest] && manifest in [org, manifest];
    }
  }

  /** A wildcard admits the proper subdomains of its domain and not the domain itself, whatever
      the letter case and with or without a final dot. */
  lemma {:induction false} WildcardMeansProperSubdomain(p: Pattern, host: string)
    requires p.wildcard
    ensures HostMatches(p, host) <==> exists sub: string :: Lowered(TrimDot(host)) == sub + ("." + p.host)
  {
    var h, tail := Lowered(TrimDot(host)), "." + p.host;
    if HostMatches(p, host) {
      assert h == h[..|h| - |tail|] + tail;
    }
    forall sub: string | h == sub + tail ensures HostMatches(p, host) {
      assert h[|h| - |tail|..] == tail;
    }
  }
}
