/** .funcboxignore: parsing a line into a rule, matching a path against a rule with `**`
    backtracking, and the last-match-wins verdict. path.Match on one segment is a parameter:
    a total predicate, false where path.Match reports a bad pattern. */
module Ignore {
  import opened Common
  import opened Text

  type Glob = (string, string) -> bool

  const STARS := "**"

  datatype Rule = Rule(negate: bool, dirOnly: bool, anchored: bool, segments: seq<string>)

  // ---- Matching ----

  predicate SegmentsMatch(glob: Glob, pattern: seq<string>, path: seq<string>)
    decreases |pattern| + |path|
  {
    if pattern == [] then path == []
    else if pattern[0] == STARS then
      SegmentsMatch(glob, pattern[1..], path) || (path != [] && SegmentsMatch(glob, pattern, path[1..]))
    else path != [] && glob(pattern[0], path[0]) && SegmentsMatch(glob, pattern[1..], path[1..])
  }

  /** The declared meaning: `cuts` splits the path into one run of segments per pattern segment;
      `**` takes any run, every other pattern segment takes one segment that it globs. */
  ghost predicate Splits(glob: Glob, pattern: seq<string>, path: seq<string>, cuts: seq<nat>) {
    && |cuts| == |pattern| + 1
    && cuts[0] == 0 && cuts[|pattern|] == |path|
    && forall i :: 0 <= i < |pattern| ==> Takes(glob, pattern[i], path, cuts[i], cuts[i + 1])
  }

  ghost predicate Takes(glob: Glob, segment: string, path: seq<string>, lo: nat, hi: nat) {
    && lo <= hi <= |path|
    && (segment != STARS ==> hi == lo + 1 && glob(segment, path[lo]))
  }

  lemma {:induction false} StarsTakeAnyRun(glob: Glob, rest: seq<string>, path: seq<string>)
    ensures SegmentsMatch(glob, [STARS] + rest, path)
            <==> exists k: nat :: k <= |path| && SegmentsMatch(glob, rest, path[k..])
    decreases |path|
  {
    assert ([STARS] + rest)[1..] == rest && path[0..] == path;
    if path != [] {
      StarsTakeAnyRun(glob, rest, path[1..]);
      if SegmentsMatch(glob, [STARS] + rest, path[1..]) {
        var k: nat :| k <= |path[1..]| && SegmentsMatch(glob, rest, path[1..][k..]);
        assert path[1..][k..] == path[k + 1..];
      }
      forall k: nat | 0 < k <= |path| && SegmentsMatch(glob, rest, path[k..])
        ensures SegmentsMatch(glob, [STARS] + rest, path[1..])
      {
        assert path[1..][k - 1..] == path[k..];
      }
    }
  }

  function Shift(cuts: seq<nat>, offset: nat): seq<nat> {
    seq(|cuts|, i requires 0 <= i < |cuts| => cuts[i] + offset)
  }

  /** The first pattern segment takes the run path[..k], the others split the rest. */
  lemma {:induction false} ConsSplit(glob: Glob, pattern: seq<string>, path: seq<string>, k: nat, cuts: seq<nat>)
    requires pattern != [] && k <= |path|
    requires Takes(glob, pattern[0], path, 0, k) && Splits(glob, pattern[1..], path[k..], cuts)
    ensures Splits(glob, pattern, path, [0] + Shift(cuts, k))
  {
    var all := [0] + Shift(cuts, k);
    forall i | 0 <= i < |pattern| ensures Takes(glob, pattern[i], path, all[i], all[i + 1]) {
      if i > 0 {
        assert pattern[i] == pattern[1..][i - 1];
        assert Takes(glob, pattern[1..][i - 1], path[k..], cuts[i - 1], cuts[i]);
      }
    }
  }

  lemma {:induction false} MatchGivesSplit(glob: Glob, pattern: seq<string>, path: seq<string>) returns (cuts: seq<nat>)
    requires SegmentsMatch(glob, pattern, path)
    ensures Splits(glob, pattern, path, cuts)
    decreases |pattern|
  {
    if pattern == [] {
      return [0];
    }
    var k: nat := 1;
    if pattern[0] == STARS {
      assert pattern == [STARS] + pattern[1..];
      StarsTakeAnyRun(glob, pattern[1..], path);
      k :| k <= |path| && SegmentsMatch(glob, pattern[1..], path[k..]);
    }
    var rest := MatchGivesSplit(glob, pattern[1..], path[k..]);
    ConsSplit(glob, pattern, path, k, rest);
    cuts := [0] + Shift(rest, k);
  }

  lemma {:induction false} SplitGivesMatch(glob: Glob, pattern: seq<string>, path: seq<string>, cuts: seq<nat>)
    requires Splits(glob, pattern, path, cuts)
    ensures SegmentsMatch(glob, pattern, path)
    decreases |pattern|
  {
    if pattern != [] {
      var k := cuts[1];
      assert Takes(glob, pattern[0], path, cuts[0], cuts[1]);
      forall i | 0 <= i < |pattern[1..]| ensures Takes(glob, pattern[1..][i], path, cuts[1..][i], cuts[1..][i + 1]) {
        assert Takes(glob, pattern[i + 1], path, cuts[i + 1], cuts[i + 2]);
      }
      CutsGrow(glob, pattern[1..], path, cuts[1..]);
      assert forall i :: 0 <= i < |pattern| ==> cuts[1..][i] == cuts[i + 1];
      var rest := seq(|pattern|, i requires 0 <= i < |pattern| => cuts[i + 1] - k);
      forall i | 0 <= i < |pattern[1..]|
        ensures Takes(glob, pattern[1..][i], path[k..], rest[i], rest[i + 1])
      {
        assert Takes(glob, pattern[i + 1], path, cuts[i + 1], cuts[i + 2]);
        if pattern[i + 1] != STARS { assert path[k..][rest[i]] == path[cuts[i + 1]]; }
      }
      SplitGivesMatch(glob, pattern[1..], path[k..], rest);
      if pattern[0] == STARS {
        assert pattern == [STARS] + pattern[1..];
        StarsTakeAnyRun(glob, pattern[1..], path);
      }
    }
  }

  lemma {:induction false} CutsGrow(glob: Glob, pattern: seq<string>, path: seq<string>, cuts: seq<nat>)
    requires |cuts| == |pattern| + 1
    requires forall i :: 0 <= i < |pattern| ==> Takes(glob, pattern[i], path, cuts[i], cuts[i + 1])
    ensures forall i :: 0 <= i < |cuts| ==> cuts[0] <= cuts[i]
    decreases |pattern|
  {
    if pattern != [] {
      var n := |pattern| - 1;
      CutsGrow(glob, pattern[..n], path, cuts[..n + 1]);
      assert Takes(glob, pattern[n], path, cuts[n], cuts[n + 1]);
      assert cuts[..n + 1][n] == cuts[n];
      forall i | 0 <= i < |cuts| ensures cuts[0] <= cuts[i] {
        if i <= n { assert cuts[..n + 1][i] == cuts[i]; }
      }
    }
  }

  /** segmentsMatch agrees with the declared meaning. */
  lemma {:induction false} MatchIffSplit(glob: Glob, pattern: seq<string>, path: seq<string>)
    ensures SegmentsMatch(glob, pattern, path) <==> exists cuts :: Splits(glob, pattern, path, cuts)
  {
    if SegmentsMatch(glob, pattern, path) {
      var cuts := MatchGivesSplit(glob, pattern, path);
    }
    forall cuts | Splits(glob, pattern, path, cuts) ensures SegmentsMatch(glob, pattern, path) {
      SplitGivesMatch(glob, pattern, path, cuts);
    }
  }

  lemma {:induction false} StarsStars(glob: Glob, rest: seq<string>, path: seq<string>)
    ensures SegmentsMatch(glob, [STARS, STARS] + rest, path) <==> SegmentsMatch(glob, [STARS] + rest, path)
    decreases |path|
  {
    assert ([STARS, STARS] + rest)[1..] == [STARS] + rest;
    if path != [] { StarsStars(glob, rest, path[1..]); }
  }

  /** Consecutive `**` segments, anywhere in a pattern, mean the same as one. */
  lemma {:induction false} ConsecutiveStarsCollapse(glob: Glob, before: seq<string>, rest: seq<string>,
                                                    path: seq<string>)
    ensures SegmentsMatch(glob, before + [STARS, STARS] + rest, path)
            <==> SegmentsMatch(glob, before + [STARS] + rest, path)
    decreases |before| + |path|
  {
    var two, one := before + [STARS, STARS] + rest, before + [STARS] + rest;
    if before == [] {
      assert two == [STARS, STARS] + rest && one == [STARS] + rest;
      StarsStars(glob, rest, path);
    } else {
      assert two[0] == before[0] == one[0];
      assert two[1..] == before[1..] + [STARS, STARS] + rest && one[1..] == before[1..] + [STARS] + rest;
      ConsecutiveStarsCollapse(glob, before[1..], rest, path);
      if path != [] {
        ConsecutiveStarsCollapse(glob, before, rest, path[1..]);
        ConsecutiveStarsCollapse(glob, before[1..], rest, path[1..]);
      }
    }
  }

  /** A rule's own verdict on a path: an anchored rule must match from the first segment, any
      other from some segment on. */
  ghost predicate RuleApplies(glob: Glob, rule: Rule, path: seq<string>) {
    if rule.anchored then SegmentsMatch(glob, rule.segments, path)
    else exists start: nat :: start <= |path| && SegmentsMatch(glob, rule.segments, path[start..])
  }

  method RuleMatches(glob: Glob, rule: Rule, path: seq<string>) returns (matches: bool)
    ensures matches <==> RuleApplies(glob, rule, path)
  {
    if rule.anchored {
      return SegmentsMatch(glob, rule.segments, path);
    }
    for start := 0 to |path| + 1
      invariant forall k: nat :: k < start ==> !SegmentsMatch(glob, rule.segments, path[k..])
    {
      if SegmentsMatch(glob, rule.segments, path[start..]) {
        return true;
      }
    }
    matches := false;
  }

  /** A rule without anchor applies exactly where the anchored rule with `**` in front does. */
  lemma {:induction false} UnanchoredIsStarsInFront(glob: Glob, rule: Rule, path: seq<string>)
    requires !rule.anchored
    ensures RuleApplies(glob, rule, path)
            <==> RuleApplies(glob, rule.(anchored := true, segments := [STARS] + rule.segments), path)
  {
    StarsTakeAnyRun(glob, rule.segments, path);
  }

  ghost predicate Applicable(glob: Glob, rule: Rule, path: seq<string>, isDir: bool) {
    (rule.dirOnly ==> isDir) && RuleApplies(glob, rule, path)
  }

  /** The verdict of a rule list, read from the last rule back. */
  ghost predicate Ignored(glob: Glob, rules: seq<Rule>, path: seq<string>, isDir: bool) {
    if rules == [] then false
    else
      var last := rules[|rules| - 1];
      if Applicable(glob, last, path, isDir) then !last.negate
      else Ignored(glob, rules[..|rules| - 1], path, isDir)
  }

  /** Matcher.Match on the split path. */
  method Match(glob: Glob, rules: seq<Rule>, path: seq<string>, isDir: bool) returns (ignored: bool)
    ensures ignored <==> Ignored(glob, rules, path, isDir)
  {
    ignored := false;
    for i := 0 to |rules|
      invariant ignored <==> Ignored(glob, rules[..i], path, isDir)
    {
      assert rules[..i + 1][..i] == rules[..i];
      var rule := rules[i];
      if rule.dirOnly && !isDir {
        continue;
      }
      var matches := RuleMatches(glob, rule, path);
      if matches {
        ignored := !rule.negate;
      }
    }
    assert rules[..|rules|] == rules;
  }

  ghost predicate NoneFrom(glob: Glob, rules: seq<Rule>, lo: nat, path: seq<string>, isDir: bool) {
    forall i :: lo <= i < |rules| ==> !Applicable(glob, rules[i], path, isDir)
  }

  /** The polarity of the last applicable rule decides. */
  lemma {:induction false} LastApplicableRuleWins(glob: Glob, rules: seq<Rule>, i: nat, path: seq<string>, isDir: bool)
    requires i < |rules| && Applicable(glob, rules[i], path, isDir) && NoneFrom(glob, rules, i + 1, path, isDir)
    ensures Ignored(glob, rules, path, isDir) <==> !rules[i].negate
    decreases |rules|
  {
    if i < |rules| - 1 {
      LastApplicableRuleWins(glob, rules[..|rules| - 1], i, path, isDir);
    }
  }

  /** Without an applicable rule the path is kept. */
  lemma {:induction false} NoApplicableRuleKeeps(glob: Glob, rules: seq<Rule>, path: seq<string>, isDir: bool)
    requires NoneFrom(glob, rules, 0, path, isDir)
    ensures !Ignored(glob, rules, path, isDir)
    decreases |rules|
  {
    if rules != [] {
      NoApplicableRuleKeeps(glob, rules[..|rules| - 1], path, isDir);
    }
  }

  /** The rule's segments split the whole path if the rule is anchored, else the path from some
      segment on. */
  ghost predicate Fits(glob: Glob, rule: Rule, path: seq<string>) {
    exists start: nat, cuts ::
      && start <= |path| && (rule.anchored ==> start == 0)
      && Splits(glob, rule.segments, path[start..], cuts)
  }

  lemma {:induction false} AppliesIffFits(glob: Glob, rule: Rule, path: seq<string>)
    ensures RuleApplies(glob, rule, path) <==> Fits(glob, rule, path)
  {
    assert path[0..] == path;
    forall start: nat | start <= |path| {
      MatchIffSplit(glob, rule.segments, path[start..]);
    }
    if RuleApplies(glob, rule, path) {
      var start: nat :| start <= |path| && (rule.anchored ==> start == 0)
                        && SegmentsMatch(glob, rule.segments, path[start..]);
      var cuts :| Splits(glob, rule.segments, path[start..], cuts);
    }
  }

  /** One more rule: it decides the paths it fits, a rule for directories only directories, and
      leaves the others as they were. */
  lemma {:induction false} OneMoreRule(glob: Glob, rules: seq<Rule>, rule: Rule, path: seq<string>, isDir: bool)
    ensures Ignored(glob, rules + [rule], path, isDir)
            <==> if Fits(glob, rule, path) && (rule.dirOnly ==> isDir) then !rule.negate
                 else Ignored(glob, rules, path, isDir)
    ensures !Ignored(glob, [], path, isDir)
  {
    assert (rules + [rule])[..|rules|] == rules;
    AppliesIffFits(glob, rule, path);
  }

  // ---- Parsing ----

  /** parseIgnoreLine, on values. */
  function ParseLine(line: string): Option<Rule> {
    var negate := HasPrefix(line, "!");
    var p1 := if negate then line[1..] else line;
    if p1 == "" then None
    else
      var rooted := HasPrefix(p1, "/");
      var p2 := if rooted then p1[1..] else p1;
      var dirOnly := HasSuffix(p2, "/");
      var p3 := if dirOnly then p2[..|p2| - 1] else p2;
      if p3 == "" then None
      else Some(Rule(negate, dirOnly, rooted || |Split(p3, '/')| > 1, Split(p3, '/')))
  }

  /** The canonical spelling of a rule. */
  function Render(rule: Rule): string {
    (if rule.negate then "!" else "")
    + ((if rule.anchored then "/" else "") + (Join(rule.segments, '/') + (if rule.dirOnly then "/" else "")))
  }

  /** The rules a line can spell. */
  ghost predicate Canonical(rule: Rule) {
    && |rule.segments| >= 1 && SepFree(rule.segments, '/')
    && Join(rule.segments, '/') != ""
    && (|rule.segments| > 1 ==> rule.anchored)
    && (!rule.dirOnly ==> !HasSuffix(Join(rule.segments, '/'), "/"))
  }

  lemma {:induction false} ParseIsCanonical(line: string)
    ensures ParseLine(line).Some? ==> Canonical(ParseLine(line).value)
  {
    var negate := HasPrefix(line, "!");
    var p1 := if negate then line[1..] else line;
    var p2 := if HasPrefix(p1, "/") then p1[1..] else p1;
    var p3 := if HasSuffix(p2, "/") then p2[..|p2| - 1] else p2;
    JoinOfSplit(p3, '/');
  }

  lemma {:induction false} JoinStart(segments: seq<string>)
    requires |segments| >= 1 && SepFree(segments, '/') && Join(segments, '/') != ""
    ensures |segments| == 1 ==> Join(segments, '/')[0] != '/'
  {
  }

  lemma {:induction false} NotPrefixed(s: string, c: char)
    requires s != ""
    ensures HasPrefix(s, [c]) <==> s[0] == c
  {
  }

  lemma {:induction false} StripFront(mark: char, on: bool, rest: string)
    requires on || rest == "" || rest[0] != mark
    ensures var s := (if on then [mark] else "") + rest;
      (HasPrefix(s, [mark]) <==> on) && (if on then s[1..] else s) == rest
  {
  }

  lemma {:induction false} StripBack(mark: char, on: bool, rest: string)
    requires on || !HasSuffix(rest, [mark])
    ensures var s := rest + (if on then [mark] else "");
      (HasSuffix(s, [mark]) <==> on) && (if on then s[..|s| - 1] else s) == rest
  {
    if !on { assert rest + "" == rest; }
  }

  lemma {:induction false} ParseInStages(line: string, rule: Rule, p1: string, p2: string, p3: string)
    requires (HasPrefix(line, "!") <==> rule.negate) && p1 == if rule.negate then line[1..] else line
    requires p1 != "" && p2 == if HasPrefix(p1, "/") then p1[1..] else p1
    requires (HasSuffix(p2, "/") <==> rule.dirOnly) && p3 == if rule.dirOnly then p2[..|p2| - 1] else p2
    requires p3 != "" && rule.segments == Split(p3, '/')
    requires rule.anchored <==> HasPrefix(p1, "/") || |rule.segments| > 1
    ensures ParseLine(line) == Some(rule)
  {
  }

  /** The line is a spelling of the rule: an optional `!`, an optional leading slash, the segments
      with slashes between them, and an optional final slash, none of which could also be read as
      part of what follows or precedes it. */
  ghost predicate Spells(line: string, rule: Rule, rooted: bool) {
    var body := Join(rule.segments, '/');
    && line == (if rule.negate then "!" else "")
               + ((if rooted then "/" else "") + (body + (if rule.dirOnly then "/" else "")))
    && |rule.segments| >= 1 && SepFree(rule.segments, '/') && body != ""
    && (rule.anchored <==> rooted || |rule.segments| > 1)
    && (!rule.negate ==> !HasPrefix(line, "!"))
    && (!rooted ==> body[0] != '/')
    && (!rule.dirOnly ==> !HasSuffix(body, "/"))
  }

  lemma {:induction false} SpelledParses(line: string, rule: Rule, rooted: bool)
    requires Spells(line, rule, rooted)
    ensures ParseLine(line) == Some(rule)
  {
    var body := Join(rule.segments, '/');
    var tail := body + (if rule.dirOnly then "/" else "");
    var p1 := (if rooted then "/" else "") + tail;
    if !rule.negate { assert line == p1; }
    StripFront('!', rule.negate, p1);
    StripFront('/', rooted, tail);
    StripBack('/', rule.dirOnly, body);
    SplitOfJoin(rule.segments, '/');
    ParseInStages(line, rule, p1, tail, body);
  }

  lemma {:induction false} FrontAgain(s: string, mark: string)
    requires |mark| == 1
    ensures var on := HasPrefix(s, mark);
      s == (if on then mark else "") + (if on then s[1..] else s)
  {
    if HasPrefix(s, mark) {
      assert s == s[..1] + s[1..];
    } else {
      assert "" + s == s;
    }
  }

  lemma {:induction false} BackAgain(s: string, mark: string)
    requires |mark| == 1
    ensures var on := HasSuffix(s, mark);
      s == (if on then s[..|s| - 1] else s) + (if on then mark else "")
  {
    if HasSuffix(s, mark) {
      assert s == s[..|s| - 1] + s[|s| - 1..];
    } else {
      assert s + "" == s;
    }
  }

  /** A parsed line put together again from the stages of its parsing. */
  lemma {:induction false} LineAgain(line: string, p1: string, p2: string, p3: string)
    requires p1 == (if HasPrefix(line, "!") then line[1..] else line)
    requires p2 == (if HasPrefix(p1, "/") then p1[1..] else p1)
    requires p3 == (if HasSuffix(p2, "/") then p2[..|p2| - 1] else p2)
    ensures line == (if HasPrefix(line, "!") then "!" else "")
                    + ((if HasPrefix(p1, "/") then "/" else "") + (p3 + (if HasSuffix(p2, "/") then "/" else "")))
  {
    FrontAgain(line, "!");
    FrontAgain(p1, "/");
    BackAgain(p2, "/");
  }

  /** Its middle does not begin with a slash if nothing was stripped before it, and does not end in
      one if nothing was stripped after it. */
  lemma {:induction false} MiddleIsBare(p1: string, p2: string, p3: string)
    requires p2 == (if HasPrefix(p1, "/") then p1[1..] else p1)
    requires p3 == (if HasSuffix(p2, "/") then p2[..|p2| - 1] else p2) && p3 != ""
    ensures !HasPrefix(p1, "/") ==> p3[0] != '/'
    ensures !HasSuffix(p2, "/") ==> !HasSuffix(p3, "/")
  {
    NotPrefixed(p1, '/');
    assert p3 <= p2;
  }

  lemma {:induction false} ParsedIsSpelled(line: string)
    requires ParseLine(line).Some?
    ensures Spells(line, ParseLine(line).value, HasPrefix(if HasPrefix(line, "!") then line[1..] else line, "/"))
  {
    var p1 := if HasPrefix(line, "!") then line[1..] else line;
    var p2 := if HasPrefix(p1, "/") then p1[1..] else p1;
    var p3 := if HasSuffix(p2, "/") then p2[..|p2| - 1] else p2;
    LineAgain(line, p1, p2, p3);
    MiddleIsBare(p1, p2, p3);
    JoinOfSplit(p3, '/');
    PartsParsed(line, p1, p2, p3);
  }

  lemma {:induction false} PartsParsed(line: string, p1: string, p2: string, p3: string)
    requires ParseLine(line).Some?
    requires p1 == (if HasPrefix(line, "!") then line[1..] else line)
    requires p2 == (if HasPrefix(p1, "/") then p1[1..] else p1)
    requires p3 == (if HasSuffix(p2, "/") then p2[..|p2| - 1] else p2)
    ensures var rule := ParseLine(line).value;
      && p3 != "" && rule.segments == Split(p3, '/')
      && (rule.negate <==> HasPrefix(line, "!")) && (rule.dirOnly <==> HasSuffix(p2, "/"))
      && (rule.anchored <==> HasPrefix(p1, "/") || |rule.segments| > 1)
  {
  }

  /** What a line means: the one rule it spells, if it spells any. */
  lemma {:induction false} LineMeaning(line: string)
    ensures ParseLine(line).Some? ==>
              Canonical(ParseLine(line).value) && exists rooted :: Spells(line, ParseLine(line).value, rooted)
    ensures forall rule, rooted :: Spells(line, rule, rooted) ==> ParseLine(line) == Some(rule)
  {
    ParseIsCanonical(line);
    if ParseLine(line).Some? { ParsedIsSpelled(line); }
    forall rule, rooted | Spells(line, rule, rooted) ensures ParseLine(line) == Some(rule) {
      SpelledParses(line, rule, rooted);
    }
  }

  /** What the parser makes of a line: the rule it spells, or nothing if it spells none. */
  ghost predicate Reads(line: string, rule: Rule, ok: bool) {
    if ok then Canonical(rule) && exists rooted :: Spells(line, rule, rooted)
    else forall other, rooted :: !Spells(line, other, rooted)
  }

  lemma {:induction false} ParsedReads(line: string, rule: Rule, ok: bool)
    requires ParseLine(line) == if ok then Some(rule) else None
    ensures Reads(line, rule, ok)
  {
    LineMeaning(line);
  }

  method ParseIgnoreLine(line: string) returns (rule: Rule, ok: bool)
    ensures Reads(line, rule, ok)
    ensures ParseLine(line) == if ok then Some(rule) else None
  {
    rule, ok := ParseStages(line);
    ParsedReads(line, rule, ok);
  }

  /** The stages of parseIgnoreLine. */
  method ParseStages(line: string) returns (rule: Rule, ok: bool)
    ensures ParseLine(line) == if ok then Some(rule) else None
  {
    var pattern := line;
    rule := Rule(false, false, false, []);
    if HasPrefix(pattern, "!") {
      rule := rule.(negate := true);
      pattern := pattern[1..];
    }
    if pattern == "" {
      return rule, false;
    }
    if HasPrefix(pattern, "/") {
      rule := rule.(anchored := true);
      pattern := pattern[1..];
    }
    if HasSuffix(pattern, "/") {
      rule := rule.(dirOnly := true);
      pattern := pattern[..|pattern| - 1];
    }
    if pattern == "" {
      return rule, false;
    }
    var segments := Split(pattern, '/');
    if |segments| > 1 {
      rule := rule.(anchored := true);
    }
    rule := rule.(segments := segments);
    ok := true;
  }

  /** Parsing the canonical spelling of a rule gives the rule back if and only if the rule is
      negated or anchored or does not begin with `!`; else it reads as a negation. */
  lemma {:induction false} ParseOfRender(rule: Rule)
    requires Canonical(rule)
    ensures ParseLine(Render(rule)) == Some(rule)
            <==> rule.negate || rule.anchored || !HasPrefix(Join(rule.segments, '/'), "!")
  {
    var body := Join(rule.segments, '/');
    JoinStart(rule.segments);
    NotPrefixed(body, '!');
    NotPrefixed(Render(rule), '!');
    if rule.negate || rule.anchored || !HasPrefix(body, "!") {
      SpelledParses(Render(rule), rule, rule.anchored);
    } else {
      assert Render(rule)[0] == body[0];
    }
  }

  /** unicode.IsSpace. */
  predicate IsSpace(c: char) {
    || ('\t' <= c <= '\r') || c == ' ' || c == '\U{0085}' || c == '\U{00A0}' || c == '\U{1680}'
    || ('\U{2000}' <= c <= '\U{200A}') || c == '\U{2028}' || c == '\U{2029}' || c == '\U{202F}'
    || c == '\U{205F}' || c == '\U{3000}'
  }

  function TrimSpace(s: string): (t: string)
    ensures t == "" || (!IsSpace(t[0]) && !IsSpace(t[|t| - 1]))
    decreases |s|
  {
    if s == "" then ""
    else if IsSpace(s[0]) then TrimSpace(s[1..])
    else if IsSpace(s[|s| - 1]) then TrimSpace(s[..|s| - 1])
    else s
  }

  function RuleOfLine(line: string): Option<Rule> {
    var trimmed := TrimSpace(TrimRight(line, '\r'));
    if trimmed == "" || HasPrefix(trimmed, "#") then None else ParseLine(trimmed)
  }

  function RulesOf(lines: seq<string>): seq<Rule> {
    if lines == [] then []
    else
      var n := |lines| - 1;
      RulesOf(lines[..n]) + match RuleOfLine(lines[n]) case None => [] case Some(r) => [r]
  }

  // ---- Reading the lines of a file ----

  ghost predicate Spaces(s: string) {
    forall i :: 0 <= i < |s| ==> IsSpace(s[i])
  }

  /** Text that begins and ends in something other than white space. */
  ghost predicate Bare(r: string) {
    r != "" && !IsSpace(r[0]) && !IsSpace(r[|r| - 1])
  }

  /** The characters with the Unicode property White_Space. */
  const SPACES := [
    '\U{0009}', '\U{000A}', '\U{000B}', '\U{000C}', '\U{000D}', '\U{0020}', '\U{0085}', '\U{00A0}', '\U{1680}',
    '\U{2000}', '\U{2001}', '\U{2002}', '\U{2003}', '\U{2004}', '\U{2005}', '\U{2006}', '\U{2007}', '\U{2008}',
    '\U{2009}', '\U{200A}', '\U{2028}', '\U{2029}', '\U{202F}', '\U{205F}', '\U{3000}'
  ]

  lemma {:induction false} SpaceMeaning(c: char)
    ensures IsSpace(c) <==> c in SPACES
  {
    if '\t' <= c <= '\r' { assert SPACES[c as int - '\t' as int] == c; }
    if '\U{2000}' <= c <= '\U{200A}' { assert SPACES[9 + c as int - 0x2000] == c; }
  }

  lemma {:induction false} TrimSpaceFront(before: string, t: string)
    requires Spaces(before)
    ensures TrimSpace(before + t) == TrimSpace(t)
  {
    if before == "" {
      assert before + t == t;
    } else {
      var s := before + t;
      assert s[0] == before[0] && s[1..] == before[1..] + t;
      TrimSpaceFront(before[1..], t);
    }
  }

  lemma {:induction false} TrimSpaceBack(r: string, after: string)
    requires Bare(r) && Spaces(after)
    ensures TrimSpace(r + after) == r
  {
    var s := r + after;
    assert s[0] == r[0];
    if after == "" {
      assert s == r;
    } else {
      var n := |after| - 1;
      assert s[|s| - 1] == after[n] && s[..|s| - 1] == r + after[..n];
      TrimSpaceBack(r, after[..n]);
    }
  }

  lemma {:induction false} TrimSpaceKeeps(before: string, r: string, after: string)
    requires Spaces(before) && Bare(r) && Spaces(after)
    ensures TrimSpace(before + r + after) == r
  {
    assert before + r + after == before + (r + after);
    TrimSpaceFront(before, r + after);
    TrimSpaceBack(r, after);
  }

  lemma {:induction false} TrimSpaceOfBlank(s: string)
    requires Spaces(s)
    ensures TrimSpace(s) == ""
  {
    if s != "" { TrimSpaceOfBlank(s[1..]); }
  }

  /** Trimming carriage returns first makes no difference. */
  lemma {:induction false} ReturnsTrimmed(before: string, r: string, after: string) returns (rest: string)
    requires Spaces(before) && Bare(r) && Spaces(after)
    ensures Spaces(rest) && TrimRight(before + r + after, '\r') == before + r + rest
  {
    var s := before + r + after;
    var t := TrimRight(s, '\r');
    TrimRightMeaning(s, '\r');
    var n := |before + r|;
    assert s[n - 1] == r[|r| - 1];
    assert |t| >= n;
    rest := after[..|t| - n];
    assert t == s[..|t|] == before + r + rest;
  }

  lemma {:induction false} RulesOfConcat(a: seq<string>, b: seq<string>)
    ensures RulesOf(a + b) == RulesOf(a) + RulesOf(b)
    decreases |b|
  {
    if b == [] {
      assert a + b == a;
    } else {
      var n := |b| - 1;
      assert (a + b)[..|a + b| - 1] == a + b[..n];
      RulesOfConcat(a, b[..n]);
    }
  }

  lemma {:induction false} RuleOfTrimmed(line: string, r: string)
    requires TrimSpace(TrimRight(line, '\r')) == r && r != ""
    ensures RuleOfLine(line) == if r[0] == '#' then None else ParseLine(r)
  {
  }

  /** A line contributes exactly the rule that its text without the surrounding white space spells. */
  lemma {:induction false} LineContributes(above: seq<string>, before: string, r: string, after: string,
                                           below: seq<string>, rule: Rule, rooted: bool)
    requires Spaces(before) && Bare(r) && Spaces(after) && r[0] != '#' && Spells(r, rule, rooted)
    ensures RulesOf(above + [before + r + after] + below) == RulesOf(above) + [rule] + RulesOf(below)
  {
    var rest := ReturnsTrimmed(before, r, after);
    TrimSpaceKeeps(before, r, rest);
    RuleOfTrimmed(before + r + after, r);
    SpelledParses(r, rule, rooted);
    OneLine(above, before + r + after, below);
  }

  /** Comments, blank lines, and lines that spell no rule contribute nothing. */
  lemma {:induction false} OtherLinesContributeNothing(above: seq<string>, before: string, r: string, after: string,
                                                       below: seq<string>)
    requires Spaces(before) && Spaces(after)
    requires r == "" || (Bare(r) && (r[0] == '#' || forall rule, rooted :: !Spells(r, rule, rooted)))
    ensures RulesOf(above + [before + r + after] + below) == RulesOf(above) + RulesOf(below)
  {
    var line := before + r + after;
    if r == "" {
      TrimRightMeaning(line, '\r');
      TrimSpaceOfBlank(TrimRight(line, '\r'));
    } else {
      var rest := ReturnsTrimmed(before, r, after);
      TrimSpaceKeeps(before, r, rest);
      RuleOfTrimmed(line, r);
      LineMeaning(r);
    }
    OneLine(above, line, below);
  }

  lemma {:induction false} OneLine(above: seq<string>, line: string, below: seq<string>)
    ensures RulesOf(above + [line] + below)
            == RulesOf(above) + (match RuleOfLine(line) case None => [] case Some(r) => [r]) + RulesOf(below)
  {
    RulesOfConcat(above + [line], below);
    assert (above + [line])[..|above|] == above;
  }

  /** One turn of NewMatcher's loop. */
  method ReadLine(line: string) returns (rule: Rule, ok: bool)
    ensures RuleOfLine(line) == if ok then Some(rule) else None
  {
    rule, ok := Rule(false, false, false, []), false;
    var trimmed := TrimSpace(TrimRight(line, '\r'));
    if trimmed == "" || HasPrefix(trimmed, "#") {
      return;
    }
    rule, ok := ParseIgnoreLine(trimmed);
  }

  lemma {:induction false} RulesOfNext(lines: seq<string>, i: nat)
    requires i < |lines|
    ensures RulesOf(lines[..i + 1])
            == RulesOf(lines[..i]) + match RuleOfLine(lines[i]) case None => [] case Some(r) => [r]
  {
    assert lines[..i + 1][..i] == lines[..i];
  }

  method NewMatcher(data: string) returns (rules: seq<Rule>)
    ensures rules == RulesOf(Split(data, '\n'))
  {
    var lines := Split(data, '\n');
    rules := [];
    for i := 0 to |lines|
      invariant rules == RulesOf(lines[..i])
    {
      RulesOfNext(lines, i);
      var rule, ok := ReadLine(lines[i]);
      if ok {
        rules := rules + [rule];
      }
    }
    assert lines[..|lines|] == lines;
  }

  /** A line appended to the file overrides everything before it on the paths it applies to and
      changes nothing elsewhere; comments and blank lines change nothing at all. */
  lemma {:induction false} AppendedLineOverrides(glob: Glob, lines: seq<string>, line: string, path: seq<string>,
                                                 isDir: bool)
    ensures var before := Ignored(glob, RulesOf(lines), path, isDir);
      Ignored(glob, RulesOf(lines + [line]), path, isDir) <==>
        match RuleOfLine(line)
        case None => before
        case Some(r) => if Applicable(glob, r, path, isDir) then !r.negate else before
  {
    var all := lines + [line];
    assert all[..|lines|] == lines;
    match RuleOfLine(line)
    case None =>
      assert all[|lines|] == line;
      assert RulesOf(all) == RulesOf(lines);
    case Some(r) =>
      assert RulesOf(all)[..|RulesOf(lines)|] == RulesOf(lines);
  }
}
