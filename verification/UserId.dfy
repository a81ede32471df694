/** Deriving an unclaimed public User ID from an email address: sanitizing the local part, and
    an unbounded search over decimal suffixes with truncation to a DNS label. */
module UserId {
  import opened Common
  import opened Text

  const MAX_LENGTH: nat := 63

  // ---- manifest.ValidateUserID ----

  predicate IsAlnum(c: char) { 'a' <= c <= 'z' || '0' <= c <= '9' }

  predicate IsLabelChar(c: char) { IsAlnum(c) || c == '-' }

  /** nameRE. */
  predicate IsLabel(s: string) {
    && 1 <= |s| <= MAX_LENGTH
    && IsAlnum(s[0]) && IsAlnum(s[|s| - 1])
    && forall i :: 0 <= i < |s| ==> IsLabelChar(s[i])
  }

  const RESERVED: set<string> := {
    "dashboard", "api", "auth", "dev", "assets", "healthz", "metrics", "run", "www", "admin",
    "status", "favicon.ico", "robots.txt"
  }

  predicate IsReserved(s: string) {
    HasPrefix(s, "_") || HasPrefix(s, "xn--") || s in RESERVED
  }

  predicate IsValid(s: string) { IsLabel(s) && !IsReserved(s) }

  lemma {:induction false} AlnumMeaning(c: char)
    ensures IsAlnum(c) <==> c in LOWER || c in DIGITS
  {
    if 'a' <= c <= 'z' {
      Alphabet(c as int - 'a' as int);
    }
    if '0' <= c <= '9' {
      Numerals(c as int - '0' as int);
    }
  }

  /** A User ID is a DNS label of small letters, digits and inner dashes, except the names of
      routes and whatever starts with `xn--`. */
  lemma {:induction false} ValidMeaning(s: string)
    ensures IsValid(s) <==>
              && 1 <= |s| <= 63
              && (forall i :: 0 <= i < |s| ==> s[i] in LOWER || s[i] in DIGITS || s[i] == '-')
              && s[0] != '-' && s[|s| - 1] != '-'
              && (forall rest :: s != "xn--" + rest)
              && s !in {"dashboard", "api", "auth", "dev", "assets", "healthz", "metrics", "run", "www", "admin",
                        "status"}
  {
    forall i | 0 <= i < |s| ensures IsLabelChar(s[i]) <==> s[i] in LOWER || s[i] in DIGITS || s[i] == '-' {
      AlnumMeaning(s[i]);
    }
    PrefixMeaning(s, "xn--");
    if s != "" {
      AlnumMeaning(s[0]);
      AlnumMeaning(s[|s| - 1]);
      if IsLabel(s) { NoDot(s); }
    }
  }

  /** The two reserved names with a dot and the leading underscore are not labels anyway. */
  lemma {:induction false} NoDot(s: string)
    requires IsLabel(s)
    ensures s != "favicon.ico" && s != "robots.txt" && !HasPrefix(s, "_")
  {
    assert forall i :: 0 <= i < |s| ==> s[i] != '.';
    assert "favicon.ico"[7] == '.' && "robots.txt"[6] == '.';
  }

  // ---- Sanitizing ----

  /** Every run of other characters becomes one dash. */
  function Dashed(s: string): string {
    if s == "" then ""
    else if IsLabelChar(s[|s| - 1]) then Dashed(s[..|s| - 1]) + [s[|s| - 1]]
    else if |s| >= 2 && !IsLabelChar(s[|s| - 2]) then Dashed(s[..|s| - 1])
    else Dashed(s[..|s| - 1]) + ['-']
  }

  ghost predicate LabelChars(s: string) {
    forall i :: 0 <= i < |s| ==> IsLabelChar(s[i])
  }

  lemma {:induction false} DashedIsLabelChars(s: string)
    ensures LabelChars(Dashed(s))
  {
    if s != "" { DashedIsLabelChars(s[..|s| - 1]); }
  }

  lemma {:induction false} TrimKeepsLabelChars(d: string)
    requires LabelChars(d)
    ensures var r := TrimRight(TrimLeft(d, '-'), '-');
      LabelChars(r) && (r != "" ==> r[0] != '-' && r[|r| - 1] != '-')
  {
    var l := TrimLeft(d, '-');
    TrimLeftMeaning(d, '-');
    assert forall i :: 0 <= i < |l| ==> l[i] == d[|d| - |l| + i];
    var r := TrimRight(l, '-');
    TrimRightMeaning(l, '-');
    if r != "" { assert r[0] == l[0]; }
  }

  function CutToLabel(s: string): string {
    if |s| > MAX_LENGTH then TrimRight(s[..MAX_LENGTH], '-') else s
  }

  lemma {:induction false} CutKeepsLabel(s: string)
    requires LabelChars(s) && (s != "" ==> s[0] != '-' && s[|s| - 1] != '-')
    ensures s == "" || IsLabel(CutToLabel(s))
  {
    if |s| > MAX_LENGTH {
      var cut := s[..MAX_LENGTH];
      assert cut[0] != '-';
      TrimRightMeaning(cut, '-');
    }
  }

  function Stripped(local: string): string {
    TrimRight(TrimLeft(Dashed(Lowered(local)), '-'), '-')
  }

  /** sanitizeUserID, on values. */
  function Sanitized(local: string): string {
    CutToLabel(Stripped(local))
  }

  /** A sanitized local part is empty or a DNS label. */
  lemma {:induction false} SanitizedIsLabel(local: string)
    ensures Sanitized(local) == "" || IsLabel(Sanitized(local))
  {
    DashedIsLabelChars(Lowered(local));
    TrimKeepsLabelChars(Dashed(Lowered(local)));
    CutKeepsLabel(Stripped(local));
  }

  /** The letters and digits of a string, in order. */
  function Alnums(s: string): string {
    if s == "" then ""
    else Alnums(s[..|s| - 1]) + if IsAlnum(s[|s| - 1]) then [s[|s| - 1]] else ""
  }

  lemma {:induction false} AlnumsOfDashed(s: string)
    ensures Alnums(Dashed(s)) == Alnums(s) && |Dashed(s)| <= |s|
  {
    if s != "" {
      var front, last := s[..|s| - 1], s[|s| - 1];
      AlnumsOfDashed(front);
      assert (Dashed(front) + [last])[..|Dashed(front)|] == Dashed(front);
      assert (Dashed(front) + ['-'])[..|Dashed(front)|] == Dashed(front);
    }
  }

  lemma {:induction false} AlnumsConcat(a: string, b: string)
    ensures Alnums(a + b) == Alnums(a) + Alnums(b)
    decreases |b|
  {
    if b == "" {
      assert a + b == a;
    } else {
      assert (a + b)[..|a + b| - 1] == a + b[..|b| - 1];
      AlnumsConcat(a, b[..|b| - 1]);
    }
  }

  lemma {:induction false} AlnumsOfDashes(s: string)
    requires forall i :: 0 <= i < |s| ==> s[i] == '-'
    ensures Alnums(s) == ""
  {
    if s != "" { AlnumsOfDashes(s[..|s| - 1]); }
  }

  lemma {:induction false} AlnumsOfTrimmedRight(s: string)
    ensures Alnums(TrimRight(s, '-')) == Alnums(s)
  {
    var r := TrimRight(s, '-');
    TrimRightMeaning(s, '-');
    AlnumsOfParts(s, r, s[|r|..]);
    AlnumsOfDashes(s[|r|..]);
  }

  lemma {:induction false} AlnumsOfTrimmed(s: string)
    ensures Alnums(TrimRight(s, '-')) == Alnums(s) && Alnums(TrimLeft(s, '-')) == Alnums(s)
  {
    var l := TrimLeft(s, '-');
    AlnumsOfTrimmedRight(s);
    TrimLeftMeaning(s, '-');
    AlnumsOfParts(s, s[..|s| - |l|], l);
    AlnumsOfDashes(s[..|s| - |l|]);
  }

  lemma {:induction false} AlnumsOfParts(s: string, a: string, b: string)
    requires s == a + b
    ensures Alnums(s) == Alnums(a) + Alnums(b)
  {
    AlnumsConcat(a, b);
  }

  lemma {:induction false} AlnumsOfCut(s: string)
    ensures Alnums(CutToLabel(s)) <= Alnums(s) && (|s| <= MAX_LENGTH ==> CutToLabel(s) == s)
  {
    if |s| > MAX_LENGTH {
      assert s == s[..MAX_LENGTH] + s[MAX_LENGTH..];
      AlnumsConcat(s[..MAX_LENGTH], s[MAX_LENGTH..]);
      AlnumsOfTrimmed(s[..MAX_LENGTH]);
    }
  }

  lemma {:induction false} StrippedAlnums(local: string)
    ensures Alnums(Stripped(local)) == Alnums(Lowered(local)) && |Stripped(local)| <= |local|
  {
    var d := Dashed(Lowered(local));
    AlnumsOfDashed(Lowered(local));
    AlnumsOfTrimmed(d);
    AlnumsOfTrimmed(TrimLeft(d, '-'));
    TrimLeftMeaning(d, '-');
    TrimRightMeaning(TrimLeft(d, '-'), '-');
  }

  /** What sanitizing gives: a label, or nothing if there is no letter or digit; the letters and
      digits of the lowered local part in order, cut only for length; and a label unchanged. */
  lemma {:induction false} SanitizedMeaning(local: string)
    ensures var s := Sanitized(local);
      && (s == "" || IsLabel(s))
      && (s == "" <==> Alnums(Lowered(local)) == "")
      && Alnums(s) <= Alnums(Lowered(local))
      && (|local| <= MAX_LENGTH ==> Alnums(s) == Alnums(Lowered(local)))
      && (IsLabel(local) ==> s == local)
  {
    SanitizedIsLabel(local);
    StrippedAlnums(local);
    AlnumsOfCut(Stripped(local));
    var s := Sanitized(local);
    if s != "" {
      assert s == [s[0]] + s[1..];
      AlnumsConcat([s[0]], s[1..]);
      assert Alnums([s[0]]) == Alnums([]) + [s[0]];
    } else {
      DashedIsLabelChars(Lowered(local));
      TrimKeepsLabelChars(Dashed(Lowered(local)));
      CutKeepsLabel(Stripped(local));
    }
    if IsLabel(local) { LabelIsUntouched(local); }
  }

  /** Sanitizing again changes nothing. */
  lemma {:induction false} SanitizedIsStable(local: string)
    ensures Sanitized(Sanitized(local)) == Sanitized(local)
  {
    SanitizedIsLabel(local);
    LabelIsUntouched(Sanitized(local));
  }

  lemma {:induction false} LabelIsUntouched(s: string)
    requires forall i :: 0 <= i < |s| ==> IsLabelChar(s[i])
    ensures Lowered(s) == s && Dashed(s) == s
    ensures s != "" && s[0] != '-' && s[|s| - 1] != '-' ==> TrimRight(TrimLeft(s, '-'), '-') == s
  {
    if s != "" {
      LabelIsUntouched(s[..|s| - 1]);
      assert s == s[..|s| - 1] + [s[|s| - 1]];
    }
  }

  // ---- What becomes of the other characters ----

  /** Pieces and separators by turns: the pieces are label characters, those between two separators
      not empty; the separators are not empty and have no label character. */
  ghost predicate Alternates(parts: seq<string>, seps: seq<string>) {
    && |parts| == |seps| + 1
    && (forall i :: 0 <= i < |parts| ==> LabelChars(parts[i]))
    && (forall i :: 0 < i < |parts| - 1 ==> parts[i] != "")
    && (forall i :: 0 <= i < |seps| ==> Separator(seps[i]))
  }

  ghost predicate Separator(sep: string) {
    sep != "" && forall i :: 0 <= i < |sep| ==> !IsLabelChar(sep[i])
  }

  function Woven(parts: seq<string>, seps: seq<string>): string
    requires |parts| == |seps| + 1
  {
    var n := |seps|;
    if n == 0 then parts[0] else Woven(parts[..n], seps[..n - 1]) + seps[n - 1] + parts[n]
  }

  /** Every string is such pieces and separators. */
  lemma {:induction false} RunsOf(s: string) returns (parts: seq<string>, seps: seq<string>)
    ensures Alternates(parts, seps) && Woven(parts, seps) == s
  {
    if s == "" {
      parts, seps := [""], [];
    } else {
      var c := s[|s| - 1];
      parts, seps := RunsOf(s[..|s| - 1]);
      assert s == Woven(parts, seps) + [c];
      if IsLabelChar(c) {
        parts := LongerPiece(parts, seps, c);
      } else if seps != [] && parts[|seps|] == "" {
        seps := LongerSeparator(parts, seps, c);
      } else {
        parts, seps := NewSeparator(parts, seps, c);
      }
    }
  }

  lemma {:induction false} LongerPiece(parts: seq<string>, seps: seq<string>, c: char) returns (longer: seq<string>)
    requires Alternates(parts, seps) && IsLabelChar(c)
    ensures Alternates(longer, seps) && Woven(longer, seps) == Woven(parts, seps) + [c]
  {
    var n := |seps|;
    LastPiece(parts, seps, parts[n] + [c]);
    assert LabelChars(parts[n]);
    longer := parts[..n] + [parts[n] + [c]];
  }

  lemma {:induction false} LongerSeparator(parts: seq<string>, seps: seq<string>, c: char)
    returns (longer: seq<string>)
    requires Alternates(parts, seps) && seps != [] && parts[|seps|] == "" && !IsLabelChar(c)
    ensures Alternates(parts, longer) && Woven(parts, longer) == Woven(parts, seps) + [c]
  {
    var n := |seps|;
    LastSeparator(parts, seps, seps[n - 1] + [c]);
    assert Separator(seps[n - 1]);
    longer := seps[..n - 1] + [seps[n - 1] + [c]];
  }

  lemma {:induction false} NewSeparator(parts: seq<string>, seps: seq<string>, c: char)
    returns (more: seq<string>, longer: seq<string>)
    requires Alternates(parts, seps) && (seps != [] ==> parts[|seps|] != "") && !IsLabelChar(c)
    ensures Alternates(more, longer) && Woven(more, longer) == Woven(parts, seps) + [c]
  {
    var n := |seps|;
    more, longer := parts + [""], seps + [[c]];
    assert more[..n + 1] == parts && longer[..n] == seps;
  }

  lemma {:induction false} LastPiece(parts: seq<string>, seps: seq<string>, last: string)
    requires |parts| == |seps| + 1 && parts[|seps|] <= last
    ensures var n := |seps|;
      Woven(parts[..n] + [last], seps) == Woven(parts, seps) + last[|parts[n]|..]
  {
    var n := |seps|;
    assert (parts[..n] + [last])[..n] == parts[..n];
    assert last == parts[n] + last[|parts[n]|..];
  }

  lemma {:induction false} LastSeparator(parts: seq<string>, seps: seq<string>, last: string)
    requires |parts| == |seps| + 1 && seps != [] && parts[|seps|] == "" && seps[|seps| - 1] <= last
    ensures var n := |seps|;
      Woven(parts, seps[..n - 1] + [last]) == Woven(parts, seps) + last[|seps[n - 1]|..]
  {
    var n := |seps|;
    assert (seps[..n - 1] + [last])[..n - 1] == seps[..n - 1];
    assert last == seps[n - 1] + last[|seps[n - 1]|..];
  }

  lemma {:induction false} DashedNext(s: string, c: char)
    ensures Dashed(s + [c])
            == if IsLabelChar(c) then Dashed(s) + [c]
               else if s != "" && !IsLabelChar(s[|s| - 1]) then Dashed(s) else Dashed(s) + "-"
  {
    assert (s + [c])[..|s|] == s;
    assert s != "" ==> (s + [c])[|s| - 1] == s[|s| - 1];
  }

  lemma {:induction false} DashedPiece(s: string, piece: string)
    requires LabelChars(piece)
    ensures Dashed(s + piece) == Dashed(s) + piece
    decreases |piece|
  {
    if piece == "" {
      assert s + piece == s;
    } else {
      var front, c := piece[..|piece| - 1], piece[|piece| - 1];
      assert s + piece == s + front + [c] && piece == front + [c];
      DashedPiece(s, front);
      DashedNext(s + front, c);
    }
  }

  lemma {:induction false} SeparatorEnds(s: string, sep: string)
    requires Separator(sep)
    ensures var t := s + sep; t != "" && !IsLabelChar(t[|t| - 1])
    ensures |sep| > 1 ==> Separator(sep[..|sep| - 1])
  {
    assert (s + sep)[|s + sep| - 1] == sep[|sep| - 1];
  }

  lemma {:induction false} DashedSeparator(s: string, sep: string)
    requires Separator(sep) && (s != "" ==> IsLabelChar(s[|s| - 1]))
    ensures Dashed(s + sep) == Dashed(s) + "-"
    decreases |sep|
  {
    var front, c := sep[..|sep| - 1], sep[|sep| - 1];
    assert s + sep == s + front + [c];
    SeparatorEnds(s, sep);
    DashedNext(s + front, c);
    if |sep| > 1 {
      SeparatorEnds(s, front);
      DashedSeparator(s, front);
    } else {
      assert s + front == s;
    }
  }

  lemma {:induction false} JoinLast(parts: seq<string>)
    requires |parts| > 1
    ensures var n := |parts| - 1; Join(parts, '-') == Join(parts[..n], '-') + "-" + parts[n]
  {
    var n := |parts| - 1;
    if n > 1 {
      JoinLast(parts[1..]);
      assert parts[1..][..n - 1] == parts[..n][1..];
    }
  }

  /** Each separator becomes one dash. */
  lemma {:induction false} DashedOfWoven(parts: seq<string>, seps: seq<string>)
    requires Alternates(parts, seps)
    ensures Dashed(Woven(parts, seps)) == Join(parts, '-')
  {
    var n := |seps|;
    if n == 0 {
      DashedPiece("", parts[0]);
      assert "" + parts[0] == parts[0];
    } else {
      DashedOfWoven(parts[..n], seps[..n - 1]);
      var front := Woven(parts[..n], seps[..n - 1]);
      WovenEnd(parts[..n], seps[..n - 1]);
      DashedSeparator(front, seps[n - 1]);
      DashedPiece(front + seps[n - 1], parts[n]);
      JoinLast(parts);
    }
  }

  lemma {:induction false} WovenEnd(parts: seq<string>, seps: seq<string>)
    requires |parts| == |seps| + 1 && (forall i :: 0 <= i < |parts| ==> LabelChars(parts[i]))
    requires forall i :: 0 < i < |parts| ==> parts[i] != ""
    ensures var s := Woven(parts, seps); s != "" ==> IsLabelChar(s[|s| - 1])
  {
    var last := parts[|seps|];
    assert LabelChars(last);
    assert last != "" ==> IsLabelChar(last[|last| - 1]);
  }

  ghost predicate Dashes(s: string) {
    forall i :: 0 <= i < |s| ==> s[i] == '-'
  }

  /** What is left of a string without the dashes at its ends. */
  ghost predicate CoreOf(s: string, core: string) {
    && (exists lo, hi :: 0 <= lo <= hi <= |s| && CoreAt(s, core, lo, hi))
    && (core != "" ==> core[0] != '-' && core[|core| - 1] != '-')
  }

  ghost predicate CoreAt(s: string, core: string, lo: nat, hi: nat)
    requires lo <= hi <= |s|
  {
    core == s[lo..hi] && Dashes(s[..lo]) && Dashes(s[hi..])
  }

  /** All of it if it fits, and else what the first 63 characters keep without final dashes. */
  ghost predicate FirstOf(core: string, s: string) {
    if |core| <= 63 then s == core
    else s <= core[..63] && Dashes(core[|s|..63]) && (s != "" ==> s[|s| - 1] != '-')
  }

  /** The sanitized form: the lowered text with each maximal run of other characters replaced by one
      dash, then trimmed and cut. */
  ghost predicate SanitizedForm(local: string, s: string) {
    exists parts, seps, core ::
      && Alternates(parts, seps) && Woven(parts, seps) == Lowered(local)
      && CoreOf(Join(parts, '-'), core) && FirstOf(core, s)
  }

  lemma {:induction false} TrimmedIsCore(s: string)
    ensures CoreOf(s, TrimRight(TrimLeft(s, '-'), '-'))
  {
    var l := TrimLeft(s, '-');
    TrimLeftMeaning(s, '-');
    var r := TrimRight(l, '-');
    TrimRightMeaning(l, '-');
    var lo := |s| - |l|;
    assert r == s[lo..lo + |r|];
    assert forall i :: |r| <= i < |l| ==> s[lo + i] == l[i];
    assert CoreAt(s, r, lo, lo + |r|);
    if r != "" { assert r[0] == l[0]; }
  }

  lemma {:induction false} SanitizedHasForm(local: string, parts: seq<string>, seps: seq<string>)
    requires Alternates(parts, seps) && Woven(parts, seps) == Lowered(local)
    ensures CoreOf(Join(parts, '-'), Stripped(local)) && FirstOf(Stripped(local), Sanitized(local))
  {
    DashedOfWoven(parts, seps);
    TrimmedIsCore(Join(parts, '-'));
    var core := Stripped(local);
    if |core| > MAX_LENGTH { TrimRightMeaning(core[..MAX_LENGTH], '-'); }
  }

  lemma {:induction false} SanitizedForms(local: string)
    ensures SanitizedForm(local, Sanitized(local))
  {
    var parts, seps := RunsOf(Lowered(local));
    SanitizedHasForm(local, parts, seps);
  }

  lemma {:induction false} DashesAtEnds(s: string, lo: nat, hi: nat)
    requires lo <= hi <= |s| && Dashes(s[..lo]) && Dashes(s[hi..])
    ensures lo > 0 ==> s[0] == '-'
    ensures hi < |s| ==> s[|s| - 1] == '-'
  {
    if lo > 0 { assert s[..lo][0] == s[0]; }
    if hi < |s| { assert s[hi..][|s| - hi - 1] == s[|s| - 1]; }
  }

  lemma {:induction false} OnlyCore(s: string, core: string)
    requires CoreOf(s, core) && s != "" && s[0] != '-' && s[|s| - 1] != '-'
    ensures core == s
  {
    var lo, hi :| 0 <= lo <= hi <= |s| && CoreAt(s, core, lo, hi);
    DashesAtEnds(s, lo, hi);
  }

  lemma {:induction false} LoweredConcat(a: string, b: string)
    ensures Lowered(a + b) == Lowered(a) + Lowered(b)
  {
  }

  lemma {:induction false} WovenOfTwo(a: string, sep: string, b: string)
    ensures Woven([a, b], [sep]) == a + sep + b && Join([a, b], '-') == a + "-" + b
  {
    assert [a, b][..1] == [a] && [sep][..0] == [] && [a, b][1..] == [b];
    assert Woven([a], []) == a;
  }

  lemma {:induction false} TwoPieces(a: string, sep: string, b: string)
    requires IsLabel(a) && IsLabel(b) && Separator(sep)
    ensures Alternates([a, b], [sep])
    ensures var s := a + "-" + b; s[0] != '-' && s[|s| - 1] != '-'
  {
    var s := a + "-" + b;
    assert s[0] == a[0] && s[|s| - 1] == b[|b| - 1];
    assert LabelChars(a) && LabelChars(b);
  }

  /** Two labels with other characters between them: these become one dash. */
  lemma {:induction false} SeparatorBecomesDash(a: string, sep: string, b: string)
    requires IsLabel(a) && IsLabel(b) && Separator(Lowered(sep)) && |a| + 1 + |b| <= 63
    ensures Sanitized(a + sep + b) == a + "-" + b
  {
    TwoPiecesLowered(a, sep, b);
    TwoPieces(a, Lowered(sep), b);
    SanitizedHasForm(a + sep + b, [a, b], [Lowered(sep)]);
    OnlyCore(a + "-" + b, Stripped(a + sep + b));
  }

  lemma {:induction false} TwoPiecesLowered(a: string, sep: string, b: string)
    requires IsLabel(a) && IsLabel(b)
    ensures Woven([a, b], [Lowered(sep)]) == Lowered(a + sep + b) && Join([a, b], '-') == a + "-" + b
  {
    LabelIsUntouched(a);
    LabelIsUntouched(b);
    LoweredConcat(a + sep, b);
    LoweredConcat(a, sep);
    WovenOfTwo(a, Lowered(sep), b);
  }

  /** sanitizeUserID, rewriting a local string in stages. */
  method SanitizeUserID(local: string) returns (s: string)
    ensures s == "" || IsLabel(s)
    ensures s == "" <==> Alnums(Lowered(local)) == ""
    ensures Alnums(s) <= Alnums(Lowered(local))
    ensures |local| <= MAX_LENGTH ==> Alnums(s) == Alnums(Lowered(local))
    ensures IsLabel(local) ==> s == local
    ensures SanitizedForm(local, s)
    ensures s == Sanitized(local)
  {
    SanitizedMeaning(local);
    SanitizedForms(local);
    s := Lowered(local);
    s := Dashed(s);
    s := TrimRight(TrimLeft(s, '-'), '-');
    if |s| > MAX_LENGTH {
      s := TrimRight(s[..MAX_LENGTH], '-');
    }
  }

  /** strings.Cut(email, "@"), then the fallback. */
  function LocalPart(email: string): string { Split(email, '@')[0] }

  function BaseOf(email: string): (base: string) {
    var s := Sanitized(LocalPart(email));
    if s == "" then "user" else s
  }

  /** The base is what sanitizing gives for what comes before the first `@`, or for all of it, and
      `user` when there is no letter or digit in that. */
  lemma {:induction false} BaseOfEmail(local: string, rest: string)
    requires '@' !in local
    ensures BaseOf(local + "@" + rest) == BaseOf(local)
    ensures BaseOf(local) == if forall c :: c in Lowered(local) ==> !IsAlnum(c) then "user" else Sanitized(local)
  {
    SplitHead(local, rest, '@');
    assert local + ['@'] + rest == local + "@" + rest;
    SanitizedMeaning(local);
    NoAlnums(Lowered(local));
  }

  lemma {:induction false} NoAlnums(s: string)
    ensures Alnums(s) == "" <==> forall c :: c in s ==> !IsAlnum(c)
  {
    if s != "" {
      NoAlnums(s[..|s| - 1]);
      assert s == s[..|s| - 1] + [s[|s| - 1]];
    }
  }

  lemma {:induction false} BaseIsLabel(email: string)
    ensures IsLabel(BaseOf(email))
  {
    SanitizedIsLabel(LocalPart(email));
  }

  // ---- Suffixing ----

  function Suffix(n: nat): (s: string) { "-" + Itoa(n) }

  /** The part of the base a suffix leaves room for. */
  function Trimmed(base: string, n: nat): string
    requires |Suffix(n)| <= MAX_LENGTH
  {
    if |base| + |Suffix(n)| > MAX_LENGTH
    then
      var room := MAX_LENGTH - |Suffix(n)|;
      TrimRight(base[..if room <= |base| then room else |base|], '-')
    else base
  }

  function Suffixed(base: string, n: nat): string
    requires |Suffix(n)| <= MAX_LENGTH
  {
    Trimmed(base, n) + Suffix(n)
  }

  /** What suffixing keeps of the base: all of it if there is room, else the longest prefix that
      leaves room, less the dashes it would end in. */
  ghost predicate KeptOf(base: string, room: nat, kept: string) {
    && kept <= base
    && (|base| <= room ==> kept == base)
    && (|base| > room ==> |kept| <= room && (kept != "" ==> kept[|kept| - 1] != '-'))
    && forall i :: |kept| <= i < room && i < |base| ==> base[i] == '-'
  }

  lemma {:induction false} TrimmedIsKept(base: string, n: nat)
    requires |Suffix(n)| <= MAX_LENGTH
    ensures KeptOf(base, MAX_LENGTH - |Suffix(n)|, Trimmed(base, n))
  {
    var room := MAX_LENGTH - |Suffix(n)|;
    if |base| > room {
      TrimRightMeaning(base[..room], '-');
      assert Trimmed(base, n) <= base[..room] <= base;
      assert forall i :: 0 <= i < room ==> base[i] == base[..room][i];
    }
  }

  /** Suffixes of up to 61 digits leave at least one character of the base. */
  ghost predicate Fits(n: nat) { n < Pow10(61) }

  lemma {:induction false} SuffixFits(n: nat)
    requires Fits(n)
    ensures |Suffix(n)| <= MAX_LENGTH - 1
  {
    ItoaLength(n, 61);
  }

  lemma {:induction false} SuffixedIsLabel(base: string, n: nat)
    requires IsLabel(base) && Fits(n)
    ensures |Suffix(n)| <= MAX_LENGTH
    ensures IsLabel(Suffixed(base, n))
    ensures Trimmed(base, n) != "" && Trimmed(base, n) <= base && Trimmed(base, n)[|Trimmed(base, n)| - 1] != '-'
  {
    SuffixFits(n);
    var t, x := Trimmed(base, n), Suffixed(base, n);
    if |base| + |Suffix(n)| > MAX_LENGTH {
      var cut := base[..MAX_LENGTH - |Suffix(n)|];
      assert cut[0] == base[0] != '-';
      assert t == TrimRight(cut, '-');
      TrimRightMeaning(cut, '-');
    }
    assert x[0] == base[0];
    forall i | 0 <= i < |x| ensures IsLabelChar(x[i]) {
      if i < |t| { assert x[i] == base[i]; }
    }
  }

  /** What a candidate is: what is kept of the base, a dash and the number. */
  lemma {:induction false} SuffixedMeaning(base: string, n: nat)
    requires |Suffix(n)| <= MAX_LENGTH
    ensures var id := Suffixed(base, n);
      && |Suffix(n)| <= |id| <= MAX_LENGTH
      && id[..|id| - |Suffix(n)|] == Trimmed(base, n)
      && id == Trimmed(base, n) + "-" + Itoa(n)
  {
    TrimmedIsKept(base, n);
    var t, x := Trimmed(base, n), Suffix(n);
    assert (t + x)[..|t|] == t;
    assert t + ("-" + Itoa(n)) == t + "-" + Itoa(n);
  }

  /** The candidate is what is kept of the base, a dash and the number; of a label it makes a
      label. */
  method SuffixUserID(base: string, n: nat) returns (id: string)
    requires |Suffix(n)| <= MAX_LENGTH
    ensures |Suffix(n)| <= |id| <= MAX_LENGTH
    ensures var kept := id[..|id| - |Suffix(n)|];
      KeptOf(base, MAX_LENGTH - |Suffix(n)|, kept) && id == kept + "-" + Itoa(n)
    ensures IsLabel(base) && Fits(n) ==> IsLabel(id)
    ensures id == Suffixed(base, n)
  {
    var suffix := "-" + Itoa(n);
    var trimmed := base;
    if |trimmed| + |suffix| > MAX_LENGTH {
      trimmed := trimmed[..MAX_LENGTH - |suffix|];
      trimmed := TrimRight(trimmed, '-');
    }
    id := trimmed + suffix;
    assert trimmed == Trimmed(base, n);
    TrimmedIsKept(base, n);
    SuffixedMeaning(base, n);
    if IsLabel(base) && Fits(n) { SuffixedIsLabel(base, n); }
  }

  predicate HasDash(s: string) { '-' in s }

  lemma {:induction false} ReservedHasNoDash()
    ensures forall r :: r in RESERVED ==> !HasDash(r)
  {
  }

  /** A suffixed candidate is rejected only when what is left of the base starts with `xn--`. */
  lemma {:induction false} SuffixedIsValidUnlessPunycode(base: string, n: nat)
    requires IsLabel(base) && Fits(n)
    ensures |Suffix(n)| <= MAX_LENGTH
    ensures IsValid(Suffixed(base, n)) <==> !HasPrefix(Trimmed(base, n), "xn--")
  {
    SuffixedIsLabel(base, n);
    var t, x := Trimmed(base, n), Suffixed(base, n);
    assert x[|t|] == '-';
    ReservedHasNoDash();
    assert x !in RESERVED;
    assert x[0] != '_';
    if |t| >= 4 {
      assert x[..4] == t[..4];
    } else {
      assert |t| == 2 || |t| == 1 ==> x[|t| + 1] == Itoa(n)[0];
      NotPunycode(x, |t|);
    }
  }

  /** A dash that follows another character, and is followed by a digit, within the first four
      characters, rules out the prefix. */
  lemma {:induction false} NotPunycode(x: string, k: nat)
    requires 1 <= k <= 3 && k < |x| && x[k] == '-' && x[k - 1] != '-'
    requires k < 3 ==> k + 1 < |x| && IsDigit(x[k + 1])
    ensures !HasPrefix(x, "xn--")
  {
  }

  /** Suffixed candidates are pairwise distinct despite the truncation: the number can be read
      back from the last dash on. */
  lemma {:induction false} SuffixedDistinct(base: string, m: nat, n: nat)
    requires IsLabel(base) && Fits(m) && Fits(n) && m != n
    ensures |Suffix(m)| <= MAX_LENGTH && |Suffix(n)| <= MAX_LENGTH
    ensures Suffixed(base, m) != Suffixed(base, n)
  {
    SuffixedIsLabel(base, m);
    SuffixedIsLabel(base, n);
    var x, y := Suffixed(base, m), Suffixed(base, n);
    if x == y {
      AfterDashOf(Trimmed(base, m), Itoa(m));
      AfterDashOf(Trimmed(base, n), Itoa(n));
      ItoaInjective(m, n);
    }
  }

  /** What follows the last dash. */
  function AfterDash(x: string): string {
    if x == "" || x[|x| - 1] == '-' then "" else AfterDash(x[..|x| - 1]) + [x[|x| - 1]]
  }

  lemma {:induction false} AfterDashOf(a: string, s: string)
    requires '-' !in s
    ensures AfterDash(a + ("-" + s)) == s
  {
    var x := a + ("-" + s);
    if s != "" {
      assert x[..|x| - 1] == a + ("-" + s[..|s| - 1]);
      AfterDashOf(a, s[..|s| - 1]);
    }
  }

  // ---- The search ----

  /** The candidate tried at step n: the base itself first, then the suffixes from 2. */
  function Candidate(base: string, n: nat): string
    requires n >= 2 ==> |Suffix(n)| <= MAX_LENGTH
  {
    if n <= 1 then base else Suffixed(base, n)
  }

  predicate Acceptable(base: string, claimed: set<string>, n: nat) {
    && (n >= 2 ==> |Suffix(n)| <= MAX_LENGTH)
    && IsValid(Candidate(base, n)) && Candidate(base, n) !in claimed
  }

  lemma {:induction false} SmallNumbersFit(n: nat, limit: nat)
    requires n <= limit && Fits(limit)
    ensures Fits(n) && |Suffix(n)| <= MAX_LENGTH
  {
    SuffixFits(n);
  }

  ghost predicate NoneAcceptable(base: string, claimed: set<string>, limit: nat) {
    forall n: nat :: 1 <= n <= limit ==> !Acceptable(base, claimed, n)
  }

  /** The answer of the search within `limit` candidates: the first acceptable one. */
  ghost predicate IsFirst(base: string, claimed: set<string>, limit: nat, id: Option<string>, n: nat) {
    match id
    case None => NoneAcceptable(base, claimed, limit)
    case Some(s) =>
      1 <= n <= limit && Acceptable(base, claimed, n) && s == Candidate(base, n)
      && NoneAcceptable(base, claimed, n - 1)
  }

  /** The candidates: the base itself, then what is kept of it, a dash and the number, from 2 on. */
  ghost predicate IsCandidate(base: string, n: nat, c: string) {
    (n == 1 && c == base) || (n >= 2 && exists kept :: SuffixOf(base, n, kept, c))
  }

  ghost predicate SuffixOf(base: string, n: nat, kept: string, c: string) {
    |Itoa(n)| <= 62 && KeptOf(base, 62 - |Itoa(n)|, kept) && c == kept + "-" + Itoa(n)
  }

  lemma {:induction false} CandidateMeaning(base: string, n: nat, c: string)
    requires 1 <= n
    ensures IsCandidate(base, n, c) <==> (n >= 2 ==> |Suffix(n)| <= MAX_LENGTH) && c == Candidate(base, n)
  {
    if n >= 2 && |Suffix(n)| <= MAX_LENGTH {
      SuffixedMeaning(base, n);
      TrimmedIsKept(base, n);
      assert SuffixOf(base, n, Trimmed(base, n), Candidate(base, n));
      forall kept | SuffixOf(base, n, kept, c) ensures c == Candidate(base, n) {
        OnlyKept(base, 62 - |Itoa(n)|, kept, Trimmed(base, n));
      }
    }
  }

  /** A search that finds nothing has tried all the candidates up to its limit. */
  lemma {:induction false} NoneMeaning(base: string, claimed: set<string>, limit: nat)
    requires NoneAcceptable(base, claimed, limit)
    ensures forall m: nat, c :: m <= limit && IsCandidate(base, m, c) ==> !IsValid(c) || c in claimed
  {
    forall m: nat, c | m <= limit && IsCandidate(base, m, c) ensures !IsValid(c) || c in claimed {
      CandidateMeaning(base, m, c);
      assert !Acceptable(base, claimed, m);
    }
  }

  /** What the search returns is a candidate that is a free valid ID, and no earlier one was. */
  lemma {:induction false} FoundMeaning(base: string, claimed: set<string>, limit: nat, id: string, n: nat)
    requires IsFirst(base, claimed, limit, Some(id), n)
    ensures IsCandidate(base, n, id) && IsValid(id) && id !in claimed
    ensures forall m: nat, c :: m < n && IsCandidate(base, m, c) ==> !IsValid(c) || c in claimed
  {
    CandidateMeaning(base, n, id);
    NoneMeaning(base, claimed, n - 1);
  }

  lemma {:induction false} NoLonger(base: string, room: nat, a: string, b: string)
    requires KeptOf(base, room, a) && KeptOf(base, room, b)
    ensures |b| <= |a|
  {
    if |base| > room && b != "" {
      assert b[|b| - 1] == base[|b| - 1] != '-';
    }
  }

  lemma {:induction false} OnlyKept(base: string, room: nat, a: string, b: string)
    requires KeptOf(base, room, a) && KeptOf(base, room, b)
    ensures a == b
  {
    NoLonger(base, room, a, b);
    NoLonger(base, room, b, a);
    assert a == base[..|a|] && b == base[..|b|];
  }

  /** `c` is the candidate to try at step n. */
  predicate Tries(base: string, n: nat, c: string) {
    (n >= 2 ==> |Suffix(n)| <= MAX_LENGTH) && c == Candidate(base, n)
  }

  lemma {:induction false} AcceptableIsFirst(base: string, claimed: set<string>, limit: nat, n: nat, c: string)
    requires 1 <= n <= limit && NoneAcceptable(base, claimed, n - 1) && Tries(base, n, c)
    requires IsValid(c) && c !in claimed
    ensures IsFirst(base, claimed, limit, Some(c), n)
  {
  }

  lemma {:induction false} NextNotAcceptable(base: string, claimed: set<string>, n: nat, c: string)
    requires NoneAcceptable(base, claimed, n) && (!IsValid(c) || c in claimed)
    requires Tries(base, n + 1, c)
    ensures NoneAcceptable(base, claimed, n + 1)
  {
  }

  /** The first candidate: the sanitized local part, or `user`. */
  method DeriveBase(email: string) returns (base: string)
    ensures base == BaseOf(email)
  {
    base := SanitizeUserID(Split(email, '@')[0]);
    if base == "" {
      base := "user";
    }
  }

  method NextCandidate(base: string, n: nat, limit: nat) returns (candidate: string)
    requires 2 <= n <= limit && Fits(limit)
    ensures Tries(base, n, candidate)
  {
    SmallNumbersFit(n, limit);
    candidate := SuffixUserID(base, n);
  }

  /** DeriveUserID, stopped after candidate number `limit`; the original loop has no limit. */
  method DeriveUserID(claimed: set<string>, email: string, limit: nat) returns (id: Option<string>, found: nat)
    requires 1 <= limit && Fits(limit)
    ensures IsFirst(BaseOf(email), claimed, limit, id, found)
  {
    var base := DeriveBase(email);
    var candidate := base;
    var n := 2;
    while n <= limit + 1
      invariant 2 <= n <= limit + 2
      invariant n <= limit + 1 ==> Tries(base, n - 1, candidate)
      invariant NoneAcceptable(base, claimed, n - 2)
    {
      if IsValid(candidate) && candidate !in claimed {
        AcceptableIsFirst(base, claimed, limit, n - 1, candidate);
        return Some(candidate), n - 1;
      }
      NextNotAcceptable(base, claimed, n - 2, candidate);
      if n <= limit {
        candidate := NextCandidate(base, n, limit);
      }
      n := n + 1;
    }
    return None, 0;
  }
}
