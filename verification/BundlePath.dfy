/** Archive entry names: bundle/unpack.go's normalizePath, with path.Clean on segments. Characters
    stand for bytes. */
module BundlePath {
  import opened Common
  import opened Text

  const MAX_PATH_LENGTH := 256

  function ForwardSlashes(s: string): (t: string)
    ensures |t| == |s| && '\\' !in t
    ensures '\\' !in s ==> t == s
  {
    seq(|s|, i requires 0 <= i < |s| => if s[i] == '\\' then '/' else s[i])
  }

  /** One segment of path.Clean on a relative path: `out` is what is kept so far. */
  function CleanStep(out: seq<string>, seg: string): seq<string> {
    if seg == "" || seg == "." then out
    else if seg != ".." then out + [seg]
    else if out != [] && out[|out| - 1] != ".." then out[..|out| - 1]
    else out + [".."]
  }

  function CleanOnto(out: seq<string>, segs: seq<string>): seq<string>
    decreases |segs|
  {
    if segs == [] then out else CleanOnto(CleanStep(out, segs[0]), segs[1..])
  }

  function Clean(name: string): string {
    var kept := CleanOnto([], Split(name, '/'));
    if kept == [] then "." else Join(kept, '/')
  }

  function NormalizePath(name: string): Option<string> {
    if name == "" then None
    else
      var norm := ForwardSlashes(name);
      if HasPrefix(norm, "/") then None
      else
        var cleaned := Clean(norm);
        if cleaned == "." || cleaned == ".." || HasPrefix(cleaned, "../") then None
        else if HasPrefix(cleaned, "/") then None
        else if |cleaned| > MAX_PATH_LENGTH then None
        else Some(cleaned)
  }

  // ---- Safe paths ----

  predicate PlainName(seg: string) {
    seg != "" && seg != "." && seg != ".." && '/' !in seg && '\\' !in seg
  }

  ghost predicate PlainNames(segs: seq<string>) {
    forall i :: 0 <= i < |segs| ==> PlainName(segs[i])
  }

  /** A relative path that stays under its root: plain names joined by slashes. */
  ghost predicate SafePath(p: string) {
    p != "" && PlainNames(Split(p, '/')) && |p| <= MAX_PATH_LENGTH
  }

  /** What Clean keeps: leading `..` segments, then plain names. */
  ghost predicate KeptShape(out: seq<string>) {
    && (forall i :: 0 <= i < |out| ==> out[i] == ".." || PlainName(out[i]))
    && (forall i, j :: 0 <= i < j < |out| && out[j] == ".." ==> out[i] == "..")
  }

  lemma {:induction false} CleanKeepsShape(out: seq<string>, segs: seq<string>)
    requires KeptShape(out)
    requires forall i :: 0 <= i < |segs| ==> '/' !in segs[i] && '\\' !in segs[i]
    ensures KeptShape(CleanOnto(out, segs))
    decreases |segs|
  {
    if segs != [] {
      CleanKeepsShape(CleanStep(out, segs[0]), segs[1..]);
    }
  }

  lemma {:induction false} CleanOfPlain(out: seq<string>, segs: seq<string>)
    requires PlainNames(segs)
    ensures CleanOnto(out, segs) == out + segs
    decreases |segs|
  {
    if segs == [] {
      assert out + segs == out;
    } else {
      assert PlainName(segs[0]);
      CleanOfPlain(out + [segs[0]], segs[1..]);
      assert out + [segs[0]] + segs[1..] == out + segs;
    }
  }

  lemma {:induction false} SplitHasNo(s: string, c: char, sep: char)
    requires c !in s
    ensures forall i :: 0 <= i < |Split(s, sep)| ==> c !in Split(s, sep)[i]
  {
    if s != "" {
      SplitHasNo(s[1..], c, sep);
      assert s[0] in s;
      assert forall d :: d in s[1..] ==> d in s;
    }
  }

  lemma {:induction false} JoinHead(segs: seq<string>)
    requires |segs| >= 1
    ensures segs[0] <= Join(segs, '/')
    ensures |segs| >= 2 ==> segs[0] + "/" <= Join(segs, '/')
    ensures segs[0] != "" ==> Join(segs, '/') != ""
  {}

  lemma {:induction false} FirstSegment(text: string, head: string)
    requires '/' !in head && (text == head || HasPrefix(text, head + "/"))
    ensures Split(text, '/')[0] == head
  {
    if text == head {
      SplitHead(head, "", '/');
    } else {
      var tail := text[|head| + 1..];
      SplitHead(head, tail, '/');
      assert text == head + ['/'] + tail;
    }
  }

  /** Clean's answer as text is recognised as escaping exactly when its first segment is `..`. */
  lemma {:induction false} EscapeText(kept: seq<string>)
    requires KeptShape(kept) && kept != []
    ensures var text := Join(kept, '/');
      && (text == ".." || HasPrefix(text, "../") <==> kept[0] == "..")
      && text != "." && text != "" && !HasPrefix(text, "/")
      && Split(text, '/') == kept
  {
    var text := Join(kept, '/');
    assert SepFree(kept, '/');
    SplitOfJoin(kept, '/');
    assert kept[0] == ".." || PlainName(kept[0]);
    JoinHead(kept);
    if text == ".." || HasPrefix(text, "../") {
      FirstSegment(text, "..");
    }
    if text == "." {
      FirstSegment(text, ".");
    }
    if HasPrefix(text, "/") {
      FirstSegment(text, "");
    }
    if kept[0] == ".." && |kept| == 1 {
      assert text == "..";
    }
  }

  /** An accepted name is always a safe path. */
  lemma {:induction false} NormalizedIsSafe(name: string)
    requires NormalizePath(name).Some?
    ensures SafePath(NormalizePath(name).value)
  {
    var norm := ForwardSlashes(name);
    var kept := CleanOnto([], Split(norm, '/'));
    SplitHasNo(norm, '\\', '/');
    CleanKeepsShape([], Split(norm, '/'));
    EscapeText(kept);
    assert forall i :: 0 < i < |kept| && kept[i] == ".." ==> kept[0] == "..";
  }

  /** A safe path is accepted as it is. */
  lemma {:induction false} SafeIsNormalized(p: string)
    requires SafePath(p)
    ensures NormalizePath(p) == Some(p)
  {
    var segs := Split(p, '/');
    JoinOfSplit(p, '/');
    JoinHasNoBackslash(segs);
    CleanOfPlain([], segs);
    assert [] + segs == segs;
    assert PlainName(segs[0]);
    EscapeText(segs);
  }

  lemma {:induction false} JoinHasNoBackslash(segs: seq<string>)
    requires PlainNames(segs)
    ensures '\\' !in Join(segs, '/')
  {
    if |segs| > 1 {
      JoinHasNoBackslash(segs[1..]);
    }
    if |segs| > 0 {
      assert PlainName(segs[0]);
    }
  }

  /** Normalizing is idempotent, and its fixed points are exactly the safe paths. */
  lemma {:induction false} NormalizeIsIdempotent(name: string)
    ensures NormalizePath(name).Some? ==> NormalizePath(NormalizePath(name).value) == NormalizePath(name)
    ensures NormalizePath(name) == Some(name) <==> SafePath(name)
  {
    if NormalizePath(name).Some? {
      NormalizedIsSafe(name);
      SafeIsNormalized(NormalizePath(name).value);
    }
    if SafePath(name) {
      SafeIsNormalized(name);
    }
  }

  // ---- What the dots stand for ----

  lemma {:induction false} CleanAppend(out: seq<string>, a: seq<string>, b: seq<string>)
    ensures CleanOnto(out, a + b) == CleanOnto(CleanOnto(out, a), b)
    decreases |a|
  {
    if a == [] {
      assert a + b == b;
    } else {
      assert (a + b)[0] == a[0] && (a + b)[1..] == a[1..] + b;
      CleanAppend(CleanStep(out, a[0]), a[1..], b);
    }
  }

  lemma {:induction false} ForwardAppend(a: string, b: string)
    ensures ForwardSlashes(a + b) == ForwardSlashes(a) + ForwardSlashes(b)
  {
  }

  /** Segments that cancel out: wherever they stand, cleaning forgets them. */
  ghost predicate Cancels(mid: seq<string>) {
    forall out :: CleanOnto(out, mid) == out
  }

  lemma {:induction false} CancelledSegments(a: seq<string>, mid: seq<string>, b: seq<string>)
    requires Cancels(mid)
    ensures CleanOnto([], a + mid + b) == CleanOnto([], a + b)
  {
    CleanAppend([], a + mid, b);
    CleanAppend([], a, mid);
    CleanAppend([], a, b);
  }

  lemma {:induction false} CancelledClean(a: string, mid: string, b: string)
    requires Cancels(Split(mid, '/'))
    ensures Clean(a + "/" + mid + "/" + b) == Clean(a + "/" + b)
  {
    SplitConcat(a, b, '/');
    SplitConcat(a + "/" + mid, b, '/');
    SplitConcat(a, mid, '/');
    CancelledSegments(Split(a, '/'), Split(mid, '/'), Split(b, '/'));
  }

  lemma {:induction false} CancelledNormalize(a: string, mid: string, b: string)
    requires '\\' !in mid && Cancels(Split(mid, '/'))
    ensures NormalizePath(a + "/" + mid + "/" + b) == NormalizePath(a + "/" + b)
  {
    var long, short := a + "/" + mid + "/" + b, a + "/" + b;
    ForwardAppend(a + "/" + mid + "/", b);
    ForwardAppend(a + "/" + mid, "/");
    ForwardAppend(a + "/", mid);
    ForwardAppend(a, "/");
    ForwardAppend(a + "/", b);
    var fa, fb := ForwardSlashes(a), ForwardSlashes(b);
    assert ForwardSlashes(long) == fa + "/" + mid + "/" + fb && ForwardSlashes(short) == fa + "/" + fb;
    CancelledClean(fa, mid, fb);
  }

  lemma {:induction false} NameAndDotsCancel(x: string)
    requires PlainName(x)
    ensures Cancels(Split(x + "/" + "..", '/'))
  {
    SplitConcat(x, "..", '/');
    SplitHead(x, "", '/');
    SplitHead("..", "", '/');
    assert [x] + [".."] == [x, ".."] && [x, ".."][1..] == [".."] && [".."][1..] == [];
    forall out ensures CleanOnto(out, [x, ".."]) == out {
      assert (out + [x])[..|out|] == out;
    }
  }

  lemma {:induction false} DotCancels(seg: string)
    requires seg == "." || seg == ""
    ensures Cancels(Split(seg, '/'))
  {
    SplitHead(seg, "", '/');
    assert [seg][1..] == [];
  }

  lemma {:induction false} CancelledAtEnd(a: string, mid: string)
    requires a != "" && '\\' !in mid && Cancels(Split(mid, '/'))
    ensures NormalizePath(a + "/" + mid) == NormalizePath(a)
  {
    ForwardAppend(a + "/", mid);
    ForwardAppend(a, "/");
    var fa := ForwardSlashes(a);
    SplitConcat(fa, mid, '/');
    CleanAppend([], Split(fa, '/'), Split(mid, '/'));
    assert ForwardSlashes(a + "/" + mid) == fa + "/" + mid;
  }

  lemma {:induction false} CancelledAtStart(mid: string, b: string)
    requires mid != "" && mid[0] != '/' && '\\' !in mid && Cancels(Split(mid, '/'))
    requires b != "" && b[0] != '/' && b[0] != '\\'
    ensures NormalizePath(mid + "/" + b) == NormalizePath(b)
  {
    ForwardAppend(mid + "/", b);
    ForwardAppend(mid, "/");
    var fb := ForwardSlashes(b);
    SplitConcat(mid, fb, '/');
    CleanAppend([], Split(mid, '/'), Split(fb, '/'));
    assert ForwardSlashes(mid + "/" + b) == mid + "/" + fb;
  }

  /** A name followed by `..`, a single dot, and an empty segment make no difference anywhere. */
  lemma {:induction false} DotsCancel(a: string, x: string, b: string)
    requires PlainName(x)
    ensures NormalizePath(a + "/" + (x + "/" + "..") + "/" + b) == NormalizePath(a + "/" + b)
    ensures NormalizePath(a + "/" + "." + "/" + b) == NormalizePath(a + "/" + b)
    ensures NormalizePath(a + "/" + "" + "/" + b) == NormalizePath(a + "/" + b)
  {
    NameAndDotsCancel(x);
    DotCancels(".");
    DotCancels("");
    CancelledNormalize(a, x + "/" + "..", b);
    CancelledNormalize(a, ".", b);
    CancelledNormalize(a, "", b);
  }

  /** Nor do they at the end or at the beginning of a relative path. */
  lemma {:induction false} DotsCancelAtEnds(a: string, x: string, b: string)
    requires PlainName(x) && a != "" && b != "" && b[0] != '/' && b[0] != '\\'
    ensures NormalizePath(a + "/" + (x + "/" + "..")) == NormalizePath(a)
    ensures NormalizePath(a + "/" + ".") == NormalizePath(a) && NormalizePath(a + "/" + "") == NormalizePath(a)
    ensures NormalizePath((x + "/" + "..") + "/" + b) == NormalizePath(b)
    ensures NormalizePath("." + "/" + b) == NormalizePath(b)
  {
    NameAndDotsCancel(x);
    DotCancels(".");
    DotCancels("");
    CancelledAtEnd(a, x + "/" + "..");
    CancelledAtEnd(a, ".");
    CancelledAtEnd(a, "");
    CancelledAtStart(x + "/" + "..", b);
    CancelledAtStart(".", b);
  }

  /** A backslash is a slash. */
  lemma {:induction false} BackslashIsSlash(a: string, b: string)
    ensures NormalizePath(a + "\\" + b) == NormalizePath(a + "/" + b)
  {
    assert ForwardSlashes(a + "\\" + b) == ForwardSlashes(a + "/" + b);
  }

  // ---- When a name escapes ----

  /** How deep below the root the segments lead, `..` counting -1. */
  function Depth(segs: seq<string>): int {
    if segs == [] then 0
    else
      var last := segs[|segs| - 1];
      Depth(segs[..|segs| - 1]) + if last == "" || last == "." then 0 else if last == ".." then -1 else 1
  }

  ghost predicate LeavesRoot(segs: seq<string>) {
    exists n :: 0 <= n <= |segs| && Depth(segs[..n]) < 0
  }

  /** CleanOnto one segment at a time from the right. */
  lemma {:induction false} CleanLast(out: seq<string>, segs: seq<string>)
    requires segs != []
    ensures CleanOnto(out, segs) == CleanOnto(CleanOnto(out, segs[..|segs| - 1]), segs[|segs| - 1..])
    decreases |segs|
  {
    if |segs| > 1 {
      CleanLast(CleanStep(out, segs[0]), segs[1..]);
      assert segs[1..][..|segs| - 2] == segs[..|segs| - 1][1..];
      assert segs[1..][|segs| - 2..] == segs[|segs| - 1..];
    } else {
      assert segs[..0] == [] && segs[0..] == segs;
    }
  }

  lemma {:induction false} KeptStartsWithDotsIff(segs: seq<string>)
    requires forall i :: 0 <= i < |segs| ==> '/' !in segs[i] && '\\' !in segs[i]
    ensures var kept := CleanOnto([], segs);
      && KeptShape(kept)
      && (kept != [] && kept[0] == ".." <==> LeavesRoot(segs))
      && (!LeavesRoot(segs) ==> |kept| == Depth(segs))
  {
    CleanKeepsShape([], segs);
    if segs == [] {
      assert segs[..0] == [];
    } else {
      var n := |segs| - 1;
      var front, last := segs[..n], segs[n..];
      KeptStartsWithDotsIff(front);
      CleanLast([], segs);
      var before, kept := CleanOnto([], front), CleanOnto([], segs);
      assert last[1..] == [];
      LeavesRootLast(segs);
    }
  }

  lemma {:induction false} LeavesRootLast(segs: seq<string>)
    requires segs != []
    ensures LeavesRoot(segs) <==> LeavesRoot(segs[..|segs| - 1]) || Depth(segs) < 0
  {
    var front := segs[..|segs| - 1];
    assert segs[..|segs|] == segs;
    forall n | 0 <= n <= |front| ensures front[..n] == segs[..n] {}
    if LeavesRoot(front) {
      var n :| 0 <= n <= |front| && Depth(front[..n]) < 0;
      assert Depth(segs[..n]) < 0;
    }
    if n :| 0 <= n <= |segs| && Depth(segs[..n]) < 0 {
      if n < |segs| {
        assert Depth(front[..n]) < 0;
      }
    }
  }

  /** A name is accepted exactly when it is nonempty and relative, at no point leads above its
      starting directory, ends below it, and is short enough once cleaned. */
  lemma {:induction false} AcceptedIff(name: string)
    ensures var norm := ForwardSlashes(name);
      NormalizePath(name).Some? <==>
        && name != "" && norm[0] != '/'
        && !LeavesRoot(Split(norm, '/')) && Depth(Split(norm, '/')) > 0
        && |Clean(norm)| <= MAX_PATH_LENGTH
  {
    var norm := ForwardSlashes(name);
    var segs := Split(norm, '/');
    SplitHasNo(norm, '\\', '/');
    KeptStartsWithDotsIff(segs);
    var kept := CleanOnto([], segs);
    if kept != [] {
      EscapeText(kept);
    }
  }
}
