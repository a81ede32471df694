/** Canonical packing, and its round trip through Unpack. */
module BundlePack {
  import opened Common
  import opened Bundle
  import opened BundlePath
  import opened Sizes
  import opened Text

  /** sort.Strings on distinct names, by insertion. */
  method Insert(names: seq<string>, name: string) returns (r: seq<string>)
    requires Ascending(names) && name !in names
    ensures Ascending(r) && |r| == |names| + 1
    ensures forall x :: x in r <==> x in names || x == name
  {
    var k := 0;
    while k < |names| && Less(names[k], name)
      invariant 0 <= k <= |names|
      invariant forall i :: 0 <= i < k ==> Less(names[i], name)
    {
      k := k + 1;
    }
    forall i | k <= i < |names| ensures Less(name, names[i]) {
      LessTotal(names[k], name);
      if i > k {
        LessTransitive(name, names[k], names[i]);
      }
    }
    r := names[..k] + [name] + names[k..];
  }

  /** The archive Pack writes: one regular entry per file, in strictly ascending path order. */
  ghost predicate Canonical(m: map<string, Bytes>, entries: seq<Entry>) {
    && (forall i :: 0 <= i < |entries| ==> (
          entries[i].kind.Regular? && entries[i].name in m && entries[i].data == m[entries[i].name]))
    && (forall i, j :: 0 <= i < j < |entries| ==> Less(entries[i].name, entries[j].name))
    && (forall k :: k in m ==> exists i :: 0 <= i < |entries| && entries[i].name == k)
  }

  method Pack(files: map<string, Bytes>) returns (entries: seq<Entry>)
    ensures Canonical(files, entries)
  {
    var names: seq<string> := [];
    var rest := files.Keys;
    while rest != {}
      invariant rest <= files.Keys && Ascending(names)
      invariant forall x :: x in names <==> x in files.Keys && x !in rest
      decreases |rest|
    {
      var name :| name in rest;
      rest := rest - {name};
      names := Insert(names, name);
    }
    entries := [];
    for i := 0 to |names|
      invariant |entries| == i
      invariant forall j :: 0 <= j < i ==> entries[j] == Entry(names[j], Regular, files[names[j]])
    {
      assert names[i] in names;
      entries := entries + [Entry(names[i], Regular, files[names[i]])];
    }
    forall k | k in files ensures exists i :: 0 <= i < |entries| && entries[i].name == k {
      assert k in names;
      var i :| 0 <= i < |names| && names[i] == k;
      assert entries[i].name == k;
    }
  }

  // ---- Only one canonical archive ----

  lemma {:induction false} SameAscending(a: seq<string>, b: seq<string>)
    requires Ascending(a) && Ascending(b) && (forall x :: x in a <==> x in b)
    ensures a == b
  {
    assert |b| > 0 ==> b[0] in b;
    if a != [] {
      assert a[0] in b && b != [] && b[0] in a;
      SameFirst(a, b);
      forall x ensures x in a[1..] <==> x in b[1..] {
        InTailIff(a, x);
        InTailIff(b, x);
      }
      SameAscending(a[1..], b[1..]);
      assert a == [a[0]] + a[1..] && b == [b[0]] + b[1..];
    }
  }

  lemma {:induction false} InTailIff(a: seq<string>, x: string)
    requires a != [] && Ascending(a)
    ensures x in a[1..] <==> x in a && x != a[0]
  {
    LessIrreflexive(a[0]);
    if x in a[1..] {
      var i :| 0 <= i < |a| - 1 && a[1..][i] == x;
      assert Less(a[0], a[i + 1]);
    }
    if x in a && x != a[0] {
      var i :| 0 <= i < |a| && a[i] == x;
      assert a[1..][i - 1] == x;
    }
  }

  lemma {:induction false} SameFirst(a: seq<string>, b: seq<string>)
    requires a != [] && b != [] && Ascending(a) && Ascending(b) && a[0] in b && b[0] in a
    ensures a[0] == b[0]
  {
    var i :| 0 <= i < |b| && b[i] == a[0];
    var j :| 0 <= j < |a| && a[j] == b[0];
    if i > 0 && j > 0 {
      LessAsymmetric(a[0], a[j]);
    }
  }

  function Names(entries: seq<Entry>): seq<string> { seq(|entries|, i requires 0 <= i < |entries| => entries[i].name) }

  lemma {:induction false} NamesOfCanonical(m: map<string, Bytes>, entries: seq<Entry>)
    requires Canonical(m, entries)
    ensures Ascending(Names(entries))
    ensures forall k :: k in Names(entries) <==> k in m
  {
    var names := Names(entries);
    forall k | k in m ensures k in names {
      var i :| 0 <= i < |entries| && entries[i].name == k;
      assert names[i] == k;
    }
    forall k | k in names ensures k in m {
      var i :| 0 <= i < |names| && names[i] == k;
      assert entries[i].name in m;
    }
  }

  /** A file tree has one canonical archive, whatever order its map is walked in. */
  lemma {:induction false} CanonicalIsUnique(m: map<string, Bytes>, a: seq<Entry>, b: seq<Entry>)
    requires Canonical(m, a) && Canonical(m, b)
    ensures a == b
  {
    NamesOfCanonical(m, a);
    NamesOfCanonical(m, b);
    SameAscending(Names(a), Names(b));
    assert |a| == |Names(a)| == |Names(b)| == |b|;
    forall i | 0 <= i < |a| ensures a[i] == b[i] {
      assert Names(a)[i] == a[i].name && Names(b)[i] == b[i].name;
    }
  }

  // ---- Round trips ----

  /** A tree Unpack can give back: safe paths within the limits. */
  ghost predicate Packable(m: map<string, Bytes>) {
    && (forall k :: k in m ==> SafePath(k))
    && |m| <= MAX_FILES && MapSize(m) <= MAX_BYTES
  }

  lemma {:induction false} FilesOfRegular(entries: seq<Entry>)
    requires forall i :: 0 <= i < |entries| ==> entries[i].kind.Regular?
    ensures |FilesOf(entries)| == |entries|
    ensures forall i :: 0 <= i < |entries| ==> FilesOf(entries)[i] == File(PathOf(entries[i]), entries[i].data)
    decreases |entries|
  {
    if entries != [] {
      var n := |entries| - 1;
      FilesOfRegular(entries[..n]);
      assert FilesOf(entries) == FilesOf(entries[..n]) + [File(PathOf(entries[n]), entries[n].data)];
      forall i | 0 <= i < n ensures FilesOf(entries)[i] == File(PathOf(entries[i]), entries[i].data) {
        assert FilesOf(entries)[i] == FilesOf(entries[..n])[i] && entries[..n][i] == entries[i];
      }
    }
  }

  lemma {:induction false} CanonicalPaths(m: map<string, Bytes>, entries: seq<Entry>)
    requires Canonical(m, entries) && forall k :: k in m ==> SafePath(k)
    ensures |FilesOf(entries)| == |entries|
    ensures forall i :: 0 <= i < |entries| ==> FilesOf(entries)[i] == File(entries[i].name, entries[i].data)
    ensures forall i :: 0 <= i < |entries| ==> GoodEntry(entries[i])
  {
    FilesOfRegular(entries);
    forall i | 0 <= i < |entries| ensures PathOf(entries[i]) == entries[i].name && GoodEntry(entries[i]) {
      SafeIsNormalized(entries[i].name);
    }
  }

  lemma {:induction false} AscendingDistinct(entries: seq<Entry>, files: seq<File<string>>)
    requires forall i, j :: 0 <= i < j < |entries| ==> Less(entries[i].name, entries[j].name)
    requires |files| == |entries| && forall i :: 0 <= i < |files| ==> files[i].path == entries[i].name
    ensures DistinctPaths(files)
  {
    forall i, j | 0 <= i < j < |files| ensures files[i].path != files[j].path {
      assert Less(entries[i].name, entries[j].name);
      LessIrreflexive(entries[i].name);
    }
  }

  lemma {:induction false} HoldsByName(m: map<string, Bytes>, entries: seq<Entry>, files: seq<File<string>>)
    requires Canonical(m, entries) && |files| == |entries|
    requires forall i :: 0 <= i < |entries| ==> files[i] == File(entries[i].name, entries[i].data)
    ensures Holds(m, files)
  {
    forall k | k in m ensures exists i :: 0 <= i < |files| && files[i].path == k {
      var i :| 0 <= i < |entries| && entries[i].name == k;
      assert files[i].path == k;
    }
  }

  /** The canonical archive of a tree of safe paths holds exactly that tree. */
  lemma {:induction false} CanonicalHolds(m: map<string, Bytes>, entries: seq<Entry>)
    requires Canonical(m, entries) && forall k :: k in m ==> SafePath(k)
    ensures DistinctPaths(FilesOf(entries)) && Holds(m, FilesOf(entries))
    ensures forall i :: 0 <= i < |entries| ==> GoodEntry(entries[i])
  {
    CanonicalPaths(m, entries);
    AscendingDistinct(entries, FilesOf(entries));
    HoldsByName(m, entries, FilesOf(entries));
  }

  lemma {:induction false} OneTree(a: map<string, Bytes>, b: map<string, Bytes>, files: seq<File<string>>)
    requires Holds(a, files) && Holds(b, files)
    ensures a == b
  {
    forall k | k in a ensures k in b && b[k] == a[k] {
      var i :| 0 <= i < |files| && files[i].path == k;
    }
    forall k | k in b ensures k in a {
      var i :| 0 <= i < |files| && files[i].path == k;
    }
  }

  /** Unpacking what Pack wrote gives the tree back exactly when the tree is packable. */
  lemma {:induction false} UnpackOfPack(m: map<string, Bytes>, entries: seq<Entry>)
    requires Canonical(m, entries)
    ensures Acceptable(entries) && HoldsExactly(m, entries) <==> Packable(m)
  {
    var files := FilesOf(entries);
    if Packable(m) {
      CanonicalHolds(m, entries);
      HeldSize(m, files);
    }
    if Acceptable(entries) && Holds(m, files) {
      UnpackedIsPackable(entries, m);
    }
  }

  lemma {:induction false} FilesAreSafe(entries: seq<Entry>)
    requires forall i :: 0 <= i < |entries| ==> GoodEntry(entries[i])
    ensures forall f :: f in FilesOf(entries) ==> SafePath(f.path)
    decreases |entries|
  {
    if entries != [] {
      var front, last := entries[..|entries| - 1], entries[|entries| - 1];
      FilesAreSafe(front);
      assert GoodEntry(last);
      if last.kind.Regular? {
        NormalizedIsSafe(last.name);
      }
    }
  }

  /** Whatever Unpack accepts, packing the result and unpacking again gives the same tree. */
  lemma {:induction false} UnpackedIsPackable(entries: seq<Entry>, m: map<string, Bytes>)
    requires Acceptable(entries) && HoldsExactly(m, entries)
    ensures Packable(m)
  {
    var files := FilesOf(entries);
    FilesAreSafe(entries);
    HeldSize(m, files);
    forall k | k in m ensures SafePath(k) {
      var i :| 0 <= i < |files| && files[i].path == k;
      assert files[i] in files;
    }
  }

  /** Pack, unpack, pack again: the tree comes back and the second archive is the first. */
  method RoundTrip(m: map<string, Bytes>) returns (first: seq<Entry>, back: Unpacked, second: seq<Entry>)
    requires Packable(m)
    ensures Canonical(m, first) && back == Unpacked.Files(m) && second == first
  {
    first := Pack(m);
    UnpackOfPack(m, first);
    back := Unpack(first);
    OneTree(m, back.files, FilesOf(first));
    second := Pack(back.files);
    CanonicalIsUnique(m, first, second);
  }
}
