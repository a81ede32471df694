/** Packing a file tree into a canonical archive and unpacking an archive under limits. An archive
    is its sequence of entries; the tar and gzip bytes are not modelled. */
module Bundle {
  import opened Common
  import opened BundlePath
  import opened Sizes
  import opened Text

  datatype Kind = Directory | Regular | OtherKind

  datatype Entry = Entry(name: string, kind: Kind, data: Bytes)

  datatype Fault = TooLarge | TooManyFiles | BadPath | BadEntryType

  datatype Unpacked = Files(files: map<string, Bytes>) | Failed(fault: Fault)

  // ---- The batch reading of an archive ----

  function PathOf(e: Entry): string {
    var p := NormalizePath(e.name);
    if p.Some? then p.value else ""
  }

  /** The regular files of an archive under their normalized paths. */
  function FilesOf(entries: seq<Entry>): seq<File<string>> {
    if entries == [] then []
    else
      var last := entries[|entries| - 1];
      FilesOf(entries[..|entries| - 1]) + if last.kind.Directory? then [] else [File(PathOf(last), last.data)]
  }

  ghost predicate GoodEntry(e: Entry) {
    e.kind.Directory? || (e.kind.Regular? && NormalizePath(e.name).Some?)
  }

  /** Directories and regular files only, names that normalize to distinct safe paths, at most
      1000 files and 5 MiB in all. */
  ghost predicate Acceptable(entries: seq<Entry>) {
    && (forall i :: 0 <= i < |entries| ==> GoodEntry(entries[i]))
    && DistinctPaths(FilesOf(entries))
    && |FilesOf(entries)| <= MAX_FILES
    && TotalSize(FilesOf(entries)) <= MAX_BYTES
  }

  ghost predicate Seen(files: seq<File<string>>, path: string) {
    exists f :: f in files && f.path == path
  }

  /** What is wrong with an entry that follows an acceptable archive; the checks are tried in this
      order. */
  ghost predicate Faulty(before: seq<File<string>>, e: Entry, fault: Fault) {
    if e.kind.Directory? then false
    else if e.kind.OtherKind? then fault.BadEntryType?
    else if NormalizePath(e.name).None? then fault.BadPath?
    else if Seen(before, PathOf(e)) then fault.BadPath?
    else if |before| == MAX_FILES then fault.TooManyFiles?
    else TotalSize(before) + |e.data| > MAX_BYTES && fault.TooLarge?
  }

  /** The map holds the files of the archive and nothing else. */
  ghost predicate HoldsExactly(files: map<string, Bytes>, entries: seq<Entry>) {
    Holds(files, FilesOf(entries))
  }

  /** The entries are acceptable up to one that has this fault. */
  ghost predicate FirstFault(entries: seq<Entry>, fault: Fault) {
    exists i :: 0 <= i < |entries| && Acceptable(entries[..i]) && Faulty(FilesOf(entries[..i]), entries[i], fault)
  }

  method ReadWithinBudget(data: Bytes, remaining: int) returns (read: Bytes, n: nat, fault: bool)
    ensures fault <==> |data| > (if remaining < 0 then 0 else remaining)
    ensures !fault ==> read == data && n == |data|
  {
    var budget: nat := if remaining < 0 then 0 else remaining;
    read := if |data| > budget + 1 then data[..budget + 1] else data;
    if |read| > budget {
      return [], budget, true;
    }
    n, fault := |read|, false;
  }

  lemma {:induction false} AppendedDistinct(files: seq<File<string>>, f: File<string>)
    requires DistinctPaths(files)
    ensures DistinctPaths(files + [f]) <==> !Seen(files, f.path)
  {
    var all := files + [f];
    if DistinctPaths(all) {
      forall g | g in files ensures g.path != f.path {
        var i :| 0 <= i < |files| && files[i] == g;
        assert all[i] == g && all[|files|] == f;
      }
    } else {
      var i, j :| 0 <= i < j < |all| && all[i].path == all[j].path;
      assert j == |files| && all[i] in files;
    }
  }

  /** An archive is acceptable exactly when all but its last entry are and that one has no fault;
      a faulty entry has one fault. */
  lemma {:induction false} AcceptableLast(entries: seq<Entry>, e: Entry)
    requires Acceptable(entries)
    ensures Acceptable(entries + [e]) <==> !exists fault :: Faulty(FilesOf(entries), e, fault)
    ensures forall f, g :: Faulty(FilesOf(entries), e, f) && Faulty(FilesOf(entries), e, g) ==> f == g
  {
    OneMoreEntry(entries, e);
    OneMoreGood(entries, e);
    FaultyCases(entries, e);
    if !e.kind.Directory? {
      OneMoreFile(FilesOf(entries), File(PathOf(e), e.data));
    }
  }

  lemma {:induction false} OneMoreEntry(entries: seq<Entry>, e: Entry)
    ensures FilesOf(entries + [e])
            == if e.kind.Directory? then FilesOf(entries) else FilesOf(entries) + [File(PathOf(e), e.data)]
  {
    var all := entries + [e];
    assert all[..|all| - 1] == entries;
    assert FilesOf(entries) + [] == FilesOf(entries);
  }

  lemma {:induction false} OneMoreGood(entries: seq<Entry>, e: Entry)
    requires forall i :: 0 <= i < |entries| ==> GoodEntry(entries[i])
    ensures var all := entries + [e];
      (forall i :: 0 <= i < |all| ==> GoodEntry(all[i])) <==> GoodEntry(e)
  {
    var all := entries + [e];
    assert all[|entries|] == e;
  }

  lemma {:induction false} OneMoreFile(files: seq<File<string>>, f: File<string>)
    requires DistinctPaths(files)
    ensures DistinctPaths(files + [f]) <==> !Seen(files, f.path)
    ensures TotalSize(files + [f]) == TotalSize(files) + |f.data| && |files + [f]| == |files| + 1
  {
    AppendedDistinct(files, f);
    assert (files + [f])[..|files|] == files;
  }

  lemma {:induction false} FaultyCases(entries: seq<Entry>, e: Entry)
    ensures var before := FilesOf(entries);
      (exists fault :: Faulty(before, e, fault)) <==>
        || !GoodEntry(e)
        || (!e.kind.Directory? && (|| Seen(before, PathOf(e)) || |before| == MAX_FILES
                                   || TotalSize(before) + |e.data| > MAX_BYTES))
    ensures forall f, g :: Faulty(FilesOf(entries), e, f) && Faulty(FilesOf(entries), e, g) ==> f == g
  {
    var before := FilesOf(entries);
    var fault :=
      if e.kind.OtherKind? then BadEntryType
      else if NormalizePath(e.name).None? || Seen(before, PathOf(e)) then BadPath
      else if |before| == MAX_FILES then TooManyFiles
      else TooLarge;
    if any :| Faulty(before, e, any) {
      assert any == fault;
    }
    if e.kind.Directory? {
      assert !Faulty(before, e, fault);
    } else if !GoodEntry(e) || Seen(before, PathOf(e)) || |before| == MAX_FILES
              || TotalSize(before) + |e.data| > MAX_BYTES {
      assert Faulty(before, e, fault);
    }
  }

  /** Once an archive is unacceptable, more entries do not mend it. */
  lemma {:induction false} AcceptablePrefix(entries: seq<Entry>, n: nat)
    requires n <= |entries| && Acceptable(entries)
    ensures Acceptable(entries[..n])
    decreases |entries| - n
  {
    if n == |entries| {
      assert entries[..n] == entries;
    } else {
      var front := entries[..|entries| - 1];
      FrontAcceptable(entries);
      AcceptablePrefix(front, n);
      assert front[..n] == entries[..n];
    }
  }

  lemma {:induction false} FrontAcceptable(entries: seq<Entry>)
    requires entries != [] && Acceptable(entries)
    ensures Acceptable(entries[..|entries| - 1])
  {
    var front, last := entries[..|entries| - 1], entries[|entries| - 1];
    var before, all := FilesOf(front), FilesOf(entries);
    assert before == all[..|before|];
    forall i, j | 0 <= i < j < |before| ensures before[i].path != before[j].path {
      assert before[i] == all[i] && before[j] == all[j];
    }
    if last.kind.Directory? {
      assert all == before + [] == before;
    } else {
      assert all == before + [File(PathOf(last), last.data)];
    }
    forall i | 0 <= i < |front| ensures GoodEntry(front[i]) {
      assert front[i] == entries[i];
    }
  }

  lemma {:induction false} RefusedThenUnacceptable(entries: seq<Entry>, i: nat, fault: Fault)
    requires i < |entries| && Acceptable(entries[..i]) && Faulty(FilesOf(entries[..i]), entries[i], fault)
    ensures !Acceptable(entries)
  {
    assert entries[..i + 1] == entries[..i] + [entries[i]];
    AcceptableLast(entries[..i], entries[i]);
    if Acceptable(entries) {
      AcceptablePrefix(entries, i + 1);
    }
  }

  lemma {:induction false} FilesOfNext(entries: seq<Entry>, i: nat)
    requires i < |entries|
    ensures FilesOf(entries[..i + 1]) == FilesOf(entries[..i])
            + if entries[i].kind.Directory? then [] else [File(PathOf(entries[i]), entries[i].data)]
  {
    assert entries[..i + 1][..i] == entries[..i];
  }

  lemma {:induction false} AcceptedNext(entries: seq<Entry>, i: nat)
    requires i < |entries| && Acceptable(entries[..i])
    requires var before, e := FilesOf(entries[..i]), entries[i];
      e.kind.Directory? || (GoodEntry(e) && !Seen(before, PathOf(e)) && |before| < MAX_FILES
                            && TotalSize(before) + |e.data| <= MAX_BYTES)
    ensures Acceptable(entries[..i + 1])
  {
    assert entries[..i + 1] == entries[..i] + [entries[i]];
    AcceptableLast(entries[..i], entries[i]);
    FaultyCases(entries[..i], entries[i]);
  }

  ghost predicate Progress(m: map<string, Bytes>, count: nat, total: nat, files: seq<File<string>>) {
    Holds(m, files) && count == |files| && total == TotalSize(files)
  }

  /** The state of the loop: the entries read so far are acceptable, and what has been collected is
      what they hold. */
  ghost predicate ReadSoFar(entries: seq<Entry>, i: nat, files: map<string, Bytes>, count: nat, total: nat)
    requires i <= |entries|
  {
    Acceptable(entries[..i]) && Progress(files, count, total, FilesOf(entries[..i]))
  }

  /** The entry fails a check, the first it fails giving the fault. */
  ghost predicate Refuses(e: Entry, files: map<string, Bytes>, count: nat, total: nat, fault: Fault) {
    && !e.kind.Directory?
    && if e.kind.OtherKind? then fault == BadEntryType
       else if NormalizePath(e.name).None? || PathOf(e) in files then fault == BadPath
       else if count == MAX_FILES then fault == TooManyFiles
       else total + |e.data| > MAX_BYTES && fault == TooLarge
  }

  /** The entry passes them. */
  ghost predicate Admits(e: Entry, files: map<string, Bytes>, count: nat, total: nat) {
    || e.kind.Directory?
    || (&& e.kind.Regular? && NormalizePath(e.name).Some? && PathOf(e) !in files
        && count + 1 <= MAX_FILES && total + |e.data| <= MAX_BYTES)
  }

  /** A directory adds nothing, and a file itself. */
  lemma {:induction false} PastEntry(entries: seq<Entry>, i: nat, files: map<string, Bytes>, count: nat, total: nat)
    requires i < |entries| && ReadSoFar(entries, i, files, count, total) && Admits(entries[i], files, count, total)
    ensures var e := entries[i];
      if e.kind.Directory? then ReadSoFar(entries, i + 1, files, count, total)
      else ReadSoFar(entries, i + 1, files[PathOf(e) := e.data], count + 1, total + |e.data|)
  {
    var e, before := entries[i], FilesOf(entries[..i]);
    InMapIffSeen(files, before, PathOf(e));
    FilesOfNext(entries, i);
    AcceptedNext(entries, i);
    if e.kind.Directory? {
      assert before + [] == before;
    } else {
      ProgressMore(files, count, total, before, File(PathOf(e), e.data));
    }
  }

  /** An entry that fails a check is the first fault of the archive. */
  lemma {:induction false} Refused(entries: seq<Entry>, i: nat, files: map<string, Bytes>, count: nat, total: nat,
                                   fault: Fault)
    requires i < |entries| && ReadSoFar(entries, i, files, count, total)
    requires Refuses(entries[i], files, count, total, fault)
    ensures !Acceptable(entries) && FirstFault(entries, fault)
  {
    var before := FilesOf(entries[..i]);
    InMapIffSeen(files, before, PathOf(entries[i]));
    assert Faulty(before, entries[i], fault);
    RefusedThenUnacceptable(entries, i, fault);
  }

  lemma {:induction false} InMapIffSeen(m: map<string, Bytes>, files: seq<File<string>>, path: string)
    requires Holds(m, files)
    ensures path in m <==> Seen(files, path)
  {
    if path in m {
      var i :| 0 <= i < |files| && files[i].path == path;
      assert files[i] in files;
    }
    if f :| f in files && f.path == path {
      var i :| 0 <= i < |files| && files[i] == f;
    }
  }

  lemma {:induction false} ProgressMore(m: map<string, Bytes>, count: nat, total: nat, files: seq<File<string>>,
                                        f: File<string>)
    requires Progress(m, count, total, files) && f.path !in m
    ensures Progress(m[f.path := f.data], count + 1, total + |f.data|, files + [f])
  {
    HoldsMore(m, files, f);
    assert (files + [f])[..|files|] == files;
  }

  lemma {:induction false} HoldsMore(m: map<string, Bytes>, files: seq<File<string>>, f: File<string>)
    requires Holds(m, files) && f.path !in m
    ensures Holds(m[f.path := f.data], files + [f])
  {
    var all, t := files + [f], m[f.path := f.data];
    forall k | k in t ensures exists i :: 0 <= i < |all| && all[i].path == k {
      if k == f.path {
        assert all[|files|].path == k;
      } else {
        var i :| 0 <= i < |files| && files[i].path == k;
        assert all[i].path == k;
      }
    }
  }

  // ---- What is in the files, and what a fault says ----

  /** Entry i is a regular file that unpacks to path p. */
  ghost predicate UnpacksTo(entries: seq<Entry>, i: nat, p: string) {
    i < |entries| && entries[i].kind.Regular? && NormalizePath(entries[i].name) == Some(p)
  }

  lemma {:induction false} FileFromEntry(entries: seq<Entry>, k: nat) returns (i: nat)
    requires (forall e :: e in entries ==> GoodEntry(e)) && k < |FilesOf(entries)|
    ensures UnpacksTo(entries, i, FilesOf(entries)[k].path) && FilesOf(entries)[k].data == entries[i].data
    decreases |entries|
  {
    var front, last := entries[..|entries| - 1], entries[|entries| - 1];
    if k < |FilesOf(front)| {
      i := FileFromEntry(front, k);
    } else {
      assert GoodEntry(last);
      i := |entries| - 1;
    }
  }

  lemma {:induction false} EntryGivesFile(entries: seq<Entry>, i: nat, p: string) returns (k: nat)
    requires UnpacksTo(entries, i, p)
    ensures k < |FilesOf(entries)| && FilesOf(entries)[k] == File(p, entries[i].data)
    decreases |entries|
  {
    if i < |entries| - 1 {
      k := EntryGivesFile(entries[..|entries| - 1], i, p);
    } else {
      k := |FilesOf(entries[..|entries| - 1])|;
    }
  }

  /** What an accepted archive unpacks to: for each regular entry its data under its normalized
      name, and nothing else. */
  lemma {:induction false} UnpackedMeaning(entries: seq<Entry>, m: map<string, Bytes>, p: string)
    requires Acceptable(entries) && HoldsExactly(m, entries)
    ensures p in m <==> exists i: nat :: UnpacksTo(entries, i, p)
    ensures forall i: nat :: UnpacksTo(entries, i, p) ==> p in m && m[p] == entries[i].data
  {
    if p in m {
      var k :| 0 <= k < |FilesOf(entries)| && FilesOf(entries)[k].path == p;
      var i := FileFromEntry(entries, k);
    }
    forall i: nat | UnpacksTo(entries, i, p) ensures p in m && m[p] == entries[i].data {
      var k := EntryGivesFile(entries, i, p);
    }
  }

  /** What a fault says of the first entry at which the archive stops being acceptable. */
  ghost predicate Explains(entries: seq<Entry>, i: nat, fault: Fault)
    requires i < |entries|
  {
    var e := entries[i];
    match fault
    case BadEntryType => !e.kind.Regular? && !e.kind.Directory?
    case BadPath =>
      e.kind.Regular? && (NormalizePath(e.name) == None
                          || exists j: nat :: UnpacksTo(entries[..i], j, NormalizePath(e.name).value))
    case TooManyFiles => e.kind.Regular? && |FilesOf(entries[..i])| == 1000
    case TooLarge => e.kind.Regular? && TotalSize(FilesOf(entries[..i])) + |e.data| > 5 * 1024 * 1024
  }

  lemma {:induction false} SeenIsUnpacked(entries: seq<Entry>, p: string)
    requires (forall e :: e in entries ==> GoodEntry(e)) && Seen(FilesOf(entries), p)
    ensures exists j: nat :: UnpacksTo(entries, j, p)
  {
    var f :| f in FilesOf(entries) && f.path == p;
    var k :| 0 <= k < |FilesOf(entries)| && FilesOf(entries)[k] == f;
    var j := FileFromEntry(entries, k);
  }

  lemma {:induction false} FaultyExplains(entries: seq<Entry>, i: nat, fault: Fault)
    requires i < |entries| && (forall e :: e in entries[..i] ==> GoodEntry(e))
    requires Faulty(FilesOf(entries[..i]), entries[i], fault)
    ensures Explains(entries, i, fault)
  {
    if fault.BadPath? && NormalizePath(entries[i].name).Some? {
      SeenIsUnpacked(entries[..i], PathOf(entries[i]));
    }
  }

  lemma {:induction false} FaultMeaning(entries: seq<Entry>, fault: Fault) returns (i: nat)
    requires FirstFault(entries, fault)
    ensures i < |entries| && Acceptable(entries[..i]) && !Acceptable(entries[..i + 1]) && Explains(entries, i, fault)
  {
    i :| 0 <= i < |entries| && Acceptable(entries[..i]) && Faulty(FilesOf(entries[..i]), entries[i], fault);
    FaultyUnacceptable(entries, i, fault);
    FaultyExplains(entries, i, fault);
  }

  lemma {:induction false} FaultyUnacceptable(entries: seq<Entry>, i: nat, fault: Fault)
    requires i < |entries| && Acceptable(entries[..i]) && Faulty(FilesOf(entries[..i]), entries[i], fault)
    ensures !Acceptable(entries[..i + 1]) && forall e :: e in entries[..i] ==> GoodEntry(e)
  {
    assert entries[..i + 1] == entries[..i] + [entries[i]];
    AcceptableLast(entries[..i], entries[i]);
  }

  /** One turn of Unpack's loop: the checks of one entry, in their order, and what it adds. */
  method UnpackEntry(e: Entry, files: map<string, Bytes>, count: nat, total: nat)
    returns (fault: Option<Fault>, files': map<string, Bytes>, count': nat, total': nat)
    requires count <= MAX_FILES && total <= MAX_BYTES
    ensures fault.Some? ==> Refuses(e, files, count, total, fault.value)
    ensures fault.None? ==> Admits(e, files, count, total)
    ensures fault.None? ==> files' == if e.kind.Directory? then files else files[PathOf(e) := e.data]
    ensures fault.None? && e.kind.Directory? ==> count' == count && total' == total
    ensures fault.None? && !e.kind.Directory? ==> count' == count + 1 && total' == total + |e.data|
  {
    fault, files', count', total' := None, files, count, total;
    if e.kind.Directory? {
      return;
    }
    if !e.kind.Regular? {
      fault := Some(BadEntryType);
      return;
    }
    var name := NormalizePath(e.name);
    if name.None? || name.value in files {
      fault := Some(BadPath);
      return;
    }
    if count + 1 > MAX_FILES {
      fault := Some(TooManyFiles);
      return;
    }
    var data, n, tooLarge := ReadWithinBudget(e.data, MAX_BYTES - total);
    if tooLarge {
      fault := Some(TooLarge);
      return;
    }
    files' := files[name.value := data];
    count', total' := count + 1, total + n;
  }

  /** The running checks equal the batch predicate: Unpack succeeds exactly on acceptable archives,
      with exactly their files; otherwise it reports the fault of the first entry at which the
      archive stops being acceptable. */
  method Unpack(entries: seq<Entry>) returns (r: Unpacked)
    ensures r.Files? <==> Acceptable(entries)
    ensures r.Files? ==> HoldsExactly(r.files, entries)
    ensures r.Failed? ==> FirstFault(entries, r.fault)
  {
    var files: map<string, Bytes> := map[];
    var total: nat, count: nat := 0, 0;
    for i := 0 to |entries|
      invariant ReadSoFar(entries, i, files, count, total)
    {
      var fault, files', count', total' := UnpackEntry(entries[i], files, count, total);
      if fault.Some? {
        Refused(entries, i, files, count, total, fault.value);
        return Failed(fault.value);
      }
      PastEntry(entries, i, files, count, total);
      files, count, total := files', count', total';
    }
    AllRead(entries, files, count, total);
    r := Files(files);
  }

  lemma {:induction false} AllRead(entries: seq<Entry>, files: map<string, Bytes>, count: nat, total: nat)
    requires ReadSoFar(entries, |entries|, files, count, total)
    ensures Acceptable(entries) && HoldsExactly(files, entries)
  {
    assert entries[..|entries|] == entries;
  }
}
