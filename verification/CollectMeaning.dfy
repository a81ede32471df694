/** What the walk of Collect collects, said without the walk: the files at the end of descents
    that repeat no real directory and enter no excluded one. */
module CollectMeaning {
  import opened Common
  import opened Sizes
  import opened Collect
  import opened Text
  import Ignore

  ghost predicate Descends(fs: FS, o: Options, d: Dir, rel: Path, sub: Dir)
    requires rel != []
  {
    !SkipsDir(o, rel) && exists e :: Lists(fs, d, e) && e.name == Base(rel) && e.target == ToDir(sub)
  }

  ghost predicate Yields(fs: FS, o: Options, d: Dir, rel: Path, data: Bytes)
    requires rel != []
  {
    !SkipsFile(o, rel) && exists e :: Lists(fs, d, e) && e.name == Base(rel) && e.target == ToFile(data)
  }

  /** A descent: names[i] is an entry of dirs[i] that leads to dirs[i + 1], the last name is the
      file; all directories are different and, after the first, outside `ancestors`. */
  ghost predicate IsDescent(fs: FS, o: Options, ancestors: set<Dir>, at: Path,
                            dirs: seq<Dir>, names: Path, data: Bytes) {
    && |dirs| == |names| >= 1
    && (forall i, j :: 0 <= i < j < |dirs| ==> dirs[i] != dirs[j])
    && (forall i :: 0 < i < |dirs| ==> dirs[i] !in ancestors)
    && (forall i :: 0 <= i < |names| - 1 ==> Descends(fs, o, dirs[i], at + names[..i + 1], dirs[i + 1]))
    && Yields(fs, o, dirs[|dirs| - 1], at + names, data)
  }

  lemma {:induction false} DescentCons(fs: FS, o: Options, ancestors: set<Dir>, at: Path, dir: Dir, name: string,
                    dirs: seq<Dir>, names: Path, data: Bytes)
    requires dir in ancestors && dirs != [] && dirs[0] !in ancestors
    requires Descends(fs, o, dir, at + [name], dirs[0])
    requires IsDescent(fs, o, ancestors + {dirs[0]}, at + [name], dirs, names, data)
    ensures IsDescent(fs, o, ancestors, at, [dir] + dirs, [name] + names, data)
  {
    var ds, ns := [dir] + dirs, [name] + names;
    forall i | 0 <= i < |ns| - 1 ensures Descends(fs, o, ds[i], at + ns[..i + 1], ds[i + 1]) {
      if i == 0 {
        assert ns[..1] == [name];
      } else {
        assert at + ns[..i + 1] == at + [name] + names[..i - 1 + 1];
        assert Descends(fs, o, dirs[i - 1], at + [name] + names[..i - 1 + 1], dirs[i - 1 + 1]);
      }
    }
    assert at + ns == at + [name] + names;
  }

  lemma {:induction false} PathFromSecond(at: Path, names: Path, i: nat)
    requires i < |names| - 1
    ensures at + [names[0]] + names[1..][..i + 1] == at + names[..i + 2]
  {
    assert [names[0]] + names[1..][..i + 1] == names[..i + 2];
  }

  lemma {:induction false} DescentUncons(fs: FS, o: Options, ancestors: set<Dir>, at: Path,
                      dirs: seq<Dir>, names: Path, data: Bytes)
    requires IsDescent(fs, o, ancestors, at, dirs, names, data) && |dirs| > 1
    ensures Descends(fs, o, dirs[0], at + [names[0]], dirs[1]) && dirs[1] !in ancestors
    ensures IsDescent(fs, o, ancestors + {dirs[1]}, at + [names[0]], dirs[1..], names[1..], data)
  {
    assert names[..1] == [names[0]];
    assert Descends(fs, o, dirs[0], at + names[..0 + 1], dirs[0 + 1]);
    forall i | 0 <= i < |names[1..]| - 1
      ensures Descends(fs, o, dirs[1..][i], at + [names[0]] + names[1..][..i + 1], dirs[1..][i + 1])
    {
      PathFromSecond(at, names, i);
      assert Descends(fs, o, dirs[i + 1], at + names[..(i + 1) + 1], dirs[(i + 1) + 1]);
    }
    PathFromSecond(at, names, |names| - 2);
    assert names[1..][..|names| - 1] == names[1..] && names[..|names|] == names;
  }

  lemma {:induction false} InWalkEntries(fs: FS, o: Options, es: seq<Entry>, ancestors: set<Dir>, at: Path, item: Item)
    requires WellFormed(fs) && AllListed(fs, es)
    ensures item in WalkEntries(fs, o, es, ancestors, at)
            <==> exists e :: e in es && item in WalkEntry(fs, o, e, ancestors, at)
    decreases |es|
  {
    if es != [] {
      var n := |es| - 1;
      InWalkEntries(fs, o, es[..n], ancestors, at, item);
      assert es[n] in es && forall e :: e in es[..n] ==> e in es;
      if e :| e in es && item in WalkEntry(fs, o, e, ancestors, at) {
        assert e in es[..n] || e == es[n];
      }
    }
  }

  /** Every file the walk finds is the end of a descent. */
  lemma {:induction false} FoundIsDescent(fs: FS, o: Options, dir: Dir, ancestors: set<Dir>, at: Path, file: File<Path>)
    returns (dirs: seq<Dir>, names: Path)
    requires WellFormed(fs) && dir in fs.dirs && dir in ancestors
    requires Found(file) in WalkDir(fs, o, dir, ancestors, at)
    ensures IsDescent(fs, o, ancestors, at, dirs, names, file.data) && dirs[0] == dir
    ensures file.path == at + names
    decreases fs.dirs.Keys - ancestors
  {
    var es := fs.dirs[dir].entries;
    assert forall e :: e in es ==> Lists(fs, dir, e);
    InWalkEntries(fs, o, es, ancestors, at, Found(file));
    var e :| e in es && Found(file) in WalkEntry(fs, o, e, ancestors, at);
    if e.target.ToDir? {
      var sub := e.target.dir;
      dirs, names := FoundIsDescent(fs, o, sub, ancestors + {sub}, at + [e.name], file);
      DescentCons(fs, o, ancestors, at, dir, e.name, dirs, names, file.data);
      dirs, names := [dir] + dirs, [e.name] + names;
    } else {
      dirs, names := [dir], [e.name];
    }
  }

  /** Every descent's file is found. */
  lemma {:induction false} DescentIsFound(fs: FS, o: Options, ancestors: set<Dir>, at: Path,
                                          dirs: seq<Dir>, names: Path, data: Bytes)
    requires WellFormed(fs) && IsDescent(fs, o, ancestors, at, dirs, names, data) && dirs[0] in fs.dirs
    ensures Found(File(at + names, data)) in WalkDir(fs, o, dirs[0], ancestors, at)
    decreases |dirs|
  {
    var item := Found(File(at + names, data));
    var dir := dirs[0];
    var e: Entry;
    if |dirs| == 1 {
      e :| Lists(fs, dir, e) && e.name == Base(at + names) && e.target == ToFile(data);
      assert names == [e.name];
    } else {
      DescentUncons(fs, o, ancestors, at, dirs, names, data);
      e :| Lists(fs, dir, e) && e.name == Base(at + [names[0]]) && e.target == ToDir(dirs[1]);
      DescentIsFound(fs, o, ancestors + {dirs[1]}, at + [names[0]], dirs[1..], names[1..], data);
      assert at + [names[0]] + names[1..] == at + names;
    }
    var es := fs.dirs[dir].entries;
    assert forall e :: e in es ==> Lists(fs, dir, e);
    assert item in WalkEntry(fs, o, e, ancestors, at);
    InWalkEntries(fs, o, es, ancestors, at, item);
  }

  ghost predicate Collectable(fs: FS, o: Options, root: Dir, file: File<Path>) {
    exists dirs :: IsDescent(fs, o, {root}, [], dirs, file.path, file.data) && dirs[0] == root
  }

  // ---- The same in terms of names ----

  /** Listed entries lead from the root through different real directories to the file. */
  ghost predicate LeadsTo(fs: FS, root: Dir, dirs: seq<Dir>, file: File<Path>) {
    && |dirs| == |file.path| >= 1 && dirs[0] == root
    && (forall i, j :: 0 <= i < j < |dirs| ==> dirs[i] != dirs[j])
    && (forall i :: 0 <= i < |dirs| - 1 ==> HasEntry(fs, dirs[i], file.path[i], ToDir(dirs[i + 1])))
    && HasEntry(fs, dirs[|dirs| - 1], file.path[|dirs| - 1], ToFile(file.data))
  }

  ghost predicate HasEntry(fs: FS, d: Dir, name: string, target: Target) {
    exists e :: Lists(fs, d, e) && e.name == name && e.target == target
  }

  /** A directory that is entered, given the name it is reached by and the path so far. */
  ghost predicate EntersDir(o: Options, path: Path)
    requires path != []
  {
    var name := path[|path| - 1];
    && name != ".git" && (name == "node_modules" ==> o.includeNodeModules)
    && !Ignore.Ignored(o.glob, o.rules, path, true)
  }

  /** A file that is bundled. */
  ghost predicate TakesFile(o: Options, path: Path)
    requires path != []
  {
    var name := path[|path| - 1];
    && name != ".funcboxignore" && (forall rest :: name != ".env" + rest)
    && !Ignore.Ignored(o.glob, o.rules, path, false)
  }

  lemma {:induction false} SkipsIff(o: Options, path: Path)
    requires path != []
    ensures SkipsDir(o, path) <==> !EntersDir(o, path)
    ensures SkipsFile(o, path) <==> !TakesFile(o, path)
  {
    PrefixMeaning(path[|path| - 1], ".env");
  }

  /** A file is collectable if and only if listed entries lead to it, and every directory on the way
      is one that is entered, and the file one that is taken. */
  lemma {:induction false} CollectableIff(fs: FS, o: Options, root: Dir, file: File<Path>)
    ensures Collectable(fs, o, root, file)
            <==> && file.path != [] && TakesFile(o, file.path)
                 && (forall i :: 0 < i < |file.path| ==> EntersDir(o, file.path[..i]))
                 && exists dirs :: LeadsTo(fs, root, dirs, file)
  {
    if dirs :| IsDescent(fs, o, {root}, [], dirs, file.path, file.data) && dirs[0] == root {
      DescentLeads(fs, o, root, dirs, file);
    }
    if && file.path != [] && TakesFile(o, file.path)
       && forall i :: 0 < i < |file.path| ==> EntersDir(o, file.path[..i])
    {
      forall dirs | LeadsTo(fs, root, dirs, file) ensures Collectable(fs, o, root, file) {
        LeadsDescends(fs, o, root, dirs, file);
      }
    }
  }

  lemma {:induction false} DescendsIff(fs: FS, o: Options, d: Dir, path: Path, sub: Dir)
    requires path != []
    ensures Descends(fs, o, d, path, sub) <==> EntersDir(o, path) && HasEntry(fs, d, path[|path| - 1], ToDir(sub))
  {
    SkipsIff(o, path);
  }

  lemma {:induction false} YieldsIff(fs: FS, o: Options, d: Dir, path: Path, data: Bytes)
    requires path != []
    ensures Yields(fs, o, d, path, data) <==> TakesFile(o, path) && HasEntry(fs, d, path[|path| - 1], ToFile(data))
  {
    SkipsIff(o, path);
  }

  lemma {:induction false} FromNowhere(path: Path)
    ensures [] + path == path
  {
  }

  lemma {:induction false} DescentStep(fs: FS, o: Options, root: Dir, dirs: seq<Dir>, file: File<Path>, i: nat)
    requires IsDescent(fs, o, {root}, [], dirs, file.path, file.data) && i < |dirs| - 1
    ensures HasEntry(fs, dirs[i], file.path[i], ToDir(dirs[i + 1])) && EntersDir(o, file.path[..i + 1])
  {
    var names := file.path;
    FromNowhere(names[..i + 1]);
    assert Descends(fs, o, dirs[i], [] + names[..i + 1], dirs[i + 1]);
    DescendsIff(fs, o, dirs[i], names[..i + 1], dirs[i + 1]);
  }

  lemma {:induction false} DescentEnd(fs: FS, o: Options, root: Dir, dirs: seq<Dir>, file: File<Path>)
    requires IsDescent(fs, o, {root}, [], dirs, file.path, file.data)
    ensures HasEntry(fs, dirs[|dirs| - 1], file.path[|dirs| - 1], ToFile(file.data)) && TakesFile(o, file.path)
  {
    FromNowhere(file.path);
    YieldsIff(fs, o, dirs[|dirs| - 1], file.path, file.data);
  }

  lemma {:induction false} DescentLeads(fs: FS, o: Options, root: Dir, dirs: seq<Dir>, file: File<Path>)
    requires IsDescent(fs, o, {root}, [], dirs, file.path, file.data) && dirs[0] == root
    ensures LeadsTo(fs, root, dirs, file) && TakesFile(o, file.path)
    ensures forall i :: 0 < i < |file.path| ==> EntersDir(o, file.path[..i])
  {
    DescentEnd(fs, o, root, dirs, file);
    forall i | 0 <= i < |dirs| - 1 ensures HasEntry(fs, dirs[i], file.path[i], ToDir(dirs[i + 1])) {
      DescentStep(fs, o, root, dirs, file, i);
    }
    forall i | 0 < i < |file.path| ensures EntersDir(o, file.path[..i]) {
      DescentStep(fs, o, root, dirs, file, i - 1);
    }
  }

  lemma {:induction false} LeadStep(fs: FS, o: Options, d: Dir, path: Path, sub: Dir)
    requires path != [] && EntersDir(o, path) && HasEntry(fs, d, path[|path| - 1], ToDir(sub))
    ensures Descends(fs, o, d, [] + path, sub)
  {
    FromNowhere(path);
    DescendsIff(fs, o, d, path, sub);
  }

  lemma {:induction false} LeadEnd(fs: FS, o: Options, root: Dir, dirs: seq<Dir>, file: File<Path>)
    requires LeadsTo(fs, root, dirs, file) && TakesFile(o, file.path)
    ensures Yields(fs, o, dirs[|dirs| - 1], [] + file.path, file.data)
    ensures forall i :: 0 < i < |dirs| ==> dirs[i] !in {root}
  {
    FromNowhere(file.path);
    YieldsIff(fs, o, dirs[|dirs| - 1], file.path, file.data);
    forall i | 0 < i < |dirs| ensures dirs[i] !in {root} {
      assert dirs[0] != dirs[i];
    }
  }

  lemma {:induction false} LeadsDescends(fs: FS, o: Options, root: Dir, dirs: seq<Dir>, file: File<Path>)
    requires LeadsTo(fs, root, dirs, file) && TakesFile(o, file.path)
    requires forall i :: 0 < i < |file.path| ==> EntersDir(o, file.path[..i])
    ensures IsDescent(fs, o, {root}, [], dirs, file.path, file.data)
  {
    LeadEnd(fs, o, root, dirs, file);
    forall i | 0 <= i < |file.path| - 1 ensures Descends(fs, o, dirs[i], [] + file.path[..i + 1], dirs[i + 1]) {
      assert HasEntry(fs, dirs[i], file.path[i], ToDir(dirs[i + 1]));
      assert EntersDir(o, file.path[..i + 1]);
      LeadStep(fs, o, dirs[i], file.path[..i + 1], dirs[i + 1]);
    }
  }

  ghost function Walk(fs: FS, o: Options, root: Dir): seq<Item>
    requires WellFormed(fs) && root in fs.dirs
  {
    WalkDir(fs, o, root, {root}, [])
  }

  /** The walk finds exactly the collectable files. */
  lemma {:induction false} WalkFindsCollectable(fs: FS, o: Options, root: Dir, file: File<Path>)
    requires WellFormed(fs) && root in fs.dirs
    ensures Found(file) in Walk(fs, o, root) <==> Collectable(fs, o, root, file)
  {
    if Found(file) in Walk(fs, o, root) {
      var dirs, names := FoundIsDescent(fs, o, root, {root}, [], file);
      assert file.path == names;
    }
    if Collectable(fs, o, root, file) {
      var dirs :| IsDescent(fs, o, {root}, [], dirs, file.path, file.data) && dirs[0] == root;
      DescentIsFound(fs, o, {root}, [], dirs, file.path, file.data);
      assert [] + file.path == file.path;
    }
  }

  // ---- No path is found twice ----

  ghost predicate Under(items: seq<Item>, at: Path) {
    forall i :: 0 <= i < |items| && items[i].Found? ==> at < items[i].file.path
  }

  ghost predicate DistinctFinds(items: seq<Item>) {
    forall i, j :: 0 <= i < j < |items| && items[i].Found? && items[j].Found?
      ==> items[i].file.path != items[j].file.path
  }

  ghost predicate ThroughName(items: seq<Item>, at: Path, name: string) {
    forall i :: 0 <= i < |items| && items[i].Found? ==> at + [name] <= items[i].file.path
  }

  lemma {:induction false} DirIsDistinct(fs: FS, o: Options, dir: Dir, ancestors: set<Dir>, at: Path)
    requires WellFormed(fs) && DistinctNames(fs) && dir in fs.dirs
    ensures DistinctFinds(WalkDir(fs, o, dir, ancestors, at)) && Under(WalkDir(fs, o, dir, ancestors, at), at)
    decreases fs.dirs.Keys - ancestors, 1, 0
  {
    if fs.dirs[dir].Entries? {
      assert forall e :: e in fs.dirs[dir].entries ==> Lists(fs, dir, e);
      EntriesAreDistinct(fs, o, fs.dirs[dir].entries, ancestors, at);
    }
  }

  lemma {:induction false} EntriesAreDistinct(fs: FS, o: Options, es: seq<Entry>, ancestors: set<Dir>, at: Path)
    requires WellFormed(fs) && DistinctNames(fs) && AllListed(fs, es)
    requires forall i, j :: 0 <= i < j < |es| ==> es[i].name != es[j].name
    ensures DistinctFinds(WalkEntries(fs, o, es, ancestors, at)) && Under(WalkEntries(fs, o, es, ancestors, at), at)
    decreases fs.dirs.Keys - ancestors, 0, |es|
  {
    if es != [] {
      var n := |es| - 1;
      var front, last := WalkEntries(fs, o, es[..n], ancestors, at), WalkEntry(fs, o, es[n], ancestors, at);
      EntriesAreDistinct(fs, o, es[..n], ancestors, at);
      EntryIsDistinct(fs, o, es[n], ancestors, at);
      forall i, j | 0 <= i < |front| && 0 <= j < |last| && front[i].Found? && last[j].Found?
        ensures front[i].file.path != last[j].file.path
      {
        InWalkEntries(fs, o, es[..n], ancestors, at, front[i]);
        var e :| e in es[..n] && front[i] in WalkEntry(fs, o, e, ancestors, at);
        EntryIsDistinct(fs, o, e, ancestors, at);
        assert at + [e.name] <= front[i].file.path && at + [es[n].name] <= last[j].file.path;
        assert e.name == front[i].file.path[|at|] && es[n].name == last[j].file.path[|at|];
      }
    }
  }

  lemma {:induction false} EntryIsDistinct(fs: FS, o: Options, e: Entry, ancestors: set<Dir>, at: Path)
    requires WellFormed(fs) && DistinctNames(fs) && (e.target.ToDir? ==> e.target.dir in fs.dirs)
    ensures DistinctFinds(WalkEntry(fs, o, e, ancestors, at)) && Under(WalkEntry(fs, o, e, ancestors, at), at)
    ensures ThroughName(WalkEntry(fs, o, e, ancestors, at), at, e.name)
    decreases fs.dirs.Keys - ancestors, 0, 0
  {
    if e.target.ToDir? && !SkipsDir(o, at + [e.name]) && e.target.dir !in ancestors {
      DirIsDistinct(fs, o, e.target.dir, ancestors + {e.target.dir}, at + [e.name]);
    }
  }

  // ---- The result ----

  ghost predicate NoTrouble(items: seq<Item>) {
    forall i :: 0 <= i < |items| ==> items[i].Found?
  }

  ghost function Files(items: seq<Item>): (fs: seq<File<Path>>)
    requires NoTrouble(items)
    ensures |fs| == |items| && forall i :: 0 <= i < |fs| ==> fs[i] == items[i].file
  {
    seq(|items|, i requires 0 <= i < |items| => items[i].file)
  }

  ghost predicate Fits(files: seq<File<Path>>) {
    |files| <= MAX_FILES && TotalSize(files) <= MAX_BYTES
  }

  const FRESH := Outcome(map[], 0, [])

  lemma {:induction false} AbsorbNext(before: Outcome, items: seq<Item>)
    requires NoTrouble(items) && DistinctFinds(items) && items != []
    requires var n := |items| - 1;
      before.total == TotalSize(Files(items)[..n]) && |before.files| == n && Holds(before.files, Files(items)[..n])
    requires before.err == []
    ensures var r := AbsorbOne(before, items[|items| - 1]);
      if |items| <= MAX_FILES && TotalSize(Files(items)) <= MAX_BYTES
      then r.err == [] && r.total == TotalSize(Files(items)) && |r.files| == |items| && Holds(r.files, Files(items))
      else |r.err| == 1 && r.err[0].TooLarge?
  {
    var n, all := |items| - 1, Files(items);
    NewPath(before.files, items);
    HoldsOneMore(before.files, all, n);
    OneMoreKey(before.files, all[n].path, all[n].data);
    assert items[n] == Found(all[n]) && TotalSize(all) == before.total + |all[n].data|;
  }

  /** Checking the limits after every file is checking the totals. */
  lemma {:induction false} AbsorbIsBatch(items: seq<Item>)
    requires NoTrouble(items) && DistinctFinds(items)
    ensures var r := Absorb(FRESH, items);
      if Fits(Files(items)) then r.err == [] && r.total == TotalSize(Files(items))
                                 && |r.files| == |items| && Holds(r.files, Files(items))
      else |r.err| == 1 && r.err[0].TooLarge?
    decreases |items|
  {
    if items != [] {
      var n := |items| - 1;
      AbsorbIsBatch(items[..n]);
      assert Files(items)[..n] == Files(items[..n]);
      if Absorb(FRESH, items[..n]).err == [] {
        AbsorbNext(Absorb(FRESH, items[..n]), items);
      }
    }
  }

  lemma {:induction false} OneMoreKey(m: map<Path, Bytes>, p: Path, d: Bytes)
    requires p !in m
    ensures |m[p := d]| == |m| + 1
  {
    assert m[p := d].Keys == m.Keys + {p};
  }

  /** A path not found before is not in the map. */
  lemma {:induction false} NewPath(m: map<Path, Bytes>, items: seq<Item>)
    requires NoTrouble(items) && DistinctFinds(items) && items != []
    requires Holds(m, Files(items)[..|items| - 1])
    ensures items[|items| - 1].file.path !in m
  {
    var n := |items| - 1;
    forall k | k in m ensures k != items[n].file.path {
      var i :| 0 <= i < n && Files(items)[..n][i].path == k;
      assert Files(items)[i] == items[i].file;
    }
  }

  lemma {:induction false} HoldsOneMore(m: map<Path, Bytes>, files: seq<File<Path>>, n: nat)
    requires n == |files| - 1 && Holds(m, files[..n]) && files[n].path !in m
    ensures Holds(m[files[n].path := files[n].data], files)
  {
    var m' := m[files[n].path := files[n].data];
    forall i | 0 <= i < |files| ensures files[i].path in m' && m'[files[i].path] == files[i].data {
      if i < n { assert files[..n][i] == files[i]; }
    }
    forall k | k in m' ensures exists i :: 0 <= i < |files| && files[i].path == k {
      if k in m {
        var i :| 0 <= i < n && files[..n][i].path == k;
        assert files[i].path == k;
      }
    }
  }

  lemma {:induction false} InFilesIff(items: seq<Item>, f: File<Path>)
    requires NoTrouble(items)
    ensures f in Files(items) <==> Found(f) in items
  {
    if f in Files(items) {
      var i :| 0 <= i < |items| && Files(items)[i] == f;
      assert items[i] == Found(f);
    }
    if Found(f) in items {
      var i :| 0 <= i < |items| && items[i] == Found(f);
      assert Files(items)[i] == f;
    }
  }

  lemma {:induction false} FilesAreDistinct(items: seq<Item>)
    requires NoTrouble(items) && DistinctFinds(items)
    ensures DistinctPaths(Files(items))
  {}

  predicate Has(m: map<Path, Bytes>, p: Path, d: Bytes) { p in m && m[p] == d }

  /** CollectFiles when no directory or file is unreadable and no link is broken: it fails
      exactly when the full totals exceed the limits, and otherwise the map holds exactly the
      collectable files, and CheckUnpackedSize accepts it. */
  lemma {:induction false} CollectResult(fs: FS, o: Options, root: Dir)
    requires WellFormed(fs) && DistinctNames(fs) && root in fs.dirs && NoTrouble(Walk(fs, o, root))
    ensures var r := Absorb(FRESH, Walk(fs, o, root)); var all := Files(Walk(fs, o, root));
      && (r.err == [] <==> Fits(all))
      && DistinctPaths(all) && (forall f :: f in all <==> Collectable(fs, o, root, f))
      && (r.err == [] ==>
            && (forall p, d :: Has(r.files, p, d) <==> Collectable(fs, o, root, File(p, d)))
            && MapSize(r.files) <= MAX_BYTES && |r.files| <= MAX_FILES)
  {
    var items := Walk(fs, o, root);
    var all := Files(items);
    DirIsDistinct(fs, o, root, {root}, []);
    AbsorbIsBatch(items);
    FilesAreDistinct(items);
    forall f ensures f in all <==> Collectable(fs, o, root, f) {
      WalkFindsCollectable(fs, o, root, f);
      InFilesIff(items, f);
    }
    var r := Absorb(FRESH, items);
    if r.err == [] {
      HeldSize(r.files, all);
      forall p, d ensures Has(r.files, p, d) <==> Collectable(fs, o, root, File(p, d)) {
        HeldFiles(r.files, all, p, d);
      }
    }
  }

  lemma {:induction false} HeldFiles(m: map<Path, Bytes>, files: seq<File<Path>>, p: Path, d: Bytes)
    requires Holds(m, files)
    ensures Has(m, p, d) <==> File(p, d) in files
  {
    if p in m {
      var i :| 0 <= i < |files| && files[i].path == p;
      assert files[i] == File(p, m[p]);
    }
  }

  // ---- Independence of the listing order ----

  ghost predicate SameEntries(fs: FS, fs': FS) {
    && fs.dirs.Keys == fs'.dirs.Keys
    && (forall d :: d in fs.dirs ==> (fs.dirs[d].Unreadable? <==> fs'.dirs[d].Unreadable?))
    && (forall d, e :: Lists(fs, d, e) <==> Lists(fs', d, e))
  }

  lemma {:induction false} DescentInOther(fs: FS, fs': FS, o: Options, ancestors: set<Dir>, at: Path,
                       dirs: seq<Dir>, names: Path, data: Bytes)
    requires SameEntries(fs, fs') && IsDescent(fs, o, ancestors, at, dirs, names, data)
    ensures IsDescent(fs', o, ancestors, at, dirs, names, data)
  {
    forall i | 0 <= i < |names| - 1 ensures Descends(fs', o, dirs[i], at + names[..i + 1], dirs[i + 1]) {
      assert Descends(fs, o, dirs[i], at + names[..i + 1], dirs[i + 1]);
    }
  }

  lemma {:induction false} CollectableInOther(fs: FS, fs': FS, o: Options, root: Dir, f: File<Path>)
    requires SameEntries(fs, fs') && Collectable(fs, o, root, f)
    ensures Collectable(fs', o, root, f)
  {
    var dirs :| IsDescent(fs, o, {root}, [], dirs, f.path, f.data) && dirs[0] == root;
    DescentInOther(fs, fs', o, {root}, [], dirs, f.path, f.data);
  }

  ghost predicate HasTrouble(items: seq<Item>) {
    exists item :: item in items && item.Trouble?
  }

  lemma {:induction false} EntryTroubleInOther(fs: FS, fs': FS, o: Options, e: Entry, ancestors: set<Dir>, at: Path)
    requires WellFormed(fs) && WellFormed(fs') && SameEntries(fs, fs')
    requires e.target.ToDir? ==> e.target.dir in fs.dirs
    requires HasTrouble(WalkEntry(fs, o, e, ancestors, at))
    ensures HasTrouble(WalkEntry(fs', o, e, ancestors, at))
    decreases fs.dirs.Keys - ancestors, 0
  {
    if e.target.ToDir? {
      var sub := e.target.dir;
      DirTroubleInOther(fs, fs', o, sub, ancestors + {sub}, at + [e.name]);
    } else {
      assert WalkEntry(fs', o, e, ancestors, at) == WalkEntry(fs, o, e, ancestors, at);
    }
  }

  lemma {:induction false} DirTroubleInOther(fs: FS, fs': FS, o: Options, dir: Dir, ancestors: set<Dir>, at: Path)
    requires WellFormed(fs) && WellFormed(fs') && SameEntries(fs, fs') && dir in fs.dirs
    requires HasTrouble(WalkDir(fs, o, dir, ancestors, at))
    ensures HasTrouble(WalkDir(fs', o, dir, ancestors, at))
    decreases fs.dirs.Keys - ancestors, 1
  {
    if fs.dirs[dir].Unreadable? {
      assert Trouble(at) in WalkDir(fs', o, dir, ancestors, at);
    } else {
      var es, es' := fs.dirs[dir].entries, fs'.dirs[dir].entries;
      assert forall e :: e in es ==> Lists(fs, dir, e);
      assert forall e :: e in es' ==> Lists(fs', dir, e);
      var item :| item in WalkDir(fs, o, dir, ancestors, at) && item.Trouble?;
      InWalkEntries(fs, o, es, ancestors, at, item);
      var e :| e in es && item in WalkEntry(fs, o, e, ancestors, at);
      assert Lists(fs', dir, e);
      EntryTroubleInOther(fs, fs', o, e, ancestors, at);
      var item' :| item' in WalkEntry(fs', o, e, ancestors, at) && item'.Trouble?;
      InWalkEntries(fs', o, es', ancestors, at, item');
    }
  }

  /** An I/O error met in one listing is met in the other. */
  lemma {:induction false} NoTroubleInOther(fs: FS, fs': FS, o: Options, root: Dir)
    requires WellFormed(fs) && WellFormed(fs') && SameEntries(fs, fs') && root in fs.dirs
    ensures NoTrouble(Walk(fs, o, root)) <==> NoTrouble(Walk(fs', o, root))
  {
    TroubleIff(Walk(fs, o, root));
    TroubleIff(Walk(fs', o, root));
    if HasTrouble(Walk(fs, o, root)) { DirTroubleInOther(fs, fs', o, root, {root}, []); }
    if HasTrouble(Walk(fs', o, root)) { DirTroubleInOther(fs', fs, o, root, {root}, []); }
  }

  lemma {:induction false} TroubleIff(items: seq<Item>)
    ensures NoTrouble(items) <==> !HasTrouble(items)
  {
    if !NoTrouble(items) {
      var i :| 0 <= i < |items| && !items[i].Found?;
      assert items[i] in items && items[i].Trouble?;
    }
  }

  /** Two listings of the same tree in different orders give the same map, or both fail. */
  lemma {:induction false} OrderDoesNotMatter(fs: FS, fs': FS, o: Options, root: Dir)
    requires WellFormed(fs) && DistinctNames(fs) && WellFormed(fs') && DistinctNames(fs')
    requires SameEntries(fs, fs') && root in fs.dirs
    requires NoTrouble(Walk(fs, o, root))
    ensures var r, r' := Absorb(FRESH, Walk(fs, o, root)), Absorb(FRESH, Walk(fs', o, root));
      && (r.err == [] <==> r'.err == [])
      && (r.err == [] ==> r.files == r'.files)
  {
    NoTroubleInOther(fs, fs', o, root);
    CollectResult(fs, o, root);
    CollectResult(fs', o, root);
    var all, all' := Files(Walk(fs, o, root)), Files(Walk(fs', o, root));
    forall f ensures Collectable(fs, o, root, f) <==> Collectable(fs', o, root, f) {
      if Collectable(fs, o, root, f) { CollectableInOther(fs, fs', o, root, f); }
      if Collectable(fs', o, root, f) { CollectableInOther(fs', fs, o, root, f); }
    }
    SamePermutation(all, all');
    var r, r' := Absorb(FRESH, Walk(fs, o, root)), Absorb(FRESH, Walk(fs', o, root));
    if r.err == [] {
      forall p, d ensures Has(r.files, p, d) <==> Has(r'.files, p, d) {
        assert Collectable(fs, o, root, File(p, d)) <==> Collectable(fs', o, root, File(p, d));
      }
      SameMap(r.files, r'.files);
    }
  }

  lemma {:induction false} SameMap(m: map<Path, Bytes>, m': map<Path, Bytes>)
    requires forall p, d :: Has(m, p, d) <==> Has(m', p, d)
    ensures m == m'
  {
    forall p | p in m ensures p in m' && m'[p] == m[p] {
      assert Has(m, p, m[p]);
    }
    forall p | p in m' ensures p in m {
      assert Has(m', p, m'[p]);
    }
  }
}
