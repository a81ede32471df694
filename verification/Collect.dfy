/** Bundle collection: a depth-first walk of a finite file graph whose symbolic links may form
    cycles, cut by the set of real directories on the current descent and filtered by the
    implicit excludes and the ignore rules. */
module Collect {
  import opened Common
  import opened Text
  import opened Sizes
  import Ignore

  /** A bundle path as its segments; `rel` is their join. */
  type Path = seq<string>

  type Dir = nat  // a real (symlink-resolved) directory

  /** What os.Stat finds behind an entry. */
  datatype Target = ToDir(dir: Dir) | ToFile(data: Bytes) | UnreadableFile | Broken

  datatype Entry = Entry(name: string, target: Target)

  datatype Listing = Unreadable | Entries(entries: seq<Entry>)

  datatype FS = FS(dirs: map<Dir, Listing>)

  datatype Options = Options(includeNodeModules: bool, glob: Ignore.Glob, rules: seq<Ignore.Rule>)

  ghost predicate WellFormed(fs: FS) {
    forall d, e :: d in fs.dirs && Lists(fs, d, e) ==>
      && (e.target.ToDir? ==> e.target.dir in fs.dirs)
      && e.name != "" && '/' !in e.name
  }

  ghost predicate DistinctNames(fs: FS) {
    forall d, i, j :: d in fs.dirs && fs.dirs[d].Entries? && 0 <= i < j < |fs.dirs[d].entries|
      ==> fs.dirs[d].entries[i].name != fs.dirs[d].entries[j].name
  }

  ghost predicate Lists(fs: FS, d: Dir, e: Entry) {
    d in fs.dirs && fs.dirs[d].Entries? && e in fs.dirs[d].entries
  }

  // ---- Exclusion ----

  function Base(rel: Path): string
    requires rel != []
  {
    rel[|rel| - 1]
  }

  predicate ImplicitDirExclude(o: Options, rel: Path)
    requires rel != []
  {
    Base(rel) == ".git" || (!o.includeNodeModules && Base(rel) == "node_modules")
  }

  predicate ImplicitFileExclude(rel: Path)
    requires rel != []
  {
    Base(rel) == ".funcboxignore" || HasPrefix(Base(rel), ".env")
  }

  ghost predicate SkipsDir(o: Options, rel: Path)
    requires rel != []
  {
    ImplicitDirExclude(o, rel) || Ignore.Ignored(o.glob, o.rules, rel, true)
  }

  ghost predicate SkipsFile(o: Options, rel: Path)
    requires rel != []
  {
    ImplicitFileExclude(rel) || Ignore.Ignored(o.glob, o.rules, rel, false)
  }

  /** The matcher splits the joined path again; it gets the same segments back. */
  lemma {:induction false} RelSplitsBack(rel: Path)
    requires rel != [] && SepFree(rel, '/')
    ensures Split(Join(rel, '/'), '/') == rel
  {
    SplitOfJoin(rel, '/');
  }

  // ---- The walk ----

  /** What the walk meets, in order: a file to include, or an I/O error. */
  datatype Item = Found(file: File<Path>) | Trouble(path: Path)

  ghost function WalkDir(fs: FS, o: Options, dir: Dir, ancestors: set<Dir>, at: Path): seq<Item>
    requires WellFormed(fs) && dir in fs.dirs
    decreases fs.dirs.Keys - ancestors, 1, 0
  {
    match fs.dirs[dir]
    case Unreadable => [Trouble(at)]
    case Entries(es) =>
      assert forall e :: e in es ==> Lists(fs, dir, e);
      WalkEntries(fs, o, es, ancestors, at)
  }

  ghost predicate AllListed(fs: FS, es: seq<Entry>) {
    forall e :: e in es ==> e.target.ToDir? ==> e.target.dir in fs.dirs
  }

  ghost function WalkEntries(fs: FS, o: Options, es: seq<Entry>, ancestors: set<Dir>, at: Path): seq<Item>
    requires WellFormed(fs) && AllListed(fs, es)
    decreases fs.dirs.Keys - ancestors, 0, |es|
  {
    if es == [] then []
    else
      var n := |es| - 1;
      assert es[n] in es;
      WalkEntries(fs, o, es[..n], ancestors, at) + WalkEntry(fs, o, es[n], ancestors, at)
  }

  ghost function WalkEntry(fs: FS, o: Options, e: Entry, ancestors: set<Dir>, at: Path): seq<Item>
    requires WellFormed(fs) && (e.target.ToDir? ==> e.target.dir in fs.dirs)
    decreases fs.dirs.Keys - ancestors, 0, 0
  {
    var rel := at + [e.name];
    match e.target
    case Broken => [Trouble(rel)]
    case ToDir(sub) =>
      if SkipsDir(o, rel) || sub in ancestors then []
      else WalkDir(fs, o, sub, ancestors + {sub}, rel)
    case UnreadableFile => if SkipsFile(o, rel) then [] else [Trouble(rel)]
    case ToFile(data) => if SkipsFile(o, rel) then [] else [Found(File(rel, data))]
  }

  // ---- Absorbing items under the limits ----

  datatype Error = IOError(path: Path) | TooLarge(path: Path)
  datatype Outcome = Outcome(files: map<Path, Bytes>, total: nat, err: seq<Error>)

  function AbsorbOne(s: Outcome, item: Item): Outcome {
    match item
    case Trouble(p) => s.(err := [IOError(p)])
    case Found(f) =>
      var total := s.total + |f.data|;
      if |s.files| + 1 > MAX_FILES || total > MAX_BYTES then s.(total := total, err := [TooLarge(f.path)])
      else s.(files := s.files[f.path := f.data], total := total)
  }

  /** The first error stops everything. */
  function Absorb(s: Outcome, items: seq<Item>): Outcome {
    if items == [] then s
    else
      var before := Absorb(s, items[..|items| - 1]);
      if before.err != [] then before else AbsorbOne(before, items[|items| - 1])
  }

  lemma {:induction false} AbsorbAppend(s: Outcome, a: seq<Item>, b: seq<Item>)
    ensures Absorb(s, a + b) ==
              if Absorb(s, a).err != [] then Absorb(s, a) else Absorb(Absorb(s, a), b)
  {
    if b == [] {
      assert a + b == a;
    } else {
      assert (a + b)[..|a + b| - 1] == a + b[..|b| - 1];
      AbsorbAppend(s, a, b[..|b| - 1]);
    }
  }

  /** collectDir and its shared accumulators. */
  class Collector {
    const fs: FS
    const o: Options
    var files: map<Path, Bytes>
    var total: nat

    constructor (fs: FS, o: Options)
      ensures this.fs == fs && this.o == o && files == map[] && total == 0
    {
      this.fs, this.o, files, total := fs, o, map[], 0;
    }

    ghost predicate Is(s: Outcome)
      reads this
    {
      files == s.files && total == s.total
    }

    method CollectDir(dir: Dir, ancestors: set<Dir>, at: Path) returns (err: seq<Error>)
      requires WellFormed(fs) && dir in fs.dirs
      modifies this
      ensures var s := Absorb(old(Outcome(files, total, [])), WalkDir(fs, o, dir, ancestors, at));
        Is(s) && err == s.err
      decreases fs.dirs.Keys - ancestors, 1, 0
    {
      if fs.dirs[dir].Unreadable? {
        OneItem(Outcome(files, total, []), Trouble(at));
        return [IOError(at)];
      }
      assert forall e :: e in fs.dirs[dir].entries ==> Lists(fs, dir, e);
      err := CollectEntries(fs.dirs[dir].entries, ancestors, at);
    }

    /** The loop of collectDir. */
    method CollectEntries(es: seq<Entry>, ancestors: set<Dir>, at: Path) returns (err: seq<Error>)
      requires WellFormed(fs) && AllListed(fs, es)
      modifies this
      ensures var s := Absorb(old(Outcome(files, total, [])), WalkEntries(fs, o, es, ancestors, at));
        Is(s) && err == s.err
      decreases fs.dirs.Keys - ancestors, 0, 1
    {
      ghost var start := Outcome(files, total, []);
      for i := 0 to |es|
        invariant Outcome(files, total, []) == After(start, es, i, ancestors, at)
      {
        NextEntry(start, es, i, ancestors, at);
        var e := CollectEntry(es[i], ancestors, at);
        if e != [] {
          StopsEarly(start, es, i, ancestors, at);
          return e;
        }
      }
      assert es[..|es|] == es;
      err := [];
    }

    ghost function After(start: Outcome, es: seq<Entry>, i: nat, ancestors: set<Dir>, at: Path): Outcome
      requires WellFormed(fs) && AllListed(fs, es) && i <= |es|
    {
      Absorb(start, WalkEntries(fs, o, es[..i], ancestors, at))
    }

    lemma {:induction false} NextEntry(start: Outcome, es: seq<Entry>, i: nat, ancestors: set<Dir>, at: Path)
      requires WellFormed(fs) && AllListed(fs, es) && i < |es|
      requires After(start, es, i, ancestors, at).err == []
      ensures es[i].target.ToDir? ==> es[i].target.dir in fs.dirs
      ensures After(start, es, i + 1, ancestors, at)
              == Absorb(After(start, es, i, ancestors, at), WalkEntry(fs, o, es[i], ancestors, at))
    {
      assert es[i] in es && es[..i + 1][..i] == es[..i];
      AbsorbAppend(start, WalkEntries(fs, o, es[..i], ancestors, at), WalkEntry(fs, o, es[i], ancestors, at));
    }

    method CollectEntry(entry: Entry, ancestors: set<Dir>, at: Path) returns (err: seq<Error>)
      requires WellFormed(fs) && (entry.target.ToDir? ==> entry.target.dir in fs.dirs)
      modifies this
      ensures var s := Absorb(old(Outcome(files, total, [])), WalkEntry(fs, o, entry, ancestors, at));
        Is(s) && err == s.err
      decreases fs.dirs.Keys - ancestors, 0, 0
    {
      var rel := at + [entry.name];
      ghost var start := Outcome(files, total, []);
      OneItem(start, Trouble(rel));
      if entry.target.Broken? {
        return [IOError(rel)];
      }
      if entry.target.ToDir? {
        var ignored := Ignore.Match(o.glob, o.rules, rel, true);
        if ImplicitDirExclude(o, rel) || ignored || entry.target.dir in ancestors {
          return [];
        }
        err := CollectDir(entry.target.dir, ancestors + {entry.target.dir}, rel);
        return;
      }
      var ignored := Ignore.Match(o.glob, o.rules, rel, false);
      if ImplicitFileExclude(rel) || ignored {
        return [];
      }
      if entry.target.UnreadableFile? {
        return [IOError(rel)];
      }
      OneItem(start, Found(File(rel, entry.target.data)));
      total := total + |entry.target.data|;
      if |files| + 1 > MAX_FILES || total > MAX_BYTES {
        return [TooLarge(rel)];
      }
      files := files[rel := entry.target.data];
      err := [];
    }

    lemma {:induction false} OneItem(s: Outcome, item: Item)
      requires s.err == []
      ensures Absorb(s, [item]) == AbsorbOne(s, item)
    {
      assert [item][..0] == [];
    }

    /** Once an entry has failed, the remaining ones are not looked at. */
    lemma {:induction false} StopsEarly(start: Outcome, es: seq<Entry>, i: nat, ancestors: set<Dir>, at: Path)
      requires WellFormed(fs) && AllListed(fs, es) && i < |es|
      requires After(start, es, i + 1, ancestors, at).err != []
      ensures Absorb(start, WalkEntries(fs, o, es, ancestors, at)) == After(start, es, i + 1, ancestors, at)
      decreases |es|
    {
      var n := |es| - 1;
      if i == n {
        assert es[..i + 1] == es;
      } else {
        assert es[..n][..i + 1] == es[..i + 1];
        StopsEarly(start, es[..n], i, ancestors, at);
        AbsorbAppend(start, WalkEntries(fs, o, es[..n], ancestors, at), WalkEntry(fs, o, es[n], ancestors, at));
      }
    }
  }
}
