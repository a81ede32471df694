/** When collecting fails: exactly which listed entries stop the walk. */
module CollectTrouble {
  import opened Common
  import opened Sizes
  import opened Collect
  import opened CollectMeaning

  /** The walk enters one directory after another, by these names, none of them twice. */
  ghost predicate Enters(fs: FS, o: Options, ancestors: set<Dir>, at: Path, dirs: seq<Dir>, names: Path)
    decreases |names|
  {
    && |dirs| == |names| + 1
    && (names != [] ==>
          && HasEntry(fs, dirs[0], names[0], ToDir(dirs[1])) && EntersDir(o, at + [names[0]]) && dirs[1] !in ancestors
          && Enters(fs, o, ancestors + {dirs[1]}, at + [names[0]], dirs[1..], names[1..]))
  }

  /** In directory d, reached by a path, something at p stops the walk: the directory cannot be read,
      or a link in it is broken, or a file in it that would be taken cannot be read. */
  ghost predicate Stops(fs: FS, o: Options, d: Dir, path: Path, p: Path)
    requires d in fs.dirs
  {
    || (fs.dirs[d].Unreadable? && p == path)
    || exists name :: p == path + [name] && StopsAt(fs, o, d, name, p)
  }

  ghost predicate StopsAt(fs: FS, o: Options, d: Dir, name: string, p: Path)
    requires p != []
  {
    HasEntry(fs, d, name, Broken) || (HasEntry(fs, d, name, UnreadableFile) && TakesFile(o, p))
  }

  lemma {:induction false} EntersStays(fs: FS, o: Options, ancestors: set<Dir>, at: Path, dirs: seq<Dir>, names: Path)
    requires WellFormed(fs) && Enters(fs, o, ancestors, at, dirs, names) && dirs[0] in fs.dirs
    ensures dirs[|names|] in fs.dirs
    decreases |names|
  {
    if names != [] {
      var e :| Lists(fs, dirs[0], e) && e.name == names[0] && e.target == ToDir(dirs[1]);
      EntersStays(fs, o, ancestors + {dirs[1]}, at + [names[0]], dirs[1..], names[1..]);
    }
  }

  lemma {:induction false} EntersCons(fs: FS, o: Options, ancestors: set<Dir>, at: Path, dir: Dir, name: string,
                                      dirs: seq<Dir>, names: Path)
    requires dirs != [] && HasEntry(fs, dir, name, ToDir(dirs[0])) && EntersDir(o, at + [name])
    requires dirs[0] !in ancestors && Enters(fs, o, ancestors + {dirs[0]}, at + [name], dirs, names)
    ensures Enters(fs, o, ancestors, at, [dir] + dirs, [name] + names)
  {
    assert ([dir] + dirs)[1..] == dirs && ([name] + names)[1..] == names;
  }

  /** Trouble the walk meets is where some directory it enters stops it. */
  lemma {:induction false} TroubleIsReached(fs: FS, o: Options, dir: Dir, ancestors: set<Dir>, at: Path, p: Path)
    returns (dirs: seq<Dir>, names: Path)
    requires WellFormed(fs) && dir in fs.dirs && Trouble(p) in WalkDir(fs, o, dir, ancestors, at)
    ensures Enters(fs, o, ancestors, at, dirs, names) && dirs[0] == dir && dirs[|names|] in fs.dirs
    ensures Stops(fs, o, dirs[|names|], at + names, p)
    decreases fs.dirs.Keys - ancestors
  {
    dirs, names := [dir], [];
    assert at + [] == at;
    if fs.dirs[dir].Entries? {
      var e := TroublingEntry(fs, o, dir, ancestors, at, p);
      SkipsIff(o, at + [e.name]);
      assert HasEntry(fs, dir, e.name, e.target);
      if e.target.ToDir? {
        var sub := e.target.dir;
        dirs, names := TroubleIsReached(fs, o, sub, ancestors + {sub}, at + [e.name], p);
        EntersCons(fs, o, ancestors, at, dir, e.name, dirs, names);
        assert at + [e.name] + names == at + ([e.name] + names);
        dirs, names := [dir] + dirs, [e.name] + names;
      } else {
        assert StopsAt(fs, o, dir, e.name, at + [e.name]);
      }
    }
  }

  lemma {:induction false} TroublingEntry(fs: FS, o: Options, dir: Dir, ancestors: set<Dir>, at: Path, p: Path)
    returns (e: Entry)
    requires WellFormed(fs) && dir in fs.dirs && fs.dirs[dir].Entries?
    requires Trouble(p) in WalkDir(fs, o, dir, ancestors, at)
    ensures Lists(fs, dir, e) && (e.target.ToDir? ==> e.target.dir in fs.dirs)
    ensures Trouble(p) in WalkEntry(fs, o, e, ancestors, at)
  {
    var es := fs.dirs[dir].entries;
    assert forall e :: e in es ==> Lists(fs, dir, e);
    InWalkEntries(fs, o, es, ancestors, at, Trouble(p));
    e :| e in es && Trouble(p) in WalkEntry(fs, o, e, ancestors, at);
  }

  lemma {:induction false} EntryTroubles(fs: FS, o: Options, dir: Dir, ancestors: set<Dir>, at: Path, e: Entry, p: Path)
    requires WellFormed(fs) && dir in fs.dirs && Lists(fs, dir, e) && (e.target.ToDir? ==> e.target.dir in fs.dirs)
    requires Trouble(p) in WalkEntry(fs, o, e, ancestors, at)
    ensures Trouble(p) in WalkDir(fs, o, dir, ancestors, at)
  {
    var es := fs.dirs[dir].entries;
    assert forall e :: e in es ==> Lists(fs, dir, e);
    InWalkEntries(fs, o, es, ancestors, at, Trouble(p));
  }

  /** What stops the walk in a directory it enters is trouble it meets. */
  lemma {:induction false} ReachedIsTrouble(fs: FS, o: Options, ancestors: set<Dir>, at: Path, dirs: seq<Dir>,
                                            names: Path, p: Path)
    requires WellFormed(fs) && Enters(fs, o, ancestors, at, dirs, names) && dirs[0] in fs.dirs
    requires dirs[|names|] in fs.dirs && Stops(fs, o, dirs[|names|], at + names, p)
    ensures Trouble(p) in WalkDir(fs, o, dirs[0], ancestors, at)
    decreases |names|
  {
    if names != [] {
      var e :| Lists(fs, dirs[0], e) && e.name == names[0] && e.target == ToDir(dirs[1]);
      assert at + [names[0]] + names[1..] == at + names;
      ReachedIsTrouble(fs, o, ancestors + {dirs[1]}, at + [names[0]], dirs[1..], names[1..], p);
      SkipsIff(o, at + [names[0]]);
      EntryTroubles(fs, o, dirs[0], ancestors, at, e, p);
    } else {
      assert at + [] == at;
      StoppedHere(fs, o, dirs[0], ancestors, at, p);
    }
  }

  lemma {:induction false} StoppedHere(fs: FS, o: Options, dir: Dir, ancestors: set<Dir>, at: Path, p: Path)
    requires WellFormed(fs) && dir in fs.dirs && Stops(fs, o, dir, at, p)
    ensures Trouble(p) in WalkDir(fs, o, dir, ancestors, at)
  {
    if !(fs.dirs[dir].Unreadable? && p == at) {
      var name :| p == at + [name] && StopsAt(fs, o, dir, name, p);
      SkipsIff(o, p);
      var e :| Lists(fs, dir, e) && e.name == name
               && (e.target == Broken || (e.target == UnreadableFile && TakesFile(o, p)));
      EntryTroubles(fs, o, dir, ancestors, at, e, p);
    }
  }

  /** Some directory that is entered from the root stops the walk at p. */
  ghost predicate Stopped(fs: FS, o: Options, root: Dir, p: Path) {
    exists dirs, names ::
      && Enters(fs, o, {root}, [], dirs, names) && dirs[0] == root
      && dirs[|names|] in fs.dirs && Stops(fs, o, dirs[|names|], names, p)
  }

  lemma {:induction false} TroubleIffStopped(fs: FS, o: Options, root: Dir, p: Path)
    requires WellFormed(fs) && root in fs.dirs
    ensures Trouble(p) in Walk(fs, o, root) <==> Stopped(fs, o, root, p)
  {
    if Trouble(p) in Walk(fs, o, root) {
      var dirs, names := TroubleIsReached(fs, o, root, {root}, [], p);
      assert [] + names == names;
    }
    if Stopped(fs, o, root, p) {
      var dirs, names :| Enters(fs, o, {root}, [], dirs, names) && dirs[0] == root
                         && dirs[|names|] in fs.dirs && Stops(fs, o, dirs[|names|], names, p);
      assert [] + names == names;
      ReachedIsTrouble(fs, o, {root}, [], dirs, names, p);
    }
  }

  lemma {:induction false} TroubleFails(items: seq<Item>)
    requires HasTrouble(items)
    ensures Absorb(FRESH, items).err != []
  {
    var front, last := items[..|items| - 1], items[|items| - 1];
    if !last.Trouble? {
      assert items == front + [last];
      TroubleFails(front);
    }
  }

  /** Collecting succeeds if and only if nothing stops the walk and the files fit; and then the map
      holds exactly the collectable files. */
  lemma {:induction false} CollectSucceedsIff(fs: FS, o: Options, root: Dir)
    requires WellFormed(fs) && DistinctNames(fs) && root in fs.dirs
    ensures NoTrouble(Walk(fs, o, root)) <==> forall p :: !Stopped(fs, o, root, p)
    ensures var r := Absorb(FRESH, Walk(fs, o, root));
      && (r.err == [] <==> NoTrouble(Walk(fs, o, root)) && Fits(Files(Walk(fs, o, root))))
      && (r.err == [] ==> forall p, d :: Has(r.files, p, d) <==> Collectable(fs, o, root, File(p, d)))
  {
    var items := Walk(fs, o, root);
    TroubleIff(items);
    if p :| Stopped(fs, o, root, p) {
      TroubleIffStopped(fs, o, root, p);
      TroubleFails(items);
    } else {
      forall p ensures Trouble(p) !in items {
        TroubleIffStopped(fs, o, root, p);
      }
      assert NoTrouble(items);
      CollectResult(fs, o, root);
    }
  }
}
