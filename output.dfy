/**
 * Where the generated file goes: the configured output directory is walked
 * under the module root's `lib` directory, one name at a time, reusing each
 * child that exists and creating each one that does not; then the file
 * `<fileName>.kt` is found or created in the directory reached.
 */
module Output {
  import opened Wrappers
  import opened Vfs
  import opened Text
  import opened Config

  /**
   * The names `getGeneratedFilePath` walks: a setting without a separator is
   * one name, used as it is; otherwise its non-empty pieces.
   */
  function DirNames(filePath: string): (names: seq<string>)
    ensures Separator in filePath ==> names == Segments(filePath)
    ensures Separator !in filePath ==> names == [filePath]
    ensures forall i | 0 <= i < |names| :: Separator !in names[i]
  {
    if Separator !in filePath then [filePath] else Segments(filePath)
  }

  /** `p` is one of the paths from `dir` along `names`, below `dir` itself. */
  predicate Along(dir: Path, names: seq<string>, p: Path) {
    |dir| < |p| <= |dir| + |names| && p == dir + names[..|p| - |dir|]
  }

  /**
   * The walk of `getGeneratedFilePath`: for each name, the child of the
   * current directory, found or created. It stops at the first failure.
   */
  function Walk(nodes: map<Path, Kind>, dir: Path, names: seq<string>): (s: Step)
    requires WellFormed(nodes)
    ensures WellFormed(s.nodes) && Grows(nodes, s.nodes)
    ensures s.result.Ok? ==> s.result.value == dir + names
    ensures s.result.Err? ==> s.result.fault == IoFailure
    decreases |names|
  {
    if names == [] then Step(Ok(dir), nodes)
    else
      var first := FindOrCreate(nodes, dir, names[0], Directory);
      if first.result.Err? then first
      else
        assert dir + [names[0]] + names[1..] == dir + names;
        Walk(first.nodes, dir + [names[0]], names[1..])
  }

  /** One step of the walk: the first name, then the rest from the child reached. */
  lemma WalkCons(nodes: map<Path, Kind>, dir: Path, name: string, rest: seq<string>)
    requires WellFormed(nodes)
    ensures var first := FindOrCreate(nodes, dir, name, Directory);
            Walk(nodes, dir, [name] + rest)
              == if first.result.Err? then first else Walk(first.nodes, dir + [name], rest)
  {
    assert ([name] + rest)[0] == name && ([name] + rest)[1..] == rest;
  }

  /** A successful walk leaves every directory along the way in the tree. */
  lemma {:induction false} WalkReaches(nodes: map<Path, Kind>, dir: Path, names: seq<string>)
    requires WellFormed(nodes)
    requires Walk(nodes, dir, names).result.Ok?
    ensures forall k | 0 < k <= |names| :: dir + names[..k] in Walk(nodes, dir, names).nodes
    decreases |names|
  {
    if names != [] {
      var first := FindOrCreate(nodes, dir, names[0], Directory);
      var child := dir + [names[0]];
      var s := Walk(first.nodes, child, names[1..]);
      assert s == Walk(nodes, dir, names);
      WalkReaches(first.nodes, child, names[1..]);
      forall k | 0 < k <= |names| ensures dir + names[..k] in s.nodes {
        if k == 1 {
          assert names[..1] == [names[0]];
        } else {
          assert dir + names[..k] == child + names[1..][..k - 1];
        }
      }
    }
  }

  /** A path in a well-formed tree has a directory as each of its proper prefixes. */
  lemma PrefixDirectory(nodes: map<Path, Kind>, dir: Path, names: seq<string>, k: nat)
    requires WellFormed(nodes) && k < |names| && dir + names[..k + 1] in nodes
    ensures IsDirectory(nodes, dir + names[..k])
  {
    assert dir + names[..k + 1] == (dir + names[..k]) + [names[k]];
    WellFormedChild(nodes, dir + names[..k], names[k]);
  }

  /** The walk creates only directories, and only along its own path. */
  lemma {:induction false} WalkCreatesAlong(nodes: map<Path, Kind>, dir: Path, names: seq<string>)
    requires WellFormed(nodes)
    ensures var s := Walk(nodes, dir, names);
            forall p | p in s.nodes && p !in nodes :: Along(dir, names, p) && s.nodes[p] == Directory
    decreases |names|
  {
    if names != [] {
      var first := FindOrCreate(nodes, dir, names[0], Directory);
      if first.result.Ok? {
        var child := dir + [names[0]];
        WalkCreatesAlong(first.nodes, child, names[1..]);
        var s := Walk(first.nodes, child, names[1..]);
        assert s == Walk(nodes, dir, names);
        forall p | p in s.nodes && p !in nodes
          ensures Along(dir, names, p) && s.nodes[p] == Directory
        {
          if p in first.nodes {
            assert p == child && first.nodes[p] == Directory;
            assert names[..1] == [names[0]];
          } else {
            assert Along(child, names[1..], p);
            assert names[..|p| - |dir|] == [names[0]] + names[1..][..|p| - |child|];
          }
        }
      }
    }
  }

  /** When every directory along the walk exists already, the walk creates nothing. */
  lemma {:induction false} WalkReuses(nodes: map<Path, Kind>, dir: Path, names: seq<string>)
    requires WellFormed(nodes)
    requires forall k | 0 < k <= |names| :: dir + names[..k] in nodes
    ensures Walk(nodes, dir, names) == Step(Ok(dir + names), nodes)
    decreases |names|
  {
    if names != [] {
      var child := dir + [names[0]];
      assert names[..1] == [names[0]];
      forall k | 0 < k <= |names[1..]| ensures child + names[1..][..k] in nodes {
        assert child + names[1..][..k] == dir + names[..k + 1];
      }
      WalkReuses(nodes, child, names[1..]);
      assert child + names[1..] == dir + names;
    }
  }

  /** A second walk from where the first one left the tree creates nothing new. */
  lemma WalkIdempotent(nodes: map<Path, Kind>, dir: Path, names: seq<string>)
    requires WellFormed(nodes)
    requires Walk(nodes, dir, names).result.Ok?
    ensures Walk(Walk(nodes, dir, names).nodes, dir, names) == Walk(nodes, dir, names)
  {
    WalkReaches(nodes, dir, names);
    WalkReuses(Walk(nodes, dir, names).nodes, dir, names);
  }

  /**
   * When a walk can succeed: every name is one the host accepts, the
   * starting point is a directory, and every node already on the way,
   * except the last, is a directory. A node that is missing is no obstacle:
   * the walk creates it.
   */
  predicate Walkable(nodes: map<Path, Kind>, dir: Path, names: seq<string>) {
    names == [] ||
    (&& IsDirectory(nodes, dir)
     && (forall i | 0 <= i < |names| :: ValidName(names[i]))
     && (forall k | 0 < k < |names| :: dir + names[..k] in nodes ==> nodes[dir + names[..k]] == Directory))
  }

  /** After a successful first step, the rest of the walk is walkable iff the whole one was. */
  lemma WalkableStep(nodes: map<Path, Kind>, dir: Path, names: seq<string>)
    requires WellFormed(nodes) && names != []
    requires FindOrCreate(nodes, dir, names[0], Directory).result.Ok?
    ensures var after := FindOrCreate(nodes, dir, names[0], Directory).nodes;
            Walkable(after, dir + [names[0]], names[1..]) <==> Walkable(nodes, dir, names)
  {
    var after := FindOrCreate(nodes, dir, names[0], Directory).nodes;
    var child := dir + [names[0]];
    var rest := names[1..];
    if child in nodes {
      WellFormedChild(nodes, dir, names[0]);
    }
    assert IsDirectory(nodes, dir) && ValidName(names[0]);
    assert names[..1] == [names[0]];
    assert forall i | 0 <= i < |rest| :: rest[i] == names[i + 1];
    forall k | 0 < k < |rest| ensures child + rest[..k] == dir + names[..k + 1] {
      assert names[..k + 1] == [names[0]] + rest[..k];
    }
    if Walkable(nodes, dir, names) && rest != [] {
      forall k | 0 < k < |rest| && child + rest[..k] in after
        ensures after[child + rest[..k]] == Directory
      {
        assert dir + names[..k + 1] in nodes;
      }
    }
    if Walkable(after, child, rest) && rest != [] {
      forall k | 0 < k < |names| && dir + names[..k] in nodes
        ensures nodes[dir + names[..k]] == Directory
      {
        if k > 1 {
          assert dir + names[..k] == child + rest[..k - 1];
        }
      }
      forall i | 0 <= i < |names| ensures ValidName(names[i]) {
        if i > 0 {
          assert names[i] == rest[i - 1];
        }
      }
    }
  }

  /** The walk succeeds exactly when the path is walkable from where it starts. */
  lemma {:induction false} WalkSucceeds(nodes: map<Path, Kind>, dir: Path, names: seq<string>)
    requires WellFormed(nodes)
    ensures Walk(nodes, dir, names).result.Ok? <==> Walkable(nodes, dir, names)
    decreases |names|
  {
    if names != [] {
      var first := FindOrCreate(nodes, dir, names[0], Directory);
      var child := dir + [names[0]];
      if child in nodes {
        WellFormedChild(nodes, dir, names[0]);
      }
      if first.result.Ok? {
        WalkSucceeds(first.nodes, child, names[1..]);
        WalkableStep(nodes, dir, names);
      } else {
        assert !(IsDirectory(nodes, dir) && ValidName(names[0]));
      }
    }
  }

  /** `getGeneratedFilePath`: the output directory under `lib`, found or created. */
  function GeneratedFilePathStep(nodes: map<Path, Kind>, config: ModuleGradleConfig,
                                 setting: PluginSetting, k: Constants): (s: Step)
    requires WellFormed(nodes)
    ensures WellFormed(s.nodes) && Grows(nodes, s.nodes)
    ensures config.pubRoot.lib.None? ==> s == Step(Err(NullLib), nodes)
    ensures config.pubRoot.lib.Some? && OutputDir(config, setting, k).Err? ==> s == Step(Err(CastFailure), nodes)
    ensures s.result.Ok? ==>
              && config.pubRoot.lib.Some? && OutputDir(config, setting, k).Ok?
              && s.result.value == config.pubRoot.lib.value + DirNames(OutputDir(config, setting, k).value)
  {
    match config.pubRoot.lib
    case None => Step(Err(NullLib), nodes)
    case Some(lib) =>
      match OutputDir(config, setting, k)
      case Err(e) => Step(Err(e), nodes)
      case Ok(filePath) => Walk(nodes, lib, DirNames(filePath))
  }

  /** `getGeneratedFile`: the file `<fileName>.kt` in the output directory, found or created. */
  function GeneratedFileStep(nodes: map<Path, Kind>, config: ModuleGradleConfig,
                             setting: PluginSetting, k: Constants): (s: Step)
    requires WellFormed(nodes)
    ensures WellFormed(s.nodes) && Grows(nodes, s.nodes)
    ensures config.pubRoot.lib.None? ==> s == Step(Err(NullLib), nodes)
    ensures config.pubRoot.lib.Some? && OutputDir(config, setting, k).Err? ==> s == Step(Err(CastFailure), nodes)
    ensures s.result.Ok? ==>
              && config.pubRoot.lib.Some? && OutputDir(config, setting, k).Ok?
              && s.result.value == config.pubRoot.lib.value + DirNames(OutputDir(config, setting, k).value)
                                   + [GeneratedFileName(config, setting, k) + ".kt"]
  {
    var dir := GeneratedFilePathStep(nodes, config, setting, k);
    match dir.result
    case Err(_) => dir
    case Ok(d) => FindOrCreate(dir.nodes, d, GeneratedFileName(config, setting, k) + ".kt", File)
  }

  /** One more name at the end: the walk so far, then one more find-or-create. */
  lemma {:induction false} WalkSnoc(nodes: map<Path, Kind>, dir: Path, names: seq<string>, name: string)
    requires WellFormed(nodes)
    ensures var w := Walk(nodes, dir, names);
            Walk(nodes, dir, names + [name])
              == if w.result.Err? then w else FindOrCreate(w.nodes, dir + names, name, Directory)
    decreases |names|
  {
    if names == [] {
      assert [] + [name] == [name];
      WalkCons(nodes, dir, name, []);
      assert dir + [] == dir && [name] + [] == [name];
    } else {
      var first := FindOrCreate(nodes, dir, names[0], Directory);
      assert (names + [name])[0] == names[0] && (names + [name])[1..] == names[1..] + [name];
      if first.result.Ok? {
        WalkSnoc(first.nodes, dir + [names[0]], names[1..], name);
        assert dir + [names[0]] + names[1..] == dir + names;
      }
    }
  }

  /**
   * When `getGeneratedFile` succeeds: `lib` is set, the output directory is
   * read, and the path to `<fileName>.kt` under `lib` is walkable. Every
   * missing directory on the way and the missing file are then created, so
   * a file that was not there before is there afterwards, as a file.
   */
  lemma GeneratedFileSucceeds(nodes: map<Path, Kind>, config: ModuleGradleConfig,
                              setting: PluginSetting, k: Constants)
    requires WellFormed(nodes)
    ensures GeneratedFileStep(nodes, config, setting, k).result.Ok? <==>
              && config.pubRoot.lib.Some? && OutputDir(config, setting, k).Ok?
              && Walkable(nodes, config.pubRoot.lib.value,
                          DirNames(OutputDir(config, setting, k).value) + [GeneratedFileName(config, setting, k) + ".kt"])
    ensures config.pubRoot.lib.Some? && OutputDir(config, setting, k).Ok? &&
            GeneratedFileStep(nodes, config, setting, k).result.Err? ==>
              GeneratedFileStep(nodes, config, setting, k).result == Err(IoFailure)
    ensures var s := GeneratedFileStep(nodes, config, setting, k);
            s.result.Ok? && s.result.value !in nodes ==> s.nodes[s.result.value] == File
  {
    if config.pubRoot.lib.Some? && OutputDir(config, setting, k).Ok? {
      var lib := config.pubRoot.lib.value;
      var names := DirNames(OutputDir(config, setting, k).value);
      var fileName := GeneratedFileName(config, setting, k) + ".kt";
      var w := Walk(nodes, lib, names);
      var s := GeneratedFileStep(nodes, config, setting, k);
      WalkSnoc(nodes, lib, names, fileName);
      WalkSucceeds(nodes, lib, names + [fileName]);
      if w.result.Ok? {
        var d := lib + names;
        assert s == FindOrCreate(w.nodes, d, fileName, File);
        assert s.result == FindOrCreate(w.nodes, d, fileName, Directory).result;
        WalkCreatesAlong(nodes, lib, names);
        if s.result.Ok? && s.result.value !in nodes {
          assert !Along(lib, names, d + [fileName]);
        }
      }
    }
  }

  /**
   * What a successful `getGeneratedFile` guarantees: the file sits at
   * `lib`, then the output directory's names, then `<fileName>.kt`; every
   * directory on the way exists as a directory; every node that existed is
   * kept as it was; and the only new nodes are those directories and the file.
   */
  lemma GeneratedFileLocation(nodes: map<Path, Kind>, config: ModuleGradleConfig,
                              setting: PluginSetting, k: Constants)
    requires WellFormed(nodes)
    requires GeneratedFileStep(nodes, config, setting, k).result.Ok?
    ensures config.pubRoot.lib.Some? && OutputDir(config, setting, k).Ok?
    ensures var lib := config.pubRoot.lib.value;
            var names := DirNames(OutputDir(config, setting, k).value);
            var fileName := GeneratedFileName(config, setting, k) + ".kt";
            var s := GeneratedFileStep(nodes, config, setting, k);
            && s.result.value == lib + names + [fileName]
            && s.result.value in s.nodes
            && (forall i | 0 <= i <= |names| :: IsDirectory(s.nodes, lib + names[..i]))
            && Grows(nodes, s.nodes)
            && (forall p | p in s.nodes && p !in nodes :: Along(lib, names + [fileName], p))
  {
    var lib := config.pubRoot.lib.value;
    var names := DirNames(OutputDir(config, setting, k).value);
    var fileName := GeneratedFileName(config, setting, k) + ".kt";
    var walk := Walk(nodes, lib, names);
    var s := GeneratedFileStep(nodes, config, setting, k);
    var d := lib + names;
    assert s == FindOrCreate(walk.nodes, d, fileName, File);
    WalkReaches(nodes, lib, names);
    WellFormedChild(s.nodes, d, fileName);
    forall i | 0 <= i <= |names| ensures IsDirectory(s.nodes, lib + names[..i]) {
      if i < |names| {
        PrefixDirectory(walk.nodes, lib, names, i);
      } else {
        assert names[..i] == names;
      }
    }
    GeneratedFileCreatesAlong(nodes, config, setting, k);
  }

  /**
   * Whatever the outcome, `getGeneratedFile` adds nothing off its own path:
   * every new node is a directory of the output path under `lib` or the
   * file `<fileName>.kt` at its end.
   */
  lemma GeneratedFileCreatesAlong(nodes: map<Path, Kind>, config: ModuleGradleConfig,
                                  setting: PluginSetting, k: Constants)
    requires WellFormed(nodes)
    requires config.pubRoot.lib.Some? && OutputDir(config, setting, k).Ok?
    ensures var names := DirNames(OutputDir(config, setting, k).value);
            var fileName := GeneratedFileName(config, setting, k) + ".kt";
            var s := GeneratedFileStep(nodes, config, setting, k);
            forall p | p in s.nodes && p !in nodes :: Along(config.pubRoot.lib.value, names + [fileName], p)
  {
    var lib := config.pubRoot.lib.value;
    var names := DirNames(OutputDir(config, setting, k).value);
    var fileName := GeneratedFileName(config, setting, k) + ".kt";
    var w := Walk(nodes, lib, names);
    var s := GeneratedFileStep(nodes, config, setting, k);
    WalkCreatesAlong(nodes, lib, names);
    assert (names + [fileName])[..|names|] == names;
    forall p | p in s.nodes && p !in nodes ensures Along(lib, names + [fileName], p) {
      if p in w.nodes {
        assert Along(lib, names, p);
        assert (names + [fileName])[..|p| - |lib|] == names[..|p| - |lib|];
      } else {
        assert w.result.Ok? && s == FindOrCreate(w.nodes, lib + names, fileName, File);
        assert p == lib + names + [fileName];
        assert (names + [fileName])[..|names| + 1] == names + [fileName];
      }
    }
  }

  /** Running `getGeneratedFile` again on the tree it left returns the same file and creates nothing. */
  lemma GeneratedFileIdempotent(nodes: map<Path, Kind>, config: ModuleGradleConfig,
                                setting: PluginSetting, k: Constants)
    requires WellFormed(nodes)
    requires GeneratedFileStep(nodes, config, setting, k).result.Ok?
    ensures var s := GeneratedFileStep(nodes, config, setting, k);
            GeneratedFileStep(s.nodes, config, setting, k) == s
  {
    GeneratedFileLocation(nodes, config, setting, k);
    var lib := config.pubRoot.lib.value;
    var names := DirNames(OutputDir(config, setting, k).value);
    var s := GeneratedFileStep(nodes, config, setting, k);
    forall i | 0 < i <= |names| ensures lib + names[..i] in s.nodes {
      assert IsDirectory(s.nodes, lib + names[..i]);
    }
    WalkReuses(s.nodes, lib, names);
  }

  /** The loop of `getGeneratedFilePath` skips an empty piece and walks any other. */
  lemma NonEmptyStep(pieces: seq<string>, i: nat)
    requires i < |pieces|
    ensures pieces[i] == "" ==> NonEmpty(pieces[i..]) == NonEmpty(pieces[i + 1..])
    ensures pieces[i] != "" ==> NonEmpty(pieces[i..]) == [pieces[i]] + NonEmpty(pieces[i + 1..])
  {
    assert pieces[i..][1..] == pieces[i + 1..];
    assert [] + NonEmpty(pieces[i + 1..]) == NonEmpty(pieces[i + 1..]);
  }

  /**
   * `getGeneratedFilePath` on the file tree: take `lib`, read the output
   * directory, and walk it, finding or creating one directory at a time.
   */
  method GeneratedFilePath(fs: FileTree, config: ModuleGradleConfig, setting: PluginSetting, k: Constants)
    returns (r: Result<Path>)
    requires fs.Valid()
    modifies fs
    ensures fs.Valid()
    ensures Step(r, fs.nodes) == GeneratedFilePathStep(old(fs.nodes), config, setting, k)
  {
    if config.pubRoot.lib.None? {
      return Err(NullLib);
    }
    var lib := config.pubRoot.lib.value;
    var dirSetting := OutputDir(config, setting, k);
    if dirSetting.Err? {
      return Err(dirSetting.fault);
    }
    var filePath := dirSetting.value;
    if Separator !in filePath {
      WalkCons(fs.nodes, lib, filePath, []);
      assert [filePath] + [] == [filePath];
      r := fs.FindOrCreateChild(lib, filePath, Directory);
      return;
    }
    var pieces := Split(filePath, Separator);
    r := WalkPieces(fs, lib, pieces);
  }

  /** The loop of `getGeneratedFilePath`: each non-empty piece, found or created under the last. */
  method WalkPieces(fs: FileTree, lib: Path, pieces: seq<string>) returns (r: Result<Path>)
    requires fs.Valid()
    modifies fs
    ensures fs.Valid()
    ensures Step(r, fs.nodes) == Walk(old(fs.nodes), lib, NonEmpty(pieces))
  {
    ghost var walk := Walk(fs.nodes, lib, NonEmpty(pieces));
    assert pieces[0..] == pieces;
    var file := lib;
    var i := 0;
    while i < |pieces|
      invariant 0 <= i <= |pieces|
      invariant fs.Valid()
      invariant Walk(fs.nodes, file, NonEmpty(pieces[i..])) == walk
    {
      var dir := pieces[i];
      NonEmptyStep(pieces, i);
      if dir != "" {
        WalkCons(fs.nodes, file, dir, NonEmpty(pieces[i + 1..]));
        var next := fs.FindOrCreateChild(file, dir, Directory);
        if next.Err? {
          return Err(next.fault);
        }
        file := next.value;
      }
      i := i + 1;
    }
    r := Ok(file);
  }

  /** `getGeneratedFile` on the file tree: the output directory, then the file in it. */
  method GeneratedFile(fs: FileTree, config: ModuleGradleConfig, setting: PluginSetting, k: Constants)
    returns (r: Result<Path>)
    requires fs.Valid()
    modifies fs
    ensures fs.Valid()
    ensures Step(r, fs.nodes) == GeneratedFileStep(old(fs.nodes), config, setting, k)
  {
    var dir := GeneratedFilePath(fs, config, setting, k);
    if dir.Err? {
      return dir;
    }
    var configName := GeneratedFileName(config, setting, k);
    r := fs.FindOrCreateChild(dir.value, configName + ".kt", File);
  }
}
