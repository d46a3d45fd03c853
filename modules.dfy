/**
 * Which modules of a project the plugin serves: the build modules whose
 * directory is known and whose configuration file loads as a map, each
 * with the asset roots its declared paths select.
 */
module Modules {
  import opened Wrappers
  import opened Vfs
  import opened Assets
  import opened Config
  import opened Seqs

  /**
   * `getGradleConfig`: the configuration of one module, or nothing. Every
   * failure on the way (no directory, not a build module, the file does not
   * load, the document is not a map, an asset root cannot be created) gives
   * nothing, since `getGradleConfig` catches every exception and returns null.
   */
  function GradleConfig(nodes: map<Path, Kind>, m: Module, declared: seq<string>): (r: Option<ModuleGradleConfig>)
    requires WellFormed(nodes)
    ensures r.Some? <==>
              && m.dir.Some? && m.gradleRoot.Some?
              && m.loaded.Ok? && m.loaded.value.Dict?
              && AssetRoots(nodes, m.dir.value, declared).Ok?
    ensures r.Some? ==> r.value == ModuleGradleConfig(m, m.gradleRoot.value,
                                                      AssetRoots(nodes, m.dir.value, declared).value,
                                                      m.loaded.value.entries)
  {
    if m.dir.None? || m.gradleRoot.None? then None
    else if m.loaded.Err? || !m.loaded.value.Dict? then None
    else
      match AssetRoots(nodes, m.dir.value, declared)
      case Ok(assetVFiles) => Some(ModuleGradleConfig(m, m.gradleRoot.value, assetVFiles, m.loaded.value.entries))
      case Err(_) => None
  }

  /** `allModules().filter { it.isGradleModule() }`: the build modules, in order. */
  function GradleModules(modules: seq<Module>): (r: seq<Module>)
    ensures |r| <= |modules|
    ensures forall i | 0 <= i < |r| :: r[i].gradleRoot.Some?
  {
    if modules == [] then []
    else (if modules[0].gradleRoot.Some? then [modules[0]] else []) + GradleModules(modules[1..])
  }

  /** The filter keeps exactly the build modules. */
  lemma {:induction false} GradleModulesMember(modules: seq<Module>, m: Module)
    ensures m in GradleModules(modules) <==> m in modules && m.gradleRoot.Some?
  {
    if modules != [] {
      GradleModulesMember(modules[1..], m);
      assert modules == [modules[0]] + modules[1..];
    }
  }

  /** Some module of the list is a build module. */
  lemma AnyGradleModule(modules: seq<Module>)
    ensures (exists i | 0 <= i < |modules| :: modules[i].gradleRoot.Some?) <==> GradleModules(modules) != []
  {
    if exists i | 0 <= i < |modules| :: modules[i].gradleRoot.Some? {
      var i :| 0 <= i < |modules| && modules[i].gradleRoot.Some?;
      GradleModulesMember(modules, modules[i]);
    }
    if GradleModules(modules) != [] {
      var m := GradleModules(modules)[0];
      GradleModulesMember(modules, m);
      var i :| 0 <= i < |modules| && modules[i] == m;
    }
  }

  /**
   * `shouldActivateFor`: some module of the project is a build module, that
   * is, `getResources` has at least one module to look at.
   */
  predicate ShouldActivate(modules: seq<Module>): (active: bool)
    ensures active <==> GradleModules(modules) != []
  {
    AnyGradleModule(modules);
    exists i | 0 <= i < |modules| :: modules[i].gradleRoot.Some?
  }

  /**
   * A configuration `getGradleConfig` can return: its module has a directory
   * and is a build module whose root is the configuration's `pubRoot`.
   */
  predicate Serves(c: ModuleGradleConfig) {
    c.ideModule.dir.Some? && c.ideModule.gradleRoot == Some(c.pubRoot)
  }

  /** What one module adds to the result of `getResources`. */
  function Found(nodes: map<Path, Kind>, m: Module, declared: seq<string>): (r: seq<ModuleGradleConfig>)
    requires WellFormed(nodes)
    ensures |r| <= 1
    ensures forall i | 0 <= i < |r| :: Serves(r[i])
  {
    if m.dir.Some? then
      match GradleConfig(nodes, m, declared)
      case Some(config) => [config]
      case None => []
    else []
  }

  /** The loop of `getResources` over the build modules, as a fold from the left. */
  function Collect(nodes: map<Path, Kind>, modules: seq<Module>, declared: seq<string>): (r: seq<ModuleGradleConfig>)
    requires WellFormed(nodes)
    ensures |r| <= |modules|
    ensures forall i | 0 <= i < |r| :: Serves(r[i])
    decreases |modules|
  {
    if modules == [] then []
    else Collect(nodes, modules[..|modules| - 1], declared) + Found(nodes, modules[|modules| - 1], declared)
  }

  /** One more module: the loop's next step. */
  lemma CollectStep(nodes: map<Path, Kind>, modules: seq<Module>, declared: seq<string>, i: nat)
    requires WellFormed(nodes) && i < |modules|
    ensures Collect(nodes, modules[..i + 1], declared)
              == Collect(nodes, modules[..i], declared) + Found(nodes, modules[i], declared)
  {
    assert modules[..i + 1][..i] == modules[..i];
  }

  /** `getResources`: the configurations of the build modules, in the project's module order. */
  function Resources(nodes: map<Path, Kind>, modules: seq<Module>, declared: seq<string>): (r: seq<ModuleGradleConfig>)
    requires WellFormed(nodes)
    ensures |r| <= |modules|
    ensures forall i | 0 <= i < |r| :: Serves(r[i])
  {
    Collect(nodes, GradleModules(modules), declared)
  }

  lemma {:induction false} GradleModulesAppend(a: seq<Module>, b: seq<Module>)
    ensures GradleModules(a + b) == GradleModules(a) + GradleModules(b)
    decreases |a|
  {
    if a != [] {
      GradleModulesAppend(a[1..], b);
      assert (a + b)[1..] == a[1..] + b;
    } else {
      assert a + b == b;
    }
  }

  lemma CollectSnoc(nodes: map<Path, Kind>, s: seq<Module>, m: Module, declared: seq<string>)
    requires WellFormed(nodes)
    ensures Collect(nodes, s + [m], declared) == Collect(nodes, s, declared) + Found(nodes, m, declared)
  {
    var t := s + [m];
    assert t[..|t| - 1] == s && t[|t| - 1] == m;
  }

  /** The loop keeps order: the modules of `a` contribute before those of `b`. */
  lemma {:induction false} CollectAppend(nodes: map<Path, Kind>, a: seq<Module>, b: seq<Module>, declared: seq<string>)
    requires WellFormed(nodes)
    ensures Collect(nodes, a + b, declared) == Collect(nodes, a, declared) + Collect(nodes, b, declared)
    decreases |b|
  {
    if b == [] {
      assert a + b == a;
    } else {
      var b', last := b[..|b| - 1], b[|b| - 1];
      SnocSplit(a, b);
      CollectAppend(nodes, a, b', declared);
      CollectSnoc(nodes, a + b', last, declared);
      CollectSnoc(nodes, b', last, declared);
      Assoc(Collect(nodes, a, declared), Collect(nodes, b', declared), Found(nodes, last, declared));
    }
  }

  /** `getResources` keeps the project's module order. */
  lemma ResourcesAppend(nodes: map<Path, Kind>, a: seq<Module>, b: seq<Module>, declared: seq<string>)
    requires WellFormed(nodes)
    ensures Resources(nodes, a + b, declared) == Resources(nodes, a, declared) + Resources(nodes, b, declared)
  {
    GradleModulesAppend(a, b);
    CollectAppend(nodes, GradleModules(a), GradleModules(b), declared);
  }

  /** A configuration is collected exactly when one of the modules has it and a known directory. */
  lemma {:induction false} CollectMembers(nodes: map<Path, Kind>, modules: seq<Module>, declared: seq<string>, c: ModuleGradleConfig)
    requires WellFormed(nodes)
    ensures c in Collect(nodes, modules, declared) <==>
              exists i | 0 <= i < |modules| :: modules[i].dir.Some? && GradleConfig(nodes, modules[i], declared) == Some(c)
    decreases |modules|
  {
    if modules != [] {
      var init := modules[..|modules| - 1];
      var last := modules[|modules| - 1];
      CollectMembers(nodes, init, declared, c);
      var found := Found(nodes, last, declared);
      assert Collect(nodes, modules, declared) == Collect(nodes, init, declared) + found;
      assert c in found <==> last.dir.Some? && GradleConfig(nodes, last, declared) == Some(c);
      if c in Collect(nodes, init, declared) {
        var i :| 0 <= i < |init| && init[i].dir.Some? && GradleConfig(nodes, init[i], declared) == Some(c);
        assert modules[i] == init[i];
      }
      if exists i | 0 <= i < |modules| :: modules[i].dir.Some? && GradleConfig(nodes, modules[i], declared) == Some(c) {
        var i :| 0 <= i < |modules| && modules[i].dir.Some? && GradleConfig(nodes, modules[i], declared) == Some(c);
        if i < |init| {
          assert init[i] == modules[i];
        }
      }
    }
  }

  /**
   * `getResources` returns a configuration exactly when it belongs to a
   * build module of the project with a known directory and a configuration.
   */
  lemma ResourcesMembers(nodes: map<Path, Kind>, modules: seq<Module>, declared: seq<string>, c: ModuleGradleConfig)
    requires WellFormed(nodes)
    ensures c in Resources(nodes, modules, declared) <==>
              exists m | m in modules :: m.dir.Some? && GradleConfig(nodes, m, declared) == Some(c)
  {
    var gm := GradleModules(modules);
    CollectMembers(nodes, gm, declared, c);
    if c in Resources(nodes, modules, declared) {
      var i :| 0 <= i < |gm| && gm[i].dir.Some? && GradleConfig(nodes, gm[i], declared) == Some(c);
      GradleModulesMember(modules, gm[i]);
    }
    if exists m | m in modules :: m.dir.Some? && GradleConfig(nodes, m, declared) == Some(c) {
      var m :| m in modules && m.dir.Some? && GradleConfig(nodes, m, declared) == Some(c);
      GradleModulesMember(modules, m);
      var i :| 0 <= i < |gm| && gm[i] == m;
    }
  }

  /** The fold over modules that are all directories of the tree serves none of them. */
  lemma {:induction false} HardCodedCollectEmpty(nodes: map<Path, Kind>, modules: seq<Module>)
    requires WellFormed(nodes)
    requires forall i | 0 <= i < |modules| && modules[i].dir.Some? :: IsDirectory(nodes, modules[i].dir.value)
    ensures Collect(nodes, modules, DeclaredResources) == []
    decreases |modules|
  {
    if modules != [] {
      var last := modules[|modules| - 1];
      HardCodedCollectEmpty(nodes, modules[..|modules| - 1]);
      if last.dir.Some? {
        HardCodedDeclarationAborts(nodes, last.dir.value);
      }
    }
  }

  /**
   * With the declaration `getGradleConfig` hard-codes, no module whose
   * directory is a directory of the tree is ever served: its one asset root
   * cannot be created, and the exception makes its configuration null.
   */
  lemma HardCodedResourcesEmpty(nodes: map<Path, Kind>, modules: seq<Module>)
    requires WellFormed(nodes)
    requires forall i | 0 <= i < |modules| && modules[i].dir.Some? :: IsDirectory(nodes, modules[i].dir.value)
    ensures Resources(nodes, modules, DeclaredResources) == []
  {
    var gm := GradleModules(modules);
    forall i | 0 <= i < |gm| && gm[i].dir.Some?
      ensures IsDirectory(nodes, gm[i].dir.value)
    {
      GradleModulesMember(modules, gm[i]);
      var j :| 0 <= j < |modules| && modules[j] == gm[i];
    }
    HardCodedCollectEmpty(nodes, gm);
  }

  /** `getGradleConfig` on the file tree. */
  method GetGradleConfig(fs: FileTree, m: Module, declared: seq<string>) returns (r: Option<ModuleGradleConfig>)
    requires fs.Valid()
    modifies fs
    ensures fs.Valid() && fs.nodes == old(fs.nodes)
    ensures r == GradleConfig(old(fs.nodes), m, declared)
  {
    if m.dir.None? || m.gradleRoot.None? {
      return None;
    }
    var moduleDir := m.dir.value;
    var pubConfigMap := m.loaded;
    if pubConfigMap.Err? || !pubConfigMap.value.Dict? {
      return None;
    }
    var assetVFiles := SelectAssetRoots(fs, moduleDir, declared);
    if assetVFiles.Err? {
      return None;
    }
    r := Some(ModuleGradleConfig(m, m.gradleRoot.value, assetVFiles.value, pubConfigMap.value.entries));
  }

  /** The body of the loop of `getResources`: add the module's configuration, if it has one. */
  method AddModule(fs: FileTree, folders: seq<ModuleGradleConfig>, m: Module, declared: seq<string>)
    returns (folders': seq<ModuleGradleConfig>)
    requires fs.Valid()
    modifies fs
    ensures fs.Valid() && fs.nodes == old(fs.nodes)
    ensures folders' == folders + Found(old(fs.nodes), m, declared)
  {
    folders' := folders;
    if m.dir.Some? {
      var config := GetGradleConfig(fs, m, declared);
      if config.Some? {
        folders' := folders + [config.value];
      }
    }
  }

  /** `getResources` on the file tree: one configuration per served module, in order. */
  method GetResources(fs: FileTree, modules: seq<Module>, declared: seq<string>) returns (folders: seq<ModuleGradleConfig>)
    requires fs.Valid()
    modifies fs
    ensures fs.Valid() && fs.nodes == old(fs.nodes)
    ensures folders == Resources(old(fs.nodes), modules, declared)
  {
    ghost var nodes := fs.nodes;
    var gradleModules := GradleModules(modules);
    folders := [];
    var i := 0;
    while i < |gradleModules|
      invariant 0 <= i <= |gradleModules|
      invariant fs.Valid() && fs.nodes == nodes
      invariant folders == Collect(nodes, gradleModules[..i], declared)
    {
      CollectStep(nodes, gradleModules, declared, i);
      folders := AddModule(fs, folders, gradleModules[i], declared);
      i := i + 1;
    }
    assert gradleModules[..i] == gradleModules;
  }
}
