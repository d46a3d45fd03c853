/**
 * Per-module settings: each getter looks in the module's configuration
 * block first, then in the global plugin setting, then takes a hard-coded
 * default. How a wrongly typed module value is treated differs per getter,
 * following the Kotlin cast each one uses.
 */
module Config {
  import opened Wrappers
  import opened Vfs
  import opened Text

  /** A value of the parsed configuration document. */
  datatype Value =
    | Null
    | Bool(b: bool)
    | Str(s: string)
    | List(items: seq<Value>)
    | Dict(entries: map<string, Value>)
    | Other                               // numbers, dates and the like

  /** The global plugin setting (`PluginSetting.instance`). */
  datatype PluginSetting = PluginSetting(
    autoDetection: bool,
    namedWithParent: bool,
    className: Option<string>,
    filenameSplitPattern: Option<string>,
    filePath: Option<string>,
    fileName: Option<string>)

  /** The key names and hard-coded defaults the plugin's `Constants` object holds. */
  datatype Constants = Constants(
    configurationKey: string,
    autoDetectionKey: string,
    namedWithParentKey: string,
    classNameKey: string,
    splitPatternKey: string,
    pathIgnoreKey: string,
    outputDirKey: string,
    outputFilenameKey: string,
    defaultClassName: string,
    defaultSplitPattern: string,
    defaultOutputDir: string)

  /** A module's build root: the configuration file and its optional `lib` directory. */
  datatype GradleRoot = GradleRoot(gradle: string, lib: Option<Path>)

  /**
   * A project module as the host reports it: its directory, its build root
   * (present exactly for build modules) and what loading its configuration
   * file gave.
   */
  datatype Module = Module(
    name: string,
    dir: Option<Path>,
    gradleRoot: Option<GradleRoot>,
    loaded: Result<Value>)

  datatype ModuleGradleConfig = ModuleGradleConfig(
    ideModule: Module,
    pubRoot: GradleRoot,
    assetVFiles: seq<Path>,
    configMap: map<string, Value>)

  /** The document has a configuration block, and the block has an entry for `key`. */
  predicate HasEntry(m: map<string, Value>, k: Constants, key: string) {
    k.configurationKey in m && m[k.configurationKey].Dict? && key in m[k.configurationKey].entries
  }

  /** The module's configuration block maps `key` to `v`. */
  predicate Configured(m: map<string, Value>, k: Constants, key: string, v: Value) {
    HasEntry(m, k, key) && m[k.configurationKey].entries[key] == v
  }

  /** No usable entry: no block, a block that is not a map, no such key, or a null value. */
  predicate Unset(m: map<string, Value>, k: Constants, key: string) {
    !HasEntry(m, k, key) || Configured(m, k, key, Null)
  }

  /** The entry is there, but is neither null nor of the type `ok` accepts. */
  predicate Mistyped(m: map<string, Value>, k: Constants, key: string, ok: Value -> bool) {
    HasEntry(m, k, key) && !Unset(m, k, key) && !ok(m[k.configurationKey].entries[key])
  }

  /** `readSetting`: the module block's entry for `key`, or null. */
  function ReadSetting(config: ModuleGradleConfig, k: Constants, key: string): (v: Value)
    ensures v != Null ==> Configured(config.configMap, k, key, v)
    ensures Unset(config.configMap, k, key) <==> v == Null
    ensures HasEntry(config.configMap, k, key) ==> Configured(config.configMap, k, key, v)
  {
    if k.configurationKey in config.configMap && config.configMap[k.configurationKey].Dict? then
      var block := config.configMap[k.configurationKey].entries;
      if key in block then block[key] else Null
    else Null
  }

  predicate IsBool(v: Value) { v.Bool? }
  predicate IsStr(v: Value) { v.Str? }

  /** `x as Boolean? ?: fallback`: a value of another type is a cast failure. */
  function BoolOr(v: Value, fallback: bool): Result<bool> {
    match v
    case Null => Ok(fallback)
    case Bool(b) => Ok(b)
    case _ => Err(CastFailure)
  }

  /** `x as String? ?: fallback`: a value of another type is a cast failure. */
  function StrOr(v: Value, fallback: string): Result<string> {
    match v
    case Null => Ok(fallback)
    case Str(s) => Ok(s)
    case _ => Err(CastFailure)
  }

  function OptionOr(o: Option<string>, fallback: string): string {
    match o
    case Some(s) => s
    case None => fallback
  }

  /** `isAutoDetectionEnable`: the module's boolean, else the global setting. */
  function AutoDetectionEnabled(config: ModuleGradleConfig, setting: PluginSetting, k: Constants): (r: Result<bool>)
    ensures Unset(config.configMap, k, k.autoDetectionKey) ==> r == Ok(setting.autoDetection)
    ensures forall b :: Configured(config.configMap, k, k.autoDetectionKey, Bool(b)) ==> r == Ok(b)
    ensures r.Err? <==> Mistyped(config.configMap, k, k.autoDetectionKey, IsBool)
    ensures r.Err? ==> r.fault == CastFailure
  {
    BoolOr(ReadSetting(config, k, k.autoDetectionKey), setting.autoDetection)
  }

  /** `isNamedWithParent`: the module's boolean, else the global setting. */
  function NamedWithParent(config: ModuleGradleConfig, setting: PluginSetting, k: Constants): (r: Result<bool>)
    ensures Unset(config.configMap, k, k.namedWithParentKey) ==> r == Ok(setting.namedWithParent)
    ensures forall b :: Configured(config.configMap, k, k.namedWithParentKey, Bool(b)) ==> r == Ok(b)
    ensures r.Err? <==> Mistyped(config.configMap, k, k.namedWithParentKey, IsBool)
    ensures r.Err? ==> r.fault == CastFailure
  {
    BoolOr(ReadSetting(config, k, k.namedWithParentKey), setting.namedWithParent)
  }

  /** `getGeneratedClassName`: module string, else global class name, else the default. */
  function GeneratedClassName(config: ModuleGradleConfig, setting: PluginSetting, k: Constants): (r: Result<string>)
    ensures forall s :: Configured(config.configMap, k, k.classNameKey, Str(s)) ==> r == Ok(s)
    ensures Unset(config.configMap, k, k.classNameKey) && setting.className.Some? ==> r == Ok(setting.className.value)
    ensures Unset(config.configMap, k, k.classNameKey) && setting.className.None? ==> r == Ok(k.defaultClassName)
    ensures r.Err? <==> Mistyped(config.configMap, k, k.classNameKey, IsStr)
    ensures r.Err? ==> r.fault == CastFailure
  {
    StrOr(ReadSetting(config, k, k.classNameKey), OptionOr(setting.className, k.defaultClassName))
  }

  /**
   * `getGeneratedFileName`: module string, else global file name, else the
   * default class name in lower case. The safe cast `as?` lets a value of
   * another type fall through to the next tier, so this never fails.
   */
  function GeneratedFileName(config: ModuleGradleConfig, setting: PluginSetting, k: Constants): (r: string)
    ensures forall s :: Configured(config.configMap, k, k.outputFilenameKey, Str(s)) ==> r == s
    ensures !(exists s :: Configured(config.configMap, k, k.outputFilenameKey, Str(s))) ==>
              r == OptionOr(setting.fileName, Lowercase(k.defaultClassName))
  {
    match ReadSetting(config, k, k.outputFilenameKey)
    case Str(s) => s
    case _ => OptionOr(setting.fileName, Lowercase(k.defaultClassName))
  }

  /**
   * `getFilenameSplitPattern`: the first present tier, kept only when it
   * compiles as a regular expression. A mistyped module value throws inside
   * the `try`, so the default is returned without looking at the global
   * tier; a pattern that does not compile is replaced by the default too.
   */
  function FilenameSplitPattern(config: ModuleGradleConfig, setting: PluginSetting, k: Constants,
                                compiles: string -> bool): (r: string)
    ensures r == k.defaultSplitPattern || compiles(r)
    ensures forall s :: Configured(config.configMap, k, k.splitPatternKey, Str(s)) ==>
              r == if compiles(s) then s else k.defaultSplitPattern
    ensures Unset(config.configMap, k, k.splitPatternKey) ==>
              var global := OptionOr(setting.filenameSplitPattern, k.defaultSplitPattern);
              r == if compiles(global) then global else k.defaultSplitPattern
    ensures Mistyped(config.configMap, k, k.splitPatternKey, IsStr) ==> r == k.defaultSplitPattern
  {
    match StrOr(ReadSetting(config, k, k.splitPatternKey),
                OptionOr(setting.filenameSplitPattern, k.defaultSplitPattern))
    case Err(_) => k.defaultSplitPattern
    case Ok(pattern) => if compiles(pattern) then pattern else k.defaultSplitPattern
  }

  /**
   * `getPathIgnore`: the module's list, else the empty list; there is no
   * global tier, and a value that is not a list gives the empty list. The
   * cast to `List<String>` checks only that the value is a list.
   */
  function PathIgnore(config: ModuleGradleConfig, k: Constants): (r: seq<Value>)
    ensures forall items :: Configured(config.configMap, k, k.pathIgnoreKey, List(items)) ==> r == items
    ensures !(exists items :: Configured(config.configMap, k, k.pathIgnoreKey, List(items))) ==> r == []
  {
    match ReadSetting(config, k, k.pathIgnoreKey)
    case List(items) => items
    case _ => []
  }

  /** The output directory `getGeneratedFilePath` reads: module string, else global path, else the default. */
  function OutputDir(config: ModuleGradleConfig, setting: PluginSetting, k: Constants): (r: Result<string>)
    ensures forall s :: Configured(config.configMap, k, k.outputDirKey, Str(s)) ==> r == Ok(s)
    ensures Unset(config.configMap, k, k.outputDirKey) ==> r == Ok(OptionOr(setting.filePath, k.defaultOutputDir))
    ensures r.Err? <==> Mistyped(config.configMap, k, k.outputDirKey, IsStr)
    ensures r.Err? ==> r.fault == CastFailure
  {
    StrOr(ReadSetting(config, k, k.outputDirKey), OptionOr(setting.filePath, k.defaultOutputDir))
  }

  /** Without a usable configuration block every getter answers from the global setting or the default. */
  lemma NoBlockFallsBack(config: ModuleGradleConfig, setting: PluginSetting, k: Constants, compiles: string -> bool)
    requires k.configurationKey !in config.configMap || !config.configMap[k.configurationKey].Dict?
    ensures AutoDetectionEnabled(config, setting, k) == Ok(setting.autoDetection)
    ensures NamedWithParent(config, setting, k) == Ok(setting.namedWithParent)
    ensures GeneratedClassName(config, setting, k) == Ok(OptionOr(setting.className, k.defaultClassName))
    ensures GeneratedFileName(config, setting, k) == OptionOr(setting.fileName, Lowercase(k.defaultClassName))
    ensures var global := OptionOr(setting.filenameSplitPattern, k.defaultSplitPattern);
            FilenameSplitPattern(config, setting, k, compiles) == if compiles(global) then global else k.defaultSplitPattern
    ensures PathIgnore(config, k) == []
    ensures OutputDir(config, setting, k) == Ok(OptionOr(setting.filePath, k.defaultOutputDir))
  {
    assert !HasEntry(config.configMap, k, k.outputFilenameKey) && !HasEntry(config.configMap, k, k.pathIgnoreKey);
  }

  /**
   * The same mistyped entry is handled three ways: the file name falls
   * through to the global tier, the class name fails, and the split pattern
   * skips the global tier and takes the default.
   */
  lemma MistypedEntryHandling(config: ModuleGradleConfig, setting: PluginSetting, k: Constants,
                              compiles: string -> bool, v: Value)
    requires !v.Str? && v != Null
    requires Configured(config.configMap, k, k.outputFilenameKey, v)
    requires Configured(config.configMap, k, k.classNameKey, v)
    requires Configured(config.configMap, k, k.splitPatternKey, v)
    ensures GeneratedFileName(config, setting, k) == OptionOr(setting.fileName, Lowercase(k.defaultClassName))
    ensures GeneratedClassName(config, setting, k) == Err(CastFailure)
    ensures FilenameSplitPattern(config, setting, k, compiles) == k.defaultSplitPattern
  {
  }

  /** When the default pattern compiles, the split pattern always compiles. */
  lemma SplitPatternCompiles(config: ModuleGradleConfig, setting: PluginSetting, k: Constants, compiles: string -> bool)
    requires compiles(k.defaultSplitPattern)
    ensures compiles(FilenameSplitPattern(config, setting, k, compiles))
  {
  }
}
