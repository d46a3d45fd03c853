# FileHelperNew, modelled in Dafny

This project models the per-module configuration and path logic of the
KobwebResourceGenerator IDE plugin (`FileHelperNew`). It covers five parts:

- **Tiered setting resolution.** Every setting is read from the module's
  configuration block, then from the global plugin setting, then from a
  hard-coded default. Each key has its own rule for a value of the wrong
  type.
- **Asset-root selection.** The loop in `getGradleConfig` resolves each
  declared path in the module directory and skips the ones that are
  missing. A directory becomes the module child named by the path's first
  segment, found or created. The result is an ordered list with no
  duplicates.
- **Output location.** `getGeneratedFilePath` walks the output directory
  under the module root's `lib` directory, reusing or creating one
  directory per non-empty segment. `getGeneratedFile` then finds or
  creates `<fileName>.kt` there.
- **Module discovery.** `getResources` keeps the build modules in project
  order. It drops those with no directory or no configuration.
  `getGradleConfig` turns every failure into "no configuration".
- **The host file tree.** The tree is a map from paths (sequences of
  names) to node kinds. It comes with a well-formedness invariant: every
  node has a valid name and a directory as its parent. It also has the
  host's find-child and create-child operations, in a `FileTree` class
  whose methods update the map in place.

Files:

| file | module | what |
|---|---|---|
| `wrappers.dfy` | `Wrappers` | `Option`, `Result`, and the failures (`Fault`) |
| `seqs.dfy` | `Seqs` | two sequence facts the proofs cite |
| `vfs.dfy` | `Vfs` | paths, the well-formed tree, `FindOrCreate`, the `FileTree` class |
| `text.dfy` | `Text` | `indexOf`, the first segment, `split`/join, non-empty segments, ASCII `lowercase` |
| `config.dfy` | `Config` | configuration values, global setting, key names, `readSetting` and the getters |
| `assets.dfy` | `Assets` | path resolution, the asset-root loop and its specification |
| `output.dfy` | `Output` | output-directory walk and output file |
| `modules.dfy` | `Modules` | `getGradleConfig`, `getResources`, `shouldActivateFor` |

The imperative parts are module-level methods that take a `FileTree` and
work on its nodes through the class's own methods. Each is proved equal to
a pure function of the tree before the call:

- `Assets.SelectAssetRoots`
- `Output.GeneratedFilePath`
- `Output.GeneratedFile`
- `Modules.GetGradleConfig`
- `Modules.GetResources`

The properties are proved about those functions.

Not every getter falls back on a mistyped value. The file name (`as?`),
the split pattern and the ignore list (`try`) do. The two booleans, the
class name and the output directory use the unchecked cast `as T?` with no
`try` (FileHelperNew.kt:108, :115, :123, :165). A mistyped value there
throws, and the model returns `Err(CastFailure)`. A failed directory or
file creation in `getGeneratedFilePath` and `getGeneratedFile` escapes,
and the model returns `Err(IoFailure)`.

## Model

| member | source | states |
|---|---|---|
| Config.ReadSetting | src/main/java/com/funyin/plugin/utils/FileHelperNew.kt:97-102 | The result is null exactly when the configuration block is missing, is not a map, lacks the key, or maps it to null. Otherwise it is the block's entry for the key. |
| Config.AutoDetectionEnabled | src/main/java/com/funyin/plugin/utils/FileHelperNew.kt:107-109 | Unset gives the global setting. A configured boolean gives that boolean. It fails with a cast failure exactly when the entry is present, non-null and not a boolean. |
| Config.NamedWithParent | src/main/java/com/funyin/plugin/utils/FileHelperNew.kt:114-117 | The same three cases for the named-with-parent key. |
| Config.GeneratedClassName | src/main/java/com/funyin/plugin/utils/FileHelperNew.kt:122-125 | The module's string wins. Unset gives the global class name, or else the default. It fails exactly on a mistyped entry, and then with a cast failure. |
| Config.GeneratedFileName | src/main/java/com/funyin/plugin/utils/FileHelperNew.kt:200-202 | The module's string wins. Anything else, including a mistyped value, gives the global file name, or else the lower-cased default class name. It never fails. |
| Config.FilenameSplitPattern | src/main/java/com/funyin/plugin/utils/FileHelperNew.kt:130-141 | The result is the default or a pattern that compiles. A configured string is kept iff it compiles. Unset uses the global tier, or else the default, if it compiles. A mistyped entry gives the default. |
| Config.PathIgnore | src/main/java/com/funyin/plugin/utils/FileHelperNew.kt:146-156 | A configured list is returned as it is. Every other case gives the empty list. There is no global tier. |
| Config.OutputDir | src/main/java/com/funyin/plugin/utils/FileHelperNew.kt:165-166 | The module's string wins. Unset gives the global path, or else the default. It fails exactly on a mistyped entry, and then with a cast failure. |
| Config.NoBlockFallsBack | src/main/java/com/funyin/plugin/utils/FileHelperNew.kt:97-156 | Without a usable configuration block, every getter answers from the global setting or the default, and the ignore list is empty. |
| Config.MistypedEntryHandling | src/main/java/com/funyin/plugin/utils/FileHelperNew.kt:122-141 | One mistyped value is handled three ways. The file name falls through to the global tier. The class name fails. The split pattern takes the default without looking at the global tier. |
| Config.SplitPatternCompiles | src/main/java/com/funyin/plugin/utils/FileHelperNew.kt:130-141 | If the default pattern compiles, the resolved pattern always compiles. |
| Vfs.FindOrCreate | src/main/java/com/funyin/plugin/utils/FileHelperNew.kt:182-185 | The tree stays well formed and loses no node. An existing child is returned, and nothing changes. If there is no child, it succeeds iff the parent is a directory and the name is valid. Success adds exactly that child. Failure changes nothing. |
| Vfs.FileTree.FindChild | src/main/java/com/funyin/plugin/utils/FileHelperNew.kt:183 | A child is returned iff that path is in the tree. |
| Vfs.FileTree.CreateChild | src/main/java/com/funyin/plugin/utils/FileHelperNew.kt:184 | It succeeds iff the child is new, the parent is a directory and the name is valid. Success adds exactly that node. Failure leaves the tree as it was. |
| Vfs.FileTree.FindOrCreateChild | src/main/java/com/funyin/plugin/utils/FileHelperNew.kt:182-185 | The result and the new tree are those of `FindOrCreate` on the old tree. |
| Text.IndexOf | src/main/java/com/funyin/plugin/utils/FileHelperNew.kt:61 | The result is -1 iff the character is absent. Otherwise it is a position holding the character, with no earlier occurrence. |
| Text.FirstSegment | src/main/java/com/funyin/plugin/utils/FileHelperNew.kt:61-66 | The result has no separator and is a prefix of the path. It is followed by a separator when the path has one. It is the whole path otherwise. |
| Text.Split | src/main/java/com/funyin/plugin/utils/FileHelperNew.kt:172 | There is at least one piece, and no piece holds the separator. A string without a separator is one piece. |
| Text.JoinSplit | src/main/java/com/funyin/plugin/utils/FileHelperNew.kt:172 | Joining the pieces with the separator gives back the string. |
| Text.SplitJoin | src/main/java/com/funyin/plugin/utils/FileHelperNew.kt:172 | Splitting the join of separator-free pieces gives back the pieces. |
| Text.Segments | src/main/java/com/funyin/plugin/utils/FileHelperNew.kt:172-173 | Every name the path is walked through is non-empty and holds no separator. |
| Text.NonEmpty | src/main/java/com/funyin/plugin/utils/FileHelperNew.kt:172-176 | The `isNotEmpty` filter keeps no empty piece and never adds one. `NonEmptyMember` states which pieces it keeps. |
| Text.NonEmptyMember | src/main/java/com/funyin/plugin/utils/FileHelperNew.kt:172-176 | The walked names are exactly the non-empty pieces. |
| Text.FirstSegmentLeadsWalk | src/main/java/com/funyin/plugin/utils/FileHelperNew.kt:59-66 | A path with a non-empty first segment resolves through that segment first. |
| Text.Lowercase | src/main/java/com/funyin/plugin/utils/FileHelperNew.kt:202 | The length is kept. Each upper-case ASCII letter becomes its lower-case letter, 32 code points up. No upper-case ASCII letter remains, and every other character is kept. |
| Assets.Lookup | src/main/java/com/funyin/plugin/utils/FileHelperNew.kt:59 | Walking names from a base finds a node of the tree, which is the base followed by the names. |
| Assets.Resolve | src/main/java/com/funyin/plugin/utils/FileHelperNew.kt:59 | A resolved path is a node of the tree: the module directory followed by the path's non-empty segments. |
| Assets.LookupFinds | src/main/java/com/funyin/plugin/utils/FileHelperNew.kt:59 | Resolution succeeds iff every node along the path exists. |
| Assets.PickFor | src/main/java/com/funyin/plugin/utils/FileHelperNew.kt:59-77 | An unresolved path is skipped. A file contributes exactly itself. A directory contributes the module child named by the first segment, found or created. Only a directory can abort, and only with an I/O failure. |
| Assets.DirectoryPick | src/main/java/com/funyin/plugin/utils/FileHelperNew.kt:60-68 | For a path that resolves to a directory, the find-or-create step never changes the tree. A non-empty first segment gives the existing child. An empty one aborts. |
| Assets.Append | src/main/java/com/funyin/plugin/utils/FileHelperNew.kt:69-75 | One iteration of the loop. An earlier failure or an abort ends it with that failure. Otherwise the list only grows at its end, by at most the picked entry, and only when that entry is new. The entry is in the list afterwards, and a list without duplicates keeps none. |
| Assets.AssetRoots | src/main/java/com/funyin/plugin/utils/FileHelperNew.kt:56-78 | The loop fails only with an I/O failure, and on success holds at most one entry per declared path. |
| Assets.AssetRootsAreDedupedPicks | src/main/java/com/funyin/plugin/utils/FileHelperNew.kt:56-78 | The loop's list is the entries taken from the paths, in declaration order, keeping each first occurrence. The result is an error if any path aborts. |
| Assets.AssetRootsDistinct | src/main/java/com/funyin/plugin/utils/FileHelperNew.kt:69-76 | The list has no duplicates, and it holds exactly the entries taken. |
| Assets.DedupMembers | src/main/java/com/funyin/plugin/utils/FileHelperNew.kt:69-76 | Keeping first occurrences keeps every element and leaves no duplicates. |
| Assets.DedupSnoc | src/main/java/com/funyin/plugin/utils/FileHelperNew.kt:69-71 | Appending an element that is already present leaves the list unchanged. Otherwise the element is appended. |
| Assets.AssetRootsExtend | src/main/java/com/funyin/plugin/utils/FileHelperNew.kt:58-78 | Two declaration prefixes with the same result give the same result after any common suffix. |
| Assets.UnresolvedContributesNothing | src/main/java/com/funyin/plugin/utils/FileHelperNew.kt:59 | A path that does not resolve can be removed from any position without changing the result. |
| Assets.HardCodedDeclarationAborts | src/main/java/com/funyin/plugin/utils/FileHelperNew.kt:57 | With the hard-coded declaration `[""]`, the loop fails for every module directory. |
| Assets.PickAssetRoot | src/main/java/com/funyin/plugin/utils/FileHelperNew.kt:59-77 | One iteration leaves the tree unchanged and returns `PickFor` of the tree. |
| Assets.SelectAssetRoots | src/main/java/com/funyin/plugin/utils/FileHelperNew.kt:56-78 | The loop leaves the tree unchanged and returns `AssetRoots` of the tree. |
| Assets.AbortIsFinal | src/main/java/com/funyin/plugin/utils/FileHelperNew.kt:56-78 | After an abort, the remaining paths do not change the failed result. |
| Output.DirNames | src/main/java/com/funyin/plugin/utils/FileHelperNew.kt:168-176 | A setting without a separator is walked as one name. Otherwise the walk takes its non-empty segments. No name holds a separator. |
| Output.Walk | src/main/java/com/funyin/plugin/utils/FileHelperNew.kt:170-177 | The tree stays well formed and loses no node. Success ends at the base followed by the names. Failure is an I/O failure. `WalkSucceeds` states when it succeeds. |
| Output.WalkReaches | src/main/java/com/funyin/plugin/utils/FileHelperNew.kt:172-176 | After a successful walk, every prefix of the names, under the base, is in the tree. |
| Output.WalkCreatesAlong | src/main/java/com/funyin/plugin/utils/FileHelperNew.kt:172-176 | Every node the walk adds is a directory on the walked path. |
| Output.WalkReuses | src/main/java/com/funyin/plugin/utils/FileHelperNew.kt:182-185 | When every directory on the way exists, the walk returns the end of the path and leaves the tree unchanged. |
| Output.WalkIdempotent | src/main/java/com/funyin/plugin/utils/FileHelperNew.kt:168-177 | A second walk on the tree the first one left returns the same path and creates nothing. |
| Output.WalkSnoc | src/main/java/com/funyin/plugin/utils/FileHelperNew.kt:171-177 | Walking one more name is the walk so far followed by one more find-or-create. |
| Output.WalkSucceeds | src/main/java/com/funyin/plugin/utils/FileHelperNew.kt:170-185 | The walk succeeds exactly when every name is valid, the start is a directory, and every node already on the way, except the last, is a directory. A missing directory is created, not a failure. |
| Output.NonEmptyStep | src/main/java/com/funyin/plugin/utils/FileHelperNew.kt:172-176 | The loop skips an empty piece and walks any other one. |
| Output.GeneratedFilePathStep | src/main/java/com/funyin/plugin/utils/FileHelperNew.kt:162-180 | A missing `lib` fails with `NullLib`, and a mistyped output directory fails with a cast failure. Both leave the tree unchanged. Success ends at `lib` followed by the output directory's names. Every outcome keeps the tree well formed and loses no node. |
| Output.GeneratedFileStep | src/main/java/com/funyin/plugin/utils/FileHelperNew.kt:162-198 | A missing `lib` or a mistyped output directory fails as in `getGeneratedFilePath`, before anything is created. Success ends at `lib`, then the output directory's names, then `<fileName>.kt`. Every outcome keeps the tree well formed and loses no node. `GeneratedFileSucceeds` states when it succeeds. |
| Output.GeneratedFileCreatesAlong | src/main/java/com/funyin/plugin/utils/FileHelperNew.kt:162-198 | Whether it succeeds or fails, `getGeneratedFile` adds only directories of the output path under `lib` and the file at its end. |
| Output.GeneratedFileLocation | src/main/java/com/funyin/plugin/utils/FileHelperNew.kt:162-198 | The file is at `lib`, then the output names, then `<fileName>.kt`. Every directory on the way exists as a directory. Existing nodes are kept. Only those directories and the file are new. |
| Output.GeneratedFileSucceeds | src/main/java/com/funyin/plugin/utils/FileHelperNew.kt:162-198 | `getGeneratedFile` succeeds exactly when `lib` is set, the output directory reads, and the path to `<fileName>.kt` is walkable. Any other failure is an I/O failure. A file that was missing is created, as a file. |
| Output.GeneratedFileIdempotent | src/main/java/com/funyin/plugin/utils/FileHelperNew.kt:190-198 | Running `getGeneratedFile` again returns the same file and leaves the tree unchanged. |
| Output.WalkPieces | src/main/java/com/funyin/plugin/utils/FileHelperNew.kt:171-177 | The loop's result and new tree are those of `Walk` over the non-empty pieces. |
| Output.GeneratedFilePath | src/main/java/com/funyin/plugin/utils/FileHelperNew.kt:162-180 | The result and new tree are those of `GeneratedFilePathStep` on the old tree. |
| Output.GeneratedFile | src/main/java/com/funyin/plugin/utils/FileHelperNew.kt:190-198 | The result and new tree are those of `GeneratedFileStep` on the old tree. |
| Modules.GradleConfig | src/main/java/com/funyin/plugin/utils/FileHelperNew.kt:48-92 | There is a configuration iff the module has a directory and a build root, its file loads as a map, and the asset loop succeeds. Its fields are then the module, the root, the asset list and the map. |
| Modules.GradleModules | src/main/java/com/funyin/plugin/utils/FileHelperNew.kt:27 | Only build modules are kept. |
| Modules.GradleModulesMember | src/main/java/com/funyin/plugin/utils/FileHelperNew.kt:27 | A module is kept iff it is a build module of the project. |
| Modules.ShouldActivate | src/main/java/com/funyin/plugin/utils/FileHelperNew.kt:42-44 | The plugin activates iff the list of build modules is non-empty. |
| Modules.AnyGradleModule | src/main/java/com/funyin/plugin/utils/FileHelperNew.kt:27 | Some module is a build module iff the filtered list of build modules is non-empty. |
| Modules.Found | src/main/java/com/funyin/plugin/utils/FileHelperNew.kt:30-34 | A module adds at most one configuration, and only one that belongs to a module with a directory whose build root is the configuration's root. |
| Modules.Collect | src/main/java/com/funyin/plugin/utils/FileHelperNew.kt:28-36 | The loop adds at most one configuration per module, and every one it adds belongs to a module with a directory whose build root is the configuration's root. |
| Modules.CollectAppend | src/main/java/com/funyin/plugin/utils/FileHelperNew.kt:28-36 | The loop over `a` followed by `b` gives the results for `a` followed by those for `b`. |
| Modules.Resources | src/main/java/com/funyin/plugin/utils/FileHelperNew.kt:26-39 | `getResources` returns at most one configuration per module, each for a module with a directory whose build root is the configuration's root. |
| Modules.ResourcesAppend | src/main/java/com/funyin/plugin/utils/FileHelperNew.kt:26-39 | `getResources` keeps the project's module order. |
| Modules.CollectMembers | src/main/java/com/funyin/plugin/utils/FileHelperNew.kt:29-35 | A configuration is collected iff some module has a directory and that configuration. |
| Modules.ResourcesMembers | src/main/java/com/funyin/plugin/utils/FileHelperNew.kt:26-39 | A configuration is returned iff it belongs to a module of the project with a directory and a configuration. |
| Modules.HardCodedResourcesEmpty | src/main/java/com/funyin/plugin/utils/FileHelperNew.kt:57 | With the hard-coded declaration, `getResources` returns nothing when every module directory is a directory of the tree. |
| Modules.GetGradleConfig | src/main/java/com/funyin/plugin/utils/FileHelperNew.kt:48-92 | The tree is unchanged, and the result is `GradleConfig` of the tree. |
| Modules.AddModule | src/main/java/com/funyin/plugin/utils/FileHelperNew.kt:30-35 | One iteration appends what the module contributes and leaves the tree unchanged. |
| Modules.GetResources | src/main/java/com/funyin/plugin/utils/FileHelperNew.kt:26-39 | The tree is unchanged, and the result is `Resources` of the tree. |

## Left out

- YAML parsing and file streams (`Yaml().load(FileInputStream(...))`) are foreign code and I/O. A module's `loaded` field stands for what loading gave: a value, or a load failure.
- The IDE's module queries (`allModules`, `isGradleModule`, `guessModuleDir`) are host code. A module is a record with an optional directory and an optional build root, and a module is a build module exactly when it has a root.
- `Pattern.compile` is a library the model cannot see. Whether a pattern compiles is the function parameter `compiles`.
- `PluginSetting.instance`, the global setting, is passed as an explicit record. Its nullable strings are `Option`s.
- `Constants.kt` is not part of this model. The key names and the defaults are the fields of a `Constants` record passed to every getter, so no value is assumed for them.
- Logging (`printStackTrace`, `println`) has no behaviour and is left out.
- `GenerateAction.kt` (the UI action and its notification) is not part of this model. Neither are the identifier synthesis and code emission behind it.
- Path resolution (`findFileByRelativePath`) walks the non-empty `/`-separated segments. `.` and `..` are not interpreted.
- The separator (`File.separator`) is fixed to `/`. A host with another separator is not modelled.
- Text.Lowercase: lowers the ASCII letters only. Kotlin's `lowercase()` also maps other scripts, which the model does not.
- Config.PathIgnore: returns the list as it is, typed `seq<Value>`. The cast to `List<String>` is erased at run time, so the source returns non-strings too. Their later failure, outside this core, is not modelled.
- The host's rule for a valid child name is modelled as non-empty, not `.` or `..`, and with no `/` or `\`. Other host checks, such as permissions or a read-only file system, are not modelled.
- A virtual file is identified by its path: two files are the same exactly when their paths are equal. This is what `assetVFiles.contains` compares in the asset loop. Links, and two paths naming one file, are not modelled.
- The tree has a single kind of non-directory node. File contents, and the timestamps the host keeps, are not modelled.
- `getGeneratedFilePath` is declared on `ModulePubSpecConfig` and ends in `!!`. The model gives it a `ModuleGradleConfig` and turns a missing `lib` into `Err(NullLib)` instead of a null-pointer exception.
- Exceptions that escape a function are modelled as `Err` results: a failed creation in `getGeneratedFile`, or a failed cast in a getter. Callers outside the core that would catch them are not modelled.

## Findings

| source | as written | input that shows it | evidently intended | confidence | as-written member | corrected member |
|---|---|---|---|---|---|---|
| src/main/java/com/funyin/plugin/utils/FileHelperNew.kt:57 | The declared asset paths are the hard-coded list `[""]`. The empty path resolves to the module directory itself, whose first segment is `""`. The host refuses to create a child named `""`, and the exception makes every module's configuration null, so `getResources` returns nothing. | Any project with one build module whose directory exists and whose configuration file loads as a map. | The asset paths the module declares. They select an ordered list of roots with no duplicates, and every module that loads is served. | not executed; medium (it rests on the host refusing an empty child name) | Modules.HardCodedResourcesEmpty | Modules.ResourcesMembers |
