/**
 * The asset-root loop of `getGradleConfig`: every declared relative path is
 * resolved in the module directory; a path that does not resolve is
 * skipped, a file is kept as it is, and a directory is replaced by the
 * module child named by the path's first segment. Each result is appended
 * to the list unless it is already there.
 */
module Assets {
  import opened Wrappers
  import opened Vfs
  import opened Text
  import opened Seqs

  /** Walk from `base` through `names`, one existing child at a time. */
  function Lookup(nodes: map<Path, Kind>, base: Path, names: seq<string>): (r: Option<Path>)
    ensures r.Some? ==> r.value == base + names && r.value in nodes
    ensures r.Some? ==> base in nodes
    ensures r.Some? && names != [] ==> base + [names[0]] in nodes
    decreases |names|
  {
    if base !in nodes then None
    else if names == [] then Some(base)
    else
      var r := Lookup(nodes, base + [names[0]], names[1..]);
      assert r.Some? ==> base + [names[0]] + names[1..] == base + names;
      r
  }

  /** The walk succeeds exactly when every node along it exists. */
  lemma {:induction false} LookupFinds(nodes: map<Path, Kind>, base: Path, names: seq<string>)
    ensures Lookup(nodes, base, names).Some? <==> forall k | 0 <= k <= |names| :: base + names[..k] in nodes
    decreases |names|
  {
    assert base + names[..0] == base;
    if base in nodes && names != [] {
      var child := base + [names[0]];
      LookupFinds(nodes, child, names[1..]);
      forall k | 0 < k <= |names| ensures base + names[..k] == child + names[1..][..k - 1] {
        assert names[..k] == [names[0]] + names[1..][..k - 1];
      }
      if forall k | 0 <= k <= |names[1..]| :: child + names[1..][..k] in nodes {
        forall k | 0 <= k <= |names| ensures base + names[..k] in nodes {
          if k > 0 {
            assert base + names[..k] == child + names[1..][..k - 1];
          }
        }
      } else {
        var k :| 0 <= k <= |names[1..]| && child + names[1..][..k] !in nodes;
        assert base + names[..k + 1] == child + names[1..][..k];
      }
    }
  }

  /** `findFileByRelativePath`: the node a relative path names, if it exists. */
  function Resolve(nodes: map<Path, Kind>, dir: Path, path: string): (r: Option<Path>)
    ensures r.Some? ==> r.value in nodes && r.value == dir + Segments(path)
  {
    Lookup(nodes, dir, Segments(path))
  }

  /** What one declared path contributes. */
  datatype Pick = Skip | Take(entry: Path) | Abort(fault: Fault)

  function PickFor(nodes: map<Path, Kind>, dir: Path, path: string): (pick: Pick)
    requires WellFormed(nodes)
    ensures pick.Skip? <==> Resolve(nodes, dir, path).None?
    ensures pick.Take? && nodes[Resolve(nodes, dir, path).value] == File ==>
              pick.entry == Resolve(nodes, dir, path).value
    ensures pick.Take? && nodes[Resolve(nodes, dir, path).value] == Directory ==>
              pick.entry == dir + [FirstSegment(path)]
    ensures pick.Abort? ==> pick.fault == IoFailure
    ensures Resolve(nodes, dir, path).Some? && nodes[Resolve(nodes, dir, path).value] == File ==>
              pick == Take(Resolve(nodes, dir, path).value)
    ensures pick.Abort? ==> nodes[Resolve(nodes, dir, path).value] == Directory
  {
    match Resolve(nodes, dir, path)
    case None => Skip
    case Some(file) =>
      if nodes[file] == Directory then
        match FindOrCreate(nodes, dir, FirstSegment(path), Directory).result
        case Ok(child) => Take(child)
        case Err(e) => Abort(e)
      else Take(file)
  }

  /**
   * A path naming a directory is replaced by the module child its first
   * segment names. That child always exists already, so nothing is created;
   * when the first segment is empty (the path is empty or starts with a
   * separator) the host refuses to create a child with that name.
   */
  lemma {:induction false} DirectoryPick(nodes: map<Path, Kind>, dir: Path, path: string)
    requires WellFormed(nodes)
    requires Resolve(nodes, dir, path).Some? && nodes[Resolve(nodes, dir, path).value] == Directory
    ensures FindOrCreate(nodes, dir, FirstSegment(path), Directory).nodes == nodes
    ensures FirstSegment(path) != "" ==> PickFor(nodes, dir, path) == Take(dir + [FirstSegment(path)])
    ensures FirstSegment(path) == "" ==> PickFor(nodes, dir, path) == Abort(IoFailure)
  {
    var name := FirstSegment(path);
    if name != "" {
      FirstSegmentLeadsWalk(path);
      assert dir + [name] in nodes;
    } else {
      InvalidNameAbsent(nodes, dir, name);
    }
  }

  /** One step of the loop: append a pick unless already present; an abort ends the loop. */
  function Append(acc: Result<seq<Path>>, pick: Pick): (r: Result<seq<Path>>)
    ensures acc.Err? ==> r == acc
    ensures acc.Ok? && pick.Abort? ==> r == Err(pick.fault)
    ensures r.Ok? <==> acc.Ok? && !pick.Abort?
    ensures r.Ok? ==> acc.value <= r.value && |r.value| <= |acc.value| + 1
    ensures r.Ok? && pick.Take? ==> pick.entry in r.value
    ensures r.Ok? && !(pick.Take? && pick.entry !in acc.value) ==> r == acc
    ensures r.Ok? && NoDuplicates(acc.value) ==> NoDuplicates(r.value)
  {
    match acc
    case Err(e) => Err(e)
    case Ok(roots) =>
      match pick
      case Skip => Ok(roots)
      case Abort(e) => Err(e)
      case Take(p) => Ok(if p in roots then roots else roots + [p])
  }

  /** The list the loop builds from the declared paths. */
  function AssetRoots(nodes: map<Path, Kind>, dir: Path, declared: seq<string>): (r: Result<seq<Path>>)
    requires WellFormed(nodes)
    ensures r.Err? ==> r.fault == IoFailure
    ensures r.Ok? ==> |r.value| <= |declared|
    decreases |declared|
  {
    if declared == [] then Ok([])
    else Append(AssetRoots(nodes, dir, declared[..|declared| - 1]), PickFor(nodes, dir, declared[|declared| - 1]))
  }

  // An independent description of the result: the entries taken, in
  // declaration order, with every later repetition removed.

  /** The entries the declared paths contribute, in order, repetitions included. */
  function Picks(nodes: map<Path, Kind>, dir: Path, declared: seq<string>): seq<Path>
    requires WellFormed(nodes)
    decreases |declared|
  {
    if declared == [] then []
    else
      var pick := PickFor(nodes, dir, declared[|declared| - 1]);
      Picks(nodes, dir, declared[..|declared| - 1]) + (if pick.Take? then [pick.entry] else [])
  }

  /** Some declared path aborts the loop. */
  predicate AnyAbort(nodes: map<Path, Kind>, dir: Path, declared: seq<string>)
    requires WellFormed(nodes)
    decreases |declared|
  {
    declared != [] &&
    (AnyAbort(nodes, dir, declared[..|declared| - 1]) || PickFor(nodes, dir, declared[|declared| - 1]).Abort?)
  }

  function Remove(s: seq<Path>, x: Path): (r: seq<Path>)
    ensures |r| <= |s|
    ensures forall y :: y in r <==> y in s && y != x
  {
    if s == [] then []
    else (if s[0] == x then [] else [s[0]]) + Remove(s[1..], x)
  }

  /** Keep the first occurrence of every element, drop the later ones. */
  function Dedup(s: seq<Path>): seq<Path>
    decreases |s|
  {
    if s == [] then [] else [s[0]] + Dedup(Remove(s[1..], s[0]))
  }

  predicate NoDuplicates(s: seq<Path>) {
    forall i, j | 0 <= i < j < |s| :: s[i] != s[j]
  }

  lemma RemoveAppend(s: seq<Path>, t: seq<Path>, x: Path)
    ensures Remove(s + t, x) == Remove(s, x) + Remove(t, x)
  {
    if s != [] {
      assert (s + t)[1..] == s[1..] + t;
      RemoveAppend(s[1..], t, x);
    } else {
      assert s + t == t;
    }
  }

  lemma {:induction false} DedupMembers(s: seq<Path>)
    ensures forall y :: y in Dedup(s) <==> y in s
    ensures NoDuplicates(Dedup(s))
    decreases |s|
  {
    if s != [] {
      var rest := Remove(s[1..], s[0]);
      DedupMembers(rest);
      assert s == [s[0]] + s[1..];
      var d := Dedup(s);
      assert d == [s[0]] + Dedup(rest);
      forall i, j | 0 <= i < j < |d| ensures d[i] != d[j] {
        if i == 0 {
          assert d[j] in Dedup(rest);
        } else {
          assert d[i] == Dedup(rest)[i - 1] && d[j] == Dedup(rest)[j - 1];
        }
      }
    }
  }

  /** Adding one element at the end adds it to the result exactly when it is new. */
  lemma {:induction false} DedupSnoc(s: seq<Path>, x: Path)
    ensures Dedup(s + [x]) == if x in s then Dedup(s) else Dedup(s) + [x]
    decreases |s|
  {
    if s == [] {
      assert Remove([], x) == [];
      assert Dedup([x]) == [x] + Dedup(Remove([], x));
    } else {
      var a := s[0];
      var t := s[1..];
      assert (s + [x])[0] == a && (s + [x])[1..] == t + [x];
      RemoveAppend(t, [x], a);
      assert Remove([x], a) == (if x == a then [] else [x]) + Remove([], a);
      if x == a {
        assert Remove(t + [x], a) == Remove(t, a);
      } else {
        assert Remove(t + [x], a) == Remove(t, a) + [x];
        DedupSnoc(Remove(t, a), x);
        assert x in s <==> x in Remove(t, a);
      }
    }
  }

  /** The loop's result is the deduplicated list of picks, unless some path aborts. */
  lemma {:induction false} AssetRootsAreDedupedPicks(nodes: map<Path, Kind>, dir: Path, declared: seq<string>)
    requires WellFormed(nodes)
    ensures AssetRoots(nodes, dir, declared) ==
            if AnyAbort(nodes, dir, declared) then Err(IoFailure) else Ok(Dedup(Picks(nodes, dir, declared)))
    decreases |declared|
  {
    if declared != [] {
      var init := declared[..|declared| - 1];
      var pick := PickFor(nodes, dir, declared[|declared| - 1]);
      var before := Picks(nodes, dir, init);
      AssetRootsAreDedupedPicks(nodes, dir, init);
      assert Picks(nodes, dir, declared) == before + (if pick.Take? then [pick.entry] else []);
      assert AnyAbort(nodes, dir, declared) == (AnyAbort(nodes, dir, init) || pick.Abort?);
      if !AnyAbort(nodes, dir, init) {
        assert AssetRoots(nodes, dir, init) == Ok(Dedup(before));
        match pick
        case Skip =>
          assert before + [] == before;
        case Abort(e) =>
        case Take(p) =>
          DedupSnoc(before, p);
          DedupMembers(before);
      }
    }
  }

  /** The asset list never holds the same file twice, and holds exactly the picked files. */
  lemma AssetRootsDistinct(nodes: map<Path, Kind>, dir: Path, declared: seq<string>)
    requires WellFormed(nodes)
    requires AssetRoots(nodes, dir, declared).Ok?
    ensures NoDuplicates(AssetRoots(nodes, dir, declared).value)
    ensures forall p :: p in AssetRoots(nodes, dir, declared).value <==> p in Picks(nodes, dir, declared)
  {
    AssetRootsAreDedupedPicks(nodes, dir, declared);
    DedupMembers(Picks(nodes, dir, declared));
  }

  lemma AssetRootsSnoc(nodes: map<Path, Kind>, dir: Path, s: seq<string>, path: string)
    requires WellFormed(nodes)
    ensures AssetRoots(nodes, dir, s + [path]) == Append(AssetRoots(nodes, dir, s), PickFor(nodes, dir, path))
  {
    var t := s + [path];
    assert t[..|t| - 1] == s && t[|t| - 1] == path;
  }

  /** What follows a prefix depends only on the prefix's result. */
  lemma {:induction false} AssetRootsExtend(nodes: map<Path, Kind>, dir: Path, a: seq<string>, a': seq<string>, b: seq<string>)
    requires WellFormed(nodes)
    requires AssetRoots(nodes, dir, a) == AssetRoots(nodes, dir, a')
    ensures AssetRoots(nodes, dir, a + b) == AssetRoots(nodes, dir, a' + b)
    decreases |b|
  {
    if b == [] {
      assert a + b == a && a' + b == a';
    } else {
      var b0, last := b[..|b| - 1], b[|b| - 1];
      AssetRootsExtend(nodes, dir, a, a', b0);
      SnocSplit(a, b);
      SnocSplit(a', b);
      AssetRootsSnoc(nodes, dir, a + b0, last);
      AssetRootsSnoc(nodes, dir, a' + b0, last);
    }
  }

  /** A declared path that does not resolve contributes nothing, wherever it stands. */
  lemma UnresolvedContributesNothing(nodes: map<Path, Kind>, dir: Path, a: seq<string>, path: string, b: seq<string>)
    requires WellFormed(nodes)
    requires Resolve(nodes, dir, path).None?
    ensures AssetRoots(nodes, dir, a + [path] + b) == AssetRoots(nodes, dir, a + b)
  {
    assert (a + [path])[..|a + [path]| - 1] == a;
    AssetRootsExtend(nodes, dir, a + [path], a, b);
  }

  /** `getGradleConfig` declares the single path "": the module directory itself, whose first segment is empty. */
  const DeclaredResources: seq<string> := [""]

  lemma HardCodedDeclarationAborts(nodes: map<Path, Kind>, dir: Path)
    requires WellFormed(nodes) && dir in nodes && nodes[dir] == Directory
    ensures AssetRoots(nodes, dir, DeclaredResources) == Err(IoFailure)
  {
    assert Segments("") == [];
    assert Resolve(nodes, dir, "") == Some(dir);
    DirectoryPick(nodes, dir, "");
    assert DeclaredResources[..0] == [];
  }

  /**
   * The body of the loop of `getGradleConfig` for one declared path: the
   * file it names, or for a directory the module child its first segment
   * names, found or created. The tree ends up unchanged.
   */
  method PickAssetRoot(fs: FileTree, moduleDir: Path, path: string) returns (pick: Pick)
    requires fs.Valid()
    modifies fs
    ensures fs.Valid() && fs.nodes == old(fs.nodes)
    ensures pick == PickFor(old(fs.nodes), moduleDir, path)
  {
    var found := Resolve(fs.nodes, moduleDir, path);
    if found.None? {
      return Skip;
    }
    var file := found.value;
    if fs.nodes[file] == Directory {
      DirectoryPick(fs.nodes, moduleDir, path);
      var assetsPath := FirstSegment(path);
      var assetVFile := fs.FindOrCreateChild(moduleDir, assetsPath, Directory);
      pick := if assetVFile.Ok? then Take(assetVFile.value) else Abort(assetVFile.fault);
    } else {
      pick := Take(file);
    }
  }

  /** The loop of `getGradleConfig` over the declared paths. */
  method SelectAssetRoots(fs: FileTree, moduleDir: Path, declared: seq<string>) returns (r: Result<seq<Path>>)
    requires fs.Valid()
    modifies fs
    ensures fs.Valid() && fs.nodes == old(fs.nodes)
    ensures r == AssetRoots(old(fs.nodes), moduleDir, declared)
  {
    ghost var nodes := fs.nodes;
    var assetVFiles: seq<Path> := [];
    var i := 0;
    while i < |declared|
      invariant 0 <= i <= |declared|
      invariant fs.Valid() && fs.nodes == nodes
      invariant AssetRoots(nodes, moduleDir, declared[..i]) == Ok(assetVFiles)
    {
      AssetRootsStep(nodes, moduleDir, declared, i);
      var pick := PickAssetRoot(fs, moduleDir, declared[i]);
      if pick.Abort? {
        AbortIsFinal(nodes, moduleDir, declared, i + 1);
        return Err(pick.fault);
      }
      if pick.Take? && pick.entry !in assetVFiles {
        assetVFiles := assetVFiles + [pick.entry];
      }
      i := i + 1;
    }
    assert declared[..i] == declared;
    r := Ok(assetVFiles);
  }

  /** One more declared path: the loop's next step. */
  lemma AssetRootsStep(nodes: map<Path, Kind>, dir: Path, declared: seq<string>, i: nat)
    requires WellFormed(nodes) && i < |declared|
    ensures AssetRoots(nodes, dir, declared[..i + 1]) ==
            Append(AssetRoots(nodes, dir, declared[..i]), PickFor(nodes, dir, declared[i]))
  {
    assert declared[..i + 1][..i] == declared[..i];
  }

  /** Once a path aborts, the paths after it change nothing. */
  lemma {:induction false} AbortIsFinal(nodes: map<Path, Kind>, dir: Path, declared: seq<string>, i: nat)
    requires WellFormed(nodes) && i <= |declared|
    requires AssetRoots(nodes, dir, declared[..i]).Err?
    ensures AssetRoots(nodes, dir, declared) == AssetRoots(nodes, dir, declared[..i])
    decreases |declared| - i
  {
    if i < |declared| {
      AssetRootsStep(nodes, dir, declared, i);
      AbortIsFinal(nodes, dir, declared, i + 1);
    } else {
      assert declared[..i] == declared;
    }
  }
}
