/**
 * The host's virtual file system, reduced to what the plugin uses of it:
 * looking up a child by name, and creating a child directory or file.
 * A node is named by its path, the sequence of names from the root, and
 * two virtual files are the same file exactly when their paths are equal.
 */
module Vfs {
  import opened Wrappers

  type Path = seq<string>

  datatype Kind = Directory | File

  /**
   * The host refuses to create a child whose name is empty, is `.` or `..`,
   * or holds a separator.
   */
  predicate ValidName(name: string) {
    name != "" && name != "." && name != ".." && '/' !in name && '\\' !in name
  }

  function Parent(p: Path): Path
    requires p != []
  {
    p[..|p| - 1]
  }

  predicate IsDirectory(nodes: map<Path, Kind>, p: Path) {
    p in nodes && nodes[p] == Directory
  }

  /** Every node other than the root has a valid name and lives in a directory. */
  ghost predicate WellFormed(nodes: map<Path, Kind>) {
    forall p {:trigger Parent(p)} | p in nodes && p != [] :: ValidName(p[|p| - 1]) && IsDirectory(nodes, Parent(p))
  }

  /** Every node of `before` is still there, with the same kind, in `after`. */
  ghost predicate Grows(before: map<Path, Kind>, after: map<Path, Kind>) {
    forall p | p in before :: p in after && after[p] == before[p]
  }

  lemma WellFormedChild(nodes: map<Path, Kind>, dir: Path, name: string)
    requires WellFormed(nodes) && dir + [name] in nodes
    ensures IsDirectory(nodes, dir) && ValidName(name)
  {
    var p := dir + [name];
    assert p != [] && Parent(p) == dir && p[|p| - 1] == name;
  }

  /** A well-formed tree holds no node under an invalid name. */
  lemma InvalidNameAbsent(nodes: map<Path, Kind>, dir: Path, name: string)
    requires WellFormed(nodes) && !ValidName(name)
    ensures dir + [name] !in nodes
  {
    var p := dir + [name];
    assert p != [] && Parent(p) == dir && p[|p| - 1] == name;
  }

  /** Adding a valid child to a directory keeps the tree well formed and loses nothing. */
  lemma AddChildWellFormed(nodes: map<Path, Kind>, dir: Path, name: string, kind: Kind)
    requires WellFormed(nodes) && IsDirectory(nodes, dir) && ValidName(name) && dir + [name] !in nodes
    ensures WellFormed(nodes[dir + [name] := kind]) && Grows(nodes, nodes[dir + [name] := kind])
  {
    var after := nodes[dir + [name] := kind];
    forall p | p in after && p != []
      ensures ValidName(p[|p| - 1]) && IsDirectory(after, Parent(p))
    {
      if p == dir + [name] {
        assert Parent(p) == dir && p[|p| - 1] == name;
      } else {
        assert p in nodes && IsDirectory(nodes, Parent(p));
      }
    }
  }

  /** A step on the tree: what it returned and the tree afterwards. */
  datatype Step = Step(result: Result<Path>, nodes: map<Path, Kind>)

  /**
   * Look up the child `name` of `dir`; when there is none, create it with
   * the given kind. The existing child is returned whatever its kind.
   */
  function FindOrCreate(nodes: map<Path, Kind>, dir: Path, name: string, kind: Kind): (s: Step)
    requires WellFormed(nodes)
    ensures WellFormed(s.nodes) && Grows(nodes, s.nodes)
    ensures dir + [name] in nodes ==> s == Step(Ok(dir + [name]), nodes)
    ensures dir + [name] !in nodes ==> (s.result.Ok? <==> IsDirectory(nodes, dir) && ValidName(name))
    ensures s.result.Ok? ==> s.result.value == dir + [name] && s.result.value in s.nodes
    ensures s.result.Ok? && dir + [name] !in nodes ==> s.nodes == nodes[dir + [name] := kind]
    ensures s.result.Err? ==> s == Step(Err(IoFailure), nodes)
  {
    if dir + [name] in nodes then
      Step(Ok(dir + [name]), nodes)
    else if IsDirectory(nodes, dir) && ValidName(name) then
      AddChildWellFormed(nodes, dir, name, kind);
      Step(Ok(dir + [name]), nodes[dir + [name] := kind])
    else
      Step(Err(IoFailure), nodes)
  }

  /** The host's file tree, changed in place by the plugin. */
  class FileTree {
    var nodes: map<Path, Kind>

    ghost predicate Valid()
      reads this
    {
      WellFormed(nodes)
    }

    constructor (initial: map<Path, Kind>)
      requires WellFormed(initial)
      ensures Valid() && nodes == initial
    {
      nodes := initial;
    }

    /** `findChild`: the child `name` of `dir`, if there is one. */
    function FindChild(dir: Path, name: string): (child: Option<Path>)
      reads this
      ensures child.Some? <==> dir + [name] in nodes
      ensures child.Some? ==> child.value == dir + [name]
    {
      if dir + [name] in nodes then Some(dir + [name]) else None
    }

    /**
     * `createChildDirectory` / `createChildData`: add a new child of `dir`.
     * Throws when `dir` is not a directory, the name is invalid or taken.
     */
    method CreateChild(dir: Path, name: string, kind: Kind) returns (r: Result<Path>)
      requires Valid()
      modifies this
      ensures Valid()
      ensures r.Ok? <==> dir + [name] !in old(nodes) && IsDirectory(old(nodes), dir) && ValidName(name)
      ensures r.Ok? ==> r.value == dir + [name] && nodes == old(nodes)[dir + [name] := kind]
      ensures r.Err? ==> r.fault == IoFailure && nodes == old(nodes)
    {
      if dir + [name] in nodes || !IsDirectory(nodes, dir) || !ValidName(name) {
        return Err(IoFailure);
      }
      AddChildWellFormed(nodes, dir, name, kind);
      nodes := nodes[dir + [name] := kind];
      r := Ok(dir + [name]);
    }

    /**
     * `findOrCreateChildDir` (FileHelperNew.kt) and the host's
     * `findOrCreateChildData`: the existing child, or a new one.
     */
    method FindOrCreateChild(dir: Path, name: string, kind: Kind) returns (r: Result<Path>)
      requires Valid()
      modifies this
      ensures Valid()
      ensures Step(r, nodes) == FindOrCreate(old(nodes), dir, name, kind)
    {
      var child := FindChild(dir, name);
      if child.Some? {
        return Ok(child.value);
      }
      r := CreateChild(dir, name, kind);
    }
  }
}
