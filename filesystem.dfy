/**
 * An abstract filesystem: a map from path strings to nodes. A directory
 * node lists the names of its entries and says whether listing it and
 * creating a file in it succeed; every other node is a regular file.
 */
module FileSystem {

  type Path = string
  type Name = string

  /** The reserved name of the placeholder file. */
  const Marker: Name := ".gitkeep"

  datatype Node =
    | Directory(entries: seq<Name>, readable: bool, writable: bool)
    | RegularFile

  /** What listing a directory yields: its entry names, or an error. */
  datatype Listing = Entries(names: seq<Name>) | ListError

  /** `os.path.exists` */
  predicate Exists(nodes: map<Path, Node>, p: Path) {
    p in nodes
  }

  /** `os.path.isdir` */
  predicate IsDir(nodes: map<Path, Node>, p: Path) {
    p in nodes && nodes[p].Directory?
  }

  /** `os.listdir`: fails on a missing path, a regular file or an unreadable directory. */
  function ListDir(nodes: map<Path, Node>, p: Path): (l: Listing)
    ensures l.Entries? <==> IsDir(nodes, p) && nodes[p].readable
    ensures l.Entries? ==> l.names == nodes[p].entries
  {
    if IsDir(nodes, p) && nodes[p].readable then Entries(nodes[p].entries) else ListError
  }

  /** Whether `open(os.path.join(folder, ".gitkeep"), 'w')` succeeds. */
  predicate WriteSucceeds(nodes: map<Path, Node>, folder: Path) {
    IsDir(nodes, folder) && nodes[folder].writable
  }

  /**
   * `os.path.join(folder, name)` with the POSIX separator: an absolute
   * `name` replaces `folder`; otherwise no separator is added after an
   * empty folder or one that already ends in `/`.
   */
  function Join(folder: Path, name: Name): (r: Path)
    ensures |r| >= |name| && r[|r| - |name|..] == name
    ensures name != [] && name[0] == '/' ==> r == name
    ensures (name == [] || name[0] != '/') ==> folder <= r
    ensures (name == [] || name[0] != '/') && (folder == [] || folder[|folder| - 1] == '/') ==> r == folder + name
    ensures (name == [] || name[0] != '/') && folder != [] && folder[|folder| - 1] != '/' ==> r == folder + "/" + name
  {
    if name != [] && name[0] == '/' then name
    else if folder == [] || folder[|folder| - 1] == '/' then folder + name
    else folder + "/" + name
  }

  /**
   * The entries of a directory after the marker file is opened for writing
   * in it: opening an existing file truncates it, so the marker appears at
   * most once.
   */
  function WithMarker(entries: seq<Name>): (r: seq<Name>)
    ensures Marker in r
    ensures forall n :: n in r <==> n in entries || n == Marker
    ensures entries == [] ==> r == [Marker]
    ensures Marker in entries ==> r == entries
    ensures Marker !in entries ==> multiset(r) == multiset(entries) + multiset{Marker}
    ensures |r| <= |entries| + 1
  {
    if Marker in entries then entries else entries + [Marker]
  }

  /** A directory node once the marker file exists in it. */
  function Marked(n: Node): (r: Node)
    requires n.Directory?
    ensures r.Directory? && r.readable == n.readable && r.writable == n.writable
    ensures r.entries == WithMarker(n.entries)
  {
    n.(entries := WithMarker(n.entries))
  }

  datatype WriteResult = WriteResult(nodes: map<Path, Node>, ok: bool)

  /**
   * Creating the zero-byte marker file in `folder`. On success only that
   * directory changes, and it now lists the marker; on failure nothing changes.
   */
  function CreateMarker(nodes: map<Path, Node>, folder: Path): (r: WriteResult)
    ensures r.ok <==> WriteSucceeds(nodes, folder)
    ensures r.nodes.Keys == nodes.Keys
    ensures forall p :: p in nodes && p != folder ==> r.nodes[p] == nodes[p]
    ensures r.ok ==> r.nodes[folder] == Marked(nodes[folder]) && Marker in r.nodes[folder].entries
    ensures !r.ok ==> r.nodes == nodes
  {
    if WriteSucceeds(nodes, folder) then WriteResult(nodes[folder := Marked(nodes[folder])], true)
    else WriteResult(nodes, false)
  }

  /** The filesystem the program works on; `nodes` is its current state. */
  class FileSystem {
    var nodes: map<Path, Node>

    constructor (initial: map<Path, Node>)
      ensures nodes == initial
    {
      nodes := initial;
    }

    /** `with open(os.path.join(folder, ".gitkeep"), 'w'): pass`, reporting success. */
    method WriteMarker(folder: Path) returns (ok: bool)
      modifies this
      ensures WriteResult(nodes, ok) == CreateMarker(old(nodes), folder)
    {
      var r := CreateMarker(nodes, folder);
      nodes, ok := r.nodes, r.ok;
    }
  }
}
