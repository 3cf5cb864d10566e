/**
 * The two-phase pass: collect every walked directory under the root that
 * is truly empty, then create a marker file in each, counting the writes
 * that succeed.
 */
module Gitkeep {
  import opened FileSystem
  import opened Confirm

  /**
   * The emptiness classifier, applied to the outcome of listing a
   * directory: only a successful, empty listing qualifies. A listing that
   * holds only the marker counts as already handled; any other content,
   * and any listing error, does not qualify either.
   */
  function IsReallyEmpty(listing: Listing): (r: bool)
    ensures r <==> listing == Entries([])
    ensures listing == Entries([Marker]) ==> !r
    ensures listing.Entries? && Marker in listing.names ==> !r
  {
    match listing
    case ListError => false
    case Entries(names) =>
      if |names| == 0 then true
      else if |names| == 1 && names[0] == Marker then false
      else false
  }

  /** Whether phase 1 keeps the walked path `p`: it has the root as a string prefix and is truly empty. */
  predicate Collects(nodes: map<Path, Node>, root: Path, p: Path): (b: bool)
    ensures b <==> root <= p && IsDir(nodes, p) && nodes[p].readable && nodes[p].entries == []
  {
    root <= p && IsReallyEmpty(ListDir(nodes, p))
  }

  /** The candidate list phase 1 builds from the walk, in walk order. */
  function Candidates(nodes: map<Path, Node>, walk: seq<Path>, root: Path): (c: seq<Path>)
    ensures |c| <= |walk|
    ensures forall p :: p in c <==> p in walk && Collects(nodes, root, p)
  {
    if walk == [] then []
    else
      var rest := Candidates(nodes, walk[..|walk| - 1], root);
      var p := walk[|walk| - 1];
      if Collects(nodes, root, p) then rest + [p] else rest
  }

  /** Candidates keep the walk's order: collecting over two stretches of the walk concatenates. */
  lemma {:induction false} CandidatesAppend(nodes: map<Path, Node>, w1: seq<Path>, w2: seq<Path>, root: Path)
    ensures Candidates(nodes, w1 + w2, root) == Candidates(nodes, w1, root) + Candidates(nodes, w2, root)
  {
    if w2 == [] {
      assert w1 + w2 == w1;
    } else {
      var w2' := w2[..|w2| - 1];
      assert (w1 + w2)[..|w1 + w2| - 1] == w1 + w2';
      CandidatesAppend(nodes, w1, w2', root);
    }
  }

  /** A directory node after phase 2, given the node before it. */
  function AfterWrites(nodes: map<Path, Node>, folders: seq<Path>, root: Path, p: Path): Node
    requires p in nodes
  {
    if p in folders && root <= p && WriteSucceeds(nodes, p) then Marked(nodes[p]) else nodes[p]
  }

  datatype WriteReport = WriteReport(nodes: map<Path, Node>, created: nat)

  /**
   * Phase 2 over `folders`: each folder that passes the prefix re-check gets
   * a marker; a failed write changes nothing and the pass goes on.
   */
  function WriteAll(nodes: map<Path, Node>, folders: seq<Path>, root: Path): (r: WriteReport)
    ensures r.created <= |folders|
    ensures r.nodes.Keys == nodes.Keys
  {
    if folders == [] then WriteReport(nodes, 0)
    else
      var prev := WriteAll(nodes, folders[..|folders| - 1], root);
      var last := folders[|folders| - 1];
      if !(root <= last) then prev
      else
        var w := CreateMarker(prev.nodes, last);
        WriteReport(w.nodes, if w.ok then prev.created + 1 else prev.created)
  }

  /**
   * After phase 2 every directory is as before, except that each folder of
   * the list that passes the prefix re-check and accepts the write now
   * holds the marker. Whether a write succeeds is never changed by another write.
   */
  lemma {:induction false} WriteAllNodes(nodes: map<Path, Node>, folders: seq<Path>, root: Path)
    ensures forall p :: p in nodes ==> WriteAll(nodes, folders, root).nodes[p] == AfterWrites(nodes, folders, root, p)
    ensures forall p :: WriteSucceeds(WriteAll(nodes, folders, root).nodes, p) <==> WriteSucceeds(nodes, p)
  {
    if folders != [] {
      var before := folders[..|folders| - 1];
      var last := folders[|folders| - 1];
      WriteAllNodes(nodes, before, root);
      assert folders == before + [last];
      assert forall p :: p in folders <==> p in before || p == last;
    }
  }

  /** Whether phase 2 writes a marker into `p`: it passes the prefix re-check and the write succeeds. */
  predicate WillWrite(nodes: map<Path, Node>, root: Path, p: Path) {
    root <= p && WriteSucceeds(nodes, p)
  }

  /** One more folder adds one to the counter exactly when phase 2 writes into it. */
  lemma WriteAllStep(nodes: map<Path, Node>, folders: seq<Path>, root: Path)
    requires folders != []
    ensures WriteAll(nodes, folders, root).created ==
      WriteAll(nodes, folders[..|folders| - 1], root).created + if WillWrite(nodes, root, folders[|folders| - 1]) then 1 else 0
  {
    WriteAllNodes(nodes, folders[..|folders| - 1], root);
  }

  /**
   * The counter reaches the length of the list exactly when every folder
   * passes the prefix re-check and accepts the write.
   */
  lemma {:induction false} WriteAllCount(nodes: map<Path, Node>, folders: seq<Path>, root: Path)
    ensures WriteAll(nodes, folders, root).created == |folders| <==>
      forall i :: 0 <= i < |folders| ==> WillWrite(nodes, root, folders[i])
  {
    if folders != [] {
      var before := folders[..|folders| - 1];
      var last := folders[|folders| - 1];
      WriteAllCount(nodes, before, root);
      WriteAllStep(nodes, folders, root);
      var ok := WillWrite(nodes, root, last);
      forall i | 0 <= i < |before| ensures before[i] == folders[i] { }
      assert (forall i :: 0 <= i < |folders| ==> WillWrite(nodes, root, folders[i])) <==>
        (forall i :: 0 <= i < |before| ==> WillWrite(nodes, root, before[i])) && ok;
    }
  }

  /** The positions in `folders` that phase 2 writes into. */
  function Written(nodes: map<Path, Node>, root: Path, folders: seq<Path>): set<int> {
    set i | 0 <= i < |folders| && WillWrite(nodes, root, folders[i])
  }

  /** Extending the list by one folder adds its position exactly when phase 2 writes into it. */
  lemma WrittenStep(nodes: map<Path, Node>, root: Path, folders: seq<Path>)
    requires folders != []
    ensures var before := folders[..|folders| - 1];
      Written(nodes, root, folders) ==
        Written(nodes, root, before) + if WillWrite(nodes, root, folders[|folders| - 1]) then {|before|} else {}
  {
    var before := folders[..|folders| - 1];
    forall i | 0 <= i < |before| ensures before[i] == folders[i] { }
  }

  /** The counter is the number of folders that pass the prefix re-check and accept the write. */
  lemma {:induction false} WriteAllCreated(nodes: map<Path, Node>, folders: seq<Path>, root: Path)
    ensures WriteAll(nodes, folders, root).created == |Written(nodes, root, folders)|
  {
    if folders == [] {
      assert Written(nodes, root, folders) == {};
    } else {
      var before := folders[..|folders| - 1];
      WriteAllCreated(nodes, before, root);
      WriteAllStep(nodes, folders, root);
      WrittenStep(nodes, root, folders);
      assert |before| !in Written(nodes, root, before);
    }
  }

  /** How a run ends. */
  datatype Outcome =
    | RootMissing
    | NotADirectory
    | Cancelled
    | Completed(identified: nat, created: nat)

  datatype RunResult = RunResult(outcome: Outcome, nodes: map<Path, Node>)

  /**
   * The whole routine for the absolute root `root`, the operator's answer
   * and the walk order: validation, confirmation, phase 1, phase 2.
   */
  function Run(nodes: map<Path, Node>, root: Path, answer: string, walk: seq<Path>): (r: RunResult)
    ensures r.outcome == RootMissing <==> !Exists(nodes, root)
    ensures r.outcome == NotADirectory <==> Exists(nodes, root) && !IsDir(nodes, root)
    ensures r.outcome == Cancelled <==> IsDir(nodes, root) && !Confirmed(answer)
    ensures !r.outcome.Completed? ==> r.nodes == nodes
    ensures r.outcome.Completed? ==> r.outcome.created <= r.outcome.identified
  {
    if !Exists(nodes, root) then RunResult(RootMissing, nodes)
    else if !IsDir(nodes, root) then RunResult(NotADirectory, nodes)
    else if !Confirmed(answer) then RunResult(Cancelled, nodes)
    else
      var empty := Candidates(nodes, walk, root);
      var w := WriteAll(nodes, empty, root);
      RunResult(Completed(|empty|, w.created), w.nodes)
  }

  /** Phase 1: walk the tree and collect the truly empty directories under the root. */
  method CollectEmptyFolders(fs: FileSystem, walk: seq<Path>, root: Path) returns (emptyFolders: seq<Path>)
    ensures emptyFolders == Candidates(fs.nodes, walk, root)
  {
    emptyFolders := [];
    for i := 0 to |walk|
      invariant emptyFolders == Candidates(fs.nodes, walk[..i], root)
    {
      assert walk[..i + 1][..i] == walk[..i];
      var dirpath := walk[i];
      if !(root <= dirpath) {
        continue;
      }
      if IsReallyEmpty(ListDir(fs.nodes, dirpath)) {
        emptyFolders := emptyFolders + [dirpath];
      }
    }
    assert walk[..|walk|] == walk;
  }

  /** Phase 2: create the marker in each collected folder and count the successes. */
  method WriteMarkers(fs: FileSystem, emptyFolders: seq<Path>, root: Path) returns (createdCount: nat)
    modifies fs
    ensures WriteReport(fs.nodes, createdCount) == WriteAll(old(fs.nodes), emptyFolders, root)
  {
    createdCount := 0;
    for i := 0 to |emptyFolders|
      invariant WriteReport(fs.nodes, createdCount) == WriteAll(old(fs.nodes), emptyFolders[..i], root)
    {
      assert emptyFolders[..i + 1][..i] == emptyFolders[..i];
      var folder := emptyFolders[i];
      if !(root <= folder) {
        continue;
      }
      var ok := fs.WriteMarker(folder);
      if ok {
        createdCount := createdCount + 1;
      }
    }
    assert emptyFolders[..|emptyFolders|] == emptyFolders;
  }

  /**
   * `create_gitkeep_for_empty_folders`: `abspath` stands for
   * `os.path.abspath` and `answer` for the line the operator types.
   */
  method CreateGitkeepForEmptyFolders(fs: FileSystem, rootDir: Path, abspath: Path -> Path, answer: string, walk: seq<Path>)
    returns (outcome: Outcome)
    modifies fs
    ensures RunResult(outcome, fs.nodes) == Run(old(fs.nodes), abspath(rootDir), answer, walk)
  {
    var root := abspath(rootDir);
    if !Exists(fs.nodes, root) {
      return RootMissing;
    }
    if !IsDir(fs.nodes, root) {
      return NotADirectory;
    }
    var confirm := Lower(Strip(answer));
    if confirm != "y" && confirm != "yes" {
      return Cancelled;
    }
    var emptyFolders := CollectEmptyFolders(fs, walk, root);
    var createdCount := WriteMarkers(fs, emptyFolders, root);
    outcome := Completed(|emptyFolders|, createdCount);
  }
}
