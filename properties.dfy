/**
 * What a completed run does to the filesystem, and why running it a
 * second time has nothing left to do.
 */
module GitkeepProperties {
  import opened FileSystem
  import opened Confirm
  import opened Gitkeep

  /**
   * A completed run changes only candidates whose write succeeded; each of
   * them held no entries and now holds exactly the marker. Nothing that does
   * not have the root as a prefix changes, and no path appears or disappears.
   */
  lemma {:induction false} RunChangesOnlyCandidates(nodes: map<Path, Node>, root: Path, answer: string, walk: seq<Path>)
    ensures var r := Run(nodes, root, answer, walk);
      && r.nodes.Keys == nodes.Keys
      && (forall p :: p in nodes && !(root <= p) ==> r.nodes[p] == nodes[p])
      && (forall p :: p in nodes && !(p in Candidates(nodes, walk, root) && WriteSucceeds(nodes, p)) ==> r.nodes[p] == nodes[p])
      && (r.outcome.Completed? ==> forall p :: p in Candidates(nodes, walk, root) && WriteSucceeds(nodes, p) ==>
            r.nodes[p] == Directory([Marker], nodes[p].readable, nodes[p].writable))
  {
    var r := Run(nodes, root, answer, walk);
    if r.outcome.Completed? {
      var c := Candidates(nodes, walk, root);
      WriteAllNodes(nodes, c, root);
      forall p | p in c && WriteSucceeds(nodes, p)
        ensures r.nodes[p] == Directory([Marker], nodes[p].readable, nodes[p].writable)
      {
        assert ListDir(nodes, p) == Entries([]);
      }
    }
  }

  /**
   * The counter is the number of candidates whose write succeeds: the
   * prefix re-check of phase 2 never skips a candidate. So it never exceeds
   * the number of candidates, and reaches it exactly when every write succeeds.
   */
  lemma {:induction false} RunCounts(nodes: map<Path, Node>, root: Path, answer: string, walk: seq<Path>)
    requires Run(nodes, root, answer, walk).outcome.Completed?
    ensures var o := Run(nodes, root, answer, walk).outcome;
      && o.identified == |Candidates(nodes, walk, root)|
      && o.created == |set i | 0 <= i < |Candidates(nodes, walk, root)| && WriteSucceeds(nodes, Candidates(nodes, walk, root)[i])|
      && o.created <= o.identified
      && (o.created == o.identified <==> forall p :: p in Candidates(nodes, walk, root) ==> WriteSucceeds(nodes, p))
  {
    var c := Candidates(nodes, walk, root);
    var w := WriteAll(nodes, c, root);
    WriteAllCount(nodes, c, root);
    WriteAllCreated(nodes, c, root);
    assert Written(nodes, root, c) == (set i | 0 <= i < |c| && WriteSucceeds(nodes, c[i])) by {
      forall i | 0 <= i < |c| ensures WillWrite(nodes, root, c[i]) <==> WriteSucceeds(nodes, c[i]) {
        assert c[i] in c;
      }
    }
    assert Run(nodes, root, answer, walk).outcome == Completed(|c|, w.created);
    assert (forall p :: p in c ==> WriteSucceeds(nodes, p)) <==>
           (forall i :: 0 <= i < |c| ==> WillWrite(nodes, root, c[i])) by {
      if forall p :: p in c ==> WriteSucceeds(nodes, p) {
        forall i | 0 <= i < |c| ensures WillWrite(nodes, root, c[i]) {
          assert c[i] in c;
        }
      }
    }
  }

  /** Every marker file phase 2 may create lies under the root, by string prefix. */
  lemma MarkerPathsUnderRoot(nodes: map<Path, Node>, walk: seq<Path>, root: Path)
    ensures forall p :: p in Candidates(nodes, walk, root) ==> root <= Join(p, Marker)
  {
    forall p | p in Candidates(nodes, walk, root) ensures root <= Join(p, Marker) {
      var j := Join(p, Marker);
      assert j[..|p|] == p;
      assert j[..|root|] == p[..|root|];
    }
  }

  /** A directory that lists anything at all is never touched by a run. */
  lemma NonEmptyUntouched(nodes: map<Path, Node>, root: Path, answer: string, walk: seq<Path>, p: Path)
    requires IsDir(nodes, p) && nodes[p].entries != []
    ensures Run(nodes, root, answer, walk).nodes[p] == nodes[p]
  {
    RunChangesOnlyCandidates(nodes, root, answer, walk);
  }

  /**
   * Every subdirectory or file in the map is listed by its parent directory:
   * a path that joins a directory with one path component `n` makes `n` an
   * entry of that directory.
   */
  ghost predicate ListsChildren(nodes: map<Path, Node>) {
    forall p, n :: IsDir(nodes, p) && n != [] && '/' !in n && Join(p, n) in nodes ==> n in nodes[p].entries
  }

  /** The parent of a directory that receives a marker is never marked itself. */
  lemma ParentUnaffected(nodes: map<Path, Node>, root: Path, answer: string, walk: seq<Path>, parent: Path, name: Name)
    requires ListsChildren(nodes)
    requires name != [] && '/' !in name
    requires IsDir(nodes, parent) && Join(parent, name) in nodes
    ensures Run(nodes, root, answer, walk).nodes[parent] == nodes[parent]
  {
    assert name in nodes[parent].entries;
    NonEmptyUntouched(nodes, root, answer, walk, parent);
  }

  /**
   * A second run over the result of a completed run collects exactly the
   * first run's candidates whose write failed.
   */
  lemma SecondRunCollectsFailures(nodes: map<Path, Node>, root: Path, answer: string, walk: seq<Path>)
    requires Run(nodes, root, answer, walk).outcome.Completed?
    ensures var after := Run(nodes, root, answer, walk).nodes;
      forall p :: p in Candidates(after, walk, root) <==> p in Candidates(nodes, walk, root) && !WriteSucceeds(nodes, p)
  {
    var after := Run(nodes, root, answer, walk).nodes;
    var c := Candidates(nodes, walk, root);
    RunChangesOnlyCandidates(nodes, root, answer, walk);
    forall p | p in walk && root <= p
      ensures IsReallyEmpty(ListDir(after, p)) <==> p in c && !WriteSucceeds(nodes, p)
    {
      if p in c && WriteSucceeds(nodes, p) {
        assert ListDir(after, p) == Entries([Marker]);
      }
    }
  }

  /** When no walked path qualifies, phase 1 collects nothing. */
  lemma {:induction false} NoneCollected(nodes: map<Path, Node>, walk: seq<Path>, root: Path)
    requires forall i :: 0 <= i < |walk| ==> !Collects(nodes, root, walk[i])
    ensures Candidates(nodes, walk, root) == []
  {
    if walk != [] {
      NoneCollected(nodes, walk[..|walk| - 1], root);
    }
  }

  /**
   * Idempotence: when every write of a run succeeded, running again over
   * the result finds no candidate, creates nothing and changes nothing.
   */
  lemma Idempotent(nodes: map<Path, Node>, root: Path, answer: string, walk: seq<Path>)
    requires Run(nodes, root, answer, walk).outcome.Completed?
    requires Run(nodes, root, answer, walk).outcome.created == Run(nodes, root, answer, walk).outcome.identified
    ensures var after := Run(nodes, root, answer, walk).nodes;
      Run(after, root, answer, walk) == RunResult(Completed(0, 0), after)
  {
    var after := Run(nodes, root, answer, walk).nodes;
    var c := Candidates(nodes, walk, root);
    RunCounts(nodes, root, answer, walk);
    SecondRunCollectsFailures(nodes, root, answer, walk);
    RunChangesOnlyCandidates(nodes, root, answer, walk);
    assert after == WriteAll(nodes, c, root).nodes;
    WriteAllNodes(nodes, c, root);
    assert IsDir(after, root) by {
      assert after[root] == AfterWrites(nodes, c, root, root);
    }
    forall i | 0 <= i < |walk| ensures !Collects(after, root, walk[i]) {
      assert walk[i] in walk;
    }
    NoneCollected(after, walk, root);
    assert WriteAll(after, [], root) == WriteReport(after, 0);
  }
}
