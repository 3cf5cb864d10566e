/** Worked runs over small concrete trees. */
module Scenario {
  import opened FileSystem
  import opened Confirm
  import opened Gitkeep
  import opened GitkeepProperties

  /** `/r` holds the empty `a`, `b` holding the empty `c`, and `d` holding `f`. */
  function Tree(): map<Path, Node> {
    map[
      "/r" := Directory(["a", "b", "d"], true, true),
      "/r/a" := Directory([], true, true),
      "/r/b" := Directory(["c"], true, true),
      "/r/b/c" := Directory([], true, true),
      "/r/d" := Directory(["f"], true, true),
      "/r/d/f" := RegularFile
    ]
  }

  /** A path `p + "/" + n` with `n` one component splits at its last separator. */
  lemma {:induction false} SplitAtSlash(p: Path, n: Name, k: Path, j: nat)
    requires k == p + "/" + n && '/' !in n
    requires j < |k| && k[j] == '/' && '/' !in k[j + 1..]
    ensures p == k[..j] && n == k[j + 1..]
  {
    assert k[|p|] == '/';
    assert forall i :: |p| < i < |k| ==> k[i] == n[i - |p| - 1];
    assert forall i :: j < i < |k| ==> k[i] == k[j + 1..][i - j - 1];
    assert k[..|p|] == p && k[|p| + 1..] == n;
  }

  /** Each path of the tree that joins a directory with one component is listed by that directory. */
  lemma TreeChildListed(p: Path, n: Name)
    requires IsDir(Tree(), p) && n != [] && '/' !in n && Join(p, n) in Tree()
    ensures n in Tree()[p].entries
  {
    var k := Join(p, n);
    assert p != [] && p[|p| - 1] != '/';
    assert k == p + "/" + n;
    if k == "/r" {
      assert false;
    } else if k == "/r/a" || k == "/r/b" || k == "/r/d" {
      SplitAtSlash(p, n, k, 2);
    } else if k == "/r/b/c" {
      SplitAtSlash(p, n, k, 4);
    } else {
      assert k == "/r/d/f";
      SplitAtSlash(p, n, k, 4);
    }
  }

  /** The tree lists every child in its parent, so `ParentUnaffected` applies to it. */
  lemma TreeListsChildren()
    ensures ListsChildren(Tree())
  {
    forall p, n | IsDir(Tree(), p) && n != [] && '/' !in n && Join(p, n) in Tree() ensures n in Tree()[p].entries {
      TreeChildListed(p, n);
    }
  }

  function TreeWalk(): seq<Path> {
    ["/r", "/r/a", "/r/b", "/r/b/c", "/r/d"]
  }

  function MarkedTree(): map<Path, Node> {
    Tree()["/r/a" := Directory([Marker], true, true)]["/r/b/c" := Directory([Marker], true, true)]
  }

  /** Which walked paths of the tree phase 1 keeps. */
  lemma TreeCollects()
    ensures !Collects(Tree(), "/r", "/r") && Collects(Tree(), "/r", "/r/a") && !Collects(Tree(), "/r", "/r/b")
    ensures Collects(Tree(), "/r", "/r/b/c") && !Collects(Tree(), "/r", "/r/d")
  {
    var t := Tree();
    assert ListDir(t, "/r") == Entries(["a", "b", "d"]);
    assert ListDir(t, "/r/a") == Entries([]);
    assert ListDir(t, "/r/b") == Entries(["c"]);
    assert ListDir(t, "/r/b/c") == Entries([]);
    assert ListDir(t, "/r/d") == Entries(["f"]);
  }

  /** Phase 1 over a five-directory walk in which the second and fourth directories qualify. */
  lemma CandidatesOfTreeWalk(t: map<Path, Node>, root: Path, a: Path, b: Path, c: Path, d: Path, e: Path)
    requires !Collects(t, root, a) && Collects(t, root, b) && !Collects(t, root, c)
    requires Collects(t, root, d) && !Collects(t, root, e)
    ensures Candidates(t, [a, b, c, d, e], root) == [b, d]
  {
    var w := [a, b, c, d, e];
    assert Candidates(t, w[..2], root) == [b] by {
      assert w[..1][..0] == [] && w[..2][..1] == w[..1];
    }
    assert Candidates(t, w[..4], root) == [b, d] by {
      assert w[..3][..2] == w[..2] && w[..4][..3] == w[..3];
    }
    assert w[..5][..4] == w[..4] && w[..5] == w;
  }

  /** Phase 1 on the tree keeps `a` and `b/c`, in walk order. */
  lemma TreeCandidates()
    ensures Candidates(Tree(), TreeWalk(), "/r") == ["/r/a", "/r/b/c"]
  {
    TreeCollects();
    CandidatesOfTreeWalk(Tree(), "/r", "/r", "/r/a", "/r/b", "/r/b/c", "/r/d");
  }

  /** Phase 2 on the two candidates writes both markers. */
  lemma TreeWrites()
    ensures WriteAll(Tree(), ["/r/a", "/r/b/c"], "/r") == WriteReport(MarkedTree(), 2)
  {
    var c: seq<Path> := ["/r/a", "/r/b/c"];
    var t := Tree();
    var t1 := t["/r/a" := Directory([Marker], true, true)];
    assert c[..1] == ["/r/a"] && c[..1][..0] == [];
    assert WriteAll(t, c[..1], "/r") == WriteReport(t1, 1);
  }

  /** Markers land in `a` and `b/c` only; two identified, two created. */
  lemma FirstRun()
    ensures Run(Tree(), "/r", "y", TreeWalk()) == RunResult(Completed(2, 2), MarkedTree())
  {
    AcceptsY();
    TreeCandidates();
    TreeWrites();
  }

  /** Running again right away identifies nothing and creates nothing. */
  lemma SecondRun()
    ensures Run(MarkedTree(), "/r", "y", TreeWalk()) == RunResult(Completed(0, 0), MarkedTree())
  {
    FirstRun();
    Idempotent(Tree(), "/r", "y", TreeWalk());
  }

  /** `/s` holds `locked`, which cannot be listed, and the empty `ro`, in which no file can be created. */
  function FailingTree(): map<Path, Node> {
    map[
      "/s" := Directory(["locked", "ro"], true, true),
      "/s/locked" := Directory([], false, true),
      "/s/ro" := Directory([], true, false)
    ]
  }

  /** Phase 1 over a three-directory walk in which only the last directory qualifies. */
  lemma CandidatesOfFailingWalk(t: map<Path, Node>, root: Path, a: Path, b: Path, c: Path)
    requires !Collects(t, root, a) && !Collects(t, root, b) && Collects(t, root, c)
    ensures Candidates(t, [a, b, c], root) == [c]
  {
    var w := [a, b, c];
    assert Candidates(t, w[..2], root) == [] by {
      assert w[..1][..0] == [] && w[..2][..1] == w[..1];
    }
    assert w[..3][..2] == w[..2] && w[..3] == w;
  }

  /**
   * The unlistable directory is skipped, the unwritable one is identified
   * but its write fails, and the run still completes: one identified, none
   * created, nothing changed.
   */
  lemma FailingRun()
    ensures Run(FailingTree(), "/s", "y", ["/s", "/s/locked", "/s/ro"]) == RunResult(Completed(1, 0), FailingTree())
  {
    var t := FailingTree();
    AcceptsY();
    assert ListDir(t, "/s") == Entries(["locked", "ro"]);
    assert ListDir(t, "/s/locked") == ListError;
    assert ListDir(t, "/s/ro") == Entries([]);
    CandidatesOfFailingWalk(t, "/s", "/s", "/s/locked", "/s/ro");
    var c: seq<Path> := ["/s/ro"];
    assert c[..0] == [];
    assert !WriteSucceeds(t, "/s/ro");
  }

  /** Over the walk os.walk itself yields, which omits the unlistable directory, the run ends the same. */
  lemma FailingRunWalked()
    ensures Run(FailingTree(), "/s", "y", ["/s", "/s/ro"]) == RunResult(Completed(1, 0), FailingTree())
  {
    var t := FailingTree();
    AcceptsY();
    assert ListDir(t, "/s") == Entries(["locked", "ro"]);
    assert ListDir(t, "/s/ro") == Entries([]);
    var w: seq<Path> := ["/s", "/s/ro"];
    assert w[..1] == ["/s"] && w[..1][..0] == [];
    var c: seq<Path> := ["/s/ro"];
    assert Candidates(t, w, "/s") == c;
    assert c[..0] == [];
    assert !WriteSucceeds(t, "/s/ro");
  }

  lemma AcceptsY()
    ensures Confirmed("y")
  {
    StripOf("", "y", "");
    assert "" + "y" + "" == "y";
  }
}
