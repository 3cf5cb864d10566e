/** The script's entry point: pick the root, guard it, run the routine. */
module Script {
  import opened FileSystem
  import opened DriveGuard
  import opened Gitkeep

  /**
   * The `__main__` block: `argv`, `cwd`, `isWindows` and `abspath` stand for
   * `sys.argv`, `os.getcwd()`, the platform test and `os.path.abspath`.
   */
  method RunScript(fs: FileSystem, argv: seq<string>, cwd: string, isWindows: bool, abspath: string -> string,
                   answer: string, walk: seq<Path>)
    returns (outcome: Outcome)
    modifies fs
    ensures RunResult(outcome, fs.nodes) == Run(old(fs.nodes), abspath(GuardedRoot(argv, cwd, isWindows, abspath)), answer, walk)
  {
    var rootDirectory := GivenRoot(argv, cwd);
    if isWindows && !StartsWithAny(abspath(rootDirectory), DrivePrefixes) {
      rootDirectory := cwd;
    }
    outcome := CreateGitkeepForEmptyFolders(fs, rootDirectory, abspath, answer, walk);
  }
}
