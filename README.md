# create_gitkeep, modelled in Dafny

`create_gitkeep.py` walks a directory tree and creates a zero-byte
`.gitkeep` file in every directory that is truly empty. Version-control
systems that do not track empty directories then keep the tree's shape.
The script works in these steps:

1. It picks the root: the first command-line argument, or the working
   directory. On Windows, a root whose absolute form does not start with
   `C:\`, `D:\`, `E:\` or `F:\` is replaced by the working directory.
2. It rejects a root that does not exist or is not a directory.
3. It asks the operator to confirm. The answer counts only if, once
   stripped and lower-cased, it is `y` or `yes`.
4. Phase 1 walks every directory. It keeps a directory only if its path
   string starts with the root and its listing is empty.
5. Phase 2 checks the prefix of each kept directory again. It then creates
   `.gitkeep` inside it and counts the writes that succeed.

The classifier treats a directory that holds only `.gitkeep` as already
handled. So after a run whose writes all succeeded, a second run finds
no work.

The model replaces the filesystem with a map from path strings to nodes.
A directory node lists its entry names. It also says whether listing it
succeeds and whether creating a file in it succeeds. The filesystem is a
class, `FileSystem.FileSystem`, whose `nodes` field the write pass
reassigns. Phase 1 and phase 2 are methods with loops. Each is proved equal
to a specification function: `Candidates` for phase 1, `WriteAll` for
phase 2 and `Run` for the whole routine. The lemmas about these functions
cover:

- which directories receive a marker;
- that nothing else changes, including everything outside the root;
- the bound on the counter, and when the counter reaches it;
- idempotence.

Modules:
- `FileSystem` (filesystem.dfy): nodes, listing, the marker write, the class.
- `Confirm` (confirm.dfy): `str.strip()`, `str.lower()`, the confirmation gate.
- `Gitkeep` (gitkeep.dfy): the classifier, both phases, the whole routine.
- `GitkeepProperties` (properties.dfy): what a completed run does, and idempotence.
- `DriveGuard` (driveguard.dfy): root selection and the Windows drive-prefix guard.
- `Script` (script.dfy): the `__main__` block.
- `Scenario` (scenario.dfy): worked runs over small concrete trees.

Two points about what the code does and does not promise:
- The code checks only a raw string prefix, so `/r2` passes for root `/r`.
  The model states that prefix property and nothing stronger.
- The code keeps no count of directories skipped for listing errors. Its
  summary, like `Completed`, reports only the numbers identified and
  created.

## Model

| member | source | states |
|---|---|---|
| `Gitkeep.IsReallyEmpty` | create_gitkeep.py:5-22 | The classifier is true exactly for a successful, empty listing. A listing of only `.gitkeep`, any listing that contains `.gitkeep`, any other non-empty listing, and a listing error are all false. |
| `Gitkeep.Collects` | create_gitkeep.py:49-53 | Phase 1 keeps a walked path exactly when it has the root as a string prefix and is a readable directory with no entries. |
| `Gitkeep.Candidates` | create_gitkeep.py:46-54 | A path is a candidate exactly when it is walked, has the root as a string prefix, and the classifier accepts its listing. There are never more candidates than walked paths. |
| `Gitkeep.CandidatesAppend` | create_gitkeep.py:47-54 | Candidates keep walk order: collecting over a walk `w1 + w2` gives the candidates of `w1` followed by those of `w2`. |
| `Gitkeep.CollectEmptyFolders` | create_gitkeep.py:45-54 | The phase-1 loop builds exactly `Candidates` of the current filesystem, the walk and the root. |
| `Gitkeep.WriteAll` | create_gitkeep.py:57-71 | Phase 2 keeps the set of paths and counts at most one success per listed folder. |
| `Gitkeep.WriteAllNodes` | create_gitkeep.py:58-71 | After phase 2, each folder that was listed, passed the prefix re-check and accepted the write holds the marker. Every other node is unchanged, and no write changes whether another write succeeds. |
| `Gitkeep.WriteAllStep` | create_gitkeep.py:58-68 | Each further folder adds one to the counter exactly when it passes the prefix re-check and accepts the write. |
| `Gitkeep.WriteAllCreated` | create_gitkeep.py:57-68 | The counter equals the number of listed folders that pass the prefix re-check and accept the write. |
| `Gitkeep.WriteAllCount` | create_gitkeep.py:57-68 | The counter equals the number of listed folders if and only if every folder passes the prefix re-check and accepts the write. |
| `Gitkeep.WriteMarkers` | create_gitkeep.py:56-71 | The phase-2 loop leaves the filesystem and the counter exactly as `WriteAll` describes. A failed write does not stop the loop. |
| `Gitkeep.Run` | create_gitkeep.py:24-73 | A missing root, a root that is not a directory, and a declined confirmation each end the run with their own outcome, before phase 1, and leave the filesystem unchanged. A completed run never creates more markers than it identified. |
| `Gitkeep.CreateGitkeepForEmptyFolders` | create_gitkeep.py:24-73 | The routine (validation, confirmation, collect loop, write loop) returns the outcome `Run` gives and leaves the filesystem as `Run` gives. |
| `GitkeepProperties.RunChangesOnlyCandidates` | create_gitkeep.py:57-68 | A run adds or removes no path and changes nothing outside the root. It changes only candidates whose write succeeded, and each of them then holds exactly `[".gitkeep"]`. |
| `GitkeepProperties.RunCounts` | create_gitkeep.py:57-73 | On completion, the number identified is the number of candidates. The number created is the number of candidates whose write succeeds, because the prefix re-check never skips a candidate. So it is at most the number identified, and equals it if and only if every candidate accepts the write. |
| `GitkeepProperties.MarkerPathsUnderRoot` | create_gitkeep.py:60-64 | Every marker path `os.path.join(folder, ".gitkeep")` of a candidate has the root as a string prefix. |
| `GitkeepProperties.NonEmptyUntouched` | create_gitkeep.py:12-16 | A directory that lists any entry at all is never changed by a run. |
| `GitkeepProperties.ParentUnaffected` | create_gitkeep.py:64-68 | In a filesystem where each directory lists every child one path component below it, the parent of any directory or file is never changed by a run. |
| `GitkeepProperties.NoneCollected` | create_gitkeep.py:46-54 | When no walked path qualifies, phase 1 collects nothing. |
| `GitkeepProperties.SecondRunCollectsFailures` | create_gitkeep.py:12-14 | A second run over the result of a completed run collects exactly the first run's candidates whose write failed. |
| `GitkeepProperties.Idempotent` | create_gitkeep.py:64-68 | After a completed run in which every write succeeded, a second run identifies 0 directories, creates 0 markers and changes nothing. |
| `FileSystem.ListDir` | create_gitkeep.py:8 | Listing succeeds exactly on a readable directory, and then yields that directory's entries. A missing path, a regular file and an unreadable directory give an error. |
| `FileSystem.CreateMarker` | create_gitkeep.py:64-71 | Creating the marker succeeds exactly when the folder is a directory that accepts writes. On success only that folder changes and it lists `.gitkeep`. On failure nothing changes. |
| `FileSystem.WithMarker` | create_gitkeep.py:66-67 | Opening `.gitkeep` for writing adds the name exactly once when it is missing, so the entries gain one `.gitkeep` and lose nothing. An existing `.gitkeep` is kept as it is, since the open truncates the file. An empty directory becomes `[".gitkeep"]`. |
| `FileSystem.Join` | create_gitkeep.py:64 | `os.path.join(folder, name)` always ends with `name`. An absolute `name` is the whole result. Otherwise the result starts with `folder`, and a single `/` is put between the two unless `folder` is empty or already ends in `/`. |
| `FileSystem.FileSystem.WriteMarker` | create_gitkeep.py:64-71 | One write of the marker changes the filesystem as `CreateMarker` says and reports whether it succeeded. |
| `Confirm.Strip` | create_gitkeep.py:40 | `strip()` returns the slice left after removing the longest leading and the longest trailing run of Python whitespace. The result neither starts nor ends with whitespace. |
| `Confirm.StripOf` | create_gitkeep.py:40 | Stripping `a + t + b` returns `t` whenever `a` and `b` are whitespace and `t` has no whitespace at either end. |
| `Confirm.Lower` | create_gitkeep.py:40 | `lower()` keeps the length and lowers each letter. |
| `Confirm.Confirmed` | create_gitkeep.py:40-43 | The gate accepts an answer exactly when its stripped text is `y` or `yes` in any mixture of case. |
| `Confirm.PaddingIgnored` | create_gitkeep.py:40-43 | Whitespace around the answer never changes the decision. |
| `Confirm.AcceptedAnswer` | create_gitkeep.py:40-41 | `" YES\n"` is accepted. |
| `Confirm.BlankAnswerDeclines` | create_gitkeep.py:40-43 | A blank answer declines. |
| `Confirm.InnerSpaceDeclines` | create_gitkeep.py:40-43 | Whitespace inside the answer is kept, so `"ye s"` declines. |
| `DriveGuard.GivenRoot` | create_gitkeep.py:77-80 | The root is `argv[1]` when there is an argument, else the working directory. |
| `DriveGuard.GuardedRoot` | create_gitkeep.py:83-87 | The chosen root is the given root or the working directory. Off Windows it is the given root. On Windows the given root is kept if and only if its absolute form starts with one of the four drive prefixes. |
| `DriveGuard.StartsWithAnyMember` | create_gitkeep.py:85 | `startswith` on a tuple holds exactly when the string starts with one of the tuple's members. |
| `DriveGuard.DrivePrefixShape` | create_gitkeep.py:85 | A path starts with one of `C:\`, `D:\`, `E:\`, `F:\` exactly when its first three characters are one of the letters C to F, a colon and a backslash. |
| `DriveGuard.GuardExamples` | create_gitkeep.py:83-87 | On Windows, the absolute root `G:\data` falls back to the working directory, and `D:\work` is kept. |
| `Script.RunScript` | create_gitkeep.py:75-89 | The `__main__` block runs the routine on the guarded root, with the effect `Run` describes. |
| `Scenario.TreeListsChildren` | create_gitkeep.py:64-68 | The example tree lists every child in its parent directory, so `ParentUnaffected` applies to it. |
| `Scenario.TreeCandidates` | create_gitkeep.py:46-54 | For `/r` with an empty `a`, a `b` that holds an empty `c`, and a `d` that holds a file, phase 1 keeps `/r/a` and `/r/b/c`, in that order. |
| `Scenario.TreeWrites` | create_gitkeep.py:57-68 | Phase 2 on those two candidates writes both markers and counts 2. |
| `Scenario.FirstRun` | create_gitkeep.py:24-73 | The run on that tree reports 2 identified and 2 created. It marks only `a` and `b/c`, not `b` and not `d`. |
| `Scenario.SecondRun` | create_gitkeep.py:24-73 | Running again on the result reports 0 identified and 0 created, and changes nothing. |
| `Scenario.FailingRunWalked` | create_gitkeep.py:47-73 | Over the walk os.walk yields, which leaves out the unlistable `/s/locked`, the run also completes with 1 identified, 0 created and nothing changed. |
| `Scenario.FailingRun` | create_gitkeep.py:17-22 | A walked directory whose listing fails is skipped. An empty directory that rejects the write is identified but not marked. The run still completes, with 1 identified, 0 created and nothing changed. |

## Left out

- `os.walk` is not modelled. The walk is a parameter: the sequence of
  directory paths in the order os.walk yields them. The model does not
  derive that sequence from the tree, so completeness of the walk is not
  stated. A walked path that is not a directory, or cannot be listed, is
  rejected by the classifier. With its default error handling, os.walk
  itself never yields a directory it cannot list (create_gitkeep.py:47). So
  the classifier's error branch (create_gitkeep.py:17-22) is reached only
  when the listing fails after the walk has yielded the directory, for
  example because its permissions changed in between. `Scenario.FailingRun`
  walks `/s/locked` to stand for that case. `Scenario.FailingRunWalked`
  shows the same result over the walk os.walk would yield, `["/s", "/s/ro"]`.
- `os.path.abspath` is a function parameter. Path normalisation, symbolic
  links and cross-device behaviour are not modelled.
- `os.path.exists`, `os.path.isdir`, `os.listdir` and `open` are replaced by
  lookups in the map. Each directory node has a `readable` flag and a
  `writable` flag. The first stands for every reason listing can fail
  (including permission errors in any locale). The second stands for every
  reason creating the file can fail.
- The marker file is recorded only as an entry of its directory. It gets
  no key of its own in the map.
- All console output is left out: the progress and summary lines, the
  warnings for skipped paths, and the message printed for a listing error
  that is not a permission error. Both branches of that error match return
  false, which is what the model's listing error gives.
- The `input()` prompt is replaced by the answer string. `platform.system()`,
  `sys.argv` and `os.getcwd()` are replaced by parameters.
- `Confirm.Lower`: lowers the ASCII letters only. Python lowers every
  Unicode letter. The only non-ASCII characters whose lower case is ASCII
  are the Kelvin sign (lowered to `k`) and the dotted capital I (lowered
  to `i` plus a combining dot). Neither can produce `y`, `e` or `s`, so
  the confirmation decision is the same.
- `FileSystem.Join`: uses the POSIX separator `/` only. The Windows
  separator is not modelled.
- Another process changing the tree during the run is not modelled.
  Neither is an exception from anything but the listing and the write.
