/**
 * Choosing the root directory from the command line, and the Windows
 * guard that replaces a root without a recognised drive prefix by the
 * current working directory.
 */
module DriveGuard {

  /** The drive prefixes the guard recognises. */
  const DrivePrefixes: seq<string> := ["C:\\", "D:\\", "E:\\", "F:\\"]

  /** `s.startswith(prefixes)` for a tuple of prefixes, tried in order. */
  predicate StartsWithAny(s: string, prefixes: seq<string>) {
    prefixes != [] && (prefixes[0] <= s || StartsWithAny(s, prefixes[1..]))
  }

  /** `s` starts with the tuple exactly when it starts with one of its members. */
  lemma {:induction false} StartsWithAnyMember(s: string, prefixes: seq<string>)
    ensures StartsWithAny(s, prefixes) <==> exists i :: 0 <= i < |prefixes| && prefixes[i] <= s
  {
    if prefixes != [] {
      StartsWithAnyMember(s, prefixes[1..]);
      assert forall i :: 0 < i < |prefixes| ==> prefixes[i] == prefixes[1..][i - 1];
    }
  }

  /** `s` starts with the drive root `d:\` exactly when its first three characters are `d`, a colon and a backslash. */
  lemma DriveRoot(d: char, s: string)
    ensures [d, ':', '\\'] <= s <==> |s| >= 3 && s[0] == d && s[1] == ':' && s[2] == '\\'
  {
    if |s| >= 3 && s[0] == d && s[1] == ':' && s[2] == '\\' {
      assert s[..3] == [d, ':', '\\'];
    }
  }

  /** The guard tries the four drive roots in turn. */
  lemma DrivePrefixesUnfold(s: string)
    ensures StartsWithAny(s, DrivePrefixes) <==> "C:\\" <= s || "D:\\" <= s || "E:\\" <= s || "F:\\" <= s
  {
    var p := DrivePrefixes;
    assert p[1..][1..][1..] == ["F:\\"] && p[1..][1..][1..][1..] == [];
    assert StartsWithAny(s, p[1..][1..][1..]) <==> "F:\\" <= s;
    assert p[1..][1..] == ["E:\\", "F:\\"];
    assert StartsWithAny(s, p[1..][1..]) <==> "E:\\" <= s || "F:\\" <= s;
    assert p[1..] == ["D:\\", "E:\\", "F:\\"];
    assert StartsWithAny(s, p[1..]) <==> "D:\\" <= s || "E:\\" <= s || "F:\\" <= s;
  }

  /** A path passes the guard exactly when it begins with one of the letters C to F, a colon and a backslash. */
  lemma DrivePrefixShape(s: string)
    ensures StartsWithAny(s, DrivePrefixes) <==> |s| >= 3 && s[0] in "CDEF" && s[1] == ':' && s[2] == '\\'
  {
    DrivePrefixesUnfold(s);
    DriveRoot('C', s);
    DriveRoot('D', s);
    DriveRoot('E', s);
    DriveRoot('F', s);
  }

  /** The first command-line argument if there is one, else the working directory. */
  function GivenRoot(argv: seq<string>, cwd: string): (root: string)
    ensures |argv| > 1 ==> root == argv[1]
    ensures |argv| <= 1 ==> root == cwd
  {
    if |argv| > 1 then argv[1] else cwd
  }

  /**
   * The root the script processes. Off Windows it is the given root; on
   * Windows the given root is kept exactly when its absolute form has a
   * recognised drive prefix, and is otherwise replaced by `cwd`.
   */
  function GuardedRoot(argv: seq<string>, cwd: string, isWindows: bool, abspath: string -> string): (root: string)
    ensures root == GivenRoot(argv, cwd) || root == cwd
    ensures !isWindows ==> root == GivenRoot(argv, cwd)
    ensures isWindows && StartsWithAny(abspath(GivenRoot(argv, cwd)), DrivePrefixes) ==> root == GivenRoot(argv, cwd)
    ensures isWindows && !StartsWithAny(abspath(GivenRoot(argv, cwd)), DrivePrefixes) ==> root == cwd
  {
    var root := GivenRoot(argv, cwd);
    if isWindows && !StartsWithAny(abspath(root), DrivePrefixes) then cwd else root
  }

  /**
   * On Windows a root on a drive the guard does not list, such as `G:\data`,
   * falls back to the working directory; `D:\work` is kept. Both are
   * already absolute, so `abspath` returns them unchanged.
   */
  lemma GuardExamples(abspath: string -> string)
    requires abspath("G:\\data") == "G:\\data" && abspath("D:\\work") == "D:\\work"
    ensures GuardedRoot(["create_gitkeep.py", "G:\\data"], "C:\\home", true, abspath) == "C:\\home"
    ensures GuardedRoot(["create_gitkeep.py", "D:\\work"], "C:\\home", true, abspath) == "D:\\work"
  {
    DrivePrefixShape("G:\\data");
    DrivePrefixShape("D:\\work");
  }
}
