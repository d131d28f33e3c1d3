/**
 * The builtins of src/commands.rs: `echo`, `pwd`, `cd`, `type`, the
 * unknown-command error, and the search for an executable along PATH.
 *
 * The process environment is an explicit `Env`: HOME and PATH (each possibly
 * unset), the current directory as `env::current_dir` reports it, whether
 * `env::set_current_dir` succeeds for a path, and the metadata
 * `std::fs::metadata` returns for a path.
 */
module Commands {
  import opened Wrappers
  import opened Text

  /** `BUILTINS` (src/commands.rs:4). */
  const BUILTINS: seq<string> := ["echo", "exit", "type", "pwd", "cd"]

  /** What `std::fs::metadata` reports: a regular file or not, and the Unix permission bits. */
  datatype Metadata = Metadata(isFile: bool, mode: bv32)

  datatype Env = Env(
    home: Option<string>,
    path: Option<string>,
    cwd: Result<string, string>,
    canChangeTo: string -> bool,
    metadata: string -> Option<Metadata>)

  /** The execute bits of user, group and others (0o111). */
  const EXECUTE_BITS: bv32 := 0x49

  /** A regular file with at least one execute bit set. */
  predicate IsExecutableFile(env: Env, full: string) {
    match env.metadata(full)
    case None => false
    case Some(m) => m.isFile && m.mode & EXECUTE_BITS != 0
  }

  /** The path `full_path` tries in one PATH entry. */
  function Candidate(dir: string, command: string): string {
    dir + "/" + command
  }

  /** The first entry of `dirs` holding an executable `command` (`find_map`). */
  function SearchPath(dirs: seq<string>, command: string, env: Env): (r: Option<string>)
    ensures r.None? <==> forall k :: 0 <= k < |dirs| ==> !IsExecutableFile(env, Candidate(dirs[k], command))
    ensures r.Some? ==>
      exists k :: 0 <= k < |dirs| && r.value == Candidate(dirs[k], command)
        && IsExecutableFile(env, r.value)
        && forall j :: 0 <= j < k ==> !IsExecutableFile(env, Candidate(dirs[j], command))
    decreases |dirs|
  {
    if dirs == [] then None
    else if IsExecutableFile(env, Candidate(dirs[0], command)) then Some(Candidate(dirs[0], command))
    else
      var r := SearchPath(dirs[1..], command, env);
      assert forall k :: 1 <= k < |dirs| ==> dirs[k] == dirs[1..][k - 1];
      if r.Some? then
        var k :| 0 <= k < |dirs| - 1 && r.value == Candidate(dirs[1..][k], command)
          && IsExecutableFile(env, r.value)
          && forall j :: 0 <= j < k ==> !IsExecutableFile(env, Candidate(dirs[1..][j], command));
        assert r.value == Candidate(dirs[k + 1], command);
        r
      else r
  }

  /** The entries of PATH, split at every ':' as `str::split` does. */
  function PathDirs(path: string): (dirs: seq<string>)
    ensures |dirs| >= 1
  {
    SplitWhere(path, IsColon)
  }

  /**
   * `full_path` (src/commands.rs:57-79): `dir/command` for the first PATH entry
   * `dir` in which it is an executable regular file; none when PATH is unset or
   * no entry has one.
   */
  function FullPath(command: string, env: Env): (r: Option<string>)
    ensures env.path.None? ==> r.None?
    ensures env.path.Some? ==> r == SearchPath(PathDirs(env.path.value), command, env)
  {
    match env.path
    case None => None
    case Some(p) => SearchPath(PathDirs(p), command, env)
  }

  /**
   * The directory `cd` changes to (src/commands.rs:20-31): HOME for no argument
   * or `~`, HOME + "/" + rest for `~/rest`, the argument verbatim otherwise.
   */
  function CdTarget(args: seq<string>, home: Option<string>): (target: Option<string>)
    ensures (|args| < 2 || args[1] == "~") ==> target == home
    ensures |args| >= 2 && "~/" <= args[1] ==>
              target == if home.Some? then Some(home.value + "/" + args[1][2..]) else None
    ensures |args| >= 2 && args[1] != "~" && !("~/" <= args[1]) ==> target == Some(args[1])
  {
    if |args| < 2 then home
    else if args[1] == "~" then home
    else if "~/" <= args[1] then
      match home
      case Some(h) => Some(h + "/" + args[1][2..])
      case None => None
    else Some(args[1])
  }

  /** `execute_cd` (src/commands.rs:19-38). The change of the process's directory itself is not modelled. */
  function ExecuteCd(args: seq<string>, env: Env): (r: Result<string, string>)
    ensures r.Ok? ==> r.value == ""
    ensures r.Ok? <==> CdTarget(args, env.home).Some? && env.canChangeTo(CdTarget(args, env.home).value)
    ensures CdTarget(args, env.home).None? ==> r == Err("cd: HOME not set")
    ensures CdTarget(args, env.home).Some? && r.Err? ==>
              r.error == "cd: " + CdTarget(args, env.home).value + ": No such file or directory"
  {
    match CdTarget(args, env.home)
    case Some(dir) =>
      if env.canChangeTo(dir) then Ok("") else Err("cd: " + dir + ": No such file or directory")
    case None => Err("cd: HOME not set")
  }

  /** `execute_type` (src/commands.rs:40-54). */
  function ExecuteType(args: seq<string>, env: Env): (r: Result<string, string>)
    ensures r.Ok?
    ensures |args| < 2 ==> r.value == "type: missing argument\n"
    ensures |args| >= 2 && args[1] in BUILTINS ==> r.value == args[1] + " is a shell builtin\n"
    ensures |args| >= 2 && args[1] !in BUILTINS && FullPath(args[1], env).Some? ==>
              r.value == args[1] + " is " + FullPath(args[1], env).value + "\n"
    ensures |args| >= 2 && args[1] !in BUILTINS && FullPath(args[1], env).None? ==>
              r.value == args[1] + ": not found\n"
  {
    if |args| < 2 then Ok("type: missing argument\n")
    else
      var arg := args[1];
      if arg in BUILTINS then Ok(arg + " is a shell builtin\n")
      else
        match FullPath(arg, env)
        case Some(path) => Ok(arg + " is " + path + "\n")
        case None => Ok(arg + ": not found\n")
  }

  /** `execute_builtin` (src/commands.rs:7-17). `echo` indexes `args[1..]`, so it needs a command name. */
  function ExecuteBuiltin(cmd: string, args: seq<string>, env: Env): (r: Result<string, string>)
    requires cmd == "echo" ==> |args| >= 1
    ensures cmd == "echo" ==> r == Ok(Join(args[1..], " ") + "\n")
    ensures cmd == "pwd" ==> r == match env.cwd
                                   case Ok(dir) => Ok(dir + "\n")
                                   case Err(e) => Err("Error getting current directory: " + e)
    ensures cmd == "cd" ==> r == ExecuteCd(args, env)
    ensures cmd == "type" ==> r == ExecuteType(args, env)
    ensures cmd !in ["pwd", "cd", "type", "echo"] ==> r == Err(cmd + ": command not found")
  {
    match cmd
    case "pwd" =>
      (match env.cwd
       case Ok(dir) => Ok(dir + "\n")
       case Err(e) => Err("Error getting current directory: " + e))
    case "cd" => ExecuteCd(args, env)
    case "type" => ExecuteType(args, env)
    case "echo" => Ok(Join(args[1..], " ") + "\n")
    case _ => Err(cmd + ": command not found")
  }

  // ---------------------------------------------------------------------------
  // Properties

  /** PATH split at ':' and joined again is PATH itself: every entry is searched, in order. */
  lemma PathDirsJoin(path: string)
    ensures Join(PathDirs(path), ":") == path
  {
    JoinSplitWhere(path, IsColon, ':');
  }

  /** The output of `echo` gives back the arguments when split at spaces. */
  lemma EchoRoundTrip(args: seq<string>, env: Env)
    requires |args| >= 2
    requires forall k, i :: 1 <= k < |args| && 0 <= i < |args[k]| ==> args[k][i] != ' '
    ensures var out := ExecuteBuiltin("echo", args, env).value;
            |out| >= 1 && out[|out| - 1] == '\n' && SplitWhere(out[..|out| - 1], IsSpace) == args[1..]
  {
    var parts := args[1..];
    var out := Join(parts, " ") + "\n";
    assert out[..|out| - 1] == Join(parts, " ");
    assert forall k, i :: 0 <= k < |parts| && 0 <= i < |parts[k]| ==> parts[k][i] != ' ' by {
      forall k, i | 0 <= k < |parts| && 0 <= i < |parts[k]| ensures parts[k][i] != ' ' {
        assert parts[k] == args[k + 1];
      }
    }
    SplitWhereJoin(parts, IsSpace, ' ');
  }

  /** `cd ~/rest` goes to HOME/rest, and an argument not starting with `~` is used as given. */
  lemma CdExpansion(home: string, rest: string, dir: string)
    requires dir == [] || dir[0] != '~'
    ensures CdTarget(["cd", "~/" + rest], Some(home)) == Some(home + "/" + rest)
    ensures CdTarget(["cd", dir], Some(home)) == Some(dir)
    ensures CdTarget(["cd", dir], None) == Some(dir)
  {
    var arg := "~/" + rest;
    assert "~/" <= arg && arg[2..] == rest;
    assert arg != "~" by {
      assert |arg| >= 2;
    }
    assert !("~/" <= dir) && dir != "~" by {
      if dir != [] {
        assert dir[0] != "~/"[0];
      }
    }
  }

  /** For a builtin name, `type` reports a builtin whatever PATH holds. */
  lemma TypeBuiltinWinsOverPath(name: string, env: Env)
    requires name in BUILTINS
    ensures ExecuteBuiltin("type", ["type", name], env) == Ok(name + " is a shell builtin\n")
  {
  }

  /** A PATH hit is the first entry, in order, that holds an executable file of that name. */
  lemma FullPathFirstMatch(command: string, env: Env, k: nat)
    requires env.path.Some? && k < |PathDirs(env.path.value)|
    requires IsExecutableFile(env, Candidate(PathDirs(env.path.value)[k], command))
    ensures FullPath(command, env).Some?
    ensures var dirs := PathDirs(env.path.value);
            exists j :: 0 <= j <= k && FullPath(command, env).value == Candidate(dirs[j], command)
  {
    var dirs := PathDirs(env.path.value);
    var r := FullPath(command, env);
    var j :| 0 <= j < |dirs| && r.value == Candidate(dirs[j], command)
      && IsExecutableFile(env, r.value)
      && forall i :: 0 <= i < j ==> !IsExecutableFile(env, Candidate(dirs[i], command));
    assert j <= k;
  }

  /** The unit test `test_echo` (src/commands.rs:85-89). */
  lemma TestEcho(env: Env)
    ensures ExecuteBuiltin("echo", ["echo", "hello", "world"], env) == Ok("hello world\n")
  {
    assert ["echo", "hello", "world"][1..] == ["hello", "world"];
    assert Join(["hello", "world"], " ") == "hello world";
    assert "hello world" + "\n" == "hello world\n";
  }

  /** The unit test `test_type_builtin` (src/commands.rs:91-95), with the whole message. */
  lemma TestTypeBuiltin(env: Env)
    ensures ExecuteBuiltin("type", ["type", "echo"], env) == Ok("echo is a shell builtin\n")
  {
    assert "echo" in BUILTINS;
    assert "echo" + " is a shell builtin\n" == "echo is a shell builtin\n";
  }

  /** `exit` is listed among the builtins but not dispatched: running it reports an unknown command. */
  lemma ExitNotDispatched(env: Env)
    ensures ExecuteBuiltin("exit", ["exit"], env) == Err("exit: command not found")
  {
    assert "exit" !in ["pwd", "cd", "type", "echo"];
    assert "exit" + ": command not found" == "exit: command not found";
  }

}
