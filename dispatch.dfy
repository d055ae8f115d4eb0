/** The entry point `main`: the name the program was invoked under selects a
    command in the alias file, which is then run with the remaining arguments.
    Environment, arguments and file system are parameters; what the program
    does is returned as an `Outcome`. */
module Dispatch {
  import opened Text
  import opened Aliases

  /** The environment variable that names the alias file. */
  const AliasFileVariable := "GoAliasesFile"

  /** What one invocation does. */
  datatype Outcome =
    | NoAliasFile                                  // variable unset: message, normal return
    | ReadFailed(error: IoError)                   // alias file unreadable: message, exit 1
    | AliasNotFound(name: string)                  // no alias for the name: message, exit 1
    | Run(command: string, args: seq<string>)      // command started with the arguments

  /** How a started command ended: `Completed` when it ran and exited with
      status 0, `Failed` when it could not be started or exited otherwise. */
  datatype RunResult = Completed | Failed(error: IoError)

  /** The name looked up in the alias map: `argv0` with one leading `./` removed. */
  function InvokingName(argv0: string): (name: string)
    ensures |argv0| >= 2 && argv0[0] == '.' && argv0[1] == '/' ==> argv0 == "./" + name
    ensures !(|argv0| >= 2 && argv0[0] == '.' && argv0[1] == '/') ==> name == argv0
  {
    TrimPrefix(argv0, "./")
  }

  /** `main`, up to the start of the command. `env` is the value of the alias-file
      variable (empty when unset) and `file` what the file system holds at the
      path it names. */
  function Invoke(env: string, argv: seq<string>, file: FileState): Outcome
    requires |argv| >= 1
  {
    var name := InvokingName(argv[0]);
    if env == "" then NoAliasFile
    else match Load(file)
      case Err(e) => ReadFailed(e)
      case Ok(aliases) =>
        if name !in aliases then AliasNotFound(name)
        else Run(aliases[name], argv[1..])
  }

  /** The exit status of the process once the outcome is known: a failed
      command is answered by an explicit exit with status 0, a completed one
      by returning from `main`, which is status 0 as well. */
  function ExitStatus(o: Outcome, result: RunResult): int
  {
    match o
    case NoAliasFile => 0
    case ReadFailed(_) => 1
    case AliasNotFound(_) => 1
    case Run(_, _) => if result.Failed? then 0 /* explicit exit */ else 0 /* return */
  }

  /** The line printed to standard output, if any. */
  function Message(o: Outcome): (m: Option<string>)
    ensures m.None? <==> o.Run?
  {
    match o
    case NoAliasFile => Some("No " + AliasFileVariable + " environment variable set\n")
    case ReadFailed(e) => Some("Error reading aliases: " + e.text + "\n")
    case AliasNotFound(name) => Some("Alias not found for executable: " + name + "\n")
    case Run(_, _) => None
  }

  /** Only a leading `./` is removed, and only once. */
  lemma InvokingNameStripsOnce(rest: string)
    ensures InvokingName("./" + rest) == rest
    ensures InvokingName("././" + rest) == "./" + rest
  {
  }

  /** With the variable unset the alias file is never consulted: the outcome is
      the same whatever the file system holds. */
  lemma UnsetVariableIgnoresFile(argv: seq<string>, file1: FileState, file2: FileState)
    requires |argv| >= 1
    ensures Invoke("", argv, file1) == Invoke("", argv, file2) == NoAliasFile
    ensures ExitStatus(Invoke("", argv, file1), Completed) == 0
  {
  }

  /** The command started for a name is the command on the last line of the
      alias file that defines that name, and the arguments are exactly those
      after the program name. */
  lemma {:induction false} InvokeRuns(env: string, argv: seq<string>, file: FileState)
    requires |argv| >= 1
    ensures Invoke(env, argv, file).Run? <==>
      env != "" && Readable(file) && exists i :: Defines(LinesOf(file), i, InvokingName(argv[0]))
    ensures Invoke(env, argv, file).Run? ==>
      var o := Invoke(env, argv, file);
      && o.args == argv[1..]
      && WellFormed(o.command)
      && exists i :: LastDefines(LinesOf(file), i, InvokingName(argv[0]))
                     && ParseLine(LinesOf(file)[i]).value.command == o.command
  {
    var name := InvokingName(argv[0]);
    var lines := LinesOf(file);
    LoadReadable(file);
    ParseNames(lines, name);
    if Invoke(env, argv, file).Run? {
      ParseWellFormed(lines);
      var i := LastDefinition(lines, name);
      assert i >= 0;
      ParseLastWins(lines, i, name);
    }
  }

  /** The two failures that end with status 1 are told apart: the read fails exactly
      when the alias file is set but not readable, and a missing alias reports the
      name the program was invoked under. */
  lemma InvokeFails(env: string, argv: seq<string>, file: FileState)
    requires |argv| >= 1
    ensures Invoke(env, argv, file).ReadFailed? <==> env != "" && !Readable(file)
    ensures Invoke(env, argv, file).AliasNotFound? ==> Invoke(env, argv, file).name == InvokingName(argv[0])
  {
    LoadReadable(file);
  }

  /** The exit status is 1 exactly when the alias file is set but cannot be read
      or does not define the name; in every other case, whether the command
      ran, failed to start or failed, it is 0. */
  lemma ExitStatusPolicy(env: string, argv: seq<string>, file: FileState, result: RunResult)
    requires |argv| >= 1
    ensures ExitStatus(Invoke(env, argv, file), result) ==
      if env != "" && !(Readable(file) && exists i :: Defines(LinesOf(file), i, InvokingName(argv[0])))
      then 1 else 0
  {
    InvokeRuns(env, argv, file);
  }
}
