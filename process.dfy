/**
 * What the platforms need from the operating system, as values: a command to
 * spawn, its exit status, I/O errors, and the host's answers to spawning a
 * process, probing a path and creating a symbolic link. Every executor
 * returns a `Step`: its result and the effects it had, in order.
 */
module Process {
  import opened Prelude

  /** The width of `ExitStatus::code()`. */
  newtype i32 = x: int | -0x8000_0000 <= x < 0x8000_0000

  /** A `std::process::Command`: the program and its arguments. */
  datatype Command = Command(program: string, args: seq<string>)

  /** The full argument vector, program first. */
  function Argv(command: Command): (argv: seq<string>)
    ensures |argv| == 1 + |command.args|
    ensures argv[0] == command.program && argv[1..] == command.args
  {
    [command.program] + command.args
  }

  /** `ExitStatus`; `code` is absent when the process was ended by a signal. */
  datatype ExitStatus = ExitStatus(code: Option<i32>) {
    /** `ExitStatus::success`: the process exited with code 0. */
    predicate Success() {
      code == Some(0)
    }
  }

  datatype IoError = IoError(description: string)

  /** The errors an operation can end with: `ExecutionError(Option<i32>)`, or an I/O error passed on by `?`. */
  datatype Error = ExecutionError(code: Option<i32>) | Io(cause: IoError)

  datatype Effect =
    | Logged(command: Command)
    | Spawned(command: Command)
    | MetadataProbed(path: string)
    | LinkLogged(original: string, link: string)
    | SymlinkRequested(original: string, link: string)

  /**
   * The host: its home directory, and what `Command::status`,
   * `std::fs::metadata` and `std::os::unix::fs::symlink` return.
   */
  datatype Host = Host(
    home: string,
    status: Command -> Result<ExitStatus, IoError>,
    metadata: string -> Result<(), IoError>,
    symlink: (string, string) -> Result<(), IoError>)

  datatype Step = Step(result: Result<(), Error>, effects: seq<Effect>)

  /**
   * The rule shared by `execute_command` and the Windows `create_link`: a
   * spawn failure is passed on, a successful exit is `Ok`, and any other exit
   * is an `ExecutionError` carrying the exit code, if there is one.
   */
  function StatusResult(status: Result<ExitStatus, IoError>): (r: Result<(), Error>)
    ensures r.Ok? <==> status == Ok(ExitStatus(Some(0)))
    ensures status.Err? ==> r == Err(Io(status.error))
    ensures status.Ok? && !status.value.Success() ==> r == Err(ExecutionError(status.value.code))
  {
    match status
    case Err(e) => Err(Io(e))
    case Ok(exit) => if exit.Success() then Ok(()) else Err(ExecutionError(exit.code))
  }

  /** Distinct failures stay distinguishable: the result determines the status unless the exit was successful. */
  lemma StatusResultIsInjectiveOnFailures(s1: Result<ExitStatus, IoError>, s2: Result<ExitStatus, IoError>)
    requires StatusResult(s1) == StatusResult(s2)
    requires StatusResult(s1).Err?
    ensures s1 == s2
  {
  }
}
