/**
 * `CommandExecutor::execute_command` (src/command_executor.rs): build the
 * command once with the platform's builder, log it, run it, and turn its
 * exit status into the result.
 */
module CommandExecutor {
  import opened Prelude
  import Schema
  import opened Process

  /** `construct` is the platform's `construct_command`, already given the home directory. */
  function ExecuteCommand(construct: Schema.CommandConfig -> Command, config: Schema.CommandConfig, host: Host): (s: Step)
    ensures s.effects == [Logged(construct(config)), Spawned(construct(config))]
    ensures s.result.Ok? <==> host.status(construct(config)) == Ok(ExitStatus(Some(0)))
    ensures s.result == StatusResult(host.status(construct(config)))
  {
    var command := construct(config);
    Step(StatusResult(host.status(command)), [Logged(command), Spawned(command)])
  }

  /** The outcome depends on nothing but the status of the one command built from the configuration. */
  lemma OnlyTheCommandsStatusMatters(construct: Schema.CommandConfig -> Command, config: Schema.CommandConfig, h1: Host, h2: Host)
    requires h1.status(construct(config)) == h2.status(construct(config))
    ensures ExecuteCommand(construct, config, h1) == ExecuteCommand(construct, config, h2)
  {
  }

  /** A process that exits with a nonzero code fails with exactly that code. */
  lemma NonzeroExitFails(construct: Schema.CommandConfig -> Command, config: Schema.CommandConfig, host: Host, code: i32)
    requires code != 0
    requires host.status(construct(config)) == Ok(ExitStatus(Some(code)))
    ensures ExecuteCommand(construct, config, host).result == Err(ExecutionError(Some(code)))
  {
  }
}
