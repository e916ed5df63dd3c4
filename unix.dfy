/**
 * `UnixExecutionPlatform` (src/execution_platform/unix.rs): commands run
 * under `sudo` when `as_root` is `Some(true)`, and links are made by the
 * host's `symlink`.
 */
module Unix {
  import opened Prelude
  import Schema
  import opened ArgumentResolver
  import opened Process

  /** `construct_command`. */
  function ConstructCommand(config: Schema.CommandConfig, home: string): (c: Command)
    ensures config.asRoot == Some(true) ==>
              && c.program == "sudo"
              && c.args == [ResolveArgument(config.command, Some(home))] + ResolveOptionalArguments(config.args, home)
    ensures config.asRoot != Some(true) ==>
              && c.program == ResolveArgument(config.command, Some(home))
              && c.args == ResolveOptionalArguments(config.args, home)
    ensures |Argv(c)| == 1 + (if config.asRoot == Some(true) then 1 else 0)
                           + (if config.args.Some? then |config.args.value| else 0)
  {
    var resolved := ResolveArgument(config.command, Some(home));
    var command :=
      if config.asRoot == Some(true) then Command("sudo", [resolved])
      else Command(resolved, []);
    command.(args := command.args + ResolveOptionalArguments(config.args, home))
  }

  /**
   * Each configured argument appears, resolved and in its original order,
   * right after the program or after `sudo`'s command.
   */
  lemma ArgsKeepTheirOrder(config: Schema.CommandConfig, home: string, i: nat)
    requires config.args.Some? && i < |config.args.value|
    ensures var offset := if config.asRoot == Some(true) then 1 else 0;
            && offset + i < |ConstructCommand(config, home).args|
            && ConstructCommand(config, home).args[offset + i] == ResolveArgument(config.args.value[i], Some(home))
  {
    if config.asRoot == Some(true) {
      ArgsAfterSudo(config, home, i);
    } else {
      ArgsDirect(config, home, i);
    }
  }

  lemma ArgsAfterSudo(config: Schema.CommandConfig, home: string, i: nat)
    requires config.args.Some? && i < |config.args.value| && config.asRoot == Some(true)
    ensures 1 + i < |ConstructCommand(config, home).args|
    ensures ConstructCommand(config, home).args[1 + i] == ResolveArgument(config.args.value[i], Some(home))
  {
    var resolved := ResolveOptionalArguments(config.args, home);
    var args := ConstructCommand(config, home).args;
    assert args == [ResolveArgument(config.command, Some(home))] + resolved;
    assert args[1 + i] == resolved[i];
  }

  lemma ArgsDirect(config: Schema.CommandConfig, home: string, i: nat)
    requires config.args.Some? && i < |config.args.value| && config.asRoot != Some(true)
    ensures i < |ConstructCommand(config, home).args|
    ensures ConstructCommand(config, home).args[i] == ResolveArgument(config.args.value[i], Some(home))
  {
  }

  /** `create_link`: one call to `symlink(original, link)`, its error passed on. */
  function CreateLink(original: string, link: string, host: Host): (s: Step)
    ensures s.effects == [SymlinkRequested(original, link)]
    ensures s.result.Ok? <==> host.symlink(original, link).Ok?
    ensures host.symlink(original, link).Err? ==> s.result == Err(Io(host.symlink(original, link).error))
  {
    match host.symlink(original, link)
    case Ok(_) => Step(Ok(()), [SymlinkRequested(original, link)])
    case Err(e) => Step(Err(Io(e)), [SymlinkRequested(original, link)])
  }
}
