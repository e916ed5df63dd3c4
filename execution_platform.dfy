/**
 * `ExecutionPlatform` (src/execution_platform.rs): dispatch of an expanded
 * operation to command or link execution on a platform, and the choice of
 * platform from the operating system's name.
 */
module ExecutionPlatform {
  import opened Prelude
  import Schema
  import opened ArgumentResolver
  import opened Process
  import CommandExecutor
  import LinkExecutor
  import Unix
  import Windows

  datatype Platform = UnixExecutionPlatform | WindowsExecutionPlatform

  /** The platform's `construct_command`. */
  function ConstructCommand(platform: Platform, config: Schema.CommandConfig, home: string): Command {
    match platform
    case UnixExecutionPlatform => Unix.ConstructCommand(config, home)
    case WindowsExecutionPlatform => Windows.ConstructCommand(config, home)
  }

  /** The platform's `create_link`. */
  function CreateLink(platform: Platform, original: string, link: string, host: Host): Step {
    match platform
    case UnixExecutionPlatform => Unix.CreateLink(original, link, host)
    case WindowsExecutionPlatform => Windows.CreateLink(original, link, host)
  }

  /**
   * `ExecutionPlatform::execute`. It has no arm for `PackageInstall`: only
   * operations that `expand` has already replaced can be executed.
   */
  function Execute(platform: Platform, op: Schema.Operation, host: Host): (s: Step)
    requires !op.PackageInstall?
    ensures op.Command? ==>
              var command := ConstructCommand(platform, op.config, host.home);
              && s.effects == [Logged(command), Spawned(command)]
              && s.result == StatusResult(host.status(command))
    ensures op.Link? ==>
              var original := ResolvePathArgument(op.original, Some(host.home));
              var link := ResolvePathArgument(op.link, Some(host.home));
              && s.effects != [] && s.effects[0] == MetadataProbed(original)
              && (host.metadata(original).Err? ==> s.result == Err(Io(host.metadata(original).error)) && |s.effects| == 1)
              && (host.metadata(original).Ok? ==> s.result == CreateLink(platform, original, link, host).result)
  {
    match op
    case Command(config) =>
      CommandExecutor.ExecuteCommand(c => ConstructCommand(platform, c, host.home), config, host)
    case Link(original, link) =>
      LinkExecutor.ExecuteLink((o, l, h) => CreateLink(platform, o, l, h), original, link, host)
  }

  /** Commands never touch the filesystem probe, and links never log or spawn through `execute_command`. */
  lemma ExecuteRoutesByKind(platform: Platform, op: Schema.Operation, host: Host, k: nat)
    requires !op.PackageInstall?
    requires k < |Execute(platform, op, host).effects|
    ensures op.Command? ==> !Execute(platform, op, host).effects[k].MetadataProbed?
    ensures op.Link? ==> !Execute(platform, op, host).effects[k].Logged?
  {
    if op.Link? {
      var original := ResolvePathArgument(op.original, Some(host.home));
      var link := ResolvePathArgument(op.link, Some(host.home));
      if host.metadata(original).Ok? && k >= 2 {
        var s := Execute(platform, op, host);
        var created := CreateLink(platform, original, link, host);
        assert s.effects == [MetadataProbed(original), LinkLogged(original, link)] + created.effects;
        assert s.effects[k] == created.effects[k - 2];
      }
    }
  }

  /** `construct_execution_platform`: Linux and macOS get the Unix platform; any other OS is `unimplemented!()`. */
  function ConstructExecutionPlatform(os: string): (r: Option<Platform>)
    ensures r.Some? <==> os == "linux" || os == "macos"
    ensures r.Some? ==> r.value == UnixExecutionPlatform
  {
    if os == "linux" || os == "macos" then Some(UnixExecutionPlatform) else None
  }

  /** On Unix, a command is run under `sudo` exactly when it asks for root; Windows never elevates. */
  lemma OnlyUnixElevates(config: Schema.CommandConfig, home: string)
    ensures config.asRoot != Some(true) ==>
              ConstructCommand(UnixExecutionPlatform, config, home) == ConstructCommand(WindowsExecutionPlatform, config, home)
    ensures config.asRoot == Some(true) ==>
              && ConstructCommand(UnixExecutionPlatform, config, home).program == "sudo"
              && Argv(ConstructCommand(UnixExecutionPlatform, config, home))[1..]
                 == Argv(ConstructCommand(WindowsExecutionPlatform, config, home))
  {
  }
}
