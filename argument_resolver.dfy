/**
 * Argument resolution (src/argument_resolver.rs): string arguments are taken
 * verbatim, path arguments have a leading `~/` replaced by the home directory.
 * The home directory is a parameter; paths follow the Unix rules of
 * `PathBuf::push`.
 */
module ArgumentResolver {
  import opened Prelude
  import opened Schema

  const Separator: char := '/'

  /** The `^~/` test: the path starts with exactly a tilde and a slash. */
  predicate HasHomePrefix(path: string) {
    |path| >= 2 && path[0] == '~' && path[1] == Separator
  }

  predicate IsAbsolute(path: string) {
    |path| > 0 && path[0] == Separator
  }

  /**
   * `PathBuf::push` on Unix: an absolute component replaces the base;
   * otherwise a separator is added unless the base is empty or already ends
   * in one, then the component is appended.
   */
  function PathPush(base: string, component: string): string {
    if IsAbsolute(component) then component
    else if base == [] || base[|base| - 1] == Separator then base + component
    else base + [Separator] + component
  }

  /** What `PathPush` yields: the component alone, or the base, at most one added separator, and the component. */
  lemma PathPushSpec(base: string, component: string)
    ensures IsAbsolute(component) ==> PathPush(base, component) == component
    ensures !IsAbsolute(component) ==>
              var r := PathPush(base, component);
              && |r| == |base| + |component| + (if base == [] || base[|base| - 1] == Separator then 0 else 1)
              && r[..|base|] == base
              && r[|r| - |component|..] == component
              && (|r| > |base| + |component| ==> r[|base|] == Separator)
  {
  }

  /**
   * `expand_tilda`: the home directory pushed with everything after the first
   * two characters. `home_dir().unwrap()` panics when the home directory
   * cannot be determined (`None`), hence the precondition.
   */
  function ExpandTilde(path: string, home: Option<string>): (r: string)
    requires |path| >= 2 && home.Some?
    ensures |r| >= |path| - 2 && r[|r| - (|path| - 2)..] == path[2..]
    ensures !IsAbsolute(path[2..]) ==> |r| >= |home.value| && r[..|home.value|] == home.value
    ensures IsAbsolute(path[2..]) ==> r == path[2..]
  {
    PathPushSpec(home.value, path[2..]);
    PathPush(home.value, path[2..])
  }

  /** The resolver needs the home directory only for a path with the home prefix. */
  predicate HomeKnownFor(argument: Argument, home: Option<string>) {
    argument.Path? && HasHomePrefix(argument.path) ==> home.Some?
  }

  /** `resolve_path_argument`. */
  function ResolvePathArgument(path: PathStr, home: Option<string>): (r: string)
    requires HasHomePrefix(path) ==> home.Some?
    ensures !HasHomePrefix(path) ==> r == path
    ensures HasHomePrefix(path) ==> r == ExpandTilde(path, home)
  {
    if HasHomePrefix(path) then ExpandTilde(path, home) else path
  }

  /** `resolve_argument`. */
  function ResolveArgument(argument: Argument, home: Option<string>): (r: string)
    requires HomeKnownFor(argument, home)
    ensures argument.String? ==> r == argument.value
    ensures argument.Path? ==> r == ResolvePathArgument(argument.path, home)
  {
    match argument
    case Path(path) => ResolvePathArgument(path, home)
    case String(s) => s
  }

  /** `args.iter().map(|arg| self.resolve_argument(arg))`. */
  function ResolveArguments(args: seq<Argument>, home: Option<string>): (r: seq<string>)
    requires forall i :: 0 <= i < |args| ==> HomeKnownFor(args[i], home)
    ensures |r| == |args|
    ensures forall i :: 0 <= i < |args| ==> r[i] == ResolveArgument(args[i], home)
  {
    seq(|args|, i requires 0 <= i < |args| => ResolveArgument(args[i], home))
  }

  /** What `if let Some(ref args) = command_config.args { command.args(...) }` appends: the resolved args, or nothing. */
  function ResolveOptionalArguments(args: Option<seq<Argument>>, home: string): (r: seq<string>)
    ensures args.None? ==> r == []
    ensures args.Some? ==> r == ResolveArguments(args.value, Some(home))
  {
    if args.Some? then ResolveArguments(args.value, Some(home)) else []
  }

  /**
   * The usual case: with a home directory that does not end in a slash, `~/rest`
   * for a relative `rest` becomes the home directory, one slash, and `rest`
   * copied verbatim.
   */
  lemma TildeExpansion(home: string, rest: string)
    requires home != [] && home[|home| - 1] != Separator
    requires !IsAbsolute(rest)
    ensures ResolvePathArgument("~/" + rest, Some(home)) == home + "/" + rest
  {
    var path := "~/" + rest;
    assert HasHomePrefix(path);
    assert path[2..] == rest;
    PathPushSpec(home, rest);
  }

  /** Paths such as `~user/x`, `~` and `/abs/x` are not touched. */
  lemma OtherPathsUnchanged(home: Option<string>)
    ensures ResolvePathArgument("~user/x", home) == "~user/x"
    ensures ResolvePathArgument("~", home) == "~"
    ensures ResolvePathArgument("/abs/x", home) == "/abs/x"
    ensures ResolvePathArgument("x/~/y", home) == "x/~/y"
  {
  }

  /** With an absolute home directory, a resolved path never starts with `~/`, so resolving again changes nothing. */
  lemma ResolveIsIdempotent(path: PathStr, home: string)
    requires IsAbsolute(home)
    ensures !HasHomePrefix(ResolvePathArgument(path, Some(home)))
    ensures ResolvePathArgument(ResolvePathArgument(path, Some(home)), Some(home)) == ResolvePathArgument(path, Some(home))
  {
    if HasHomePrefix(path) {
      var r := ResolvePathArgument(path, Some(home));
      PathPushSpec(home, path[2..]);
      if !IsAbsolute(path[2..]) {
        assert r[..|home|] == home;
        assert r[0] == home[0];
      }
    }
  }

  /** Only a path with the home prefix depends on the home directory. */
  lemma HomeOnlyMattersForTilde(path: PathStr, home1: string, home2: string)
    requires ResolvePathArgument(path, Some(home1)) != ResolvePathArgument(path, Some(home2))
    ensures HasHomePrefix(path)
  {
  }
}
