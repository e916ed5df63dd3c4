# auto-installer, modelled in Dafny

auto-installer reads a YAML schema of applications. Each application has one
recipe per platform name: either an alias (`same_with`) to another platform's
recipe, or a concrete recipe. A concrete recipe has an optional `skip_if`
command and a list of operations: a `Command`, a symbolic `Link`, or a
`PackageInstall`. A `PackageInstall` is expanded into the platform's
package-install template, with every `"${package}"` argument replaced by the
package name. The installer then walks the applications in order and runs
each resolved recipe until its first failing operation. Its Windows module
also defines `update_current_environment`, which would refresh the process
environment from the user's environment block; nothing calls it.

The project models that core, one module per source file:

- `Schema` (src/schema.rs):
  - the data types;
  - `same_with` resolution, given a cycle guard;
  - template instantiation;
  - `find_expandee`;
  - the back-to-front in-place splicing of `Schema::expand`, proved equal to a left-to-right flat-map (`FlatExpand`);
  - `expand` itself, as a method of a `Schema` class that rewrites its applications.
- `ArgumentResolver` (src/argument_resolver.rs): `~/` expansion, with the home directory as a parameter.
- `Process`: the host as values.
  - commands are a program plus arguments;
  - exit statuses carry an `i32` code;
  - the host's answers to `Command::status`, `std::fs::metadata` and `symlink` are oracles;
  - every executor returns its result together with the effects it had, in order.
- `CommandExecutor` (src/command_executor.rs): build, log, spawn, then map the exit status to a result.
- `LinkExecutor` (src/link_executor.rs): resolve and probe the original, resolve the link, then create it.
- `Unix` (src/execution_platform/unix.rs): the argv builder, with `sudo` for `as_root`, and `create_link`.
- `Windows` (src/execution_platform/target_platform/windows.rs):
  - the argv builder;
  - the PowerShell `New-Item` link command;
  - `split('=')` and `parse_environment_string`;
  - the environment-block walk, as a method of a `ProcessEnvironment` class holding the variables as a map;
  - `set_environment_variable`.
- `Utf16`: `encode_utf16` and `String::from_utf16`, with both round trips proved.
- `ExecutionPlatform` (src/execution_platform.rs): operation dispatch and the choice of platform from the OS name.
- `Installer` (src/main.rs): the per-application loop of `main`. The `skip_if` predicate and the host of every step are oracles.

The types follow `src/schema.rs` throughout: `Operation::Command(CommandConfig)`,
`Link { original, link }` and `PackageInstall { package_name }`. The other
files show older signatures of the same calls. `src/execution_platform.rs:10-14`
destructures the command fields, and `src/command_executor.rs:5-10` takes
strings.

## Model

| member | source | states |
|---|---|---|
| Schema.ResolveFromSound | src/schema.rs:125-134 | a result found by the guarded walk is the entry the alias chain reaches after some number of hops |
| Schema.ResolveFromComplete | src/schema.rs:125-134 | if the chain from the key ends in an entry after `hops` aliases, and no key of the visited set reaches any concrete entry within `hops` aliases, the guarded walk finds that entry; with an empty visited set this is completeness of the resolution |
| Schema.ReachIsUnique | src/schema.rs:125-134 | an alias chain ends in a concrete entry after at most one hop count |
| Schema.ResolveIsExact | src/schema.rs:125-134 | resolution yields `v` exactly when the alias chain from the key ends in `v` |
| Schema.ResolveNoneIffNoChain | src/schema.rs:56-70 | resolution finds nothing exactly when the chain never ends in a concrete entry: a missing key, or a cycle |
| Schema.ResolveFollowsAlias | src/schema.rs:62-63 | an alias resolves as its target does, the recursive case of both resolvers |
| Schema.MutualAliasIsNotFound | src/schema.rs:128 | two platforms that alias each other resolve to `None` |
| Schema.MutualAliasNeverReaches | src/schema.rs:128 | the chain between two mutually aliasing platforms reaches no entry after any hop count |
| Schema.ResolveUnguarded | src/schema.rs:125-134 | the resolution recursion without a guard, bounded by fuel (the as-written half of the finding below) |
| Schema.UnguardedAgreesWhenItReturns | src/schema.rs:125-134 | whenever the unguarded recursion returns, it returns what the guarded resolution returns |
| Schema.UnguardedDivergesOnMutualAlias | src/schema.rs:128 | with two mutually aliasing platforms, the unguarded recursion returns within no bound |
| Schema.ResolveRecipe | src/schema.rs:125-134 | `None` for a missing platform key; the recipe itself for a concrete entry; otherwise the resolution of the `same_with` key |
| Schema.ResolvePlatformConfig | src/schema.rs:56-70 | the same three rules over the platform-config map |
| Schema.ResolveFromIsAnEntry | src/schema.rs:60-69 | whatever resolution yields is the concrete value of some entry of the map |
| Schema.ConstructPackageInstallOperations | src/schema.rs:86-115 | the result has the template's length:<br>- non-`Command` operations and `Command`s without `args` are unchanged;<br>- a `Command` with `args` keeps its command, its `as_root` and its arg count;<br>- an argument exactly `String("${package}")` becomes the package name, and every other argument is unchanged;<br>- the whole result is the instantiated template |
| Schema.InstantiateKeepsPackageInstalls | src/schema.rs:90-114 | instantiating a template neither adds nor removes `PackageInstall` operations |
| Schema.PackagePositionsSpec | src/schema.rs:155-164 | the positions are exactly the `PackageInstall` operations, each paired with its package name, strictly ascending, none missing |
| Schema.FindExpandee | src/schema.rs:155-164 | the loop's result is the ascending list of `PackageInstall` positions with their names |
| Schema.PositionsEmptyIffNoPackageInstall | src/schema.rs:35 | the expandee list is empty exactly when the recipe has no `PackageInstall` |
| Schema.ReverseIndex | src/schema.rs:33 | element `k` of the reversal is element `n-1-k` of the original |
| Schema.ReverseIsPermutation | src/schema.rs:33 | reversing is a permutation |
| Schema.SortedExpandee | src/schema.rs:29-33 | the reversed positions are strictly descending, within the recipe, and a permutation of what `find_expandee` returned |
| Schema.DescendingPermutationIsUnique | src/schema.rs:33 | two strictly descending permutations of the same entries are equal, so any correct sort by descending index gives the reversal |
| Schema.FlatExpandAppend | src/schema.rs:42-47 | the reference expansion distributes over concatenation |
| Schema.BackToFrontSplice | src/schema.rs:31-47 | splicing the expansions into `pre + suffix` at `pre`'s positions, highest first, gives the flat expansion of `pre` followed by `suffix` untouched |
| Schema.SpliceEqualsFlatExpand | src/schema.rs:29-47 | back-to-front in-place splicing equals the left-to-right replacement of each `PackageInstall` by its expansion |
| Schema.ExpansionInPlace | src/schema.rs:42-47 | operation `i` becomes its own expansion, in place, right after the expansion of the operations before it; other operations keep their relative order |
| Schema.FlatExpandWithoutPackageInstall | src/schema.rs:35 | without `PackageInstall` the expansion is the identity |
| Schema.CountPositiveIffHasPackageInstall | src/schema.rs:158 | the `PackageInstall` count is positive exactly when there is one |
| Schema.ExpansionIsNotRecursive | src/schema.rs:42-47 | inserted template operations are not expanded again: the result holds (count in recipe) × (count in template) `PackageInstall`s |
| Schema.ExpansionRemovesPackageInstalls | src/schema.rs:42-47 | with a `PackageInstall`-free template, nothing is left to expand |
| Schema.ExpansionWithoutPackageInstall | src/schema.rs:35-40 | a recipe without `PackageInstall` is kept as it is, and the platform configuration is not consulted |
| Schema.SpliceExpansions | src/schema.rs:42-47 | the splicing loop applies every splice of the sorted expandee list, in order |
| Schema.ExpandConcreteRecipe | src/schema.rs:28-48 | expanding one recipe:<br>- it fails exactly when the recipe has a `PackageInstall` and the platform config does not resolve;<br>- otherwise it keeps `skip_if` and yields `FlatExpand` with the resolved template |
| Schema.ExpandedRecipe | src/schema.rs:26-51 | after `expand`:<br>- the name and the platform keys stay;<br>- aliases stay;<br>- concrete recipes keep `skip_if`, and their operations are unchanged without `PackageInstall` and flat-expanded with the resolved template otherwise |
| Schema.ExpandedRecipeHasNoPackageInstall | src/schema.rs:25-54 | with `PackageInstall`-free templates, any recipe an expanded application resolves to has nothing left to expand |
| Schema.ExpandRecipes | src/schema.rs:27-50 | the inner loop over one application's recipes: the platform keys stay; `Ok` exactly when every recipe can be expanded, and then each recipe is its expansion; on `Err(PlatformConfigNotFound)` every recipe is either untouched or already expanded |
| Schema.Schema.constructor | src/schema.rs:19-22 | the schema holds the given platform configs and applications |
| Schema.Schema.Expand | src/schema.rs:25-54 | `expand`:<br>- it is `Ok` exactly when every recipe of every application can be expanded;<br>- it then leaves the platform configs alone and replaces each application by its expansion;<br>- `Err(PlatformConfigNotFound)` otherwise. Then the pass stopped at the first application that cannot be expanded: those before it are expanded, those after it untouched, and in that one each recipe is untouched or already expanded |
| ArgumentResolver.ExpandTilde | src/argument_resolver.rs:23-28 | `expand_tilda`: drops the leading `~/` and pushes the rest onto the home directory by `PathBuf::push`'s rules. The rest is copied verbatim at the end. A relative rest follows the home directory; an absolute rest replaces it. Requires the home directory to be known |
| ArgumentResolver.PathPushSpec | src/argument_resolver.rs:26 | `PathBuf::push`: an absolute component replaces the base; otherwise the base, at most one added separator, and the component |
| ArgumentResolver.ResolvePathArgument | src/argument_resolver.rs:13-20 | a path starting with `~/` is tilde-expanded; any other path is returned unchanged |
| ArgumentResolver.ResolveArgument | src/argument_resolver.rs:6-11 | a `String` argument is returned as it is; a `Path` argument is resolved as a path |
| ArgumentResolver.ResolveArguments | src/execution_platform/unix.rs:26 | each argument resolved, count and order kept |
| ArgumentResolver.ResolveOptionalArguments | src/execution_platform/unix.rs:25-27 | absent `args` append nothing; present ones append their resolutions |
| ArgumentResolver.TildeExpansion | src/argument_resolver.rs:23-28 | for a non-empty home directory that does not end in `/` and a `rest` that is not absolute, `~/rest` becomes the home directory, one `/`, and `rest` verbatim |
| ArgumentResolver.OtherPathsUnchanged | src/argument_resolver.rs:17-18 | `~user/x`, `~`, `/abs/x` and `x/~/y` are not touched |
| ArgumentResolver.ResolveIsIdempotent | src/argument_resolver.rs:13-28 | with an absolute home directory, a resolved path has no `~/` prefix, so resolving it again changes nothing |
| ArgumentResolver.HomeOnlyMattersForTilde | src/argument_resolver.rs:13-28 | a path whose resolution depends on the home directory starts with `~/` |
| Process.StatusResult | src/command_executor.rs:22-28 | `Ok` exactly when the process exited with code 0; a spawn failure is passed on; any other exit is `ExecutionError(code)` |
| Process.StatusResultIsInjectiveOnFailures | src/command_executor.rs:24-28 | a failed result determines the status it came from |
| CommandExecutor.ExecuteCommand | src/command_executor.rs:12-29 | the command is built once, logged, then spawned; the result is `Ok` exactly when it exits with 0, and is the status rule otherwise |
| CommandExecutor.OnlyTheCommandsStatusMatters | src/command_executor.rs:18-22 | the outcome depends only on the status of the one command built |
| CommandExecutor.NonzeroExitFails | src/command_executor.rs:24-28 | a nonzero exit fails with exactly that code |
| LinkExecutor.ExecuteLink | src/link_executor.rs:8-29 | execute a link:<br>- the resolved original is probed first;<br>- a failed probe is returned, with nothing else done;<br>- otherwise the link is resolved and logged, and the result is `create_link(original, link)` |
| LinkExecutor.OnlyTheOriginalIsProbed | src/link_executor.rs:17-20 | when `create_link` probes nothing, the only probe is the first effect, of the original; the link is never checked |
| LinkExecutor.LinkCreatedOnlyAfterProbe | src/link_executor.rs:17-28 | success needs a successful probe; after a failed probe nothing else happens |
| Unix.ConstructCommand | src/execution_platform/unix.rs:15-30 | the argv:<br>- with `as_root == Some(true)`, `sudo` followed by the resolved command;<br>- otherwise the resolved command alone;<br>- the resolved args follow;<br>- argv length is 1 + (1 if as root) + number of args |
| Unix.ArgsKeepTheirOrder | src/execution_platform/unix.rs:25-27 | argument `i` sits right after the program (or after `sudo`'s command), resolved |
| Unix.CreateLink | src/execution_platform/unix.rs:34-41 | one `symlink(original, link)` call; `Ok` exactly when it succeeds, its error is passed on otherwise |
| Windows.ConstructCommand | src/execution_platform/target_platform/windows.rs:31-39 | the program is the resolved command, then the resolved args in order; argv length is 1 + number of args |
| Windows.AsRootIsIgnored | src/execution_platform/target_platform/windows.rs:31-39 | `as_root` makes no difference to the command built |
| Windows.LinkCommand | src/execution_platform/target_platform/windows.rs:45-55 | `powershell.exe` with exactly `-NoProfile`, `-Command` and the `New-Item` command |
| Windows.CreateLink | src/execution_platform/target_platform/windows.rs:44-64 | exactly one spawn, of that command, and the status rule applied to its exit |
| Windows.NewItemCommandIsUnambiguous | src/execution_platform/target_platform/windows.rs:49-53 | with a quote-free link path, the `New-Item` command determines both paths, link first and original second |
| Windows.Split | src/execution_platform/target_platform/windows.rs:110 | `split('=')` gives one more piece than there are separators, none containing one |
| Windows.JoinOfSplit | src/execution_platform/target_platform/windows.rs:110 | joining the pieces gives the entry back |
| Windows.SplitOfJoin | src/execution_platform/target_platform/windows.rs:110 | `a=b` with `=`-free parts splits into exactly `[a, b]` |
| Windows.ParseEnvironmentString | src/execution_platform/target_platform/windows.rs:109-117 | `parse_environment_string`: `Some` exactly when the entry holds exactly one `=`, and then neither the name nor the value holds `=` |
| Windows.ParseEnvironmentStringSpec | src/execution_platform/target_platform/windows.rs:109-117 | `Some` exactly when the entry holds exactly one `=`; the entry is then `name=value` with neither part holding `=` |
| Windows.ParseOfEntry | src/execution_platform/target_platform/windows.rs:109-117 | every `=`-free name and value come back from their `NAME=VALUE` entry |
| Windows.MalformedEntriesAreSkipped | src/execution_platform/target_platform/windows.rs:112-116 | `=C:=C:\`, `PATH`, `A=B=C` and the empty entry give `None` |
| Windows.NulFrom | src/execution_platform/target_platform/windows.rs:86-88 | the index scan from an entry's start stops at a NUL at or after it, at the latest at the first unit of the block's final pair |
| Windows.NulFromIsFirst | src/execution_platform/target_platform/windows.rs:86-88 | no unit between the entry's start and that NUL is 0, so the scan stops at the first one |
| Windows.EntriesFrom | src/execution_platform/target_platform/windows.rs:84-102 | the walk from any entry start visits at least one entry |
| Windows.EntriesHaveNoNul | src/execution_platform/target_platform/windows.rs:88-89 | no entry the walk visits contains a NUL |
| Windows.EntriesOfEncodeBlock | src/execution_platform/target_platform/windows.rs:84-102 | for a non-empty list of NUL-free entries, none empty after the first, the walk reads back exactly the entries the double-NUL-terminated block was written from, in order, without terminators |
| Windows.ApplyEntriesCompletes | src/execution_platform/target_platform/windows.rs:90 | the walk completes exactly when every entry is valid UTF-16 |
| Windows.UnassignedVariablesKept | src/execution_platform/target_platform/windows.rs:91-93 | variables no entry assigns are neither removed nor changed |
| Windows.LastAssignmentWins | src/execution_platform/target_platform/windows.rs:91-93 | when every entry before it decodes as UTF-16, the last entry that assigns a variable decides its value |
| Windows.RefreshLastAssignmentWins | src/execution_platform/target_platform/windows.rs:84-102 | over a well-formed block, when every entry before it decodes as UTF-16, a variable ends with the value of the last entry assigning it |
| Windows.ProcessEnvironment.SetEnvironmentVariable | src/execution_platform/target_platform/windows.rs:119-131 | the name and value as UTF-16, each with one 0 pushed on, and the variable set to the value |
| Windows.ProcessEnvironment.ApplyEntry | src/execution_platform/target_platform/windows.rs:91-93 | the variables become those with the entry's assignment applied, if it parses, and are otherwise unchanged |
| Windows.ProcessEnvironment.EndOfEntry | src/execution_platform/target_platform/windows.rs:88-99 | at the NUL ending an entry: the next entry starts just after it; applying the rest of the block from there gives what applying the block from the entry's start gives; an undecodable entry or a second NUL ends the walk |
| Windows.ProcessEnvironment.UpdateCurrentEnvironment | src/execution_platform/target_platform/windows.rs:84-102 | the pointer-and-index loop turns the variables into the entries of the block applied in order; `false` where an entry is not valid UTF-16 |
| Windows.BuffersAreTerminatedStrings | src/execution_platform/target_platform/windows.rs:120-125 | for a NUL-free string, the buffer ends in its only 0 and reads back as the string |
| Utf16.EncodeChar | src/execution_platform/target_platform/windows.rs:120 | one unit for a BMP character, a high-low surrogate pair otherwise |
| Utf16.EncodeUtf16 | src/execution_platform/target_platform/windows.rs:120-121 | between one and two units per character |
| Utf16.DecodeOfEncode | src/execution_platform/target_platform/windows.rs:90 | `from_utf16` decodes every encoded string back to itself |
| Utf16.EncodeOfDecode | src/execution_platform/target_platform/windows.rs:90 | re-encoding a successful decoding gives the units back |
| Utf16.EncodingHasNoNul | src/execution_platform/target_platform/windows.rs:123-125 | only NUL encodes to a 0 unit |
| ExecutionPlatform.Execute | src/execution_platform.rs:8-23 | a `Command` is logged and spawned, with the status rule as the result; a `Link` probes its resolved original first, stops on a failed probe, and otherwise returns the platform's `create_link` result |
| ExecutionPlatform.ExecuteRoutesByKind | src/execution_platform.rs:9-20 | commands never probe the filesystem; links never log a command through `execute_command` |
| ExecutionPlatform.ConstructExecutionPlatform | src/execution_platform.rs:26-31 | a platform exactly for `linux` and `macos`, and then the Unix one |
| ExecutionPlatform.OnlyUnixElevates | src/execution_platform/unix.rs:18-23 | without `as_root` both platforms build the same command; with it, Unix prefixes `sudo` to the Windows argv |
| Installer.FirstFailureSpec | src/main.rs:52-60 | the first failure is an `Err` with only `Ok`s before it; no failure means all succeeded |
| Installer.RunSteps | src/main.rs:51-61 | the inner loop runs the operations in order, stops after the first error, and reports how many ran |
| Installer.InstallApplication | src/main.rs:32-68 | one application: no report and no step without a recipe for the platform, otherwise one report with its outcome and the started operations of its recipe |
| Installer.Run | src/main.rs:24-72 | an unsupported OS stops before the schema is parsed or anything runs; otherwise `Ok` with one report per resolving application, in order, and the steps executed |
| Installer.ExpandedSchemaIsRunnable | src/execution_platform.rs:9-20 | after a successful `expand` with `PackageInstall`-free templates, every resolving recipe can be executed |
| Installer.SkipIfInstalled | src/main.rs:36-42 | skipped exactly when `skip_if` is present and reports installed; then no operation runs |
| Installer.PredicateErrorFails | src/main.rs:44-51 | a failing `skip_if` marks the application failed, and no operation runs |
| Installer.SucceedsIffEveryStepSucceeds | src/main.rs:63-67 | success exactly when not skipped, the predicate did not fail, and every operation returned `Ok`; then all of them ran |
| Installer.FirstErrorStops | src/main.rs:52-60 | after a failure, the last operation run failed and all before it succeeded |
| Installer.ReportsSpec | src/main.rs:31-32 | reports name exactly the applications whose recipe resolves, once each and in order, each with its own outcome |
| Installer.ReportsAreOfResolvedApps | src/main.rs:31-32 | every report names an application whose recipe resolves, with that application's outcome |
| Installer.ReportsInOrder | src/main.rs:31 | reports are in strictly increasing application order, so no application is reported twice |
| Installer.ReportsComplete | src/main.rs:31-33 | every application whose recipe resolves is reported |
| Installer.AppStepsSpec | src/main.rs:51-60 | the steps of one application are the first operations of its own recipe, numbered from 0, and none without a recipe |
| Installer.ExecutedSpec | src/main.rs:31-61 | only resolving applications run steps, and only steps of their own recipe |

## Left out

- Schema.ResolveFrom: unlike the source, it carries a visited set, so a cyclic `same_with` chain yields `None`. The source recurses forever on a cycle; see Findings.
- Schema.Schema.Expand: on `Err` it does not say which recipes of the failing application were already rewritten, only that each is untouched or expanded. The recipes of an application are visited in a `HashMap` order, which is left unspecified.
- `sort_by(|a, b| b.0.cmp(&a.0))` is modelled as reversing the strictly ascending positions. `Schema.DescendingPermutationIsUnique` shows that any correct descending sort gives that order.
- `main` opens the schema file (src/main.rs:27) before it chooses the platform, and returns `Err` when the file cannot be opened, even on an unsupported OS. That I/O error return is not modelled: `Installer.Run` checks the OS first and has no file step.
- serde deserialisation, clap parsing and every `println!` are I/O. The only console output modelled is the log step of `execute_command` and of `execute_link`, as effects.
- ArgumentResolver.ExpandTilde: `home_dir().unwrap()` panics when the home directory is unknown, so the model requires it to be known. Executors take the host's home directory as a string.
- ArgumentResolver.PathPush: follows the Unix rules of `PathBuf::push`. Windows prefixes and backslash separators are not modelled, and neither is the lossy conversion of `to_string_lossy`.
- `Command::status`, `std::fs::metadata` and `std::os::unix::fs::symlink` are host oracles.
- `app_already_installed`, which `main` calls at src/main.rs:37, is declared by neither `ExecutionPlatform` nor its supertraits `CommandExecutor` and `LinkExecutor`. It is an oracle of type `Result<bool, Error>`.
- The choice of OS (`std::env::consts::OS`) is a parameter. The `unimplemented!()` panic is the `Unimplemented` status.
- The Windows FFI is foreign code:
  - `OpenProcessToken` and `CreateEnvironmentBlock`, and their panics, are not modelled. The environment block is a parameter: a sequence of 16-bit units ending in two NULs.
  - Raw-pointer reading is modelled as indexing into that sequence.
- Windows.ProcessEnvironment.SetEnvironmentVariable: a `SetEnvironmentVariableW` failure, which panics in the source, is not modelled. Windows treats variable names case-insensitively; the model's map does not.
- The `from_utf16(..).unwrap()` panic ends the walk. It is reported as `completed == false`, with the variables kept as they were at that point.
- src/execution_platform/target_platform.rs is module wiring only. Its `taget_family` misspelling means the Windows module is not compiled.
- The Windows module is modelled anyway. `ConstructExecutionPlatform` never selects it, as in the source.
- `update_current_environment` (src/execution_platform/target_platform/windows.rs:68) has no caller anywhere in the program. `Windows.ProcessEnvironment.UpdateCurrentEnvironment` models the routine on its own, and `Installer.Run` never refreshes the environment between operations.
- The comment at windows.rs:43 mentions elevation through `Start-Process`, but the code does not start any; only the command it builds is modelled.
- `main` never calls `expand`. `execute` (src/execution_platform.rs:9-20) has no `PackageInstall` arm. It also matches `Operation::Command { command, as_root, args }` as a struct pattern, while the enum declares the tuple variant `Command(CommandConfig)` (src/schema.rs:180). So that match does not compile as written, and no run of the source reaches `execute` with a `PackageInstall`. `Installer.Run` therefore requires every resolving recipe to be expanded already. `Installer.ExpandedSchemaIsRunnable` shows that `expand` provides this when no platform template contains a `PackageInstall`. Otherwise `Schema.ExpansionIsNotRecursive` shows that `PackageInstall`s remain.
- `Display` and `Error` implementations only print; the error variants are modelled.

## Findings

| source | as written | input that shows it | evidently intended | confidence | as-written member | corrected member |
|---|---|---|---|---|---|---|
| src/schema.rs:125-134 | `resolve_recipe` and `resolve_platform_config` (src/schema.rs:56-70) follow `same_with` with no guard | recipes `a: {same_with: b}` and `b: {same_with: a}`, resolved for `a` | a cyclic alias chain is "not found" (`None`) | high (not executed) | Schema.UnguardedDivergesOnMutualAlias | Schema.MutualAliasIsNotFound |
