/**
 * The per-application loop of `main` (src/main.rs): for each application in
 * order, resolve its recipe for the requested platform, consult its
 * `skip_if` predicate, and run its operations in order until the first
 * failure. Reading the schema file, parsing the command line and printing are
 * not modelled; the `skip_if` predicate (`app_already_installed`) and the
 * host each step runs on are oracles indexed by application and step.
 */
module Installer {
  import opened Prelude
  import opened Schema
  import Process
  import opened ExecutionPlatform

  datatype Outcome = Skipped | Failed | Succeeded

  /** What `main` prints last for an application whose recipe resolves. */
  datatype Report = Report(app: nat, name: string, outcome: Outcome)

  /** `main` panics in `construct_execution_platform` on an unsupported OS, and otherwise returns `Ok(())`. */
  datatype RunStatus = Unimplemented | Finished

  /** `app_already_installed(skip_if)` for application `a`. */
  type InstalledOracle = (nat, CommandConfig) -> Result<bool, Process.Error>

  /** The host that step `i` of application `a` runs on. */
  type HostOracle = (nat, nat) -> Process.Host

  /** What `execute` returns for each operation of application `a`, step `i` running on `host(a, i)`. */
  function StepResults(p: Platform, a: nat, ops: seq<Operation>, host: HostOracle): (results: seq<Result<(), Process.Error>>)
    requires !HasPackageInstall(ops)
    ensures |results| == |ops|
  {
    seq(|ops|, i requires 0 <= i < |ops| => Execute(p, ops[i], host(a, i)).result)
  }

  /** The first failing result at or after `from`, if any. */
  function FirstFailure(results: seq<Result<(), Process.Error>>, from: nat): Option<nat>
    requires from <= |results|
    decreases |results| - from
  {
    if from == |results| then None
    else if results[from].Err? then Some(from)
    else FirstFailure(results, from + 1)
  }

  lemma {:induction false} FirstFailureSpec(results: seq<Result<(), Process.Error>>, from: nat)
    requires from <= |results|
    ensures FirstFailure(results, from).None? <==> forall i :: from <= i < |results| ==> results[i].Ok?
    ensures FirstFailure(results, from).Some? ==>
              var k := FirstFailure(results, from).value;
              && from <= k < |results|
              && results[k].Err?
              && forall i :: from <= i < k ==> results[i].Ok?
    decreases |results| - from
  {
    if from < |results| && results[from].Ok? {
      FirstFailureSpec(results, from + 1);
    }
  }

  /** The outcome of running the operations, and how many of them were started. */
  function RunOperations(p: Platform, a: nat, ops: seq<Operation>, host: HostOracle): (Outcome, nat)
    requires !HasPackageInstall(ops)
  {
    match FirstFailure(StepResults(p, a, ops, host), 0)
    case Some(k) => (Failed, k + 1)
    case None => (Succeeded, |ops|)
  }

  /** The outcome for one application with a resolved recipe, and how many of its operations were started. */
  function AppRun(p: Platform, a: nat, recipe: ConcreteRecipe, installed: InstalledOracle, host: HostOracle): (Outcome, nat)
    requires !HasPackageInstall(recipe.operations)
  {
    if recipe.skipIf.Some? then
      match installed(a, recipe.skipIf.value)
      case Ok(true) => (Skipped, 0)
      case Err(_) => (Failed, 0)
      case Ok(false) => RunOperations(p, a, recipe.operations, host)
    else RunOperations(p, a, recipe.operations, host)
  }

  /** Every recipe that resolves for the platform is already expanded. */
  predicate RecipesExpanded(apps: seq<Application>, platform: string) {
    forall a :: 0 <= a < |apps| && ResolveRecipe(apps[a], platform).Some? ==>
      !HasPackageInstall(ResolveRecipe(apps[a], platform).value.operations)
  }

  function AppReports(p: Platform, platform: string, apps: seq<Application>, installed: InstalledOracle, host: HostOracle, a: nat)
    : seq<Report>
    requires RecipesExpanded(apps, platform) && a < |apps|
  {
    match ResolveRecipe(apps[a], platform)
    case None => []
    case Some(recipe) => [Report(a, apps[a].name, AppRun(p, a, recipe, installed, host).0)]
  }

  /** The steps `(a, i)` started for application `a`. */
  function AppSteps(p: Platform, platform: string, apps: seq<Application>, installed: InstalledOracle, host: HostOracle, a: nat)
    : seq<(nat, nat)>
    requires RecipesExpanded(apps, platform) && a < |apps|
  {
    match ResolveRecipe(apps[a], platform)
    case None => []
    case Some(recipe) => StepsOf(a, AppRun(p, a, recipe, installed, host).1)
  }

  function StepsOf(a: nat, count: nat): (steps: seq<(nat, nat)>)
    ensures |steps| == count
    ensures forall i :: 0 <= i < count ==> steps[i] == (a, i)
  {
    seq(count, i requires 0 <= i < count => (a, i))
  }

  /** The reports of the first `n` applications, in order. */
  function Reports(p: Platform, platform: string, apps: seq<Application>, installed: InstalledOracle, host: HostOracle, n: nat)
    : seq<Report>
    requires RecipesExpanded(apps, platform) && n <= |apps|
  {
    if n == 0 then [] else Reports(p, platform, apps, installed, host, n - 1) + AppReports(p, platform, apps, installed, host, n - 1)
  }

  /** The steps started for the first `n` applications, in order. */
  function Executed(p: Platform, platform: string, apps: seq<Application>, installed: InstalledOracle, host: HostOracle, n: nat)
    : seq<(nat, nat)>
    requires RecipesExpanded(apps, platform) && n <= |apps|
  {
    if n == 0 then [] else Executed(p, platform, apps, installed, host, n - 1) + AppSteps(p, platform, apps, installed, host, n - 1)
  }

  /**
   * The inner loop of `main`: execute the operations in order and stop at the
   * first error. `started` counts the operations that were executed.
   */
  method RunSteps(p: Platform, a: nat, ops: seq<Operation>, host: HostOracle) returns (failed: bool, started: nat)
    requires !HasPackageInstall(ops)
    ensures RunOperations(p, a, ops, host) == (if failed then Failed else Succeeded, started)
  {
    ghost var results := StepResults(p, a, ops, host);
    failed := false;
    var i := 0;
    while i < |ops|
      invariant 0 <= i <= |ops|
      invariant FirstFailure(results, 0) == FirstFailure(results, i)
    {
      var step := Execute(p, ops[i], host(a, i));
      assert step.result == results[i];
      if step.result.Err? {
        return true, i + 1;
      }
      i := i + 1;
    }
    started := i;
  }

  /**
   * One turn of `main`'s loop: nothing for an application without a recipe
   * for the platform; otherwise the `skip_if` check, the operations, and one
   * report.
   */
  method InstallApplication(p: Platform, platform: string, apps: seq<Application>, installed: InstalledOracle, host: HostOracle, a: nat)
    returns (report: seq<Report>, executed: seq<(nat, nat)>)
    requires RecipesExpanded(apps, platform) && a < |apps|
    ensures report == AppReports(p, platform, apps, installed, host, a)
    ensures executed == AppSteps(p, platform, apps, installed, host, a)
  {
    var app := apps[a];
    var resolved := ResolveRecipe(app, platform);
    if resolved.None? {
      return [], [];
    }
    var recipe := resolved.value;
    var failed := false;
    executed := [];
    if recipe.skipIf.Some? {
      match installed(a, recipe.skipIf.value) {
        case Ok(isInstalled) =>
          if isInstalled {
            return [Report(a, app.name, Skipped)], [];
          }
        case Err(_) =>
          failed := true;
      }
    }
    if !failed {
      var started;
      failed, started := RunSteps(p, a, recipe.operations, host);
      executed := StepsOf(a, started);
    }
    report := [Report(a, app.name, if failed then Failed else Succeeded)];
  }

  /**
   * `main` once the execution platform has been chosen from the OS (before the
   * schema is parsed, so an unsupported OS stops before any parsing): each
   * application is then resolved, checked and installed.
   */
  method Run(os: string, platform: string, apps: seq<Application>, installed: InstalledOracle, host: HostOracle)
    returns (status: RunStatus, reports: seq<Report>, executed: seq<(nat, nat)>)
    requires RecipesExpanded(apps, platform)
    ensures ConstructExecutionPlatform(os).None? ==> status == Unimplemented && reports == [] && executed == []
    ensures ConstructExecutionPlatform(os).Some? ==>
              && status == Finished
              && reports == Reports(ConstructExecutionPlatform(os).value, platform, apps, installed, host, |apps|)
              && executed == Executed(ConstructExecutionPlatform(os).value, platform, apps, installed, host, |apps|)
  {
    var chosen := ConstructExecutionPlatform(os);
    if chosen.None? {
      return Unimplemented, [], [];
    }
    var p := chosen.value;
    reports := [];
    executed := [];
    for a := 0 to |apps|
      invariant reports == Reports(p, platform, apps, installed, host, a)
      invariant executed == Executed(p, platform, apps, installed, host, a)
    {
      var report, steps := InstallApplication(p, platform, apps, installed, host, a);
      reports := reports + report;
      executed := executed + steps;
    }
    status := Finished;
  }

  /**
   * `expand` establishes what `execute` needs: once it has succeeded with
   * templates free of `PackageInstall`, every recipe that resolves is expanded.
   */
  lemma ExpandedSchemaIsRunnable(platformConfig: map<string, PlatformConfig>, before: seq<Application>, after: seq<Application>, platform: string)
    requires TemplatesExpanded(platformConfig)
    requires |after| == |before|
    requires forall a :: 0 <= a < |after| ==>
               ApplicationExpands(platformConfig, before[a]) && after[a] == ExpandedApplication(platformConfig, before[a])
    ensures RecipesExpanded(after, platform)
  {
    forall a | 0 <= a < |after| && ResolveRecipe(after[a], platform).Some?
      ensures !HasPackageInstall(ResolveRecipe(after[a], platform).value.operations)
    {
      ExpandedRecipeHasNoPackageInstall(platformConfig, before[a], platform);
    }
  }

  // ---------------------------------------------------------------------------
  // What happens to one application
  // ---------------------------------------------------------------------------

  /** A satisfied `skip_if` skips the application before any operation runs. */
  lemma SkipIfInstalled(p: Platform, a: nat, recipe: ConcreteRecipe, installed: InstalledOracle, host: HostOracle)
    requires !HasPackageInstall(recipe.operations)
    ensures AppRun(p, a, recipe, installed, host).0 == Skipped <==>
              recipe.skipIf.Some? && installed(a, recipe.skipIf.value) == Ok(true)
    ensures AppRun(p, a, recipe, installed, host).0 == Skipped ==> AppRun(p, a, recipe, installed, host).1 == 0
  {
  }

  /** A `skip_if` predicate that fails marks the application failed, and no operation runs. */
  lemma PredicateErrorFails(p: Platform, a: nat, recipe: ConcreteRecipe, installed: InstalledOracle, host: HostOracle)
    requires !HasPackageInstall(recipe.operations)
    requires recipe.skipIf.Some? && installed(a, recipe.skipIf.value).Err?
    ensures AppRun(p, a, recipe, installed, host) == (Failed, 0)
  {
  }

  /**
   * An application succeeds exactly when it is not skipped, its predicate
   * does not fail, and every operation succeeds; then all of them ran.
   */
  lemma SucceedsIffEveryStepSucceeds(p: Platform, a: nat, recipe: ConcreteRecipe, installed: InstalledOracle, host: HostOracle)
    requires !HasPackageInstall(recipe.operations)
    ensures AppRun(p, a, recipe, installed, host).0 == Succeeded <==>
              && (recipe.skipIf.None? || installed(a, recipe.skipIf.value) == Ok(false))
              && forall i :: 0 <= i < |recipe.operations| ==> StepResults(p, a, recipe.operations, host)[i].Ok?
    ensures AppRun(p, a, recipe, installed, host).0 == Succeeded ==>
              AppRun(p, a, recipe, installed, host).1 == |recipe.operations|
  {
    FirstFailureSpec(StepResults(p, a, recipe.operations, host), 0);
  }

  /**
   * After operations have started, a failure means the last one started
   * failed and all before it succeeded: the first error stops the rest.
   */
  lemma FirstErrorStops(p: Platform, a: nat, recipe: ConcreteRecipe, installed: InstalledOracle, host: HostOracle)
    requires !HasPackageInstall(recipe.operations)
    requires AppRun(p, a, recipe, installed, host).0 == Failed && AppRun(p, a, recipe, installed, host).1 > 0
    ensures var k := AppRun(p, a, recipe, installed, host).1 - 1;
            && k < |recipe.operations|
            && StepResults(p, a, recipe.operations, host)[k].Err?
            && forall i :: 0 <= i < k ==> StepResults(p, a, recipe.operations, host)[i].Ok?
  {
    FirstFailureSpec(StepResults(p, a, recipe.operations, host), 0);
  }

  // ---------------------------------------------------------------------------
  // The whole run
  // ---------------------------------------------------------------------------

  /**
   * The reports name, once each and in application order, exactly the
   * applications whose recipe resolves for the platform.
   */
  lemma ReportsSpec(p: Platform, platform: string, apps: seq<Application>, installed: InstalledOracle, host: HostOracle, n: nat)
    requires RecipesExpanded(apps, platform) && n <= |apps|
    ensures forall k :: 0 <= k < |Reports(p, platform, apps, installed, host, n)| ==>
              var r := Reports(p, platform, apps, installed, host, n)[k];
              && r.app < n
              && ResolveRecipe(apps[r.app], platform).Some?
              && r == Report(r.app, apps[r.app].name, AppRun(p, r.app, ResolveRecipe(apps[r.app], platform).value, installed, host).0)
    ensures forall k, l :: 0 <= k < l < |Reports(p, platform, apps, installed, host, n)| ==>
              Reports(p, platform, apps, installed, host, n)[k].app < Reports(p, platform, apps, installed, host, n)[l].app
    ensures forall a :: 0 <= a < n && ResolveRecipe(apps[a], platform).Some? ==>
              exists k :: 0 <= k < |Reports(p, platform, apps, installed, host, n)| && Reports(p, platform, apps, installed, host, n)[k].app == a
  {
    ReportsAreOfResolvedApps(p, platform, apps, installed, host, n);
    ReportsInOrder(p, platform, apps, installed, host, n);
    ReportsComplete(p, platform, apps, installed, host, n);
  }

  /** The reports of the first `n - 1` applications come first, then at most one for application `n - 1`. */
  lemma ReportsSnoc(p: Platform, platform: string, apps: seq<Application>, installed: InstalledOracle, host: HostOracle, n: nat)
    requires RecipesExpanded(apps, platform) && 0 < n <= |apps|
    ensures var prev := Reports(p, platform, apps, installed, host, n - 1);
            var rs := Reports(p, platform, apps, installed, host, n);
            && (forall k :: 0 <= k < |prev| ==> rs[k] == prev[k])
            && (ResolveRecipe(apps[n - 1], platform).None? ==> rs == prev)
            && (ResolveRecipe(apps[n - 1], platform).Some? ==>
                  && |rs| == |prev| + 1
                  && rs[|prev|] == Report(n - 1, apps[n - 1].name, AppRun(p, n - 1, ResolveRecipe(apps[n - 1], platform).value, installed, host).0))
  {
  }

  lemma {:induction false} ReportsAreOfResolvedApps(p: Platform, platform: string, apps: seq<Application>, installed: InstalledOracle, host: HostOracle, n: nat)
    requires RecipesExpanded(apps, platform) && n <= |apps|
    ensures forall k :: 0 <= k < |Reports(p, platform, apps, installed, host, n)| ==>
              var r := Reports(p, platform, apps, installed, host, n)[k];
              && r.app < n
              && ResolveRecipe(apps[r.app], platform).Some?
              && r == Report(r.app, apps[r.app].name, AppRun(p, r.app, ResolveRecipe(apps[r.app], platform).value, installed, host).0)
    decreases n
  {
    if n > 0 {
      ReportsAreOfResolvedApps(p, platform, apps, installed, host, n - 1);
      ReportsSnoc(p, platform, apps, installed, host, n);
    }
  }

  lemma {:induction false} ReportsInOrder(p: Platform, platform: string, apps: seq<Application>, installed: InstalledOracle, host: HostOracle, n: nat)
    requires RecipesExpanded(apps, platform) && n <= |apps|
    ensures forall k, l :: 0 <= k < l < |Reports(p, platform, apps, installed, host, n)| ==>
              Reports(p, platform, apps, installed, host, n)[k].app < Reports(p, platform, apps, installed, host, n)[l].app
    decreases n
  {
    if n > 0 {
      ReportsInOrder(p, platform, apps, installed, host, n - 1);
      ReportsAreOfResolvedApps(p, platform, apps, installed, host, n - 1);
      ReportsSnoc(p, platform, apps, installed, host, n);
    }
  }

  lemma {:induction false} ReportsComplete(p: Platform, platform: string, apps: seq<Application>, installed: InstalledOracle, host: HostOracle, n: nat)
    requires RecipesExpanded(apps, platform) && n <= |apps|
    ensures forall a :: 0 <= a < n && ResolveRecipe(apps[a], platform).Some? ==>
              exists k :: 0 <= k < |Reports(p, platform, apps, installed, host, n)| && Reports(p, platform, apps, installed, host, n)[k].app == a
    decreases n
  {
    if n > 0 {
      ReportsComplete(p, platform, apps, installed, host, n - 1);
      ReportsSnoc(p, platform, apps, installed, host, n);
      var prev := Reports(p, platform, apps, installed, host, n - 1);
      var rs := Reports(p, platform, apps, installed, host, n);
      forall a | 0 <= a < n && ResolveRecipe(apps[a], platform).Some?
        ensures exists k :: 0 <= k < |rs| && rs[k].app == a
      {
        if a == n - 1 {
          assert rs[|prev|].app == a;
        } else {
          var k :| 0 <= k < |prev| && prev[k].app == a;
          assert rs[k].app == a;
        }
      }
    }
  }

  /** Only applications whose recipe resolves run steps, and only steps of their recipe. */
  lemma {:induction false} ExecutedSpec(p: Platform, platform: string, apps: seq<Application>, installed: InstalledOracle, host: HostOracle, n: nat)
    requires RecipesExpanded(apps, platform) && n <= |apps|
    ensures forall k :: 0 <= k < |Executed(p, platform, apps, installed, host, n)| ==>
              var (a, i) := Executed(p, platform, apps, installed, host, n)[k];
              && a < n
              && ResolveRecipe(apps[a], platform).Some?
              && i < |ResolveRecipe(apps[a], platform).value.operations|
    decreases n
  {
    if n > 0 {
      ExecutedSpec(p, platform, apps, installed, host, n - 1);
      AppStepsSpec(p, platform, apps, installed, host, n - 1);
      var prev := Executed(p, platform, apps, installed, host, n - 1);
      var steps := AppSteps(p, platform, apps, installed, host, n - 1);
      var all := Executed(p, platform, apps, installed, host, n);
      assert all == prev + steps;
      forall k | 0 <= k < |all|
        ensures var (a, i) := all[k];
                && a < n
                && ResolveRecipe(apps[a], platform).Some?
                && i < |ResolveRecipe(apps[a], platform).value.operations|
      {
        if k >= |prev| {
          assert all[k] == steps[k - |prev|];
        } else {
          assert all[k] == prev[k];
        }
      }
    }
  }

  /** Application `a` starts a prefix of its own recipe's operations, and none if its recipe does not resolve. */
  lemma AppStepsSpec(p: Platform, platform: string, apps: seq<Application>, installed: InstalledOracle, host: HostOracle, a: nat)
    requires RecipesExpanded(apps, platform) && a < |apps|
    ensures ResolveRecipe(apps[a], platform).None? ==> AppSteps(p, platform, apps, installed, host, a) == []
    ensures ResolveRecipe(apps[a], platform).Some? ==>
              forall t :: 0 <= t < |AppSteps(p, platform, apps, installed, host, a)| ==>
                && AppSteps(p, platform, apps, installed, host, a)[t] == (a, t)
                && t < |ResolveRecipe(apps[a], platform).value.operations|
  {
    if ResolveRecipe(apps[a], platform).Some? {
      var recipe := ResolveRecipe(apps[a], platform).value;
      FirstFailureSpec(StepResults(p, a, recipe.operations, host), 0);
      var count := AppRun(p, a, recipe, installed, host).1;
      assert count <= |recipe.operations|;
      assert AppSteps(p, platform, apps, installed, host, a) == StepsOf(a, count);
    }
  }
}
