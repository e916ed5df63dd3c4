/**
 * The configuration model of the installer (src/schema.rs): applications with
 * per-platform recipes, the global per-platform package-install templates,
 * `same_with` alias resolution, and the single pass that expands every
 * `PackageInstall` operation into its platform's template.
 */
module Schema {
  import opened Prelude

  /** `PathStr(String)`: a path whose leading `~/` is expanded when it is resolved. */
  type PathStr = string

  datatype Argument = Path(path: PathStr) | String(value: string)

  /** `as_root` absent means the same as `Some(false)`. */
  datatype CommandConfig = CommandConfig(command: Argument, asRoot: Option<bool>, args: Option<seq<Argument>>)

  datatype Operation =
    | Command(config: CommandConfig)
    | Link(original: PathStr, link: PathStr)
    | PackageInstall(packageName: string)

  /**
   * The shape shared by `PlatformConfig` and `PlatformSpecificRecipe`: either
   * an alias to the entry of another platform, or a concrete entry.
   */
  datatype Aliased<T> = SameWith(sameWith: string) | Concrete(value: T)

  datatype ConcretePlatformConfig = ConcretePlatformConfig(packageInstall: seq<Operation>)

  type PlatformConfig = Aliased<ConcretePlatformConfig>

  datatype ConcreteRecipe = ConcreteRecipe(skipIf: Option<CommandConfig>, operations: seq<Operation>)

  type PlatformSpecificRecipe = Aliased<ConcreteRecipe>

  datatype Application = Application(name: string, recipe: map<string, PlatformSpecificRecipe>)

  datatype SchemaError = PlatformConfigNotFound

  // ---------------------------------------------------------------------------
  // Alias resolution
  // ---------------------------------------------------------------------------

  /**
   * Follows `same_with` aliases from `key` until a concrete entry. Unlike the
   * source, which recurses without a guard, a key already on the chain
   * (`visited`) ends the walk with `None`, so a cyclic alias chain is "not found".
   */
  function ResolveFrom<T>(m: map<string, Aliased<T>>, key: string, visited: set<string>): Option<T>
    decreases m.Keys - visited
  {
    if key !in m || key in visited then None
    else
      match m[key]
      case Concrete(v) => Some(v)
      case SameWith(next) => ResolveFrom(m, next, visited + {key})
  }

  function Resolve<T>(m: map<string, Aliased<T>>, key: string): Option<T> {
    ResolveFrom(m, key, {})
  }

  /**
   * Reference semantics of an alias chain: the concrete entry reached from
   * `key` after exactly `hops` aliases, if the chain does that.
   */
  function Reach<T>(m: map<string, Aliased<T>>, key: string, hops: nat): Option<T>
    decreases hops
  {
    if key !in m then None
    else
      match m[key]
      case Concrete(v) => if hops == 0 then Some(v) else None
      case SameWith(next) => if hops == 0 then None else Reach(m, next, hops - 1)
  }

  /** An alias chain is deterministic: it reaches a concrete entry after at most one hop count. */
  lemma {:induction false} ReachIsUnique<T>(m: map<string, Aliased<T>>, key: string, h1: nat, h2: nat)
    requires Reach(m, key, h1).Some? && Reach(m, key, h2).Some?
    ensures h1 == h2
    decreases h1
  {
    match m[key]
    case Concrete(_) =>
    case SameWith(next) => ReachIsUnique(m, next, h1 - 1, h2 - 1);
  }

  lemma {:induction false} ResolveFromSound<T>(m: map<string, Aliased<T>>, key: string, visited: set<string>)
    returns (hops: nat)
    requires ResolveFrom(m, key, visited).Some?
    ensures Reach(m, key, hops) == ResolveFrom(m, key, visited)
    decreases m.Keys - visited
  {
    match m[key]
    case Concrete(_) =>
      hops := 0;
    case SameWith(next) =>
      var h := ResolveFromSound(m, next, visited + {key});
      hops := h + 1;
  }

  /**
   * If the chain from `key` ends in a concrete entry after `hops` aliases, and
   * no key of `visited` could reach a concrete entry within `hops` aliases
   * (so the chain never meets `visited`), the guarded walk finds that entry.
   */
  lemma {:induction false} ResolveFromComplete<T>(m: map<string, Aliased<T>>, key: string, visited: set<string>, hops: nat)
    requires Reach(m, key, hops).Some?
    requires forall k, i: nat :: k in visited && i <= hops ==> Reach(m, k, i).None?
    ensures ResolveFrom(m, key, visited) == Reach(m, key, hops)
    decreases hops
  {
    match m[key]
    case Concrete(_) =>
    case SameWith(next) =>
      forall k, i: nat | k in visited + {key} && i <= hops - 1
        ensures Reach(m, k, i).None?
      {
        if k == key && Reach(m, key, i).Some? {
          ReachIsUnique(m, key, i, hops);
        }
      }
      ResolveFromComplete(m, next, visited + {key}, hops - 1);
  }

  /** Resolution finds exactly the concrete entry that the alias chain ends in. */
  lemma ResolveIsExact<T>(m: map<string, Aliased<T>>, key: string, v: T)
    ensures Resolve(m, key) == Some(v) <==> exists hops: nat :: Reach(m, key, hops) == Some(v)
  {
    if Resolve(m, key) == Some(v) {
      var h := ResolveFromSound(m, key, {});
      assert Reach(m, key, h) == Some(v);
    }
    if exists hops: nat :: Reach(m, key, hops) == Some(v) {
      var h: nat :| Reach(m, key, h) == Some(v);
      ResolveFromComplete(m, key, {}, h);
    }
  }

  /** Resolution fails exactly when the chain never ends in a concrete entry (a missing key or a cycle). */
  lemma ResolveNoneIffNoChain<T>(m: map<string, Aliased<T>>, key: string)
    ensures Resolve(m, key).None? <==> forall hops: nat :: Reach(m, key, hops).None?
  {
    if Resolve(m, key).Some? {
      var h := ResolveFromSound(m, key, {});
      assert Reach(m, key, h).Some?;
    }
    if exists hops: nat :: Reach(m, key, hops).Some? {
      var h: nat :| Reach(m, key, h).Some?;
      ResolveFromComplete(m, key, {}, h);
    }
  }

  /** The source's recursive case: an alias resolves as its target does, cycles included. */
  lemma ResolveFollowsAlias<T>(m: map<string, Aliased<T>>, key: string)
    requires key in m && m[key].SameWith?
    ensures Resolve(m, key) == Resolve(m, m[key].sameWith)
  {
    var next := m[key].sameWith;
    match Resolve(m, next)
    case Some(v) =>
      ResolveIsExact(m, next, v);
      var h: nat :| Reach(m, next, h) == Some(v);
      assert Reach(m, key, h + 1) == Some(v);
      ResolveIsExact(m, key, v);
    case None =>
      ResolveNoneIffNoChain(m, next);
      forall h: nat
        ensures Reach(m, key, h).None?
      {
        if h > 0 {
          assert Reach(m, key, h) == Reach(m, next, h - 1);
        }
      }
      ResolveNoneIffNoChain(m, key);
  }

  /** Two platforms that alias each other resolve to nothing, instead of recursing forever. */
  lemma MutualAliasIsNotFound<T>(m: map<string, Aliased<T>>, k1: string, k2: string)
    requires k1 in m && k2 in m && m[k1] == SameWith(k2) && m[k2] == SameWith(k1)
    ensures Resolve(m, k1) == None && Resolve(m, k2) == None
  {
    forall h: nat
      ensures Reach(m, k1, h).None? && Reach(m, k2, h).None?
    {
      MutualAliasNeverReaches(m, k1, k2, h);
    }
    ResolveNoneIffNoChain(m, k1);
    ResolveNoneIffNoChain(m, k2);
  }

  lemma {:induction false} MutualAliasNeverReaches<T>(m: map<string, Aliased<T>>, k1: string, k2: string, h: nat)
    requires k1 in m && k2 in m && m[k1] == SameWith(k2) && m[k2] == SameWith(k1)
    ensures Reach(m, k1, h).None? && Reach(m, k2, h).None?
    decreases h
  {
    if h > 0 {
      MutualAliasNeverReaches(m, k1, k2, h - 1);
    }
  }

  /**
   * The recursion of `resolve_recipe` and `resolve_platform_config` as
   * written, without a guard, run for at most `fuel` calls: `None` when it
   * has not returned by then, `Some(r)` when it returned `r`.
   */
  function ResolveUnguarded<T>(m: map<string, Aliased<T>>, key: string, fuel: nat): Option<Option<T>>
    decreases fuel
  {
    if fuel == 0 then None
    else if key !in m then Some(None)
    else
      match m[key]
      case Concrete(v) => Some(Some(v))
      case SameWith(next) => ResolveUnguarded(m, next, fuel - 1)
  }

  /** Whenever the unguarded recursion returns, it returns what the guarded resolution does. */
  lemma {:induction false} UnguardedAgreesWhenItReturns<T>(m: map<string, Aliased<T>>, key: string, fuel: nat)
    requires ResolveUnguarded(m, key, fuel).Some?
    ensures ResolveUnguarded(m, key, fuel).value == Resolve(m, key)
    decreases fuel
  {
    if key in m && m[key].SameWith? {
      UnguardedAgreesWhenItReturns(m, m[key].sameWith, fuel - 1);
      ResolveFollowsAlias(m, key);
    }
  }

  /** As written, two platforms that alias each other make the recursion run out of any bound: it never returns. */
  lemma {:induction false} UnguardedDivergesOnMutualAlias<T>(m: map<string, Aliased<T>>, k1: string, k2: string, fuel: nat)
    requires k1 in m && k2 in m && m[k1] == SameWith(k2) && m[k2] == SameWith(k1)
    ensures ResolveUnguarded(m, k1, fuel) == None && ResolveUnguarded(m, k2, fuel) == None
    decreases fuel
  {
    if fuel > 0 {
      UnguardedDivergesOnMutualAlias(m, k1, k2, fuel - 1);
    }
  }

  /** `Application::resolve_recipe`. */
  function ResolveRecipe(app: Application, platform: string): (r: Option<ConcreteRecipe>)
    ensures platform !in app.recipe ==> r == None
    ensures platform in app.recipe && app.recipe[platform].Concrete? ==> r == Some(app.recipe[platform].value)
    ensures platform in app.recipe && app.recipe[platform].SameWith? ==>
              r == Resolve(app.recipe, app.recipe[platform].sameWith)
  {
    // Both branches are the same resolution; the alias branch only brings in
    // `ResolveFollowsAlias`, which gives the third postcondition.
    if platform in app.recipe && app.recipe[platform].SameWith? then
      ResolveFollowsAlias(app.recipe, platform);
      Resolve(app.recipe, platform)
    else
      Resolve(app.recipe, platform)
  }

  /** `Schema::resolve_platform_config`. */
  function ResolvePlatformConfig(platformConfig: map<string, PlatformConfig>, platform: string): (r: Option<ConcretePlatformConfig>)
    ensures platform !in platformConfig ==> r == None
    ensures platform in platformConfig && platformConfig[platform].Concrete? ==> r == Some(platformConfig[platform].value)
    ensures platform in platformConfig && platformConfig[platform].SameWith? ==>
              r == Resolve(platformConfig, platformConfig[platform].sameWith)
  {
    // Both branches are the same resolution; the alias branch only brings in
    // `ResolveFollowsAlias`, which gives the third postcondition.
    if platform in platformConfig && platformConfig[platform].SameWith? then
      ResolveFollowsAlias(platformConfig, platform);
      Resolve(platformConfig, platform)
    else
      Resolve(platformConfig, platform)
  }

  // ---------------------------------------------------------------------------
  // Per-package instantiation of a platform template
  // ---------------------------------------------------------------------------

  /** The one argument value that names the package; only an exact match is replaced. */
  const PackagePlaceholder: string := "${package}"

  function SubstituteArgument(arg: Argument, packageName: string): Argument {
    if arg == String(PackagePlaceholder) then String(packageName) else arg
  }

  function SubstituteArguments(args: seq<Argument>, packageName: string): seq<Argument> {
    seq(|args|, j requires 0 <= j < |args| => SubstituteArgument(args[j], packageName))
  }

  /** Only the `args` of a `Command` can mention the package. */
  function InstantiateOperation(op: Operation, packageName: string): Operation {
    match op
    case Command(config) =>
      if config.args.Some? then Command(config.(args := Some(SubstituteArguments(config.args.value, packageName))))
      else op
    case _ => op
  }

  function Instantiate(template: seq<Operation>, packageName: string): seq<Operation> {
    seq(|template|, i requires 0 <= i < |template| => InstantiateOperation(template[i], packageName))
  }

  /** `ConcretePlatformConfig::construct_package_install_operations`. */
  method ConstructPackageInstallOperations(config: ConcretePlatformConfig, packageName: string)
    returns (operations: seq<Operation>)
    ensures |operations| == |config.packageInstall|
    ensures forall i :: 0 <= i < |operations| && !config.packageInstall[i].Command? ==>
              operations[i] == config.packageInstall[i]
    ensures forall i :: 0 <= i < |operations| && config.packageInstall[i].Command? && config.packageInstall[i].config.args.None? ==>
              operations[i] == config.packageInstall[i]
    ensures forall i :: 0 <= i < |operations| && config.packageInstall[i].Command? && config.packageInstall[i].config.args.Some? ==>
              && operations[i].Command?
              && operations[i].config.command == config.packageInstall[i].config.command
              && operations[i].config.asRoot == config.packageInstall[i].config.asRoot
              && operations[i].config.args.Some?
              && |operations[i].config.args.value| == |config.packageInstall[i].config.args.value|
    ensures forall i, j :: 0 <= i < |operations| && config.packageInstall[i].Command? && config.packageInstall[i].config.args.Some? &&
                           0 <= j < |config.packageInstall[i].config.args.value| ==>
              operations[i].config.args.value[j] ==
                (if config.packageInstall[i].config.args.value[j] == String(PackagePlaceholder) then String(packageName)
                 else config.packageInstall[i].config.args.value[j])
    ensures operations == Instantiate(config.packageInstall, packageName)
  {
    var template := config.packageInstall;
    operations := template;
    for i := 0 to |operations|
      invariant |operations| == |template|
      invariant forall k :: 0 <= k < i ==> operations[k] == InstantiateOperation(template[k], packageName)
      invariant forall k :: i <= k < |operations| ==> operations[k] == template[k]
    {
      if operations[i].Command? && operations[i].config.args.Some? {
        var commandConfig := operations[i].config;
        var args := commandConfig.args.value;
        var newArgs: seq<Argument> := [];
        for j := 0 to |args|
          invariant |newArgs| == j
          invariant forall k :: 0 <= k < j ==> newArgs[k] == SubstituteArgument(args[k], packageName)
        {
          var newArg := args[j];
          if newArg.String? && newArg.value == PackagePlaceholder {
            newArg := String(packageName);
          }
          newArgs := newArgs + [newArg];
        }
        assert newArgs == SubstituteArguments(args, packageName);
        operations := operations[i := Command(commandConfig.(args := Some(newArgs)))];
      }
    }
  }

  // ---------------------------------------------------------------------------
  // Locating the operations to expand
  // ---------------------------------------------------------------------------

  /** The positions of the `PackageInstall` operations, ascending, each with its package name. */
  function PackagePositions(ops: seq<Operation>): seq<(nat, string)>
    decreases |ops|
  {
    if ops == [] then []
    else
      var n := |ops| - 1;
      PackagePositions(ops[..n]) + (if ops[n].PackageInstall? then [(n, ops[n].packageName)] else [])
  }

  /**
   * `PackagePositions` lists exactly the `PackageInstall` operations: every
   * entry is one, paired with its package name; entries ascend strictly; and
   * none is missing.
   */
  lemma {:induction false} PackagePositionsSpec(ops: seq<Operation>)
    ensures forall k :: 0 <= k < |PackagePositions(ops)| ==>
              PackagePositions(ops)[k].0 < |ops| && ops[PackagePositions(ops)[k].0] == PackageInstall(PackagePositions(ops)[k].1)
    ensures forall a, b :: 0 <= a < b < |PackagePositions(ops)| ==> PackagePositions(ops)[a].0 < PackagePositions(ops)[b].0
    ensures forall i :: 0 <= i < |ops| && ops[i].PackageInstall? ==> (i, ops[i].packageName) in PackagePositions(ops)
    decreases |ops|
  {
    if ops != [] {
      var n := |ops| - 1;
      var init := ops[..n];
      PackagePositionsSpec(init);
      assert forall i :: 0 <= i < n ==> init[i] == ops[i];
    }
  }

  /** `ConcreteRecipe::find_expandee`. */
  method FindExpandee(recipe: ConcreteRecipe) returns (expandee: seq<(nat, string)>)
    ensures expandee == PackagePositions(recipe.operations)
  {
    var ops := recipe.operations;
    expandee := [];
    for i := 0 to |ops|
      invariant expandee == PackagePositions(ops[..i])
    {
      assert ops[..i + 1][..i] == ops[..i];
      if ops[i].PackageInstall? {
        expandee := expandee + [(i, ops[i].packageName)];
      }
    }
    assert ops[..|ops|] == ops;
  }

  predicate HasPackageInstall(ops: seq<Operation>) {
    exists i :: 0 <= i < |ops| && ops[i].PackageInstall?
  }

  lemma PositionsEmptyIffNoPackageInstall(ops: seq<Operation>)
    ensures PackagePositions(ops) == [] <==> !HasPackageInstall(ops)
  {
    PackagePositionsSpec(ops);
    var ps := PackagePositions(ops);
    if ps != [] {
      assert ops[ps[0].0].PackageInstall?;
    }
  }

  // ---------------------------------------------------------------------------
  // Ordering the positions: `sort_by(|a, b| b.0.cmp(&a.0))`
  // ---------------------------------------------------------------------------

  function Reverse<T>(s: seq<T>): (r: seq<T>)
    ensures |r| == |s|
    decreases |s|
  {
    if s == [] then [] else [s[|s| - 1]] + Reverse(s[..|s| - 1])
  }

  /** Element `k` of the reversal is element `|s| - 1 - k` of the original. */
  lemma {:induction false} ReverseIndex<T>(s: seq<T>)
    ensures forall k :: 0 <= k < |s| ==> Reverse(s)[k] == s[|s| - 1 - k]
    decreases |s|
  {
    if s != [] {
      var n := |s| - 1;
      ReverseIndex(s[..n]);
      var init := s[..n];
      var r := Reverse(s);
      assert r == [s[n]] + Reverse(init);
      forall k | 0 <= k < |s|
        ensures r[k] == s[n - k]
      {
        if k > 0 {
          calc {
            r[k];
            Reverse(init)[k - 1];
            init[n - 1 - (k - 1)];
            s[n - k];
          }
        }
      }
    }
  }

  lemma {:induction false} ReverseIsPermutation<T>(s: seq<T>)
    ensures multiset(Reverse(s)) == multiset(s)
    decreases |s|
  {
    if s != [] {
      var n := |s| - 1;
      ReverseIsPermutation(s[..n]);
      assert s == s[..n] + [s[n]];
      assert multiset(s) == multiset(s[..n]) + multiset{s[n]};
    }
  }

  lemma ReverseSnoc<T>(s: seq<T>, x: T)
    ensures Reverse(s + [x]) == [x] + Reverse(s)
  {
    assert (s + [x])[..|s|] == s;
  }

  /** Position entries whose indices decrease strictly from first to last. */
  predicate StrictlyDescending(es: seq<(nat, string)>) {
    forall a, b :: 0 <= a < b < |es| ==> es[a].0 > es[b].0
  }

  /** Strictly decreasing positions, all below `len`: the order in which the splices are applied. */
  predicate DescendingWithin(es: seq<(nat, string)>, len: nat) {
    && StrictlyDescending(es)
    && (forall k :: 0 <= k < |es| ==> es[k].0 < len)
  }

  lemma ReverseOfAscending(ps: seq<(nat, string)>, len: nat)
    requires forall a, b :: 0 <= a < b < |ps| ==> ps[a].0 < ps[b].0
    requires forall k :: 0 <= k < |ps| ==> ps[k].0 < len
    ensures DescendingWithin(Reverse(ps), len)
  {
    ReverseDescends(ps);
    ReverseBelow(ps, len);
  }

  lemma ReverseDescends(ps: seq<(nat, string)>)
    requires forall a, b :: 0 <= a < b < |ps| ==> ps[a].0 < ps[b].0
    ensures StrictlyDescending(Reverse(ps))
  {
    var r := Reverse(ps);
    ReverseIndex(ps);
    forall a, b | 0 <= a < b < |r|
      ensures r[a].0 > r[b].0
    {
      assert r[a] == ps[|ps| - 1 - a] && r[b] == ps[|ps| - 1 - b];
    }
  }

  lemma ReverseBelow(ps: seq<(nat, string)>, len: nat)
    requires forall k :: 0 <= k < |ps| ==> ps[k].0 < len
    ensures forall k :: 0 <= k < |Reverse(ps)| ==> Reverse(ps)[k].0 < len
  {
    var r := Reverse(ps);
    ReverseIndex(ps);
    forall k | 0 <= k < |r|
      ensures r[k].0 < len
    {
      assert r[k] == ps[|ps| - 1 - k];
    }
  }

  /** The reversed positions of `ops` descend strictly and stay below any bound at least `|ops|`. */
  lemma PositionsDescendingWithin(ops: seq<Operation>, len: nat)
    requires |ops| <= len
    ensures DescendingWithin(Reverse(PackagePositions(ops)), len)
  {
    PackagePositionsSpec(ops);
    ReverseOfAscending(PackagePositions(ops), len);
  }

  /**
   * Sorting the ascending positions by descending index yields their reversal,
   * a permutation of them in the order the splices need.
   */
  lemma SortedExpandee(ops: seq<Operation>)
    ensures DescendingWithin(Reverse(PackagePositions(ops)), |ops|)
    ensures multiset(Reverse(PackagePositions(ops))) == multiset(PackagePositions(ops))
  {
    PositionsDescendingWithin(ops, |ops|);
    ReverseIsPermutation(PackagePositions(ops));
  }

  /** In a strictly descending sequence the head has the largest index, and is the only entry with it. */
  lemma DescendingHead(s: seq<(nat, string)>, x: (nat, string))
    requires StrictlyDescending(s)
    requires x in s
    ensures x.0 <= s[0].0
    ensures x.0 == s[0].0 ==> x == s[0]
  {
    var i :| 0 <= i < |s| && s[i] == x;
    if i != 0 {
      assert s[0].0 > s[i].0;
    }
  }

  lemma DescendingTail(s: seq<(nat, string)>)
    requires s != [] && StrictlyDescending(s)
    ensures StrictlyDescending(s[1..])
  {
    forall a, b | 0 <= a < b < |s[1..]|
      ensures s[1..][a].0 > s[1..][b].0
    {
      assert s[1..][a] == s[a + 1] && s[1..][b] == s[b + 1];
    }
  }

  lemma MultisetCancel<T>(h: T, a: multiset<T>, b: multiset<T>)
    requires multiset{h} + a == multiset{h} + b
    ensures a == b
  {
    forall x
      ensures a[x] == b[x]
    {
      assert (multiset{h} + a)[x] == (multiset{h} + b)[x];
    }
  }

  /** A permutation strictly descending by index is unique, so any correct `sort_by` gives the reversal. */
  lemma {:induction false} DescendingPermutationIsUnique(s1: seq<(nat, string)>, s2: seq<(nat, string)>)
    requires StrictlyDescending(s1) && StrictlyDescending(s2)
    requires multiset(s1) == multiset(s2)
    ensures s1 == s2
    decreases |s1|
  {
    if s1 == [] {
      assert |multiset(s2)| == 0;
    } else {
      assert s1[0] in multiset(s2);
      assert s2 != [];
      assert s2[0] in multiset(s1);
      DescendingHead(s2, s1[0]);
      DescendingHead(s1, s2[0]);
      assert s1[0] == s2[0];
      var h := s1[0];
      assert s1 == [h] + s1[1..] && s2 == [h] + s2[1..];
      assert multiset(s1) == multiset{h} + multiset(s1[1..]);
      assert multiset(s2) == multiset{h} + multiset(s2[1..]);
      MultisetCancel(h, multiset(s1[1..]), multiset(s2[1..]));
      DescendingTail(s1);
      DescendingTail(s2);
      DescendingPermutationIsUnique(s1[1..], s2[1..]);
    }
  }

  // ---------------------------------------------------------------------------
  // Expansion: left-to-right reference and back-to-front splicing
  // ---------------------------------------------------------------------------

  function ExpandOperation(op: Operation, template: seq<Operation>): seq<Operation> {
    if op.PackageInstall? then Instantiate(template, op.packageName) else [op]
  }

  /** Reference expansion: one left-to-right pass replacing each `PackageInstall` by its instantiated template. */
  function FlatExpand(ops: seq<Operation>, template: seq<Operation>): seq<Operation>
    decreases |ops|
  {
    if ops == [] then [] else ExpandOperation(ops[0], template) + FlatExpand(ops[1..], template)
  }

  lemma {:induction false} FlatExpandAppend(a: seq<Operation>, b: seq<Operation>, template: seq<Operation>)
    ensures FlatExpand(a + b, template) == FlatExpand(a, template) + FlatExpand(b, template)
    decreases |a|
  {
    if a == [] {
      assert a + b == b;
    } else {
      assert (a + b)[0] == a[0];
      assert (a + b)[1..] == a[1..] + b;
      FlatExpandAppend(a[1..], b, template);
    }
  }

  lemma FlatExpandSingle(op: Operation, template: seq<Operation>)
    ensures FlatExpand([op], template) == ExpandOperation(op, template)
  {
    assert [op][1..] == [];
  }

  /** `Vec::splice(i..i + 1, replacement)`. */
  function Splice(ops: seq<Operation>, i: nat, replacement: seq<Operation>): seq<Operation>
    requires i < |ops|
  {
    ops[..i] + replacement + ops[i + 1..]
  }

  /** Applies the splices in the order given, as the loop over the sorted `expandee` does. */
  function SpliceAll(ops: seq<Operation>, es: seq<(nat, string)>, template: seq<Operation>): seq<Operation>
    requires DescendingWithin(es, |ops|)
    decreases |es|
  {
    if es == [] then ops
    else
      var next := Splice(ops, es[0].0, Instantiate(template, es[0].1));
      assert DescendingWithin(es[1..], |next|) by {
        forall k | 0 <= k < |es[1..]|
          ensures es[1..][k].0 < |next|
        {
          assert es[1..][k] == es[k + 1];
        }
        forall a, b | 0 <= a < b < |es[1..]|
          ensures es[1..][a].0 > es[1..][b].0
        {
          assert es[1..][a] == es[a + 1] && es[1..][b] == es[b + 1];
        }
      }
      SpliceAll(next, es[1..], template)
  }

  /** One step of `SpliceAll`: the first splice, then the rest. */
  lemma SpliceAllCons(ops: seq<Operation>, e: (nat, string), rest: seq<(nat, string)>, template: seq<Operation>)
    requires DescendingWithin([e] + rest, |ops|)
    ensures e.0 < |ops|
    ensures DescendingWithin(rest, |Splice(ops, e.0, Instantiate(template, e.1))|)
    ensures SpliceAll(ops, [e] + rest, template) == SpliceAll(Splice(ops, e.0, Instantiate(template, e.1)), rest, template)
  {
    var es := [e] + rest;
    assert es[0] == e;
    assert es[1..] == rest;
  }

  /** Appending one operation adds its position if it is a `PackageInstall`. */
  lemma PositionsSnoc(init: seq<Operation>, last: Operation)
    ensures PackagePositions(init + [last])
            == PackagePositions(init) + (if last.PackageInstall? then [(|init|, last.packageName)] else [])
  {
    var ops := init + [last];
    assert ops[..|ops| - 1] == init;
  }

  lemma SplitLast<T>(s: seq<T>)
    requires s != []
    ensures s == s[..|s| - 1] + [s[|s| - 1]]
  {
  }

  lemma AppendAssociates<T>(a: seq<T>, b: seq<T>, c: seq<T>)
    ensures (a + b) + c == a + (b + c)
  {
  }

  lemma FlatExpandSnoc(init: seq<Operation>, last: Operation, template: seq<Operation>)
    ensures FlatExpand(init + [last], template) == FlatExpand(init, template) + ExpandOperation(last, template)
  {
    FlatExpandAppend(init, [last], template);
    FlatExpandSingle(last, template);
  }

  /** A trailing `PackageInstall` is the first position of the sorted list. */
  lemma PositionsOfLastPackageInstall(init: seq<Operation>, name: string)
    ensures Reverse(PackagePositions(init + [PackageInstall(name)])) == [(|init|, name)] + Reverse(PackagePositions(init))
  {
    PositionsSnoc(init, PackageInstall(name));
    ReverseSnoc(PackagePositions(init), (|init|, name));
  }

  lemma SpliceAtLast(init: seq<Operation>, last: Operation, suffix: seq<Operation>, replacement: seq<Operation>)
    ensures |init| < |init + [last] + suffix|
    ensures Splice(init + [last] + suffix, |init|, replacement) == init + (replacement + suffix)
  {
    var ops := init + [last] + suffix;
    assert ops[..|init|] == init;
    assert ops[|init| + 1..] == suffix;
  }

  /**
   * The inductive step of `BackToFrontSplice` for a last operation that is a
   * `PackageInstall`: its splice comes first, then those of `init`.
   */
  lemma SpliceLastPackageInstall(init: seq<Operation>, name: string, suffix: seq<Operation>, template: seq<Operation>)
    requires DescendingWithin(Reverse(PackagePositions(init)), |init + (Instantiate(template, name) + suffix)|)
    requires SpliceAll(init + (Instantiate(template, name) + suffix), Reverse(PackagePositions(init)), template)
             == FlatExpand(init, template) + (Instantiate(template, name) + suffix)
    ensures var pre := init + [PackageInstall(name)];
            && DescendingWithin(Reverse(PackagePositions(pre)), |pre + suffix|)
            && SpliceAll(pre + suffix, Reverse(PackagePositions(pre)), template) == FlatExpand(pre, template) + suffix
  {
    var last := PackageInstall(name);
    var pre := init + [last];
    var e: (nat, string) := (|init|, name);
    var r := Reverse(PackagePositions(init));
    var replacement := Instantiate(template, name);
    PositionsOfLastPackageInstall(init, name);
    PositionsDescendingWithin(pre, |pre + suffix|);
    SpliceAllCons(pre + suffix, e, r, template);
    SpliceAtLast(init, last, suffix, replacement);
    FlatExpandSnoc(init, last, template);
    calc {
      SpliceAll(pre + suffix, Reverse(PackagePositions(pre)), template);
      SpliceAll(pre + suffix, [e] + r, template);
      SpliceAll(Splice(pre + suffix, |init|, replacement), r, template);
      SpliceAll(init + (replacement + suffix), r, template);
      FlatExpand(init, template) + (replacement + suffix);
      { AppendAssociates(FlatExpand(init, template), replacement, suffix); }
      (FlatExpand(init, template) + replacement) + suffix;
      FlatExpand(pre, template) + suffix;
    }
  }

  /** The inductive step of `BackToFrontSplice` for a last operation that is not expanded: it moves into the suffix. */
  lemma SpliceLastKept(init: seq<Operation>, last: Operation, suffix: seq<Operation>, template: seq<Operation>)
    requires !last.PackageInstall?
    requires DescendingWithin(Reverse(PackagePositions(init)), |init + ([last] + suffix)|)
    requires SpliceAll(init + ([last] + suffix), Reverse(PackagePositions(init)), template)
             == FlatExpand(init, template) + ([last] + suffix)
    ensures var pre := init + [last];
            && DescendingWithin(Reverse(PackagePositions(pre)), |pre + suffix|)
            && SpliceAll(pre + suffix, Reverse(PackagePositions(pre)), template) == FlatExpand(pre, template) + suffix
  {
    var pre := init + [last];
    PositionsSnoc(init, last);
    assert PackagePositions(pre) == PackagePositions(init);
    AppendAssociates(init, [last], suffix);
    FlatExpandSnoc(init, last, template);
    AppendAssociates(FlatExpand(init, template), [last], suffix);
  }

  /**
   * Splicing the expansions in at the `PackageInstall` positions of `pre`,
   * highest position first, gives the left-to-right expansion of `pre`;
   * whatever follows `pre` is left alone.
   */
  lemma {:induction false} BackToFrontSplice(pre: seq<Operation>, suffix: seq<Operation>, template: seq<Operation>)
    ensures DescendingWithin(Reverse(PackagePositions(pre)), |pre + suffix|)
    ensures SpliceAll(pre + suffix, Reverse(PackagePositions(pre)), template) == FlatExpand(pre, template) + suffix
    decreases |pre|
  {
    if pre == [] {
      assert pre + suffix == suffix;
    } else {
      var init := pre[..|pre| - 1];
      var last := pre[|pre| - 1];
      SplitLast(pre);
      if last.PackageInstall? {
        BackToFrontSplice(init, Instantiate(template, last.packageName) + suffix, template);
        SpliceLastPackageInstall(init, last.packageName, suffix, template);
      } else {
        BackToFrontSplice(init, [last] + suffix, template);
        SpliceLastKept(init, last, suffix, template);
      }
    }
  }

  /** The central equivalence: back-to-front in-place splicing equals the left-to-right flat-map. */
  lemma SpliceEqualsFlatExpand(ops: seq<Operation>, template: seq<Operation>)
    ensures DescendingWithin(Reverse(PackagePositions(ops)), |ops|)
    ensures SpliceAll(ops, Reverse(PackagePositions(ops)), template) == FlatExpand(ops, template)
  {
    BackToFrontSplice(ops, [], template);
    assert ops + [] == ops;
    assert FlatExpand(ops, template) + [] == FlatExpand(ops, template);
  }

  /**
   * Expansion is local: operation `i` becomes, in place, its own expansion,
   * starting where the expansion of everything before it ends. Operations
   * other than `PackageInstall` therefore keep their relative order.
   */
  lemma ExpansionInPlace(ops: seq<Operation>, template: seq<Operation>, i: nat)
    requires i < |ops|
    ensures |FlatExpand(ops[..i + 1], template)| == |FlatExpand(ops[..i], template)| + |ExpandOperation(ops[i], template)|
    ensures |FlatExpand(ops[..i + 1], template)| <= |FlatExpand(ops, template)|
    ensures FlatExpand(ops, template)[|FlatExpand(ops[..i], template)|..|FlatExpand(ops[..i + 1], template)|]
            == ExpandOperation(ops[i], template)
  {
    assert ops[..i + 1] == ops[..i] + [ops[i]];
    assert ops == ops[..i + 1] + ops[i + 1..];
    FlatExpandAppend(ops[..i], [ops[i]], template);
    FlatExpandSingle(ops[i], template);
    FlatExpandAppend(ops[..i + 1], ops[i + 1..], template);
  }

  lemma {:induction false} FlatExpandWithoutPackageInstall(ops: seq<Operation>, template: seq<Operation>)
    requires !HasPackageInstall(ops)
    ensures FlatExpand(ops, template) == ops
    decreases |ops|
  {
    if ops != [] {
      assert !ops[0].PackageInstall?;
      assert forall i :: 0 <= i < |ops[1..]| ==> ops[1..][i] == ops[i + 1];
      FlatExpandWithoutPackageInstall(ops[1..], template);
      assert ops == [ops[0]] + ops[1..];
    }
  }

  function CountPackageInstalls(ops: seq<Operation>): nat
    decreases |ops|
  {
    if ops == [] then 0 else (if ops[0].PackageInstall? then 1 else 0) + CountPackageInstalls(ops[1..])
  }

  lemma {:induction false} CountPositiveIffHasPackageInstall(ops: seq<Operation>)
    ensures CountPackageInstalls(ops) > 0 <==> HasPackageInstall(ops)
    decreases |ops|
  {
    if ops != [] {
      CountPositiveIffHasPackageInstall(ops[1..]);
      if HasPackageInstall(ops) && !ops[0].PackageInstall? {
        var i :| 0 <= i < |ops| && ops[i].PackageInstall?;
        assert ops[1..][i - 1].PackageInstall?;
      }
      if HasPackageInstall(ops[1..]) {
        var i :| 0 <= i < |ops[1..]| && ops[1..][i].PackageInstall?;
        assert ops[i + 1].PackageInstall?;
      }
    }
  }

  lemma {:induction false} InstantiateKeepsPackageInstalls(template: seq<Operation>, packageName: string)
    ensures CountPackageInstalls(Instantiate(template, packageName)) == CountPackageInstalls(template)
    decreases |template|
  {
    if template != [] {
      assert Instantiate(template, packageName)[1..] == Instantiate(template[1..], packageName);
      InstantiateKeepsPackageInstalls(template[1..], packageName);
    }
  }

  lemma {:induction false} CountAppend(a: seq<Operation>, b: seq<Operation>)
    ensures CountPackageInstalls(a + b) == CountPackageInstalls(a) + CountPackageInstalls(b)
    decreases |a|
  {
    if a == [] {
      assert a + b == b;
    } else {
      assert (a + b)[0] == a[0];
      assert (a + b)[1..] == a[1..] + b;
      CountAppend(a[1..], b);
    }
  }

  /**
   * Inserted template operations are not expanded again: each `PackageInstall`
   * of the recipe contributes exactly the `PackageInstall`s of the template.
   */
  lemma {:induction false} ExpansionIsNotRecursive(ops: seq<Operation>, template: seq<Operation>)
    ensures CountPackageInstalls(FlatExpand(ops, template)) == CountPackageInstalls(ops) * CountPackageInstalls(template)
    decreases |ops|
  {
    if ops != [] {
      var c := CountPackageInstalls(template);
      var rest := CountPackageInstalls(ops[1..]);
      ExpansionIsNotRecursive(ops[1..], template);
      CountAppend(ExpandOperation(ops[0], template), FlatExpand(ops[1..], template));
      assert CountPackageInstalls(FlatExpand(ops, template))
             == CountPackageInstalls(ExpandOperation(ops[0], template)) + rest * c;
      if ops[0].PackageInstall? {
        InstantiateKeepsPackageInstalls(template, ops[0].packageName);
        assert CountPackageInstalls(ops) == 1 + rest;
        Distribute(rest, c);
      } else {
        assert [ops[0]][1..] == [];
        assert CountPackageInstalls(ExpandOperation(ops[0], template)) == 0;
        assert CountPackageInstalls(ops) == rest;
      }
    }
  }

  lemma Distribute(rest: nat, c: nat)
    ensures (1 + rest) * c == c + rest * c
  {
  }

  /** With a template free of `PackageInstall`, nothing is left to expand. */
  lemma ExpansionRemovesPackageInstalls(ops: seq<Operation>, template: seq<Operation>)
    requires !HasPackageInstall(template)
    ensures !HasPackageInstall(FlatExpand(ops, template))
  {
    CountPositiveIffHasPackageInstall(template);
    ExpansionIsNotRecursive(ops, template);
    CountPositiveIffHasPackageInstall(FlatExpand(ops, template));
  }

  // ---------------------------------------------------------------------------
  // Expanding one recipe, and the whole schema
  // ---------------------------------------------------------------------------

  /** What expanding one concrete recipe of platform `platform` yields. */
  function RecipeExpansion(platformConfig: map<string, PlatformConfig>, platform: string, recipe: ConcreteRecipe)
    : Result<ConcreteRecipe, SchemaError>
  {
    if !HasPackageInstall(recipe.operations) then Ok(recipe)
    else
      match ResolvePlatformConfig(platformConfig, platform)
      case None => Err(PlatformConfigNotFound)
      case Some(config) => Ok(ConcreteRecipe(recipe.skipIf, FlatExpand(recipe.operations, config.packageInstall)))
  }

  /** A recipe without `PackageInstall` is returned as it is, whatever the platform configuration. */
  lemma ExpansionWithoutPackageInstall(platformConfig: map<string, PlatformConfig>, platform: string, recipe: ConcreteRecipe)
    requires !HasPackageInstall(recipe.operations)
    ensures RecipeExpansion(platformConfig, platform, recipe) == Ok(recipe)
  {
  }

  /** One turn of the splicing loop: splice at `es[k]`, then carry on from `k + 1`. */
  lemma SpliceStep(ops: seq<Operation>, es: seq<(nat, string)>, k: nat, template: seq<Operation>)
    requires k < |es| && DescendingWithin(es[k..], |ops|)
    ensures es[k].0 < |ops|
    ensures DescendingWithin(es[k + 1..], |Splice(ops, es[k].0, Instantiate(template, es[k].1))|)
    ensures SpliceAll(ops, es[k..], template)
            == SpliceAll(Splice(ops, es[k].0, Instantiate(template, es[k].1)), es[k + 1..], template)
  {
    assert es[k..] == [es[k]] + es[k + 1..];
    SpliceAllCons(ops, es[k], es[k + 1..], template);
  }

  /** The loop over the sorted `expandee`: each entry's position is replaced by the instantiated template. */
  method SpliceExpansions(ops: seq<Operation>, expandee: seq<(nat, string)>, config: ConcretePlatformConfig)
    returns (operations: seq<Operation>)
    requires DescendingWithin(expandee, |ops|)
    ensures operations == SpliceAll(ops, expandee, config.packageInstall)
  {
    operations := ops;
    for k := 0 to |expandee|
      invariant DescendingWithin(expandee[k..], |operations|)
      invariant SpliceAll(operations, expandee[k..], config.packageInstall)
                == SpliceAll(ops, expandee, config.packageInstall)
    {
      var (i, packageName) := expandee[k];
      var replacement := ConstructPackageInstallOperations(config, packageName);
      SpliceStep(operations, expandee, k, config.packageInstall);
      operations := operations[..i] + replacement + operations[i + 1..];
    }
    assert expandee[|expandee|..] == [];
  }

  /** Lines 29-47 of `Schema::expand`, for one concrete recipe. */
  method ExpandConcreteRecipe(platformConfig: map<string, PlatformConfig>, platform: string, recipe: ConcreteRecipe)
    returns (r: Result<ConcreteRecipe, SchemaError>)
    ensures r == RecipeExpansion(platformConfig, platform, recipe)
    ensures r.Err? <==> HasPackageInstall(recipe.operations) && ResolvePlatformConfig(platformConfig, platform).None?
    ensures r.Ok? ==> r.value.skipIf == recipe.skipIf
  {
    var expandee := FindExpandee(recipe);
    PositionsEmptyIffNoPackageInstall(recipe.operations);
    // The positions are strictly ascending, so sorting them by descending index reverses them.
    expandee := Reverse(expandee);

    if |expandee| == 0 {
      return Ok(recipe);
    }
    var resolved := ResolvePlatformConfig(platformConfig, platform);
    if resolved.None? {
      return Err(PlatformConfigNotFound);
    }
    var config := resolved.value;
    SpliceEqualsFlatExpand(recipe.operations, config.packageInstall);
    var operations := SpliceExpansions(recipe.operations, expandee, config);
    r := Ok(ConcreteRecipe(recipe.skipIf, operations));
  }

  /** Aliases are left as they are; a concrete recipe is expanded. */
  function PlatformRecipeExpansion(platformConfig: map<string, PlatformConfig>, platform: string, recipe: PlatformSpecificRecipe)
    : Result<PlatformSpecificRecipe, SchemaError>
  {
    match recipe
    case SameWith(_) => Ok(recipe)
    case Concrete(c) =>
      match RecipeExpansion(platformConfig, platform, c)
      case Ok(e) => Ok(Concrete(e))
      case Err(err) => Err(err)
  }

  predicate ApplicationExpands(platformConfig: map<string, PlatformConfig>, app: Application) {
    forall p :: p in app.recipe ==> PlatformRecipeExpansion(platformConfig, p, app.recipe[p]).Ok?
  }

  function ExpandedApplication(platformConfig: map<string, PlatformConfig>, app: Application): Application
    requires ApplicationExpands(platformConfig, app)
  {
    app.(recipe := map p | p in app.recipe :: PlatformRecipeExpansion(platformConfig, p, app.recipe[p]).value)
  }

  /**
   * What an interrupted `expand` leaves of an application: the name and the
   * platform keys, and each recipe either untouched or already expanded.
   */
  predicate PartlyExpanded(platformConfig: map<string, PlatformConfig>, before: Application, after: Application) {
    && after.name == before.name
    && after.recipe.Keys == before.recipe.Keys
    && forall p :: p in before.recipe ==>
         after.recipe[p] == before.recipe[p] ||
         (PlatformRecipeExpansion(platformConfig, p, before.recipe[p]).Ok? &&
          after.recipe[p] == PlatformRecipeExpansion(platformConfig, p, before.recipe[p]).value)
  }

  /**
   * `expand` stopped at application `f`: the ones before it are expanded, the
   * one at `f` cannot be and is partly expanded, and the ones after it are
   * untouched.
   */
  predicate StoppedAt(platformConfig: map<string, PlatformConfig>, before: seq<Application>, after: seq<Application>, f: nat) {
    && |after| == |before|
    && f < |before|
    && (forall b :: 0 <= b < f ==>
          ApplicationExpands(platformConfig, before[b]) && after[b] == ExpandedApplication(platformConfig, before[b]))
    && !ApplicationExpands(platformConfig, before[f])
    && PartlyExpanded(platformConfig, before[f], after[f])
    && (forall b :: f < b < |before| ==> after[b] == before[b])
  }

  /**
   * What `expand` does to one recipe of an application: the name stays, an
   * alias stays as it is, and a concrete recipe keeps its `skip_if` and gets
   * the left-to-right expansion of its operations.
   */
  lemma ExpandedRecipe(platformConfig: map<string, PlatformConfig>, app: Application, p: string)
    requires ApplicationExpands(platformConfig, app) && p in app.recipe
    ensures ExpandedApplication(platformConfig, app).name == app.name
    ensures ExpandedApplication(platformConfig, app).recipe.Keys == app.recipe.Keys
    ensures app.recipe[p].SameWith? ==> ExpandedApplication(platformConfig, app).recipe[p] == app.recipe[p]
    ensures app.recipe[p].Concrete? ==>
              var c := app.recipe[p].value;
              var e := ExpandedApplication(platformConfig, app).recipe[p];
              && e.Concrete?
              && e.value.skipIf == c.skipIf
              && (!HasPackageInstall(c.operations) ==> e.value.operations == c.operations)
              && (HasPackageInstall(c.operations) ==>
                    && ResolvePlatformConfig(platformConfig, p).Some?
                    && e.value.operations == FlatExpand(c.operations, ResolvePlatformConfig(platformConfig, p).value.packageInstall))
  {
    assert PlatformRecipeExpansion(platformConfig, p, app.recipe[p]).Ok?;
  }

  /** Resolution only ever yields an entry of the map. */
  lemma {:induction false} ResolveFromIsAnEntry<T>(m: map<string, Aliased<T>>, key: string, visited: set<string>)
    returns (k: string)
    requires ResolveFrom(m, key, visited).Some?
    ensures k in m && m[k] == Concrete(ResolveFrom(m, key, visited).value)
    decreases m.Keys - visited
  {
    match m[key]
    case Concrete(_) =>
      k := key;
    case SameWith(next) =>
      k := ResolveFromIsAnEntry(m, next, visited + {key});
  }

  /** Every package-install template the configuration resolves to is free of `PackageInstall`. */
  predicate TemplatesExpanded(platformConfig: map<string, PlatformConfig>) {
    forall p :: p in platformConfig && ResolvePlatformConfig(platformConfig, p).Some? ==>
      !HasPackageInstall(ResolvePlatformConfig(platformConfig, p).value.packageInstall)
  }

  /**
   * After expansion with `PackageInstall`-free templates, whatever recipe an
   * application resolves to for any platform has nothing left to expand.
   */
  lemma ExpandedRecipeHasNoPackageInstall(platformConfig: map<string, PlatformConfig>, app: Application, platform: string)
    requires ApplicationExpands(platformConfig, app) && TemplatesExpanded(platformConfig)
    requires ResolveRecipe(ExpandedApplication(platformConfig, app), platform).Some?
    ensures !HasPackageInstall(ResolveRecipe(ExpandedApplication(platformConfig, app), platform).value.operations)
  {
    var e := ExpandedApplication(platformConfig, app);
    var k := ResolveFromIsAnEntry(e.recipe, platform, {});
    ExpandedRecipe(platformConfig, app, k);
    var c := app.recipe[k].value;
    if HasPackageInstall(c.operations) {
      ExpansionRemovesPackageInstalls(c.operations, ResolvePlatformConfig(platformConfig, k).value.packageInstall);
    }
  }

  /** The whole configuration document; `expand` rewrites its applications in place. */
  class Schema {
    var platformConfig: map<string, PlatformConfig>
    var application: seq<Application>

    constructor (platformConfig: map<string, PlatformConfig>, application: seq<Application>)
      ensures this.platformConfig == platformConfig && this.application == application
    {
      this.platformConfig := platformConfig;
      this.application := application;
    }

    /**
     * `Schema::expand`. The recipes of one application are visited in an
     * unspecified order (the source iterates a `HashMap`); the first recipe
     * that cannot be expanded ends the pass with `PlatformConfigNotFound`,
     * leaving the recipes expanded so far as they are.
     */
    method Expand() returns (r: Result<(), SchemaError>)
      modifies this
      ensures platformConfig == old(platformConfig)
      ensures |application| == |old(application)|
      ensures r.Ok? <==> forall a :: 0 <= a < |old(application)| ==> ApplicationExpands(platformConfig, old(application)[a])
      ensures r.Ok? ==> forall a :: 0 <= a < |application| ==>
                ApplicationExpands(platformConfig, old(application)[a]) &&
                application[a] == ExpandedApplication(platformConfig, old(application)[a])
      ensures r.Err? ==> r.error == PlatformConfigNotFound
      ensures r.Err? ==> exists f :: StoppedAt(platformConfig, old(application), application, f)
      ensures forall a :: 0 <= a < |application| ==> PartlyExpanded(platformConfig, old(application)[a], application[a])
    {
      var a := 0;
      while a < |application|
        invariant 0 <= a <= |application| == |old(application)|
        invariant platformConfig == old(platformConfig)
        invariant forall b :: 0 <= b < a ==>
                    ApplicationExpands(platformConfig, old(application)[b]) &&
                    application[b] == ExpandedApplication(platformConfig, old(application)[b])
        invariant forall b :: a <= b < |application| ==> application[b] == old(application)[b]
        decreases |application| - a
      {
        var app := application[a];
        var recipes, expanded := ExpandRecipes(platformConfig, app);
        application := application[a := app.(recipe := recipes)];
        if expanded.Err? {
          assert StoppedAt(platformConfig, old(application), application, a);
          return expanded;
        }
        a := a + 1;
      }
      r := Ok(());
    }
  }

  /**
   * The inner loop of `Schema::expand` over the recipes of one application,
   * in an unspecified order. On an error the recipes visited before it are
   * expanded and the others are as they were.
   */
  method ExpandRecipes(platformConfig: map<string, PlatformConfig>, app: Application)
    returns (recipes: map<string, PlatformSpecificRecipe>, r: Result<(), SchemaError>)
    ensures recipes.Keys == app.recipe.Keys
    ensures r.Ok? <==> ApplicationExpands(platformConfig, app)
    ensures r.Ok? ==> recipes == ExpandedApplication(platformConfig, app).recipe
    ensures r.Err? ==> r.error == PlatformConfigNotFound
    ensures forall p :: p in app.recipe ==>
              recipes[p] == app.recipe[p] ||
              (PlatformRecipeExpansion(platformConfig, p, app.recipe[p]).Ok? &&
               recipes[p] == PlatformRecipeExpansion(platformConfig, p, app.recipe[p]).value)
  {
    recipes := app.recipe;
    var pending := recipes.Keys;
    while pending != {}
      invariant pending <= app.recipe.Keys
      invariant recipes.Keys == app.recipe.Keys
      invariant forall p :: p in app.recipe && p !in pending ==>
                  PlatformRecipeExpansion(platformConfig, p, app.recipe[p]).Ok? &&
                  recipes[p] == PlatformRecipeExpansion(platformConfig, p, app.recipe[p]).value
      invariant forall p :: p in pending ==> recipes[p] == app.recipe[p]
      decreases pending
    {
      var platform :| platform in pending;
      match recipes[platform] {
        case Concrete(concrete) =>
          var expanded := ExpandConcreteRecipe(platformConfig, platform, concrete);
          if expanded.Err? {
            return recipes, Err(expanded.error);
          }
          recipes := recipes[platform := Concrete(expanded.value)];
        case SameWith(_) =>
      }
      pending := pending - {platform};
    }
    assert ApplicationExpands(platformConfig, app);
    r := Ok(());
  }
}
