/**
 * The Python function `resolve(requirements, available)`: a fresh `Resolver`,
 * every version of every available package registered in the order the
 * dictionaries are iterated, then one resolution of the requirements.
 */
module PythonResolve {
  import opened Wrappers
  import opened Semver
  import opened Packages
  import opened Constraint
  import opened Registry
  import opened Resolution

  /** `{version: {dependency: constraint}}`, in iteration order. */
  type Versions = seq<(string, Table)>

  /** `{package: {version: {dependency: constraint}}}`, in iteration order. */
  type Available = seq<(string, Versions)>

  /** One call of `add_package`. */
  datatype Registration = Registration(name: string, version: string, dependencies: Table)

  /** Two registrations are for the same package at the same version text. */
  predicate SameKey(a: Registration, b: Registration)
  {
    a.name == b.name && a.version == b.version
  }

  /** The calls the inner loop makes for one package. */
  function VersionsOf(name: string, versions: Versions): (r: seq<Registration>)
    ensures |r| == |versions|
    ensures forall j :: 0 <= j < |versions| ==> r[j] == Registration(name, versions[j].0, versions[j].1)
  {
    if versions == [] then []
    else [Registration(name, versions[0].0, versions[0].1)] + VersionsOf(name, versions[1..])
  }

  /** The calls both loops make, in order. */
  function Registrations(available: Available): seq<Registration>
  {
    if available == [] then []
    else VersionsOf(available[0].0, available[0].1) + Registrations(available[1..])
  }

  /** The registry after the calls `regs`, starting from `p`, or the first call's error. */
  function RegisterAll(p: Provider, regs: seq<Registration>): Result<Provider, PyError>
    decreases |regs|
  {
    if regs == [] then Ok(p)
    else
      var q :- Registered(p, regs[0].name, regs[0].version, Some(regs[0].dependencies));
      RegisterAll(q, regs[1..])
  }

  /** What `resolve` returns or raises. */
  function ResolveAll(requirements: Table, available: Available, solve: Solver): Result<map<string, string>, PyError>
  {
    var p :- RegisterAll(Registry.Empty(), Registrations(available));
    Resolved(p, requirements, solve)
  }

  // ---------------------------------------------------------------------
  // Unfolding the registrations one call at a time

  lemma RegisterFirst(p: Provider, x: Registration, rest: seq<Registration>)
    ensures RegisterAll(p, [x] + rest) ==
      var q := Registered(p, x.name, x.version, Some(x.dependencies));
      if q.Err? then Err(q.error) else RegisterAll(q.value, rest)
  {
    assert ([x] + rest)[1..] == rest;
  }

  lemma VersionsFrom(name: string, versions: Versions, j: nat)
    requires j < |versions|
    ensures VersionsOf(name, versions[j..])
         == [Registration(name, versions[j].0, versions[j].1)] + VersionsOf(name, versions[j + 1..])
  {
    var a := VersionsOf(name, versions[j..]);
    var b := [Registration(name, versions[j].0, versions[j].1)] + VersionsOf(name, versions[j + 1..]);
    assert |a| == |b|;
    forall k | 0 <= k < |a|
      ensures a[k] == b[k]
    {
      if k > 0 {
        assert versions[j..][k] == versions[j + 1..][k - 1];
      }
    }
  }

  lemma RegistrationsFrom(available: Available, i: nat)
    requires i < |available|
    ensures Registrations(available[i..])
         == VersionsOf(available[i].0, available[i].1) + Registrations(available[i + 1..])
  {
    assert available[i..][1..] == available[i + 1..];
  }

  lemma AppendAfterFirst(x: Registration, v: seq<Registration>, later: seq<Registration>)
    ensures ([x] + v) + later == [x] + (v + later)
  {
  }

  // ---------------------------------------------------------------------
  // The function

  method Resolve(requirements: Table, available: Available, solve: Solver) returns (r: Result<map<string, string>, PyError>)
    ensures r == ResolveAll(requirements, available, solve)
  {
    var resolver := new Resolver();
    ghost var all := RegisterAll(Registry.Empty(), Registrations(available));
    assert available[0..] == available;
    for i := 0 to |available|
      invariant all == RegisterAll(resolver.provider, Registrations(available[i..]))
    {
      var (package, versions) := available[i];
      RegistrationsFrom(available, i);
      ghost var later := Registrations(available[i + 1..]);
      assert versions[0..] == versions;
      for j := 0 to |versions|
        invariant all == RegisterAll(resolver.provider, VersionsOf(package, versions[j..]) + later)
      {
        var (version, dependencies) := versions[j];
        VersionsFrom(package, versions, j);
        ghost var x := Registration(package, version, dependencies);
        AppendAfterFirst(x, VersionsOf(package, versions[j + 1..]), later);
        RegisterFirst(resolver.provider, x, VersionsOf(package, versions[j + 1..]) + later);
        var added := resolver.AddPackage(package, version, Some(dependencies));
        if added.Err? {
          return Err(added.error);
        }
      }
      assert versions[|versions|..] == [];
      assert VersionsOf(package, []) + later == later;
    }
    assert available[|available|..] == [];
    r := resolver.Resolve(requirements, solve);
  }

  // ---------------------------------------------------------------------
  // What resolve promises

  /**
   * `available` as Python dictionaries make it: no package name twice, and no
   * version text twice for one package.
   */
  predicate DictShaped(available: Available)
  {
    && (forall i, j :: 0 <= i < j < |available| ==> available[i].0 != available[j].0)
    && (forall i, a, b :: 0 <= i < |available| && 0 <= a < b < |available[i].1| ==>
          available[i].1[a].0 != available[i].1[b].0)
  }

  /** Registering `a + b` is registering `a`, then `b`; an error in `a` stops there. */
  lemma {:induction false} RegisterConcat(p: Provider, a: seq<Registration>, b: seq<Registration>)
    ensures RegisterAll(p, a + b) ==
      var q := RegisterAll(p, a);
      if q.Err? then Err(q.error) else RegisterAll(q.value, b)
    decreases |a|
  {
    if a == [] {
      assert a + b == b;
    } else {
      var x := a[0];
      assert a == [x] + a[1..];
      assert a + b == [x] + (a[1..] + b);
      RegisterFirst(p, x, a[1..]);
      RegisterFirst(p, x, a[1..] + b);
      var q := Registered(p, x.name, x.version, Some(x.dependencies));
      if q.Ok? {
        RegisterConcat(q.value, a[1..], b);
      }
    }
  }

  /** Every registration error is a `ValueError` naming a version that did not read. */
  lemma {:induction false} RegisterAllError(p: Provider, regs: seq<Registration>)
    requires RegisterAll(p, regs).Err?
    ensures RegisterAll(p, regs).error.ValueError?
    ensures "Invalid version '" <= RegisterAll(p, regs).error.message
    decreases |regs|
  {
    var x := regs[0];
    RegisteredMeaning(p, x.name, x.version, Some(x.dependencies));
    var q := Registered(p, x.name, x.version, Some(x.dependencies));
    if q.Ok? {
      RegisterAllError(q.value, regs[1..]);
    }
  }

  /**
   * Registrations for other package names or other version texts leave the
   * dependencies of `a`'s package at `a`'s version as they were.
   */
  lemma {:induction false} StaysRegistered(p: Provider, regs: seq<Registration>, a: Registration, v: Version)
    requires ParseVersion(a.version) == Ok(v)
    requires RegisterAll(p, regs).Ok?
    requires forall k :: 0 <= k < |regs| ==> !SameKey(regs[k], a)
    ensures Lookup(RegisterAll(p, regs).value, FromString(a.name), v) == Lookup(p, FromString(a.name), v)
    decreases |regs|
  {
    if regs != [] {
      var x := regs[0];
      RegisteredMeaning(p, x.name, x.version, Some(x.dependencies));
      var q := Registered(p, x.name, x.version, Some(x.dependencies)).value;
      var w := ParseVersion(x.version).value;
      if (FromString(x.name), w) == (FromString(a.name), v) {
        assert ToString(FromString(x.name)) == x.name;
        ParseVersionRoundTrip(x.version, w);
        ParseVersionRoundTrip(a.version, v);
        assert SameKey(x, a);
        assert false;
      }
      assert forall k :: 0 <= k < |regs| - 1 ==> regs[1..][k] == regs[k + 1];
      StaysRegistered(q, regs[1..], a, v);
    }
  }

  /**
   * A registration that no later one repeats is what the final registry holds:
   * its version and constraints read, and its package at that version has
   * exactly the listed dependencies.
   */
  lemma {:induction false} LastRegistrationHolds(p: Provider, regs: seq<Registration>, k: nat)
    requires RegisterAll(p, regs).Ok?
    requires k < |regs|
    requires forall m :: k < m < |regs| ==> !SameKey(regs[m], regs[k])
    ensures HoldsVersion(RegisterAll(p, regs).value, regs[k].name, (regs[k].version, regs[k].dependencies))
    decreases k
  {
    var x := regs[0];
    RegisteredMeaning(p, x.name, x.version, Some(x.dependencies));
    var q := Registered(p, x.name, x.version, Some(x.dependencies)).value;
    assert RegisterAll(p, regs) == RegisterAll(q, regs[1..]);
    assert forall m :: 0 <= m < |regs| - 1 ==> regs[1..][m] == regs[m + 1];
    if k == 0 {
      StaysRegistered(q, regs[1..], x, ParseVersion(x.version).value);
    } else {
      LastRegistrationHolds(q, regs[1..], k - 1);
      assert regs[1..][k - 1] == regs[k];
    }
  }

  /** Where a registration of the flattened list comes from. */
  lemma {:induction false} RegistrationSource(available: Available, k: nat) returns (i: nat, j: nat)
    requires k < |Registrations(available)|
    ensures i < |available| && j < |available[i].1|
    ensures Registrations(available)[k] == Registration(available[i].0, available[i].1[j].0, available[i].1[j].1)
  {
    var first := VersionsOf(available[0].0, available[0].1);
    if k < |first| {
      i, j := 0, k;
    } else {
      var i', j' := RegistrationSource(available[1..], k - |first|);
      i, j := i' + 1, j';
    }
  }

  lemma DictShapedTail(available: Available)
    requires DictShaped(available) && available != []
    ensures DictShaped(available[1..])
  {
    assert forall m :: 0 <= m < |available| - 1 ==> available[1..][m] == available[m + 1];
  }

  /** Version text `entry.0` of package `name` is registered in `q` with exactly the dependencies `entry.1` parses to. */
  predicate HoldsVersion(q: Provider, name: string, entry: (string, Table))
  {
    && ParseVersion(entry.0).Ok?
    && DependencyList(ConstraintOf, entry.1).Ok?
    && Lookup(q, FromString(name), ParseVersion(entry.0).value) == Some(DependencyList(ConstraintOf, entry.1).value)
  }

  /** The first package's versions survive the registrations of the other packages. */
  lemma FirstPackageRegistered(p: Provider, available: Available, j: nat)
    requires DictShaped(available)
    requires RegisterAll(p, Registrations(available)).Ok?
    requires available != [] && j < |available[0].1|
    ensures HoldsVersion(RegisterAll(p, Registrations(available)).value, available[0].0, available[0].1[j])
  {
    var (name, versions) := available[0];
    var first := VersionsOf(name, versions);
    var rest := Registrations(available[1..]);
    RegisterConcat(p, first, rest);
    var q := RegisterAll(p, first).value;
    LastRegistrationHolds(p, first, j);
    var x := first[j];
    forall k | 0 <= k < |rest|
      ensures !SameKey(rest[k], x)
    {
      var i', j' := RegistrationSource(available[1..], k);
      assert available[1..][i'].0 == available[i' + 1].0;
    }
    StaysRegistered(q, rest, x, ParseVersion(x.version).value);
  }

  /**
   * Registering the packages of a dictionary-shaped `available` on top of `p`
   * leaves every listed package at every listed version with exactly its listed
   * dependencies.
   */
  lemma {:induction false} EveryVersionRegistered(p: Provider, available: Available, i: nat, j: nat)
    requires DictShaped(available)
    requires RegisterAll(p, Registrations(available)).Ok?
    requires i < |available| && j < |available[i].1|
    ensures HoldsVersion(RegisterAll(p, Registrations(available)).value, available[i].0, available[i].1[j])
    decreases i
  {
    var (name, versions) := available[0];
    var first := VersionsOf(name, versions);
    var rest := Registrations(available[1..]);
    if i == 0 {
      FirstPackageRegistered(p, available, j);
    } else {
      assert Registrations(available) == first + rest;
      RegisterConcat(p, first, rest);
      var q := RegisterAll(p, first).value;
      DictShapedTail(available);
      assert available[1..][i - 1] == available[i];
      assert RegisterAll(p, Registrations(available)) == RegisterAll(q, Registrations(available[1..]));
      EveryVersionRegistered(q, available[1..], i - 1, j);
    }
  }

  /**
   * Whatever the registry holds after the registrations, some registration put
   * there (or it was there before).
   */
  lemma {:induction false} OnlyRegistered(p: Provider, regs: seq<Registration>, package: Package, v: Version)
    requires RegisterAll(p, regs).Ok?
    requires Lookup(RegisterAll(p, regs).value, package, v).Some?
    ensures Lookup(p, package, v).Some?
         || exists k :: 0 <= k < |regs| && FromString(regs[k].name) == package && ParseVersion(regs[k].version) == Ok(v)
    decreases |regs|
  {
    if regs != [] {
      var x := regs[0];
      RegisteredMeaning(p, x.name, x.version, Some(x.dependencies));
      var q := Registered(p, x.name, x.version, Some(x.dependencies)).value;
      OnlyRegistered(q, regs[1..], package, v);
      if exists k :: 0 <= k < |regs| - 1 && FromString(regs[1..][k].name) == package && ParseVersion(regs[1..][k].version) == Ok(v) {
        var k :| 0 <= k < |regs| - 1 && FromString(regs[1..][k].name) == package && ParseVersion(regs[1..][k].version) == Ok(v);
        assert regs[1..][k] == regs[k + 1];
      } else if !Lookup(p, package, v).Some? {
        assert FromString(regs[0].name) == package && ParseVersion(regs[0].version) == Ok(v);
      }
    }
  }

  /**
   * `resolve` registers every version of every available package, with exactly
   * its listed dependencies, and nothing else, then answers as `Resolver.resolve`
   * does on that registry.
   */
  lemma ResolveRegistersAvailable(requirements: Table, available: Available, solve: Solver)
    requires DictShaped(available)
    requires RegisterAll(Registry.Empty(), Registrations(available)).Ok?
    ensures var p := RegisterAll(Registry.Empty(), Registrations(available)).value;
      && ResolveAll(requirements, available, solve) == Resolved(p, requirements, solve)
      && (forall i, j :: 0 <= i < |available| && 0 <= j < |available[i].1| ==>
            && ParseVersion(available[i].1[j].0).Ok?
            && DependencyList(ConstraintOf, available[i].1[j].1).Ok?
            && Lookup(p, FromString(available[i].0), ParseVersion(available[i].1[j].0).value)
               == Some(DependencyList(ConstraintOf, available[i].1[j].1).value))
      && (forall package, v :: Lookup(p, package, v).Some? ==>
            exists i, j :: 0 <= i < |available| && 0 <= j < |available[i].1|
              && FromString(available[i].0) == package && ParseVersion(available[i].1[j].0) == Ok(v))
  {
    var regs := Registrations(available);
    var p := RegisterAll(Registry.Empty(), regs).value;
    forall i, j | 0 <= i < |available| && 0 <= j < |available[i].1|
      ensures && ParseVersion(available[i].1[j].0).Ok?
              && DependencyList(ConstraintOf, available[i].1[j].1).Ok?
              && Lookup(p, FromString(available[i].0), ParseVersion(available[i].1[j].0).value)
                 == Some(DependencyList(ConstraintOf, available[i].1[j].1).value)
    {
      EveryVersionRegistered(Registry.Empty(), available, i, j);
    }
    forall package, v | Lookup(p, package, v).Some?
      ensures exists i, j :: (0 <= i < |available| && 0 <= j < |available[i].1|
                && FromString(available[i].0) == package && ParseVersion(available[i].1[j].0) == Ok(v))
    {
      OnlyRegistered(Registry.Empty(), regs, package, v);
      var k :| 0 <= k < |regs| && FromString(regs[k].name) == package && ParseVersion(regs[k].version) == Ok(v);
      var i, j := RegistrationSource(available, k);
    }
  }

  /**
   * A package that cannot be registered stops `resolve` with that `ValueError`,
   * whatever the requirements and before the solver is consulted.
   */
  lemma RegistrationStops(requirements: Table, others: Table, available: Available, solve: Solver, other: Solver)
    requires RegisterAll(Registry.Empty(), Registrations(available)).Err?
    ensures ResolveAll(requirements, available, solve) == ResolveAll(others, available, other)
    ensures var r := ResolveAll(requirements, available, solve);
      r == Err(RegisterAll(Registry.Empty(), Registrations(available)).error)
      && r.error.ValueError? && "Invalid version '" <= r.error.message
  {
    RegisterAllError(Registry.Empty(), Registrations(available));
  }
}
