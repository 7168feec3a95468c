/**
 * The `Resolver` class exposed to Python: a registry of packages that
 * `add_package` fills in, and `resolve`, which hands a copy of the registry
 * with a synthetic root package to the PubGrub solver and maps its answer to
 * a result or a Python exception.
 *
 * The solver (`pubgrub::resolve` together with `DefaultStringReporter`) is a
 * parameter: a function from the registry, the root package and its version to
 * one of three outcomes. Nothing is presumed about what it answers.
 */
module Resolution {
  import opened Wrappers
  import opened Semver
  import opened Errors
  import opened Packages
  import opened Constraint
  import opened Registry

  /** The exceptions Python sees: `ValueError`, and the module's own `ResolutionError`. */
  datatype PyError = ValueError(message: string) | ResolutionError(message: string)

  /** A Python `dict[str, str]` from package names to constraints, in iteration order. */
  type Table = seq<(string, string)>

  /** What the solver answers. */
  datatype SolverOutcome =
    | Solved(solution: map<Package, Version>)
    | NoSolution(report: string)         // the reporter's account of why nothing fits
    | Failed(description: string)        // the text of any other solver error

  type Solver = (Provider, Package, Version) -> SolverOutcome

  const RootName: string := "__root__"
  const RootVersion: Version := Version(0, 0, 0)

  /** The synthetic package whose dependencies are the requirements. */
  function Root(): Package
  {
    FromStr(RootName)
  }

  /** `.map_err(|e| PyValueError::new_err(e.to_string()))`. */
  function AsValueError<T>(r: Result<T, ResolverError>): (q: Result<T, PyError>)
    ensures r.Ok? ==> q == Ok(r.value)
    ensures r.Err? ==> q == Err(ValueError(Message(r.error)))
  {
    if r.Ok? then Ok(r.value) else Err(ValueError(Message(r.error)))
  }

  /** The message of the `ResolutionError` raised when nothing fits. */
  function NoSolutionMessage(report: string): string
  {
    "No solution found.\n\n" + report
  }

  /** The message keeps the report whole: different reports give different messages. */
  lemma NoSolutionReportKept(a: string, b: string)
    requires NoSolutionMessage(a) == NoSolutionMessage(b)
    ensures a == b
  {
    assert a == NoSolutionMessage(a)[20..];
    assert b == NoSolutionMessage(b)[20..];
  }

  // ---------------------------------------------------------------------
  // Specification

  /**
   * The dependency list built from a table, entry by entry, with `read` reading
   * each constraint; the first constraint that does not read is the error.
   */
  function DependencyList(read: ClauseParser, table: Table): (r: Result<seq<Dependency>, ResolverError>)
    ensures r.Ok? <==> forall i :: 0 <= i < |table| ==> read(table[i].1).Ok?
    ensures r.Ok? ==> |r.value| == |table|
    ensures r.Ok? ==> forall i :: 0 <= i < |table| ==>
      r.value[i] == Dependency(FromString(table[i].0), read(table[i].1).value)
  {
    if table == [] then Ok([])
    else
      var range :- read(table[0].1);
      var rest :- DependencyList(read, table[1..]);
      Ok([Dependency(FromString(table[0].0), range)] + rest)
  }

  /** A failing table fails with the error of its first constraint that does not read. */
  lemma {:induction false} DependencyListError(read: ClauseParser, table: Table) returns (i: nat)
    requires DependencyList(read, table).Err?
    ensures i < |table| && read(table[i].1) == Err(DependencyList(read, table).error)
    ensures forall j :: 0 <= j < i ==> read(table[j].1).Ok?
  {
    if read(table[0].1).Err? {
      i := 0;
    } else {
      var k := DependencyListError(read, table[1..]);
      i := k + 1;
    }
  }

  /** `r` with `deps` in front of its dependencies, if it has any. */
  function Preceded(deps: seq<Dependency>, r: Result<seq<Dependency>, ResolverError>): Result<seq<Dependency>, ResolverError>
  {
    if r.Ok? then Ok(deps + r.value) else Err(r.error)
  }

  lemma PrecededByNothing(r: Result<seq<Dependency>, ResolverError>)
    ensures Preceded([], r) == r
  {
    if r.Ok? {
      assert [] + r.value == r.value;
    }
  }

  lemma PrecededTwice(a: seq<Dependency>, b: seq<Dependency>, r: Result<seq<Dependency>, ResolverError>)
    ensures Preceded(a, Preceded(b, r)) == Preceded(a + b, r)
  {
    if r.Ok? {
      assert a + (b + r.value) == (a + b) + r.value;
    }
  }

  /** The list of a suffix of a table, one entry further on. */
  lemma DependencyListStep(read: ClauseParser, table: Table, i: nat)
    requires i < |table|
    ensures DependencyList(read, table[i..]) ==
      if read(table[i].1).Err? then Err(read(table[i].1).error)
      else Preceded([Dependency(FromString(table[i].0), read(table[i].1).value)], DependencyList(read, table[i + 1..]))
  {
    assert table[i..][1..] == table[i + 1..];
  }

  /** `add_package`'s effect: the registry it leaves, or the error it raises. */
  function Registered(p: Provider, name: string, version: string, dependencies: Option<Table>): Result<Provider, PyError>
  {
    var v :- AsValueError(ParseVersion(version));
    var deps :- AsValueError(if dependencies.Some? then DependencyList(ConstraintOf, dependencies.value) else Ok([]));
    Ok(AddDependencies(p, FromString(name), v, deps))
  }

  /** The versions of a solution, by package name, without the root. */
  function Stripped(solution: map<Package, Version>): (r: map<string, string>)
    ensures forall name :: name in r <==> name != RootName && FromStr(name) in solution
    ensures forall name :: name in r ==> r[name] == Format(solution[FromStr(name)])
  {
    map p | p in solution && ToString(p) != RootName :: ToString(p) := Format(solution[p])
  }

  /**
   * The registry the solver is given: a copy of `p` in which the root, at version
   * 0.0.0, depends on exactly `deps`; every other entry is as stored.
   */
  function WithRoot(p: Provider, deps: seq<Dependency>): (q: Provider)
    ensures Lookup(q, Root(), RootVersion) == Some(deps)
    ensures forall package, version :: (package, version) != (Root(), RootVersion) ==>
      Lookup(q, package, version) == Lookup(p, package, version)
  {
    AddDependencies(p, Root(), RootVersion, deps)
  }

  /** `resolve`'s answer for a registry, the requirements and the solver. */
  function Resolved(p: Provider, requirements: Table, solve: Solver): Result<map<string, string>, PyError>
  {
    var deps :- AsValueError(DependencyList(ConstraintOf, requirements));
    match solve(WithRoot(p, deps), Root(), RootVersion)
    case Solved(solution) => Ok(Stripped(solution))
    case NoSolution(report) => Err(ResolutionError(NoSolutionMessage(report)))
    case Failed(description) => Err(ValueError("Resolution error: " + description))
  }

  // ---------------------------------------------------------------------
  // What add_package and resolve promise

  /**
   * `add_package` succeeds exactly when the version and every constraint read;
   * then the package at that version has exactly the dependencies listed (none
   * when they are omitted) and nothing else changes. A failure is a `ValueError`
   * naming the version that did not read; the package's own version is read first.
   */
  lemma RegisteredMeaning(p: Provider, name: string, version: string, dependencies: Option<Table>)
    ensures var r, v := Registered(p, name, version, dependencies), ParseVersion(version);
      && (r.Ok? <==> v.Ok? && (dependencies.None? || DependencyList(ConstraintOf, dependencies.value).Ok?))
      && (r.Ok? ==> Lookup(r.value, FromString(name), v.value)
                    == Some(if dependencies.None? then [] else DependencyList(ConstraintOf, dependencies.value).value))
      && (r.Ok? ==> forall package, w :: (package, w) != (FromString(name), v.value) ==>
                    Lookup(r.value, package, w) == Lookup(p, package, w))
      && (v.Err? ==> r == Err(ValueError(Message(v.error))))
      && (r.Err? ==> r.error.ValueError? && "Invalid version '" <= r.error.message)
  {
    var r, v := Registered(p, name, version, dependencies), ParseVersion(version);
    if v.Err? {
      MessageTellsKind(v.error);
    } else if r.Err? {
      var e := DependencyList(ConstraintOf, dependencies.value).error;
      var i := DependencyListError(ConstraintOf, dependencies.value);
      var k := ConstraintError(dependencies.value[i].1);
      MessageTellsKind(e);
    }
  }

  /** Leaving the dependencies out is the same as giving an empty table. */
  lemma OmittedDependencies(p: Provider, name: string, version: string)
    ensures Registered(p, name, version, None) == Registered(p, name, version, Some([]))
  {
  }

  /** Registering a package at a version again replaces what it had. */
  lemma RegisteredAgain(p: Provider, name: string, version: string, first: Option<Table>, second: Option<Table>)
    requires Registered(p, name, version, first).Ok?
    ensures Registered(Registered(p, name, version, first).value, name, version, second)
         == Registered(p, name, version, second)
  {
    var v := ParseVersion(version).value;
    var q := Registered(p, name, version, first).value;
    var deps := if second.Some? then DependencyList(ConstraintOf, second.value) else Ok([]);
    if deps.Ok? {
      var d1 := if first.Some? then DependencyList(ConstraintOf, first.value).value else [];
      AddReplaces(p, FromString(name), v, d1, deps.value);
    }
  }

  /**
   * Requirements that do not read give a `ValueError` naming the version, and
   * the solver is never consulted: any two solvers give the same answer.
   */
  lemma RequirementsRejected(p: Provider, requirements: Table, solve: Solver, other: Solver)
    requires DependencyList(ConstraintOf, requirements).Err?
    ensures Resolved(p, requirements, solve) == Resolved(p, requirements, other)
    ensures var r := Resolved(p, requirements, solve);
      r.Err? && r.error.ValueError? && "Invalid version '" <= r.error.message
  {
    var e := DependencyList(ConstraintOf, requirements).error;
    var i := DependencyListError(ConstraintOf, requirements);
    var k := ConstraintError(requirements[i].1);
    MessageTellsKind(e);
  }

  /**
   * Once the requirements read, the answer follows the solver's outcome on the
   * registry with the root added: a solution gives the versions by name without
   * the root, no solution gives a `ResolutionError` carrying the report after a
   * fixed heading, and any other failure a `ValueError` carrying its description.
   */
  lemma ResolvedOutcome(p: Provider, requirements: Table, solve: Solver)
    requires DependencyList(ConstraintOf, requirements).Ok?
    ensures var r := Resolved(p, requirements, solve);
      var outcome := solve(WithRoot(p, DependencyList(ConstraintOf, requirements).value), Root(), RootVersion);
      && (r.Ok? <==> outcome.Solved?)
      && (r.Ok? ==> RootName !in r.value
                    && forall name :: name in r.value ==>
                         FromStr(name) in outcome.solution
                         && ParseVersion(r.value[name]) == Ok(outcome.solution[FromStr(name)]))
      && (outcome.Solved? ==> forall package :: package in outcome.solution && package != Root() ==>
                                ToString(package) in r.value)
      && (r.Err? && r.error.ResolutionError? <==> outcome.NoSolution?)
      && (outcome.NoSolution? ==> r.error.message[..20] == "No solution found.\n\n"
                                  && r.error.message[20..] == outcome.report)
      && (outcome.Failed? ==> r == Err(ValueError("Resolution error: " + outcome.description)))
  {
    var deps := DependencyList(ConstraintOf, requirements).value;
    var outcome := solve(WithRoot(p, deps), Root(), RootVersion);
    if outcome.Solved? {
      StrippedParsesBack(outcome.solution);
    } else if outcome.NoSolution? {
      var m := NoSolutionMessage(outcome.report);
      assert m[..20] == "No solution found.\n\n";
      assert m[20..] == outcome.report;
    }
  }

  /** Every version in a stripped solution reads back as the version the solver chose. */
  lemma StrippedParsesBack(solution: map<Package, Version>)
    ensures var r := Stripped(solution);
      && RootName !in r
      && (forall package :: package in solution && package != Root() ==> ToString(package) in r)
      && forall name :: name in r ==> ParseVersion(r[name]) == Ok(solution[FromStr(name)])
  {
    var r := Stripped(solution);
    forall name | name in r
      ensures ParseVersion(r[name]) == Ok(solution[FromStr(name)])
    {
      ParseVersionRoundTrip(r[name], solution[FromStr(name)]);
    }
    forall package | package in solution && package != Root()
      ensures ToString(package) in r
    {
      assert FromStr(ToString(package)) == package;
    }
  }

  // ---------------------------------------------------------------------
  // The class

  /** Reads a name -> constraint table into dependencies (the loops of `add_package` and `resolve`). */
  method ParseDependencies(table: Table) returns (r: Result<seq<Dependency>, ResolverError>)
    ensures r == DependencyList(ConstraintOf, table)
  {
    var deps: seq<Dependency> := [];
    assert table[0..] == table;
    PrecededByNothing(DependencyList(ConstraintOf, table));
    for i := 0 to |table|
      invariant DependencyList(ConstraintOf, table) == Preceded(deps, DependencyList(ConstraintOf, table[i..]))
    {
      var (name, constraint) := table[i];
      var range := ParseConstraint(constraint);
      DependencyListStep(ConstraintOf, table, i);
      if range.Err? {
        return Err(range.error);
      }
      var edge := Dependency(FromString(name), range.value);
      PrecededTwice(deps, [edge], DependencyList(ConstraintOf, table[i + 1..]));
      deps := deps + [edge];
    }
    assert table[|table|..] == [];
    assert deps + [] == deps;
    return Ok(deps);
  }

  /** Fills in the versions of a solution by name, leaving out the root (the loop at the end of `resolve`). */
  method StripRoot(solution: map<Package, Version>) returns (result: map<string, string>)
    ensures result == Stripped(solution)
  {
    result := map[];
    var remaining := solution.Keys;
    while remaining != {}
      invariant remaining <= solution.Keys
      invariant forall name :: name in result <==>
        name != RootName && FromStr(name) in solution && FromStr(name) !in remaining
      invariant forall name :: name in result ==> result[name] == Format(solution[FromStr(name)])
      decreases remaining
    {
      var p :| p in remaining;
      var name := ToString(p);
      assert FromStr(name) == p;
      if name != RootName {
        result := result[name := Format(solution[p])];
      }
      remaining := remaining - {p};
    }
    var s := Stripped(solution);
    assert result.Keys == s.Keys;
  }

  class Resolver {
    var provider: Provider

    /** `Resolver()`: an empty registry. */
    constructor ()
      ensures provider == Registry.Empty()
    {
      provider := Registry.Empty();
    }

    /**
     * `add_package`: parses the version and every dependency first, and only then
     * registers them; on an error nothing is registered.
     */
    method AddPackage(name: string, version: string, dependencies: Option<Table>) returns (r: Result<(), PyError>)
      modifies this
      ensures var spec := Registered(old(provider), name, version, dependencies);
        && (r.Err? <==> spec.Err?)
        && (spec.Err? ==> r.error == spec.error && provider == old(provider))
        && (spec.Ok? ==> provider == spec.value)
    {
      var package := FromString(name);
      var parsed := ParseVersion(version);
      if parsed.Err? {
        return Err(ValueError(Message(parsed.error)));
      }
      var deps: seq<Dependency> := [];
      if dependencies.Some? {
        var list := ParseDependencies(dependencies.value);
        if list.Err? {
          return Err(ValueError(Message(list.error)));
        }
        deps := list.value;
      }
      provider := AddDependencies(provider, package, parsed.value, deps);
      return Ok(());
    }

    /**
     * `resolve`: the registry itself is left alone; the root goes into a copy,
     * which is what the solver sees.
     */
    method Resolve(requirements: Table, solve: Solver) returns (r: Result<map<string, string>, PyError>)
      ensures r == Resolved(provider, requirements, solve)
    {
      var root := FromStr(RootName);
      var list := ParseDependencies(requirements);
      if list.Err? {
        return Err(ValueError(Message(list.error)));
      }
      var copy := provider;
      copy := AddDependencies(copy, root, RootVersion, list.value);
      assert copy == WithRoot(provider, list.value);
      var outcome := solve(copy, root, RootVersion);
      match outcome
      case Solved(solution) =>
        var result := StripRoot(solution);
        r := Ok(result);
      case NoSolution(report) =>
        r := Err(ResolutionError(NoSolutionMessage(report)));
      case Failed(description) =>
        r := Err(ValueError("Resolution error: " + description));
    }
  }
}
