/** `Resolver`'s behaviour on the inputs of its Python tests that do not depend on the solver. */
module ResolverExamples {
  import opened Wrappers
  import opened Semver
  import opened Packages
  import opened Constraint
  import opened ConstraintExamples
  import opened Registry
  import opened Resolution

  /** `add_package("standalone", "1.0.0")` registers the package with no dependencies. */
  lemma StandaloneExample(p: Provider)
    ensures var r := Registered(p, "standalone", "1.0.0", None);
      r.Ok? && Lookup(r.value, FromStr("standalone"), Version(1, 0, 0)) == Some([])
  {
    ParseVersionExample();
    RegisteredMeaning(p, "standalone", "1.0.0", None);
  }

  /** `add_package("pkg", "not-a-version", {})` raises a `ValueError` matching "Invalid version". */
  lemma NotAVersionExample(p: Provider)
    ensures var r := Registered(p, "pkg", "not-a-version", Some([]));
      r.Err? && r.error.ValueError? && "Invalid version" <= r.error.message
  {
    assert ParseVersion("not-a-version").Err?;
    RegisteredMeaning(p, "pkg", "not-a-version", Some([]));
  }

  /** `resolve({"pkg": ">>invalid<<"})` raises a `ValueError` matching "Invalid", whatever the solver. */
  lemma MalformedRequirementExample(p: Provider, solve: Solver)
    ensures var r := Resolved(p, [("pkg", ">>invalid<<")], solve);
      r.Err? && r.error.ValueError? && "Invalid" <= r.error.message
  {
    MalformedExample();
    var table: Table := [("pkg", ">>invalid<<")];
    assert ConstraintOf(table[0].1).Err?;
    RequirementsRejected(p, table, solve, solve);
  }
}
