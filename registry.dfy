/**
 * The dependency registry the resolver keeps: pubgrub's `OfflineDependencyProvider`
 * as seen from this repository, a table from a package at a version to the
 * dependencies registered for it. Registering a package at a version again
 * replaces what was registered before; that is the contract the library states
 * for `add_dependencies`, and it is taken as given here rather than derived.
 */
module Registry {
  import opened Wrappers
  import opened Semver
  import opened Ranges
  import opened Packages

  /** One edge: a package and the range of its versions that is acceptable. */
  datatype Dependency = Dependency(package: Package, range: Range)

  datatype Provider = Provider(entries: map<(Package, Version), seq<Dependency>>)

  /** `OfflineDependencyProvider::new`: nothing registered. */
  function Empty(): (p: Provider)
    ensures forall package, version :: Lookup(p, package, version) == None
  {
    Provider(map[])
  }

  /** What is registered for `package` at `version`, if anything. */
  function Lookup(p: Provider, package: Package, version: Version): Option<seq<Dependency>>
  {
    if (package, version) in p.entries then Some(p.entries[(package, version)]) else None
  }

  /**
   * `add_dependencies`: afterwards `package` at `version` has exactly `deps`, and
   * every other package and version reads as before.
   */
  function AddDependencies(p: Provider, package: Package, version: Version, deps: seq<Dependency>): (q: Provider)
    ensures Lookup(q, package, version) == Some(deps)
    ensures forall other, v :: (other, v) != (package, version) ==> Lookup(q, other, v) == Lookup(p, other, v)
  {
    Provider(p.entries[(package, version) := deps])
  }

  /** Registering the same package and version twice keeps only the second list. */
  lemma AddReplaces(p: Provider, package: Package, version: Version, first: seq<Dependency>, second: seq<Dependency>)
    ensures AddDependencies(AddDependencies(p, package, version, first), package, version, second)
         == AddDependencies(p, package, version, second)
  {
    var a := AddDependencies(AddDependencies(p, package, version, first), package, version, second);
    var b := AddDependencies(p, package, version, second);
    assert a.entries == b.entries;
  }

  /** Registrations of different packages or versions do not interfere, in either order. */
  lemma AddCommutes(p: Provider, k1: (Package, Version), d1: seq<Dependency>, k2: (Package, Version), d2: seq<Dependency>)
    requires k1 != k2
    ensures AddDependencies(AddDependencies(p, k1.0, k1.1, d1), k2.0, k2.1, d2)
         == AddDependencies(AddDependencies(p, k2.0, k2.1, d2), k1.0, k1.1, d1)
  {
    var a := AddDependencies(AddDependencies(p, k1.0, k1.1, d1), k2.0, k2.1, d2);
    var b := AddDependencies(AddDependencies(p, k2.0, k2.1, d2), k1.0, k1.1, d1);
    assert a.entries == b.entries;
  }
}
