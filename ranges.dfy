/**
 * Version ranges, by membership: the constructors and set operations of
 * pubgrub's `Ranges<Version>` that the constraint parser uses, and what
 * each one contains.
 */
module Ranges {
  import opened Semver

  datatype Range =
    | Full
    | Singleton(v: Version)
    | HigherThan(lo: Version)                 // every version >= lo
    | StrictlyLowerThan(hi: Version)          // every version < hi
    | Between(lo: Version, hi: Version)       // lo <= version < hi
    | Union(left: Range, right: Range)
    | Intersection(left: Range, right: Range)

  predicate Contains(r: Range, w: Version)
  {
    match r
    case Full => true
    case Singleton(v) => w == v
    case HigherThan(lo) => Le(lo, w)
    case StrictlyLowerThan(hi) => Lt(w, hi)
    case Between(lo, hi) => Le(lo, w) && Lt(w, hi)
    case Union(a, b) => Contains(a, w) || Contains(b, w)
    case Intersection(a, b) => Contains(a, w) && Contains(b, w)
  }
}
