/** Package identifiers: a text, compared, hashed and displayed by that text. */
module Packages {

  datatype Package = Package(text: string)

  /** `From<&str>`. */
  function FromStr(s: string): (p: Package)
    ensures ToString(p) == s && Borrow(p) == s
  {
    Package(s)
  }

  /** `From<String>`: the same package as `From<&str>` of the same text. */
  function FromString(s: string): (p: Package)
    ensures p == FromStr(s)
  {
    Package(s)
  }

  /** `Display`. */
  function ToString(p: Package): string
  {
    p.text
  }

  /** `Borrow<str>`. */
  function Borrow(p: Package): string
  {
    p.text
  }

  /** Packages are equal exactly when their texts are. */
  lemma EqualByText(p: Package, q: Package)
    ensures p == q <==> ToString(p) == ToString(q)
  {
  }

  /** Looking up a package by its text finds the package with that text. */
  lemma LookupByText<V>(m: map<Package, V>, s: string)
    ensures FromStr(s) in m <==> exists p :: p in m && Borrow(p) == s
  {
    if p :| p in m && Borrow(p) == s {
      assert p == FromStr(s);
    }
  }
}
