/**
 * Versions as the resolver uses them: `major.minor.patch` triples ordered
 * lexicographically, read and written in the numeric core of the SemVer 2.0.0
 * syntax (section 2: three non-negative integers without leading zeroes,
 * separated by dots). Reading follows the semver crate's parser: the same
 * error kinds, reported at the same positions, except on texts with a `-` or
 * `+` after the patch number, where the crate reads a pre-release or build
 * suffix, and on numbers above 18446744073709551615, which the crate rejects
 * as out of range for `u64` and the model accepts.
 */
module Semver {
  import opened Wrappers

  datatype Version = Version(major: nat, minor: nat, patch: nat)

  /** Lexicographic order on (major, minor, patch). */
  predicate Le(a: Version, b: Version)
  {
    a.major < b.major
    || (a.major == b.major && (a.minor < b.minor || (a.minor == b.minor && a.patch <= b.patch)))
  }

  predicate Lt(a: Version, b: Version)
  {
    Le(a, b) && a != b
  }

  /** `Le` is a total order, and `Lt` is its strict part: `a < b` exactly when not `b <= a`. */
  lemma VersionOrder(a: Version, b: Version, c: Version)
    ensures Le(a, a)
    ensures Le(a, b) && Le(b, a) ==> a == b
    ensures Le(a, b) && Le(b, c) ==> Le(a, c)
    ensures Le(a, b) || Le(b, a)
    ensures Lt(a, b) <==> !Le(b, a)
  {
  }

  /** Which number of the triple was being read when an error occurred. */
  datatype Position = Major | Minor | Patch

  /**
   * The semver crate's error kinds that the numeric grammar can raise, except
   * `Overflow`, which the crate reports for a number above 18446744073709551615.
   */
  datatype Error =
    | Empty
    | UnexpectedEnd(pos: Position)
    | UnexpectedChar(pos: Position, c: char)
    | UnexpectedCharAfter(pos: Position, c: char)
    | LeadingZero(pos: Position)

  predicate IsDigit(c: char)
  {
    '0' <= c <= '9'
  }

  predicate AllDigits(s: string)
  {
    forall i :: 0 <= i < |s| ==> IsDigit(s[i])
  }

  function DigitValue(c: char): (d: nat)
    requires IsDigit(c)
    ensures d < 10
  {
    c as int - '0' as int
  }

  function DigitChar(d: nat): (c: char)
    requires d < 10
    ensures IsDigit(c) && DigitValue(c) == d
  {
    ('0' as int + d) as char
  }

  /** Length of the run of decimal digits at the start of `s`. */
  function DigitRun(s: string): (n: nat)
    ensures n <= |s| && AllDigits(s[..n]) && (n == |s| || !IsDigit(s[n]))
  {
    if s != [] && IsDigit(s[0]) then 1 + DigitRun(s[1..]) else 0
  }

  /** The number a string of decimal digits denotes. */
  function DecimalValue(d: string): nat
    requires AllDigits(d)
  {
    if d == [] then 0 else 10 * DecimalValue(d[..|d| - 1]) + DigitValue(d[|d| - 1])
  }

  /** A number read from the front of the input, and the input left after it. */
  datatype Scanned = Scanned(value: nat, rest: string)

  /** The crate's `numeric_identifier`: digits, no leading zero unless the number is 0. */
  function NumericIdentifier(s: string, pos: Position): Result<Scanned, Error>
  {
    var n := DigitRun(s);
    if n == 0 then
      if s == [] then Err(UnexpectedEnd(pos)) else Err(UnexpectedChar(pos, s[0]))
    else if s[0] == '0' && n > 1 then Err(LeadingZero(pos))
    else Ok(Scanned(DecimalValue(s[..n]), s[n..]))
  }

  /** The crate's `dot`: the separator after the number at `pos`. */
  function Dot(s: string, pos: Position): Result<string, Error>
  {
    if s == [] then Err(UnexpectedEnd(pos))
    else if s[0] == '.' then Ok(s[1..])
    else Err(UnexpectedCharAfter(pos, s[0]))
  }

  /**
   * For numbers up to 18446744073709551615, the crate's numeric identifier
   * fails exactly on an empty input, a non-digit, or a zero followed by another
   * digit, and with that error.
   */
  lemma ScanFailure(s: string, pos: Position)
    ensures NumericIdentifier(s, pos).Err?
        <==> s == [] || !IsDigit(s[0]) || (s[0] == '0' && |s| > 1 && IsDigit(s[1]))
    ensures NumericIdentifier(s, pos).Err? ==>
      NumericIdentifier(s, pos).error
      == (if s == [] then UnexpectedEnd(pos) else if !IsDigit(s[0]) then UnexpectedChar(pos, s[0]) else LeadingZero(pos))
  {
    if s != [] && IsDigit(s[0]) {
      assert DigitRun(s) >= 1;
      if |s| > 1 && IsDigit(s[1]) {
        assert DigitRun(s) >= 2 by {
          assert s[..1] == [s[0]];
        }
      }
    }
  }

  /** A number at `pos` followed by its dot; the rest is what follows the dot. */
  function Component(s: string, pos: Position): Result<Scanned, Error>
  {
    var n :- NumericIdentifier(s, pos);
    var rest :- Dot(n.rest, pos);
    Ok(Scanned(n.value, rest))
  }

  /** `Version::parse`, restricted to versions without pre-release or build suffix. */
  function Parse(s: string): Result<Version, Error>
  {
    if s == [] then Err(Empty)
    else
      var major :- Component(s, Major);
      var minor :- Component(major.rest, Minor);
      var patch :- NumericIdentifier(minor.rest, Patch);
      if patch.rest == [] then Ok(Version(major.value, minor.value, patch.value))
      else Err(UnexpectedCharAfter(Patch, patch.rest[0]))
  }

  /** Decimal text of a number, the way `Display` writes a `u64`. */
  function FormatNat(n: nat): (s: string)
    ensures s != [] && AllDigits(s) && DecimalValue(s) == n
    ensures s[0] == '0' <==> n == 0
    ensures n == 0 ==> s == "0"
  {
    if n < 10 then [DigitChar(n)]
    else
      var s := FormatNat(n / 10) + [DigitChar(n % 10)];
      assert s[..|s| - 1] == FormatNat(n / 10);
      s
  }

  /** `Display` of a version: `major.minor.patch`. */
  function Format(v: Version): string
  {
    FormatNat(v.major) + "." + FormatNat(v.minor) + "." + FormatNat(v.patch)
  }

  function PositionName(pos: Position): string
  {
    match pos
    case Major => "major version number"
    case Minor => "minor version number"
    case Patch => "patch version number"
  }

  /** The text of the crate's error, used as the `reason` of an invalid version. */
  function Describe(e: Error): string
  {
    match e
    case Empty => "empty string, expected a semver version"
    case UnexpectedEnd(pos) => "unexpected end of input while parsing " + PositionName(pos)
    case UnexpectedChar(pos, c) => "unexpected character " + CharDebug(c) + " while parsing " + PositionName(pos)
    case UnexpectedCharAfter(pos, c) => "unexpected character " + CharDebug(c) + " after " + PositionName(pos)
    case LeadingZero(pos) => "invalid leading zero in " + PositionName(pos)
  }

  /** Rust's `{:?}` of a `char`: the character between single quotes, escaped. */
  function CharDebug(c: char): string
  {
    "'" + Escaped(c) + "'"
  }

  /** The Unicode control characters (general category Cc): U+0000 to U+001F and U+007F to U+009F. */
  predicate IsControl(c: char)
  {
    c <= '\U{1F}' || ('\U{7F}' <= c <= '\U{9F}')
  }

  /**
   * Rust's `char::escape_debug` for the characters whose escape does not depend on
   * Unicode tables: the named escapes, a backslash and a single quote, and control
   * characters as `\u{hex}`; every other character stands for itself.
   */
  function Escaped(c: char): (r: string)
    ensures r == [c] <==> (c != '\\' && c != '\'' && !IsControl(c))
    ensures |r| >= 2 ==> r[0] == '\\'
  {
    if c == '\0' then "\\0"
    else if c == '\t' then "\\t"
    else if c == '\r' then "\\r"
    else if c == '\n' then "\\n"
    else if c == '\\' then "\\\\"
    else if c == '\'' then "\\'"
    else if IsControl(c) then "\\u{" + HexNat(c as nat) + "}"
    else [c]
  }

  function HexDigit(d: nat): (c: char)
    requires d < 16
  {
    if d < 10 then ('0' as int + d) as char else ('a' as int + d - 10) as char
  }

  /** Lower-case hexadecimal text of a number, without leading zeroes, as `\u{…}` writes it. */
  function HexNat(n: nat): (s: string)
    ensures |s| >= 1 && (n >= 16 ==> |s| >= 2)
    ensures s[|s| - 1] == HexDigit(n % 16)
  {
    if n < 16 then [HexDigit(n)] else HexNat(n / 16) + [HexDigit(n % 16)]
  }

  /** Different numbers have different hexadecimal texts. */
  lemma {:induction false} HexNatInjective(m: nat, n: nat)
    requires HexNat(m) == HexNat(n)
    ensures m == n
    decreases n
  {
    if m >= 16 && n >= 16 {
      var a, b := HexNat(m), HexNat(n);
      assert a[..|a| - 1] == HexNat(m / 16) && b[..|b| - 1] == HexNat(n / 16);
      HexNatInjective(m / 16, n / 16);
      assert HexDigit(m % 16) == HexDigit(n % 16);
    }
  }

  /** The escaped text names its character: different characters print differently. */
  lemma EscapedInjective(c: char, d: char)
    requires Escaped(c) == Escaped(d)
    ensures c == d
  {
    var e := Escaped(c);
    if |e| >= 5 && e[1] == 'u' {
      var h := e[3..|e| - 1];
      assert IsControl(c) && h == HexNat(c as nat);
      assert IsControl(d) && h == HexNat(d as nat);
      HexNatInjective(c as nat, d as nat);
    }
  }

  /** A quote inside a literal is escaped in the message, as `{:?}` prints it: `'\''`. */
  lemma QuoteEscaped()
    ensures CharDebug('\'') == ['\'', '\\', '\'', '\'']
  {
    assert Escaped('\'') == ['\\', '\''];
  }

  // ---------------------------------------------------------------------
  // Reading and writing are inverse

  lemma {:induction false} DigitRunOf(d: string, rest: string)
    requires AllDigits(d)
    requires rest == [] || !IsDigit(rest[0])
    ensures DigitRun(d + rest) == |d|
  {
    if d == [] {
      assert d + rest == rest;
    } else {
      assert (d + rest)[1..] == d[1..] + rest;
      DigitRunOf(d[1..], rest);
    }
  }

  lemma ScanFormatted(n: nat, rest: string, pos: Position)
    requires rest == [] || !IsDigit(rest[0])
    ensures NumericIdentifier(FormatNat(n) + rest, pos) == Ok(Scanned(n, rest))
  {
    var d := FormatNat(n);
    DigitRunOf(d, rest);
    assert (d + rest)[..|d|] == d;
    assert (d + rest)[|d|..] == rest;
  }

  lemma ComponentFormatted(n: nat, rest: string, pos: Position)
    ensures Component(FormatNat(n) + "." + rest, pos) == Ok(Scanned(n, rest))
  {
    assert FormatNat(n) + "." + rest == FormatNat(n) + ("." + rest);
    ScanFormatted(n, "." + rest, pos);
    assert ("." + rest)[1..] == rest;
  }

  /** Every version reads back from its own text. */
  lemma ParseFormat(v: Version)
    ensures Parse(Format(v)) == Ok(v)
  {
    var a, b, c := FormatNat(v.major), FormatNat(v.minor), FormatNat(v.patch);
    assert Format(v) == a + "." + (b + "." + c);
    ComponentFormatted(v.major, b + "." + c, Major);
    ComponentFormatted(v.minor, c, Minor);
    ScanFormatted(v.patch, [], Patch);
    assert c + [] == c;
  }

  /** A digit string without a leading zero is the text of the number it denotes. */
  lemma {:induction false} FormatDecimal(d: string)
    requires d != [] && AllDigits(d)
    requires d[0] == '0' ==> |d| == 1
    ensures FormatNat(DecimalValue(d)) == d
  {
    var last := d[|d| - 1];
    if |d| == 1 {
      assert DecimalValue(d) == DigitValue(last);
      assert DigitValue(DigitChar(DigitValue(last))) == DigitValue(last);
    } else {
      var init := d[..|d| - 1];
      FormatDecimal(init);
      var x := DecimalValue(init);
      assert x != 0;
      var n := 10 * x + DigitValue(last);
      assert n / 10 == x && n % 10 == DigitValue(last);
      assert DigitChar(DigitValue(last)) == last;
      assert d == init + [last];
    }
  }

  lemma ScannedIsFormatted(s: string, pos: Position)
    requires NumericIdentifier(s, pos).Ok?
    ensures var sc := NumericIdentifier(s, pos).value; s == FormatNat(sc.value) + sc.rest
  {
    var n := DigitRun(s);
    FormatDecimal(s[..n]);
    assert s == s[..n] + s[n..];
  }

  lemma ComponentIsFormatted(s: string, pos: Position)
    requires Component(s, pos).Ok?
    ensures var sc := Component(s, pos).value; s == FormatNat(sc.value) + "." + sc.rest
  {
    ScannedIsFormatted(s, pos);
    var n := NumericIdentifier(s, pos).value;
    assert n.rest == "." + n.rest[1..];
  }

  /** The grammar is canonical: an accepted text is exactly the text of the version it denotes. */
  lemma FormatParse(s: string)
    requires Parse(s).Ok?
    ensures Format(Parse(s).value) == s
  {
    var major := Component(s, Major).value;
    ComponentIsFormatted(s, Major);
    var minor := Component(major.rest, Minor).value;
    ComponentIsFormatted(major.rest, Minor);
    var patch := NumericIdentifier(minor.rest, Patch).value;
    ScannedIsFormatted(minor.rest, Patch);
    var v := Version(major.value, minor.value, patch.value);
    assert Parse(s) == Ok(v);
    assert minor.rest == FormatNat(patch.value) + [];
    DottedTriple(s, FormatNat(major.value), major.rest, FormatNat(minor.value), minor.rest, FormatNat(patch.value));
  }

  /** Three numerals joined by dots, as the parser consumes them and as `Format` writes them. */
  lemma DottedTriple(s: string, a: string, m: string, b: string, p: string, c: string)
    requires s == a + "." + m && m == b + "." + p && p == c + []
    ensures s == a + "." + b + "." + c
  {
  }

  /** Distinct accepted texts name distinct versions. */
  lemma ParseInjective(s: string, t: string)
    requires Parse(s).Ok? && Parse(t).Ok?
    ensures Parse(s) == Parse(t) ==> s == t
  {
    FormatParse(s);
    FormatParse(t);
  }
}
