# pubgrub-py in Dafny

This project models the parts of pubgrub-py that sit between Python callers and the PubGrub solver.

- **The constraint parser.** It reads a comma-separated list of PEP 440 style clauses (`~=`, `>=`, `<=`, `!=`, `==`, `>`, `<`, a bare version, `*`, or nothing). It turns the list into a version range by intersecting the clauses.
- **The `Resolver` class.** It keeps a dependency registry.
  - `add_package` parses the package's version and its dependency constraints, and only then writes one registry entry.
  - `resolve` parses the requirements and adds a synthetic `__root__` package at 0.0.0 to a copy of the registry. It hands that copy to the solver and maps the solver's three possible answers to a result or a Python exception.
- **The Python `resolve` function.** It registers every available version in a fresh `Resolver`, then resolves.
- **The value types.** These are the resolver's error type with its messages, and the `Package` newtype.

Versions are `major.minor.patch` triples of naturals, ordered lexicographically. They are read and written in the numeric core of the SemVer 2.0.0 syntax (section 2 of SemVer 2.0.0), and rejected with the error kinds and positions of the `semver` crate's parser, except for the cases listed on the `Semver.Parse` and `Semver.Describe` lines under "## Left out".

Ranges are a syntax datatype (`full`, `singleton`, `higher_than`, `strictly_lower_than`, `between`, `union`, `intersection`) with a membership predicate.

The solver and its reporter form one function parameter. It returns:
- a solution;
- `NoSolution` with the rendered report;
- or any other failure with its text.

Nothing about its answers is presumed.

Files, one module each:

| file | module | models |
|---|---|---|
| `wrappers.dfy` | `Wrappers` | `Option` and `Result` |
| `text.dfy` | `Text` | `str::trim`, `split(',')` and `.map(trim)` |
| `semver.dfy` | `Semver` | `Version`, `Version::parse` on release triples and its errors, and `Display` |
| `ranges.dfy` | `Ranges` | `Ranges<Version>`, by membership |
| `error.dfy` | `Errors` | `ResolverError` and its messages |
| `package.dfy` | `Packages` | `Package` |
| `constraint.dfy` | `Constraint` | `parse_version`, `parse_single_constraint` and `parse_constraint` |
| `constraint_examples.dfy` | `ConstraintExamples` | the parser's behaviour on the inputs of the repository's tests |
| `registry.dfy` | `Registry` | the `OfflineDependencyProvider` operations the resolver uses |
| `resolver.dfy` | `Resolution` | the `Resolver` class and the specification functions of its methods |
| `resolver_examples.dfy` | `ResolverExamples` | `Resolver` behaviour from the Python tests that does not depend on the solver |
| `python_resolve.dfy` | `PythonResolve` | the Python `resolve` function |

## Model

| member | source | states |
|---|---|---|
| Text.IsSpace | src/constraint.rs:18 | the characters `char::is_whitespace` accepts, which `trim` strips: the Unicode White_Space set, listed code point by code point |
| Text.TrimStart | src/constraint.rs:18 | the result is the suffix left after a run of leading white space, and it does not start with white space |
| Text.TrimEnd | src/constraint.rs:18 | the result is the prefix left before a run of trailing white space, and it does not end with white space |
| Text.SpaceBefore | src/constraint.rs:18 | one more leading space in front extends the stripped prefix by one, keeping it all white space |
| Text.SpaceAfter | src/constraint.rs:18 | one more trailing space extends the stripped suffix by one, keeping it all white space |
| Text.Trim | src/constraint.rs:18 | a trimmed text neither starts nor ends with white space |
| Text.TrimDecompose | src/constraint.rs:18 | any text is its trimmed form with white space on both sides |
| Text.TrimPadding | src/constraint.rs:18 | white space added around a text does not survive trimming |
| Text.TrimUntouched | src/constraint.rs:18 | a text with no white space at either end is its own trimmed form |
| Text.TrimIdempotent | src/constraint.rs:18 | trimming twice is trimming once |
| Text.TrimStartConcat | src/constraint.rs:18 | trimming the front of `x + y` strips into `y` exactly when `x` is all white space |
| Text.TrimEndConcat | src/constraint.rs:18 | trimming the end of `x + y` strips into `x` exactly when `y` is all white space |
| Text.Split | src/constraint.rs:84 | there is always at least one piece, and no piece contains the separator |
| Text.SplitJoin | src/constraint.rs:84 | joining the pieces with the separator gives back the text |
| Text.SplitConcat | src/constraint.rs:84 | text on both sides of one separator splits into the pieces of each side |
| Text.SplitPrefix | src/constraint.rs:84 | text without a separator in front joins the first piece |
| Text.SplitSuffix | src/constraint.rs:84 | text without a separator behind joins the last piece |
| Text.SplitCons | src/constraint.rs:84 | a leading separator opens a new first piece; any other leading character joins the first piece |
| Text.SplitPadded | src/constraint.rs:84 | text without separators around a text only extends its first and last pieces |
| Text.TrimAllPadded | src/constraint.rs:84 | pieces that differ only by white space before the first and after the last trim to the same list |
| Text.SplitTrimmed | src/constraint.rs:78-84 | for a separator that is not white space, splitting the trimmed text and trimming each piece gives the same pieces as splitting the untrimmed text |
| Text.TrimAllConcat | src/constraint.rs:84 | trimming pieces one by one distributes over concatenation |
| Text.TrimAll | src/constraint.rs:84 | `trim` mapped over the pieces; `TrimAllTrimmed`, `TrimAllConcat` and `TrimAllPadded` state its meaning |
| Text.TrimAllTrimmed | src/constraint.rs:84 | one trimmed piece per piece, none with white space at either end, and trimming the list again changes nothing |
| Text.TrimKeeps | src/constraint.rs:84 | trimming adds no character, so a piece without a comma stays without one |
| Semver.DigitRun | src/constraint.rs:10 | the run is the longest all-digit prefix |
| Semver.Le | src/constraint.rs:21-70 | the order the ranges compare versions by, lexicographic on (major, minor, patch) as the crate orders versions without suffixes; `VersionOrder` states that it is a total order |
| Semver.Lt | src/constraint.rs:21-70 | the strict order the ranges use for their upper bounds; `VersionOrder` states that `a < b` exactly when not `b <= a` |
| Semver.VersionOrder | src/constraint.rs:21-70 | `Le` is reflexive, antisymmetric, transitive and total, and `Lt(a, b)` holds exactly when `Le(b, a)` does not |
| Semver.NumericIdentifier | src/constraint.rs:10 | the crate's scan of one number of the triple; `ScanFailure`, `ScanFormatted` and `ScannedIsFormatted` state its meaning |
| Semver.ScanFailure | src/constraint.rs:10 | for numbers up to 18446744073709551615, a number fails to scan exactly on an empty input (`UnexpectedEnd`), a non-digit (`UnexpectedChar` with that character) or a zero followed by another digit (`LeadingZero`), all at the number's position |
| Semver.ScanFormatted | src/constraint.rs:10 | a number's text followed by a non-digit scans back as that number, leaving what follows |
| Semver.ScannedIsFormatted | src/constraint.rs:10 | what an accepted scan consumes is exactly the canonical text of the number it returns |
| Semver.Dot | src/constraint.rs:10 | the separator after a number: a dot is consumed, the end of the input is `UnexpectedEnd` and any other character `UnexpectedCharAfter` at that number's position |
| Semver.Component | src/constraint.rs:10 | a number followed by its dot; `ComponentFormatted` and `ComponentIsFormatted` state its meaning |
| Semver.ComponentFormatted | src/constraint.rs:10 | a number's text and a dot scan back as that number, leaving what follows the dot |
| Semver.ComponentIsFormatted | src/constraint.rs:10 | what an accepted component consumes is exactly the canonical text of its number and a dot |
| Semver.FormatNat | src/resolver.rs:99 | a number's text is non-empty and all digits, denotes the number, and has no leading zero unless the number is 0 |
| Semver.ParseFormat | src/constraint.rs:10 | every version reads back from its own text |
| Semver.FormatParse | src/constraint.rs:10 | the accepted grammar is canonical: an accepted text is exactly the text of the version it denotes |
| Semver.ParseInjective | src/constraint.rs:10 | distinct accepted texts name distinct versions |
| Semver.FormatDecimal | src/constraint.rs:10 | a digit string without a leading zero is the text of the number it denotes |
| Semver.Parse | src/constraint.rs:10 | `Version::parse` on release triples; `ParseFormat` and `FormatParse` state that it reads back exactly the texts `Format` writes, and `ParseInjective` that it names distinct versions by distinct texts |
| Semver.Format | src/resolver.rs:99 | `Display` of a version; its inverse is `Parse`, by `ParseFormat` and `FormatParse` |
| Semver.Describe | src/constraint.rs:12 | the crate's text for each error kind, used as the reason; `QuoteEscaped` and `QuotedLiteralExample` show a character escaped in it |
| Semver.CharDebug | src/constraint.rs:12 | the offending character as `{:?}` shows it, quoted and escaped; `EscapedInjective` states that it still names the character |
| Semver.Escaped | src/constraint.rs:12 | the escaped character is the character itself exactly when it is neither a backslash, a single quote nor a control character; every escape starts with a backslash |
| Semver.HexNat | src/constraint.rs:12 | the hexadecimal text is non-empty, has two digits or more from 16 on, and ends with the digit of `n % 16` |
| Semver.HexNatInjective | src/constraint.rs:12 | different code points have different hexadecimal texts |
| Semver.EscapedInjective | src/constraint.rs:12 | different characters have different escaped texts, so the reason names the offending character |
| Semver.QuoteEscaped | src/constraint.rs:12 | a single quote is shown as `'\''` in the reason |
| Constraint.ParseVersion | src/constraint.rs:9-14 | a rejected literal gives `InvalidVersion` carrying that literal verbatim |
| Constraint.ParseVersionRoundTrip | src/constraint.rs:9-14 | an accepted literal is the text of its version, and every version's text parses to that version |
| Constraint.NextPatch | src/constraint.rs:38-42 | the versions below `M.m.(p+1)` are exactly those at most `M.m.p` |
| Constraint.NextMinor | src/constraint.rs:28 | the versions from `M.m.p` up to but excluding `M.(m+1).0` are exactly `M.m.q` with `q >= p` |
| Constraint.OperatorRange | src/constraint.rs:25-70 | the range each branch builds; `OperatorRangeMeaning` states what it holds |
| Ranges.Contains | src/constraint.rs:21-70 | membership of a version in each range constructor; `OperatorRangeMeaning` relates it to each operator |
| Constraint.OperatorRangeMeaning | src/constraint.rs:25-70 | the range each branch builds holds exactly what its operator means: `~=` the same minor series from `v` on; `>=`, `<=`, `>` and `<` the comparison; `!=` everything except `v`; `==` and a bare version only `v` |
| Constraint.ParseSingleConstraint | src/constraint.rs:17-71 | a clause can fail only with `InvalidVersion` |
| Constraint.TrimmedClause | src/constraint.rs:20-70 | a trimmed clause can fail only with `InvalidVersion` |
| Constraint.FirstOperator | src/constraint.rs:24-70 | the chain of prefix tests can fail only with `InvalidVersion` |
| Constraint.FirstOperatorSkips | src/constraint.rs:24-66 | operators the clause does not start with are passed over |
| Constraint.FirstOperatorHit | src/constraint.rs:24-66 | the first tested operator the clause does start with reads the trimmed rest as its version, failing with that version's error |
| Constraint.TestedEarlier | src/constraint.rs:33-66 | a clause starting with `>=` or `<=` starts with none of the operators tested before it, so it is never read as `>` or `<` followed by `=` |
| Constraint.OperatorClause | src/constraint.rs:24-66 | a trimmed clause starting with an operator gives that operator's range over the trimmed rest, or that literal's `InvalidVersion` |
| Constraint.ExactClause | src/constraint.rs:68-70 | a trimmed clause with no operator is read whole as a version, giving its singleton |
| Constraint.ShortcutClauses | src/constraint.rs:20-22 | the empty clause and `*` are the full range |
| Constraint.ClauseOfTrim | src/constraint.rs:18 | trimming a clause first changes nothing |
| Constraint.TrimAfterOperator | src/constraint.rs:33-34 | trimming an operator clause trims only the literal's end, and the literal is trimmed again before it is read |
| Constraint.ClauseReading | src/constraint.rs:17-71 | a clause with operator `op` and literal `lit` succeeds exactly when the trimmed literal reads as a version, and then holds what `op` admits |
| Constraint.FormattedLiteral | src/constraint.rs:9-14 | a version written in full has no surrounding space and reads back as itself |
| Constraint.NonDigitLiteral | src/constraint.rs:9-14 | a literal that starts with something other than a digit is rejected at its first character, naming the whole trimmed literal |
| Constraint.WrittenClause | src/constraint.rs:17-96 | a constraint written as an operator before a version parses, and holds exactly what the operator admits |
| Constraint.WrittenPair | src/constraint.rs:84-95 | two written clauses joined by a comma hold exactly what both admit |
| Constraint.RejectedConstraint | src/constraint.rs:57-70 | an operator followed by a literal that does not start with a digit fails as a whole, with `InvalidVersion` naming that literal |
| Constraint.NoCommaWritten | src/constraint.rs:84 | neither an operator nor a version's text contains a comma |
| Constraint.Conjoin | src/constraint.rs:86-93 | the fold of `parse_constraint`; `ConjoinMeaning`, `ConjoinFirstFailure` and `ConjoinAppend` state its meaning |
| Constraint.ReadConstraint | src/constraint.rs:77-96 | `parse_constraint` for any clause reader: the shortcut, then the fold; `ReadMeaning` states its meaning |
| Constraint.ConstraintOf | src/constraint.rs:77-96 | `parse_constraint` as a value; `ConstraintMeaning` and `ConstraintError` state its meaning, and `ParseConstraint` is proved to compute it |
| Constraint.ConjoinMeaning | src/constraint.rs:86-95 | the fold succeeds exactly when every non-empty piece parses, and then holds a version exactly when the start range and every non-empty piece hold it |
| Constraint.ConjoinFirstFailure | src/constraint.rs:86-93 | a failing fold returns the error of its first failing non-empty piece, whatever it had gathered |
| Constraint.ConjoinAppend | src/constraint.rs:86-93 | folding two lists of pieces continues the second from where the first stopped |
| Constraint.SplitWithoutSeparator | src/constraint.rs:84 | a text without commas is one piece |
| Constraint.PiecesOfTrim | src/constraint.rs:78-84 | splitting before or after trimming the whole constraint gives the same pieces |
| Constraint.PiecesConcat | src/constraint.rs:84 | a comma splits a constraint into the pieces of its two sides |
| Constraint.Pieces | src/constraint.rs:84 | `split(',')` then `trim` on each piece; `PiecesShape`, `PiecesOfTrim` and `PiecesConcat` state its meaning |
| Constraint.PiecesShape | src/constraint.rs:84 | there is at least one piece, no piece holds a comma, and none starts or ends with white space |
| Constraint.ConstraintAsFold | src/constraint.rs:78-95 | the shortcut for `""` and `"*"` agrees with folding their pieces |
| Constraint.PiecesOfShortcuts | src/constraint.rs:80-84 | `""` and `"*"` each split into a single piece, themselves |
| Constraint.PiecesOfChar | src/constraint.rs:84 | a single character other than a comma or white space splits and trims to itself alone |
| Constraint.ShortcutAsFold | src/constraint.rs:80-93 | folding the pieces of `""` or `"*"` succeeds and admits every version, given a clause reader that reads `*` as everything |
| Constraint.ParseConstraint | src/constraint.rs:77-96 | the loop that intersects the pieces computes `ConstraintOf` |
| Constraint.ConstraintMeaning | src/constraint.rs:84-95 | a constraint parses exactly when each non-empty piece parses, and then holds a version exactly when every non-empty piece holds it |
| Constraint.ReadMeaning | src/constraint.rs:78-95 | the same, for any clause reader that reads `*` as everything |
| Constraint.ConstraintError | src/constraint.rs:86-93 | a failing constraint fails with `InvalidVersion`, the error of its first failing piece, and never yields a partial range |
| Constraint.CommaIsConjunction | src/constraint.rs:84-95 | `a,b` parses exactly when both sides parse, and holds exactly what both hold |
| Constraint.TrailingCommaIgnored | src/constraint.rs:88-90 | `a,` means `a` |
| Constraint.StarConstraint | src/constraint.rs:80-82 | `"*"` is the full range |
| Constraint.StarClauseNeutral | src/constraint.rs:20-22 | a `*` clause in a list leaves the intersection unchanged |
| Constraint.ConjoinOne | src/constraint.rs:86-93 | folding one piece gives that piece's range |
| Constraint.SingleClause | src/constraint.rs:84-95 | a constraint without commas means its one clause |
| ConstraintExamples.Written | src/constraint.rs:111-119 | an operator followed by a formatted version parses, and holds what the operator admits |
| ConstraintExamples.ParseVersionExample | src/constraint.rs:104 | `"1.0.0"` reads as 1.0.0 |
| ConstraintExamples.ParseVersionLeadingZeroMajor | src/constraint.rs:105 | `"0.1.0"` reads as 0.1.0 |
| ConstraintExamples.ParseVersionTwoDigits | src/constraint.rs:106 | `"10.20.30"` reads as 10.20.30 |
| ConstraintExamples.InvalidVersionExample | src/constraint.rs:107 | `"invalid"` is rejected at its first character |
| ConstraintExamples.AtLeastExample | tests/test_resolver.py:176 | `>=1.0.0` holds 1.0.0 and 2.0.0, and not 0.9.0 |
| ConstraintExamples.AtMostExample | tests/test_resolver.py:177 | `<=2.0.0` holds 2.0.0, and not 2.0.1 or 3.0.0 |
| ConstraintExamples.GreaterExample | tests/test_resolver.py:178 | `>1.0.0` holds 1.0.1, and not 1.0.0 or 0.9.0 |
| ConstraintExamples.LessExample | tests/test_resolver.py:179 | `<2.0.0` holds 1.9.9, and not 2.0.0 |
| ConstraintExamples.EqualExample | tests/test_resolver.py:180 | `==1.5.0` holds 1.5.0 and neither neighbour |
| ConstraintExamples.NotEqualExample | src/constraint.rs:117 | `!=1.3.0` leaves out 1.3.0 and keeps 1.3.1 and 1.2.9 |
| ConstraintExamples.CompatibleExample | src/constraint.rs:131-137 | `~=1.4.0` holds 1.4.0 and 1.4.5, and not 1.5.0 or 1.3.0 |
| ConstraintExamples.CombinedExample | src/constraint.rs:121-128 | `>=1.0.0,<2.0.0` holds exactly the versions from 1.0.0 up to but excluding 2.0.0 |
| ConstraintExamples.MalformedExample | tests/test_resolver.py:162-167 | `>>invalid<<` fails with `InvalidVersion` on `>invalid<<`, with a message starting "Invalid " |
| ConstraintExamples.WordExample | src/constraint.rs:68-70 | a bare word is read as a version and rejected |
| ConstraintExamples.QuotedLiteralExample | src/constraint.rs:33-34 | `>='1.0.0'` fails with `InvalidVersion` on `'1.0.0'` at its quote, and the quote shows as `'\''` in the reason |
| Errors.Message | src/error.rs:8-15 | the three display formats; `MessageShowsFields`, `MessageOmitsExplanation` and `MessageTellsKind` state what can be read back from them |
| Errors.MessageShowsFields | src/error.rs:7-16 | each message shows its fields verbatim at fixed offsets, so the offending literal can be read back |
| Errors.MessageOmitsExplanation | src/error.rs:14-15 | the explanation of a failed resolution is not part of its message |
| Errors.MessageTellsKind | src/error.rs:8-15 | the kind of error can be told from the start of its message, in both directions |
| Packages.ToString | src/package.rs:11-15 | `Display`: the package's text; `FromStr` states that it gives back the text the package was made from |
| Packages.Borrow | src/package.rs:17-21 | `Borrow<str>`: the package's text; `FromStr` and `LookupByText` state what it gives back |
| Packages.FromStr | src/package.rs:23-27 | the package's display and borrowed text are the text it was made from |
| Packages.FromString | src/package.rs:29-33 | the same text gives the same package through either conversion |
| Packages.EqualByText | src/package.rs:8-15 | packages are equal exactly when their displayed texts are |
| Packages.LookupByText | src/package.rs:17-21 | looking up a map by borrowed text finds exactly the package with that text |
| Registry.Empty | src/resolver.rs:20-25 | a new registry has nothing registered |
| Registry.AddDependencies | src/resolver.rs:59 | afterwards the package at that version has exactly the given dependencies, and every other entry reads as before |
| Registry.AddReplaces | src/resolver.rs:59 | registering the same package and version twice keeps only the second list |
| Registry.AddCommutes | src/resolver.rs:59 | registrations of different packages or versions commute |
| Resolution.AsValueError | src/resolver.rs:44 | a parse error becomes a `ValueError` with that error's message; a value passes through |
| Resolution.Root | src/resolver.rs:77 | the package `__root__`; `WithRoot` states that it is registered at 0.0.0 with the requirements, and `StrippedParsesBack` that no result name is `__root__` |
| Resolution.NoSolutionMessage | src/resolver.rs:105-109 | "No solution found.\n\n" then the report; `NoSolutionReportKept` states that the report is kept whole |
| Resolution.NoSolutionReportKept | src/resolver.rs:105-109 | different reports give different messages |
| Resolution.DependencyList | src/resolver.rs:46-57 | the list exists exactly when every constraint parses, and then has one edge per entry, in order, with that entry's name and range |
| Resolution.DependencyListError | src/resolver.rs:49-53 | a failing table fails with the error of its first constraint that does not parse |
| Resolution.DependencyListStep | src/resolver.rs:49-53 | one more entry either fails with its own error or adds its edge in front of the rest |
| Resolution.ParseDependencies | src/resolver.rs:81-86 | the loop that pushes one edge per entry, stopping at the first error, computes `DependencyList`; `add_package` runs the same loop at src/resolver.rs:48-54 and calls it there too |
| Resolution.Stripped | src/resolver.rs:94-102 | the result's names are exactly the solution's packages other than `__root__`, each mapped to its version's text |
| Resolution.StripRoot | src/resolver.rs:95-101 | the loop over the solution computes `Stripped` |
| Resolution.StrippedParsesBack | src/resolver.rs:96-100 | no name is `__root__`, every other solved package appears, and every version text reads back as the solved version |
| Resolution.WithRoot | src/resolver.rs:88-90 | the solver's registry has the root at 0.0.0 with exactly the parsed requirements, and every other entry as stored |
| Resolution.Registered | src/resolver.rs:37-61 | `add_package` as a value; `RegisteredMeaning` states its meaning and `Resolver.AddPackage` is proved to compute it |
| Resolution.Resolved | src/resolver.rs:73-113 | `resolve` as a value; `ResolvedOutcome` and `RequirementsRejected` state its meaning and `Resolver.Resolve` is proved to compute it |
| Resolution.RegisteredMeaning | src/resolver.rs:43-60 | `add_package` succeeds exactly when the version and every constraint parse; then it registers exactly that entry (empty when no dependencies are given) and changes nothing else; a failure is a `ValueError` starting "Invalid version '", and the package's own version is checked first |
| Resolution.OmittedDependencies | src/resolver.rs:56 | leaving the dependencies out is the same as giving an empty table |
| Resolution.RegisteredAgain | src/resolver.rs:59 | registering a package at a version again replaces what it had |
| Resolution.RequirementsRejected | src/resolver.rs:82-86 | requirements that do not parse give a `ValueError` starting "Invalid version '", and the answer is the same for every solver |
| Resolution.ResolvedOutcome | src/resolver.rs:93-112 | on parsed requirements, success comes exactly from a solution, with root stripping and texts that read back; `ResolutionError` comes exactly from `NoSolution`, its message being "No solution found.\n\n" then the report; any other failure is a `ValueError` "Resolution error: " then its text |
| Resolution.Resolver.constructor | src/resolver.rs:20-25 | a new resolver's registry is empty |
| Resolution.Resolver.AddPackage | src/resolver.rs:37-61 | on an error the registry is unchanged and the error is `add_package`'s; otherwise the registry is the one `Registered` describes |
| Resolution.Resolver.Resolve | src/resolver.rs:73-113 | the answer is `Resolved` of the registry, and the method may not modify the resolver, so sequential resolves are independent |
| ResolverExamples.StandaloneExample | tests/test_resolver.py:148-154 | `add_package("standalone", "1.0.0")` registers 1.0.0 with no dependencies |
| ResolverExamples.NotAVersionExample | tests/test_resolver.py:156-160 | `add_package("pkg", "not-a-version", {})` raises a `ValueError` starting "Invalid version" |
| ResolverExamples.MalformedRequirementExample | tests/test_resolver.py:162-167 | `resolve({"pkg": ">>invalid<<"})` raises a `ValueError` starting "Invalid", whatever the solver |
| PythonResolve.VersionsOf | python/pubgrub_py/resolve.py:34-35 | the inner loop makes one call per version, in order, for its package |
| PythonResolve.Registrations | python/pubgrub_py/resolve.py:33-35 | the calls the nested loops make, packages in order and each package's versions in order; `RegistrationSource` states that every call comes from one package and one of its versions, and `EveryVersionRegistered` that every available version is registered |
| PythonResolve.RegisterFirst | python/pubgrub_py/resolve.py:35 | one `add_package` call either raises or continues from the registry it leaves |
| PythonResolve.RegisterAll | python/pubgrub_py/resolve.py:33-35 | the registrations in order, stopping at the first error; `RegisterConcat`, `EveryVersionRegistered` and `OnlyRegistered` state its meaning |
| PythonResolve.ResolveAll | python/pubgrub_py/resolve.py:32-36 | the Python `resolve` as a value; `ResolveRegistersAvailable` and `RegistrationStops` state its meaning and `PythonResolve.Resolve` is proved to compute it |
| PythonResolve.RegisterConcat | python/pubgrub_py/resolve.py:33-35 | registering two runs of calls is the second continuing from the first, and stops at the first error |
| PythonResolve.RegisterAllError | python/pubgrub_py/resolve.py:33-35 | every error raised while registering is a `ValueError` starting "Invalid version '" |
| PythonResolve.StaysRegistered | python/pubgrub_py/resolve.py:33-35 | calls for other names or other version texts leave an entry as it was |
| PythonResolve.LastRegistrationHolds | python/pubgrub_py/resolve.py:33-35 | a call that no later call repeats determines its entry in the final registry |
| PythonResolve.RegistrationSource | python/pubgrub_py/resolve.py:33-35 | every call comes from one package and one of its versions |
| PythonResolve.FirstPackageRegistered | python/pubgrub_py/resolve.py:33-35 | the first package's versions survive the registration of the other packages |
| PythonResolve.EveryVersionRegistered | python/pubgrub_py/resolve.py:33-35 | every version of every available package is registered with exactly its listed dependencies |
| PythonResolve.OnlyRegistered | python/pubgrub_py/resolve.py:33-35 | everything the registry holds afterwards was put there by some call |
| PythonResolve.Resolve | python/pubgrub_py/resolve.py:32-36 | the fresh resolver, the nested loops and the final resolve compute `ResolveAll` |
| PythonResolve.ResolveRegistersAvailable | python/pubgrub_py/resolve.py:32-36 | when every registration succeeds, the registry holds exactly the available versions with their dependencies, and the answer is `Resolver.resolve` on it |
| PythonResolve.RegistrationStops | python/pubgrub_py/resolve.py:33-36 | a registration error is what `resolve` raises, whatever the requirements and the solver |

## Left out

- The solver (`pubgrub::resolve`) and `DefaultStringReporter` are a foreign library. They are one function parameter whose answer is a solution, `NoSolution` with the rendered report, or another failure with its `Display` text. Backtracking and the report's wording are not modelled.
- `OfflineDependencyProvider` is foreign. It is a map from a package and version to a dependency list. `add_dependencies` replacing an existing entry is the library's stated contract, taken here as given. The provider turns each list into a map keyed by package. The model keeps the list, since the keys of a Python dictionary are distinct anyway.
- Semver.Parse: pre-release and build suffixes are rejected, although the `semver` crate accepts them. With such versions, the gaps of `!=`, `>` and `<=` are more than the single version `v` (`1.3.1-alpha` lies between 1.3.0 and 1.3.1), so the operator lemmas claim nothing about them.
- Semver.Parse: when `-` or `+` follows the patch number, the model reports `UnexpectedCharAfter(Patch, '-')` or `UnexpectedCharAfter(Patch, '+')`. The crate reads a suffix there: it accepts a well-formed one, and reports `EmptySegment` of the pre-release or build part for an empty one (`1.2.3-`, `1.2.3+`) or its own identifier errors otherwise. The crate's source is not part of this model.
- Semver.CharDebug: quotes the character as `Escaped` writes it, so it inherits the gap on the `Semver.Escaped` line.
- Semver.Escaped: writes a soft hyphen (U+AD), a zero-width joiner (U+200D) and every other character that Rust's Unicode tables class as not printable or as a grapheme extender, but that is not a control character, as itself, where Rust writes `\u{…}` (`\u{ad}`, `\u{200d}`).
- Semver.Describe: the escaping of `{:?}` is modelled for the named escapes (`\0`, `\t`, `\r`, `\n`), the backslash, the single quote and the control characters (`\u{…}`). Other characters that Rust's Unicode tables class as not printable or as grapheme extenders are written as themselves here, where Rust writes `\u{…}`.
- Semver.Parse: numbers above 18446744073709551615 are accepted, while the crate rejects them as out of range for `u64`.
- Semver.NumericIdentifier: a run of digits whose value is above 18446744073709551615 scans as that value, where the crate reports `Overflow` at that number's position. The `Error` datatype has no `Overflow` kind for this reason.
- Semver.ScanFailure: its list of failures holds for numbers up to 18446744073709551615 only. It leaves out the crate's fourth failure, `Overflow`, for a number above that.
- Constraint.NextPatch: `patch + 1` does not overflow `u64` here. In the source it overflows at the largest `u64`.
- Constraint.NextMinor: `minor + 1` does not overflow `u64` here. In the source it overflows at the largest `u64`.
- `InvalidVersion`'s reason is kept as the parser's structured error and turned into text when the message is built. The text follows the crate's `Display`, except for the characters listed on the `Semver.Describe` line. The reason of `InvalidConstraint` is called `detail`, because Dafny requires fields that share a name to share a type. The parser never produces `InvalidConstraint`.
- `HashMap` and Python `dict` iteration order is modelled as sequence order. When several constraints are malformed, the model reports the first in that order. The source reports whichever its hash map yields first. Every other claim is independent of the order.
- Full PEP 440 is not modelled: wildcards, `===`, epochs and two-component `~=`. The source does not implement them either.
- How pubgrub stores `Ranges` (canonical interval lists) is not modelled; only membership is.
- `impl Default for Resolver` is not modelled. It only calls `new`.
- `src/lib.rs` (the PyO3 module and the `ResolutionError` exception type), `python/pubgrub_py/__init__.py` and PyO3's argument conversions are not part of this model.
- The end-to-end expectations of the Python tests (which version the solver picks, the wording of conflict reports) depend on the solver, so they are not stated.
