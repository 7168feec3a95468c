/**
 * Constraint strings to version ranges. A constraint is a comma-separated
 * list of clauses whose ranges are intersected; a clause is an operator
 * (`~=`, `>=`, `<=`, `!=`, `==`, `>`, `<` or none) followed by a version
 * literal, or is empty or `*`, which allow every version.
 */
module Constraint {
  import opened Wrappers
  import opened Text
  import opened Semver
  import opened Ranges
  import opened Errors

  /** `parse_version`: a version literal, or `InvalidVersion` naming the literal. */
  function ParseVersion(s: string): (r: Result<Version, ResolverError>)
    ensures r.Err? ==> r.error.InvalidVersion? && r.error.version == s
  {
    var parsed := Semver.Parse(s);
    if parsed.Ok? then Ok(parsed.value) else Err(InvalidVersion(s, parsed.error))
  }

  /**
   * `parse_version` accepts exactly the canonical spellings: what it reads is
   * written back as the same text, and every version's text reads back as it.
   */
  lemma ParseVersionRoundTrip(s: string, v: Version)
    ensures ParseVersion(s).Ok? ==> Format(ParseVersion(s).value) == s
    ensures ParseVersion(Format(v)) == Ok(v)
  {
    if Semver.Parse(s).Ok? {
      FormatParse(s);
    }
    ParseFormat(v);
  }

  /** The version one patch above `v`: on triples, the least version above `v`. */
  function NextPatch(v: Version): (n: Version)
    ensures forall w :: Lt(w, n) <==> Le(w, v)
  {
    Version(v.major, v.minor, v.patch + 1)
  }

  /** The first version of the minor series after `v`'s. */
  function NextMinor(v: Version): (n: Version)
    ensures forall w :: Le(v, w) && Lt(w, n) <==> w.major == v.major && w.minor == v.minor && v.patch <= w.patch
  {
    Version(v.major, v.minor + 1, 0)
  }

  /** `parse_single_constraint`: one clause, read once its surrounding space is trimmed. */
  function ParseSingleConstraint(constraint: string): (r: Result<Range, ResolverError>)
    ensures r.Err? ==> r.error.InvalidVersion?
  {
    TrimmedClause(Trim(constraint))
  }

  /**
   * The body of `parse_single_constraint` after trimming: `""` and `"*"` are the full
   * range, and anything else is read against the operators in the order tested.
   */
  function TrimmedClause(c: string): (r: Result<Range, ResolverError>)
    ensures r.Err? ==> r.error.InvalidVersion?
  {
    if c == "" || c == "*" then Ok(Full) else FirstOperator(c, Prefixed)
  }

  /** The operators `parse_single_constraint` looks for, in the order it tests them. */
  const Prefixed: seq<Operator> := [Compatible, AtLeast, AtMost, NotEqual, Equal, Greater, Less]

  /**
   * The first operator of `ops` that `c` starts with takes the trimmed rest as its
   * version; when none does, all of `c` is a bare version.
   */
  function FirstOperator(c: string, ops: seq<Operator>): (r: Result<Range, ResolverError>)
    ensures r.Err? ==> r.error.InvalidVersion?
    decreases |ops|
  {
    if ops == [] then
      var v :- ParseVersion(c);
      Ok(OperatorRange(Exact, v))
    else if Spelling(ops[0]) <= c then
      var v :- ParseVersion(Trim(c[|Spelling(ops[0])|..]));
      Ok(OperatorRange(ops[0], v))
    else
      FirstOperator(c, ops[1..])
  }

  /** The range each branch of `parse_single_constraint` builds from its version. */
  function OperatorRange(op: Operator, v: Version): Range
  {
    match op
    case Compatible => Between(v, NextMinor(v))
    case AtLeast => HigherThan(v)
    case AtMost => StrictlyLowerThan(NextPatch(v))
    case NotEqual => Union(StrictlyLowerThan(v), HigherThan(NextPatch(v)))
    case Equal => Singleton(v)
    case Greater => HigherThan(NextPatch(v))
    case Less => StrictlyLowerThan(v)
    case Exact => Singleton(v)
  }

  /** The clauses of a constraint: its comma-separated pieces, each trimmed. */
  function Pieces(s: string): seq<string>
  {
    TrimAll(Split(s, ','))
  }

  /**
   * A constraint has at least one piece; no piece holds a comma, and none
   * starts or ends with white space.
   */
  lemma PiecesShape(s: string)
    ensures |Pieces(s)| >= 1
    ensures forall i :: 0 <= i < |Pieces(s)| ==> ',' !in Pieces(s)[i]
    ensures forall i :: 0 <= i < |Pieces(s)| ==> var t := Pieces(s)[i];
      t == [] || (!IsSpace(t[0]) && !IsSpace(t[|t| - 1]))
  {
    var parts := Split(s, ',');
    TrimAllTrimmed(parts);
    forall i | 0 <= i < |parts|
      ensures ',' !in Pieces(s)[i]
    {
      TrimKeeps(parts[i], ',');
    }
  }

  /** Reads one clause into a range; `parse_constraint` uses `ParseSingleConstraint`. */
  type ClauseParser = string -> Result<Range, ResolverError>

  /**
   * Intersects `acc` with the range `clause` gives each non-empty piece, in order,
   * stopping at the first piece that fails.
   */
  function Conjoin(clause: ClauseParser, acc: Range, parts: seq<string>): Result<Range, ResolverError>
    decreases |parts|
  {
    if parts == [] then Ok(acc)
    else if parts[0] == "" then Conjoin(clause, acc, parts[1..])
    else
      var r :- clause(parts[0]);
      Conjoin(clause, Intersection(acc, r), parts[1..])
  }

  /** What `parse_constraint` returns for a constraint string. */
  function ReadConstraint(clause: ClauseParser, s: string): Result<Range, ResolverError>
  {
    var c := Trim(s);
    if c == "" || c == "*" then Ok(Full) else Conjoin(clause, Full, Pieces(c))
  }

  /** `parse_constraint` as a value: the constraint read with `parse_single_constraint`. */
  function ConstraintOf(s: string): Result<Range, ResolverError>
  {
    ReadConstraint(ParseSingleConstraint, s)
  }

  /** `parse_constraint`: the loop over the pieces, intersecting as it goes. */
  method ParseConstraint(constraint: string) returns (r: Result<Range, ResolverError>)
    ensures r == ConstraintOf(constraint)
  {
    var c := Trim(constraint);
    if c == "" || c == "*" {
      return Ok(Full);
    }
    var parts := Pieces(c);
    var result := Full;
    for i := 0 to |parts|
      invariant Conjoin(ParseSingleConstraint, result, parts[i..]) == Conjoin(ParseSingleConstraint, Full, parts)
    {
      assert parts[i..][1..] == parts[i + 1..];
      if parts[i] != "" {
        var range :- ParseSingleConstraint(parts[i]);
        result := Intersection(result, range);
      }
    }
    assert parts[|parts|..] == [];
    return Ok(result);
  }

  // ---------------------------------------------------------------------
  // What each clause means

  /** The operators a clause can start with; `Exact` is a bare version. */
  datatype Operator = Compatible | AtLeast | AtMost | NotEqual | Equal | Greater | Less | Exact

  function Spelling(op: Operator): string
  {
    match op
    case Compatible => "~="
    case AtLeast => ">="
    case AtMost => "<="
    case NotEqual => "!="
    case Equal => "=="
    case Greater => ">"
    case Less => "<"
    case Exact => ""
  }

  /** Which versions `op v` admits, by the meaning of each operator in PEP 440 (on release triples). */
  predicate Admits(op: Operator, v: Version, w: Version)
  {
    match op
    case Compatible => w.major == v.major && w.minor == v.minor && v.patch <= w.patch
    case AtLeast => Le(v, w)
    case AtMost => Le(w, v)
    case NotEqual => w != v
    case Equal => w == v
    case Greater => Lt(v, w)
    case Less => Lt(w, v)
    case Exact => w == v
  }

  predicate StartsWithOperator(t: string)
  {
    "~=" <= t || ">=" <= t || "<=" <= t || "!=" <= t || "==" <= t || ">" <= t || "<" <= t
  }

  /**
   * When the text `lit` written after `op` is that operator's literal: after `>` or `<`
   * it must not start with `=`, and a bare literal must not start with an operator.
   */
  predicate ReadsAs(op: Operator, lit: string)
  {
    match op
    case Greater => lit == [] || lit[0] != '='
    case Less => lit == [] || lit[0] != '='
    case Exact => Trim(lit) != "" && Trim(lit) != "*" && !StartsWithOperator(Trim(lit))
    case _ => true
  }

  lemma TrimAfterOperator(sp: string, lit: string)
    requires sp != [] && !IsSpace(sp[0]) && !IsSpace(sp[|sp| - 1])
    ensures Trim(sp + lit) == sp + TrimEnd(lit)
    ensures Trim(TrimEnd(lit)) == Trim(lit)
    ensures TrimEnd(lit) == [] || TrimEnd(lit)[0] == lit[0]
  {
    var e := TrimEnd(lit);
    TrimEndConcat(sp, lit);
    if AllSpace(lit) {
      assert TrimEnd(sp) == sp;
      assert sp + e == sp;
    }
    TrimStartConcat(sp, e);
    assert TrimStart(sp) == sp;
    assert TrimEnd(e) == e;
  }

  /**
   * Each branch builds the range of its operator's meaning. In particular `<=v` and
   * `>v` step to the next patch, which on triples is exactly "at most v" and "above v",
   * and the gap that `!=v` leaves out is exactly `v`.
   */
  lemma OperatorRangeMeaning(op: Operator, v: Version, w: Version)
    ensures Contains(OperatorRange(op, v), w) <==> Admits(op, v, w)
  {
    var _ := NextPatch(v);
    var _ := NextMinor(v);
  }

  /** Operators that `c` does not start with are passed over. */
  lemma {:induction false} FirstOperatorSkips(c: string, ops: seq<Operator>, k: nat)
    requires k <= |ops|
    requires forall j :: 0 <= j < k ==> !(Spelling(ops[j]) <= c)
    ensures FirstOperator(c, ops) == FirstOperator(c, ops[k..])
    decreases k
  {
    if k > 0 {
      FirstOperatorSkips(c, ops[1..], k - 1);
      assert ops[1..][k - 1..] == ops[k..];
    }
  }

  /** Where each operator sits in the order of the tests. */
  function TestedAt(op: Operator): (k: nat)
    requires op != Exact
    ensures k < |Prefixed| && Prefixed[k] == op
  {
    match op
    case Compatible => 0
    case AtLeast => 1
    case AtMost => 2
    case NotEqual => 3
    case Equal => 4
    case Greater => 5
    case Less => 6
  }

  /** A clause that starts with `op` starts with none of the operators tested before it. */
  lemma TestedEarlier(op: Operator, e: string)
    requires op != Exact && ReadsAs(op, e)
    ensures forall j :: 0 <= j < TestedAt(op) ==> !(Spelling(Prefixed[j]) <= Spelling(op) + e)
  {
    var sp := Spelling(op);
    var c := sp + e;
    forall j | 0 <= j < TestedAt(op)
      ensures !(Spelling(Prefixed[j]) <= c)
    {
      assert c[0] == sp[0];
      if |sp| == 1 {
        assert e == [] || c[1] == e[0];
      }
    }
  }

  /** A trimmed clause that starts with operator `op` reads the rest as `op`'s version. */
  lemma OperatorClause(op: Operator, e: string)
    requires op != Exact && ReadsAs(op, e)
    ensures var r, lv := TrimmedClause(Spelling(op) + e), ParseVersion(Trim(e));
      && (lv.Err? ==> r == Err(lv.error))
      && (lv.Ok? ==> r == Ok(OperatorRange(op, lv.value)))
  {
    var sp := Spelling(op);
    var c := sp + e;
    var k := TestedAt(op);
    assert sp != [] && c[0] == sp[0] != '*';
    assert TrimmedClause(c) == FirstOperator(c, Prefixed);
    TestedEarlier(op, e);
    FirstOperatorSkips(c, Prefixed, k);
    var tail := Prefixed[k..];
    assert tail != [] && tail[0] == op;
    FirstOperatorHit(tail, op, e);
  }

  /** The first operator of `ops` that a clause does start with takes the trimmed rest as its version. */
  lemma FirstOperatorHit(ops: seq<Operator>, op: Operator, e: string)
    requires ops != [] && ops[0] == op
    ensures var r, lv := FirstOperator(Spelling(op) + e, ops), ParseVersion(Trim(e));
      && (lv.Err? ==> r == Err(lv.error))
      && (lv.Ok? ==> r == Ok(OperatorRange(op, lv.value)))
  {
    var c := Spelling(op) + e;
    assert Spelling(op) <= c && c[|Spelling(op)|..] == e;
  }

  /** A trimmed clause without an operator is a bare version. */
  lemma ExactClause(t: string)
    requires t != "" && t != "*" && !StartsWithOperator(t)
    ensures var r, lv := TrimmedClause(t), ParseVersion(t);
      && (lv.Err? ==> r == Err(lv.error))
      && (lv.Ok? ==> r == Ok(OperatorRange(Exact, lv.value)))
  {
    FirstOperatorSkips(t, Prefixed, |Prefixed|);
  }

  /**
   * A clause `op lit` is read with operator `op` and literal `Trim(lit)`: a malformed
   * literal fails with `InvalidVersion` naming it, and otherwise the range admits
   * exactly what `op` means.
   */
  lemma ClauseReading(op: Operator, lit: string, w: Version)
    requires ReadsAs(op, lit)
    ensures var r, lv := ParseSingleConstraint(Spelling(op) + lit), ParseVersion(Trim(lit));
      && (lv.Err? ==> r == Err(lv.error) && lv.error.version == Trim(lit))
      && (lv.Ok? ==> r.Ok? && (Contains(r.value, w) <==> Admits(op, lv.value, w)))
  {
    var sp := Spelling(op);
    if op == Exact {
      assert sp + lit == lit;
      ExactClause(Trim(lit));
    } else {
      TrimAfterOperator(sp, lit);
      OperatorClause(op, TrimEnd(lit));
    }
    if ParseVersion(Trim(lit)).Ok? {
      OperatorRangeMeaning(op, ParseVersion(Trim(lit)).value, w);
    }
  }

  /** A version written out in full, as a clause's literal, reads back as that version. */
  lemma FormattedLiteral(v: Version)
    ensures Trim(Format(v)) == Format(v)
    ensures ParseVersion(Trim(Format(v))) == Ok(v)
  {
    var s := Format(v);
    var a, c := FormatNat(v.major), FormatNat(v.patch);
    assert s[0] == a[0] && s[|s| - 1] == c[|c| - 1];
    TrimUntouched(s);
    ParseVersionRoundTrip(s, v);
  }

  /**
   * Every operator written before a version in full reads as that operator on that
   * version, alone or as the only clause of a constraint.
   */
  lemma WrittenClause(op: Operator, v: Version, w: Version)
    ensures var r := ConstraintOf(Spelling(op) + Format(v));
      r.Ok? && (Contains(r.value, w) <==> Admits(op, v, w))
  {
    var s, lit := Spelling(op) + Format(v), Format(v);
    FormattedLiteral(v);
    assert lit[0] == FormatNat(v.major)[0];
    ClauseReading(op, lit, w);
    NoCommaWritten(op, v);
    SingleClause(s, w);
  }

  /** Two written clauses joined by a comma hold what both operators admit. */
  lemma WrittenPair(op1: Operator, v1: Version, op2: Operator, v2: Version, s: string, w: Version)
    requires s == (Spelling(op1) + Format(v1)) + "," + (Spelling(op2) + Format(v2))
    ensures ConstraintOf(s).Ok?
    ensures Contains(ConstraintOf(s).value, w) <==> Admits(op1, v1, w) && Admits(op2, v2, w)
  {
    var a, b := Spelling(op1) + Format(v1), Spelling(op2) + Format(v2);
    WrittenClause(op1, v1, w);
    WrittenClause(op2, v2, w);
    CommaIsConjunction(a, b, w);
  }

  /**
   * A clause whose literal does not start with a digit is rejected at that character,
   * while reading the major version number.
   */
  lemma NonDigitLiteral(op: Operator, lit: string)
    requires ReadsAs(op, lit)
    requires Trim(lit) != [] && !IsDigit(Trim(lit)[0])
    ensures ParseSingleConstraint(Spelling(op) + lit) ==
      Err(InvalidVersion(Trim(lit), UnexpectedChar(Major, Trim(lit)[0])))
  {
    ClauseReading(op, lit, Version(0, 0, 0));
  }

  /**
   * A constraint of one clause, an operator and a literal that starts with neither
   * white space nor a digit, fails naming that literal.
   */
  lemma RejectedConstraint(op: Operator, lit: string, s: string)
    requires s == Spelling(op) + lit && ',' !in s
    requires lit != [] && !IsSpace(lit[0]) && !IsSpace(lit[|lit| - 1]) && !IsDigit(lit[0])
    requires op == Greater || op == Less ==> lit[0] != '='
    requires op == Exact ==> lit != "*" && !StartsWithOperator(lit)
    ensures ConstraintOf(s) == Err(InvalidVersion(lit, UnexpectedChar(Major, lit[0])))
  {
    TrimUntouched(lit);
    NonDigitLiteral(op, lit);
    SingleClause(s, Version(0, 0, 0));
  }

  /** Neither an operator nor a version has a comma in it. */
  lemma NoCommaWritten(op: Operator, v: Version)
    ensures ',' !in Spelling(op) + Format(v)
  {
    var a, b, c := FormatNat(v.major), FormatNat(v.minor), FormatNat(v.patch);
    assert ',' !in a && ',' !in b && ',' !in c;
    assert ',' !in Spelling(op);
    assert Spelling(op) + Format(v) == Spelling(op) + a + "." + b + "." + c;
  }

  // ---------------------------------------------------------------------
  // What a whole constraint means

  /** A version is accepted by a clause when the clause parses and its range holds the version. */
  predicate AcceptedBy(clause: ClauseParser, p: string, w: Version)
  {
    clause(p).Ok? && Contains(clause(p).value, w)
  }

  lemma {:induction false} ConjoinMeaning(clause: ClauseParser, acc: Range, parts: seq<string>, w: Version)
    ensures Conjoin(clause, acc, parts).Ok? <==> forall p :: p in parts && p != "" ==> clause(p).Ok?
    ensures Conjoin(clause, acc, parts).Ok? ==>
      (Contains(Conjoin(clause, acc, parts).value, w) <==>
       Contains(acc, w) && forall p :: p in parts && p != "" ==> AcceptedBy(clause, p, w))
    decreases |parts|
  {
    if parts != [] {
      var rest := parts[1..];
      assert forall p :: p in parts <==> p == parts[0] || p in rest;
      if parts[0] == "" {
        ConjoinMeaning(clause, acc, rest, w);
      } else if clause(parts[0]).Ok? {
        var v := clause(parts[0]).value;
        ConjoinMeaning(clause, Intersection(acc, v), rest, w);
        assert AcceptedBy(clause, parts[0], w) <==> Contains(v, w);
        assert Contains(Intersection(acc, v), w) <==> Contains(acc, w) && Contains(v, w);
      }
    }
  }

  /** A failing fold fails at its first failing clause, whatever it had gathered. */
  lemma {:induction false} ConjoinFirstFailure(clause: ClauseParser, acc: Range, parts: seq<string>) returns (i: nat)
    requires Conjoin(clause, acc, parts).Err?
    ensures i < |parts| && parts[i] != "" && Conjoin(clause, acc, parts) == clause(parts[i])
    ensures forall j :: 0 <= j < i && parts[j] != "" ==> clause(parts[j]).Ok?
    ensures forall other :: Conjoin(clause, other, parts) == Conjoin(clause, acc, parts)
    decreases |parts|
  {
    var first := clause(parts[0]);
    if parts[0] != "" && first.Err? {
      i := 0;
      forall other ensures Conjoin(clause, other, parts) == first {
      }
    } else {
      var acc' := if parts[0] == "" then acc else Intersection(acc, first.value);
      var k := ConjoinFirstFailure(clause, acc', parts[1..]);
      i := k + 1;
      forall other ensures Conjoin(clause, other, parts) == Conjoin(clause, acc, parts) {
        var other' := if parts[0] == "" then other else Intersection(other, first.value);
        assert Conjoin(clause, other', parts[1..]) == Conjoin(clause, acc', parts[1..]);
      }
    }
  }

  /** Folding a list in two halves: the second half continues from where the first stopped. */
  lemma {:induction false} ConjoinAppend(clause: ClauseParser, acc: Range, ps: seq<string>, qs: seq<string>)
    ensures Conjoin(clause, acc, ps + qs) ==
      match Conjoin(clause, acc, ps) case Err(e) => Err(e) case Ok(r) => Conjoin(clause, r, qs)
    decreases |ps|
  {
    if ps == [] {
      assert ps + qs == qs;
    } else {
      assert (ps + qs)[1..] == ps[1..] + qs;
      if ps[0] == "" {
        ConjoinAppend(clause, acc, ps[1..], qs);
      } else if clause(ps[0]).Ok? {
        ConjoinAppend(clause, Intersection(acc, clause(ps[0]).value), ps[1..], qs);
      }
    }
  }

  lemma SplitWithoutSeparator(s: string, sep: char)
    requires sep !in s
    ensures Split(s, sep) == [s]
  {
    SplitPrefix(s, [], sep);
    assert s + [] == s;
  }

  /** Splitting before or after trimming the whole constraint gives the same clauses. */
  lemma PiecesOfTrim(s: string)
    ensures Pieces(Trim(s)) == Pieces(s)
  {
    SplitTrimmed(s, ',');
  }


  /** A comma splits a constraint into the clauses of its two sides. */
  lemma PiecesConcat(a: string, b: string)
    ensures Pieces(a + "," + b) == Pieces(a) + Pieces(b)
  {
    SplitConcat(a, b, ',');
    assert a + "," + b == a + [','] + b;
    TrimAllConcat(Split(a, ','), Split(b, ','));
  }

  /** The clauses `parse_constraint` short-cuts: an empty or `*` clause is the full range. */
  lemma ShortcutClauses()
    ensures ParseSingleConstraint("") == Ok(Full)
    ensures ParseSingleConstraint("*") == Ok(Full)
  {
    TrimUntouched("");
    TrimUntouched("*");
  }

  /** Trimming a clause first changes nothing: `parse_single_constraint` trims it anyway. */
  lemma ClauseOfTrim(s: string)
    ensures ParseSingleConstraint(Trim(s)) == ParseSingleConstraint(s)
  {
    TrimIdempotent(s);
  }

  /** `parse_constraint`'s shortcut for `""` and `"*"` agrees with folding its clauses. */
  lemma ConstraintAsFold(clause: ClauseParser, s: string, w: Version)
    requires clause("*") == Ok(Full)
    ensures var r, f := ReadConstraint(clause, s), Conjoin(clause, Full, Pieces(s));
      && (r.Err? ==> f == r)
      && (r.Ok? <==> f.Ok?)
      && (r.Ok? ==> (Contains(r.value, w) <==> Contains(f.value, w)))
  {
    var t := Trim(s);
    PiecesOfTrim(s);
    if t == "" || t == "*" {
      ShortcutAsFold(clause, t, w);
    }
  }

  /** The fold over the pieces of a short-cut constraint admits every version. */
  lemma ShortcutAsFold(clause: ClauseParser, t: string, w: Version)
    requires clause("*") == Ok(Full)
    requires t == "" || t == "*"
    ensures var f := Conjoin(clause, Full, Pieces(t)); f.Ok? && Contains(f.value, w)
  {
    PiecesOfShortcuts();
    assert Pieces(t) == [t] && [t][1..] == [];
    if t == "*" {
      ConjoinOne(clause, t, w);
    }
  }

  /** The constraints `parse_constraint` short-cuts are single clauses. */
  lemma PiecesOfShortcuts()
    ensures Pieces("") == [""] && Pieces("*") == ["*"]
  {
    PiecesOfChar('*');
    TrimAllSingle("");
    TrimUntouched("");
  }

  /** A single character that is neither a comma nor white space is a piece of its own. */
  lemma PiecesOfChar(c: char)
    requires c != ',' && !IsSpace(c)
    ensures Pieces([c]) == [[c]]
  {
    SplitSingle(c, ',');
    TrimAllSingle([c]);
    TrimUntouched([c]);
  }

  /**
   * A constraint parses exactly when each of its non-empty clauses does, and
   * then it holds exactly the versions every non-empty clause accepts.
   */
  lemma ConstraintMeaning(s: string, w: Version)
    ensures ConstraintOf(s).Ok? <==> forall p :: p in Pieces(s) && p != "" ==> ParseSingleConstraint(p).Ok?
    ensures ConstraintOf(s).Ok? ==>
      (Contains(ConstraintOf(s).value, w) <==> forall p :: p in Pieces(s) && p != "" ==> AcceptedBy(ParseSingleConstraint, p, w))
  {
    ShortcutClauses();
    ReadMeaning(ParseSingleConstraint, s, w);
  }

  /** `ConstraintMeaning` for any clause reader that reads `*` as the full range. */
  lemma ReadMeaning(clause: ClauseParser, s: string, w: Version)
    requires clause("*") == Ok(Full)
    ensures ReadConstraint(clause, s).Ok? <==> forall p :: p in Pieces(s) && p != "" ==> clause(p).Ok?
    ensures ReadConstraint(clause, s).Ok? ==>
      (Contains(ReadConstraint(clause, s).value, w) <==> forall p :: p in Pieces(s) && p != "" ==> AcceptedBy(clause, p, w))
  {
    ConstraintAsFold(clause, s, w);
    ConjoinMeaning(clause, Full, Pieces(s), w);
  }

  /**
   * A constraint that fails reports `InvalidVersion` from its first malformed
   * clause; `InvalidConstraint` is never produced.
   */
  lemma ConstraintError(s: string) returns (i: nat)
    requires ConstraintOf(s).Err?
    ensures ConstraintOf(s).error.InvalidVersion?
    ensures i < |Pieces(s)| && Pieces(s)[i] != "" && ConstraintOf(s) == ParseSingleConstraint(Pieces(s)[i])
    ensures forall j :: 0 <= j < i && Pieces(s)[j] != "" ==> ParseSingleConstraint(Pieces(s)[j]).Ok?
  {
    ShortcutClauses();
    ConstraintAsFold(ParseSingleConstraint, s, Version(0, 0, 0));
    i := ConjoinFirstFailure(ParseSingleConstraint, Full, Pieces(s));
  }

  /**
   * Joining two constraints with a comma intersects them: the result parses when
   * both do and holds what both hold; otherwise it fails with the first side's error.
   */
  lemma CommaIsConjunction(a: string, b: string, w: Version)
    ensures var ab, ra, rb := ConstraintOf(a + "," + b), ConstraintOf(a), ConstraintOf(b);
      && (ab.Ok? <==> ra.Ok? && rb.Ok?)
      && (ab.Ok? ==> (Contains(ab.value, w) <==> Contains(ra.value, w) && Contains(rb.value, w)))
      && (ra.Err? ==> ab == ra)
      && (ra.Ok? && rb.Err? ==> ab == rb)
  {
    var s := a + "," + b;
    var pa, pb := Pieces(a), Pieces(b);
    PiecesConcat(a, b);
    ConstraintMeaning(s, w);
    ConstraintMeaning(a, w);
    ConstraintMeaning(b, w);
    ShortcutClauses();
    ConstraintAsFold(ParseSingleConstraint, s, w);
    ConstraintAsFold(ParseSingleConstraint, a, w);
    ConstraintAsFold(ParseSingleConstraint, b, w);
    assert forall p :: p in pa + pb <==> p in pa || p in pb;
    ConjoinAppend(ParseSingleConstraint, Full, pa, pb);
    var fa := Conjoin(ParseSingleConstraint, Full, pa);
    if fa.Ok? && ConstraintOf(b).Err? {
      var _ := ConjoinFirstFailure(ParseSingleConstraint, Full, pb);
    }
  }

  /** A trailing comma changes nothing: `">=1.0.0,"` means `">=1.0.0"`. */
  lemma TrailingCommaIgnored(a: string, w: Version)
    ensures var r, ra := ConstraintOf(a + ","), ConstraintOf(a);
      && (r.Ok? <==> ra.Ok?)
      && (r.Ok? ==> (Contains(r.value, w) <==> Contains(ra.value, w)))
      && (ra.Err? ==> r == ra)
  {
    CommaIsConjunction(a, "", w);
    assert a + "," + "" == a + ",";
  }

  /** `"*"` on its own is the full range. */
  lemma StarConstraint()
    ensures ConstraintOf("*") == Ok(Full)
  {
    TrimUntouched("*");
  }

  /** A `*` clause in a list leaves the intersection unchanged. */
  lemma StarClauseNeutral(a: string, w: Version)
    ensures var r, ra := ConstraintOf(a + ",*"), ConstraintOf(a);
      && (r.Ok? <==> ra.Ok?)
      && (r.Ok? ==> (Contains(r.value, w) <==> Contains(ra.value, w)))
      && (ra.Err? ==> r == ra)
  {
    CommaIsConjunction(a, "*", w);
    assert a + "," + "*" == a + ",*";
    StarConstraint();
  }

  /** A fold over a single clause is that clause. */
  lemma ConjoinOne(clause: ClauseParser, p: string, w: Version)
    requires p == "" ==> clause(p) == Ok(Full)
    ensures var r, c := Conjoin(clause, Full, [p]), clause(p);
      && (r.Ok? <==> c.Ok?)
      && (r.Ok? ==> (Contains(r.value, w) <==> Contains(c.value, w)))
      && (r.Err? ==> r == c)
  {
    assert [p][1..] == [];
  }

  /** A constraint without commas is just its one clause. */
  lemma SingleClause(s: string, w: Version)
    requires ',' !in s
    ensures var r, c := ConstraintOf(s), ParseSingleConstraint(s);
      && (r.Ok? <==> c.Ok?)
      && (r.Ok? ==> (Contains(r.value, w) <==> Contains(c.value, w)))
      && (r.Err? ==> r == c)
  {
    SplitWithoutSeparator(s, ',');
    assert Pieces(s) == [Trim(s)];
    ShortcutClauses();
    ClauseOfTrim(s);
    ConstraintAsFold(ParseSingleConstraint, s, w);
    ConjoinOne(ParseSingleConstraint, Trim(s), w);
  }
}
