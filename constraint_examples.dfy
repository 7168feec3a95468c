/**
 * The constraint parser's behaviour on the inputs its own tests and the Python
 * tests use, derived from the general lemmas of module Constraint.
 */
module ConstraintExamples {
  import opened Wrappers
  import opened Semver
  import opened Ranges
  import opened Errors
  import opened Constraint

  /**
   * `WrittenClause` for a literal `text` that is `op` written before the version
   * `v` in full; it only lets the examples below name their constraint as a literal.
   */
  lemma Written(op: Operator, v: Version, text: string, w: Version)
    requires text == Spelling(op) + Format(v)
    ensures ConstraintOf(text).Ok?
    ensures Contains(ConstraintOf(text).value, w) <==> Admits(op, v, w)
  {
    WrittenClause(op, v, w);
  }

  /** Release triples read back. */
  lemma ParseVersionExample()
    ensures ParseVersion("1.0.0") == Ok(Version(1, 0, 0))
  {
    assert Format(Version(1, 0, 0)) == "1.0.0";
    ParseVersionRoundTrip("", Version(1, 0, 0));
  }

  lemma ParseVersionLeadingZeroMajor()
    ensures ParseVersion("0.1.0") == Ok(Version(0, 1, 0))
  {
    assert Format(Version(0, 1, 0)) == "0.1.0";
    ParseVersionRoundTrip("", Version(0, 1, 0));
  }

  lemma ParseVersionTwoDigits()
    ensures ParseVersion("10.20.30") == Ok(Version(10, 20, 30))
  {
    assert Format(Version(10, 20, 30)) == "10.20.30";
    ParseVersionRoundTrip("", Version(10, 20, 30));
  }

  /** A word is not a version: the parser stops at its first letter. */
  lemma InvalidVersionExample()
    ensures ParseVersion("invalid") == Err(InvalidVersion("invalid", UnexpectedChar(Major, 'i')))
  {
  }

  /** `">=1.0.0"` holds 1.0.0 and 2.0.0, not 0.9.0. */
  lemma AtLeastExample()
    ensures var r := ConstraintOf(">=1.0.0");
      r.Ok? && Contains(r.value, Version(1, 0, 0)) && Contains(r.value, Version(2, 0, 0))
      && !Contains(r.value, Version(0, 9, 0))
  {
    Written(AtLeast, Version(1, 0, 0), ">=1.0.0", Version(1, 0, 0));
    Written(AtLeast, Version(1, 0, 0), ">=1.0.0", Version(2, 0, 0));
    Written(AtLeast, Version(1, 0, 0), ">=1.0.0", Version(0, 9, 0));
  }

  /** `"<=2.0.0"` holds 2.0.0 but not 2.0.1 or 3.0.0. */
  lemma AtMostExample()
    ensures var r := ConstraintOf("<=2.0.0");
      r.Ok? && Contains(r.value, Version(2, 0, 0)) && !Contains(r.value, Version(2, 0, 1))
      && !Contains(r.value, Version(3, 0, 0))
  {
    Written(AtMost, Version(2, 0, 0), "<=2.0.0", Version(2, 0, 0));
    Written(AtMost, Version(2, 0, 0), "<=2.0.0", Version(2, 0, 1));
    Written(AtMost, Version(2, 0, 0), "<=2.0.0", Version(3, 0, 0));
  }

  /** `">1.0.0"` holds 1.0.1 but not 1.0.0 or 0.9.0. */
  lemma GreaterExample()
    ensures var r := ConstraintOf(">1.0.0");
      r.Ok? && Contains(r.value, Version(1, 0, 1)) && !Contains(r.value, Version(1, 0, 0))
      && !Contains(r.value, Version(0, 9, 0))
  {
    Written(Greater, Version(1, 0, 0), ">1.0.0", Version(1, 0, 1));
    Written(Greater, Version(1, 0, 0), ">1.0.0", Version(1, 0, 0));
    Written(Greater, Version(1, 0, 0), ">1.0.0", Version(0, 9, 0));
  }

  /** `"<2.0.0"` holds 1.9.9 but not 2.0.0. */
  lemma LessExample()
    ensures var r := ConstraintOf("<2.0.0");
      r.Ok? && Contains(r.value, Version(1, 9, 9)) && !Contains(r.value, Version(2, 0, 0))
  {
    Written(Less, Version(2, 0, 0), "<2.0.0", Version(1, 9, 9));
    Written(Less, Version(2, 0, 0), "<2.0.0", Version(2, 0, 0));
  }

  /** `"==1.5.0"` holds 1.5.0 and neither neighbour. */
  lemma EqualExample()
    ensures var r := ConstraintOf("==1.5.0");
      r.Ok? && Contains(r.value, Version(1, 5, 0)) && !Contains(r.value, Version(1, 4, 0))
      && !Contains(r.value, Version(1, 6, 0))
  {
    Written(Equal, Version(1, 5, 0), "==1.5.0", Version(1, 5, 0));
    Written(Equal, Version(1, 5, 0), "==1.5.0", Version(1, 4, 0));
    Written(Equal, Version(1, 5, 0), "==1.5.0", Version(1, 6, 0));
  }

  /** `"!=1.3.0"` leaves out 1.3.0 and keeps the patches on either side. */
  lemma NotEqualExample()
    ensures var r := ConstraintOf("!=1.3.0");
      r.Ok? && !Contains(r.value, Version(1, 3, 0)) && Contains(r.value, Version(1, 3, 1))
      && Contains(r.value, Version(1, 2, 9))
  {
    Written(NotEqual, Version(1, 3, 0), "!=1.3.0", Version(1, 3, 0));
    Written(NotEqual, Version(1, 3, 0), "!=1.3.0", Version(1, 3, 1));
    Written(NotEqual, Version(1, 3, 0), "!=1.3.0", Version(1, 2, 9));
  }

  /** `"~=1.4.0"` holds the 1.4 series from 1.4.0 on, and nothing of 1.3 or 1.5. */
  lemma CompatibleExample()
    ensures var r := ConstraintOf("~=1.4.0");
      r.Ok? && Contains(r.value, Version(1, 4, 0)) && Contains(r.value, Version(1, 4, 5))
      && !Contains(r.value, Version(1, 5, 0)) && !Contains(r.value, Version(1, 3, 0))
  {
    Written(Compatible, Version(1, 4, 0), "~=1.4.0", Version(1, 4, 0));
    Written(Compatible, Version(1, 4, 0), "~=1.4.0", Version(1, 4, 5));
    Written(Compatible, Version(1, 4, 0), "~=1.4.0", Version(1, 5, 0));
    Written(Compatible, Version(1, 4, 0), "~=1.4.0", Version(1, 3, 0));
  }

  /** `">=1.0.0,<2.0.0"` holds exactly the versions from 1.0.0 up to, not including, 2.0.0. */
  lemma CombinedExample(w: Version)
    ensures var r := ConstraintOf(">=1.0.0,<2.0.0");
      r.Ok? && (Contains(r.value, w) <==> Le(Version(1, 0, 0), w) && Lt(w, Version(2, 0, 0)))
  {
    WrittenPair(AtLeast, Version(1, 0, 0), Less, Version(2, 0, 0), ">=1.0.0,<2.0.0", w);
  }

  /**
   * `">>invalid<<"` is read as `>` followed by the literal `">invalid<<"`, which is
   * not a version: the error names that literal, and its message starts with "Invalid".
   */
  lemma MalformedExample()
    ensures ConstraintOf(">>invalid<<") == Err(InvalidVersion(">invalid<<", UnexpectedChar(Major, '>')))
    ensures "Invalid " <= Message(ConstraintOf(">>invalid<<").error)
  {
    RejectedConstraint(Greater, ">invalid<<", ">>invalid<<");
    MessageTellsKind(ConstraintOf(">>invalid<<").error);
  }

  /** A bare word is read as a version and rejected. */
  lemma WordExample()
    ensures ConstraintOf("abc") == Err(InvalidVersion("abc", UnexpectedChar(Major, 'a')))
  {
    RejectedConstraint(Exact, "abc", "abc");
  }
  /**
   * A quoted literal, `>='1.0.0'`, is rejected at its quote, and the reason shows the
   * quote escaped: "unexpected character '\\'' while parsing major version number".
   */
  lemma QuotedLiteralExample()
    ensures ConstraintOf(">='1.0.0'") == Err(InvalidVersion("'1.0.0'", UnexpectedChar(Major, '\'')))
    ensures CharDebug('\'') == ['\'', '\\', '\'', '\'']
  {
    var lit := "'1.0.0'";
    assert ">='1.0.0'" == Spelling(AtLeast) + lit;
    assert lit[0] == '\'' && lit[|lit| - 1] == '\'';
    RejectedConstraint(AtLeast, lit, ">='1.0.0'");
    QuoteEscaped();
  }

}
