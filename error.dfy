/** The resolver's error type and the messages it displays. */
module Errors {

  import Semver

  /**
   * The resolver's errors. The reason of an invalid version is kept as the
   * version parser's own error and turned into text when the message is built;
   * the reason of an invalid constraint is named `detail` here, since a field
   * name is shared by every variant that has it.
   */
  datatype ResolverError =
    | InvalidVersion(version: string, reason: Semver.Error)
    | InvalidConstraint(constraint: string, detail: string)
    | ResolutionFailed(message: string, explanation: string)

  /** `Display` of an error (its `to_string`). */
  function Message(e: ResolverError): string
  {
    match e
    case InvalidVersion(version, reason) => "Invalid version '" + version + "': " + Semver.Describe(reason)
    case InvalidConstraint(constraint, detail) => "Invalid constraint '" + constraint + "': " + detail
    case ResolutionFailed(message, _) => "Resolution failed: " + message
  }

  /** Each message shows its fields verbatim at fixed offsets, so they can be read back. */
  lemma MessageShowsFields(e: ResolverError)
    ensures e.InvalidVersion? ==>
      var m, n := Message(e), |e.version|;
      |m| == 20 + n + |Semver.Describe(e.reason)| && m[17..17 + n] == e.version && m[20 + n..] == Semver.Describe(e.reason)
    ensures e.InvalidConstraint? ==>
      var m, n := Message(e), |e.constraint|;
      |m| == 23 + n + |e.detail| && m[20..20 + n] == e.constraint && m[23 + n..] == e.detail
    ensures e.ResolutionFailed? ==> Message(e)[19..] == e.message
  {
    match e
    case InvalidVersion(version, reason) =>
      var d := Semver.Describe(reason);
      var m := Message(e);
      assert m == "Invalid version '" + version + "': " + d;
      assert m[17..17 + |version|] == version;
      assert m[20 + |version|..] == d;
    case InvalidConstraint(constraint, detail) =>
    case ResolutionFailed(_, _) =>
  }

  /** The explanation of a failed resolution is not part of its message. */
  lemma MessageOmitsExplanation(message: string, x: string, y: string)
    ensures Message(ResolutionFailed(message, x)) == Message(ResolutionFailed(message, y))
  {
  }

  /** The kind of error can be told from the start of its message. */
  lemma MessageTellsKind(e: ResolverError)
    ensures "Invalid " <= Message(e) <==> !e.ResolutionFailed?
    ensures "Invalid version '" <= Message(e) <==> e.InvalidVersion?
    ensures "Invalid constraint '" <= Message(e) <==> e.InvalidConstraint?
    ensures "Resolution failed: " <= Message(e) <==> e.ResolutionFailed?
  {
    var m := Message(e);
    match e
    case InvalidVersion(version, _) =>
      assert m[..17] == "Invalid version '";
      assert m[0] == 'I' && m[8] == 'v';
    case InvalidConstraint(constraint, _) =>
      assert m[..20] == "Invalid constraint '";
      assert m[0] == 'I' && m[8] == 'c';
    case ResolutionFailed(_, _) =>
      assert m[..19] == "Resolution failed: ";
      assert m[0] == 'R';
  }
}
