/** The semantic-version scanner and comparator of the audience-matching layer
    (class SemanticVersion). Exceptions become `Failure` values. */
module SemanticVersion {
  import opened Wrappers
  import opened Lexical
  import opened JavaString
  import opened VersionSyntax

  datatype Error =
    | ContainsWhiteSpace          // the version string contains ' '
    | InvalidVersion              // any other malformed version string
    | PreReleaseIndexOutOfBounds  // the actual has fewer pre-release identifiers than the target

  /** How the core loop treats a '.' that follows the third part. `AsWritten`
      consumes it, as the source does; `Strict` leaves it, so it is rejected
      as a trailing character. */
  datatype Dialect = AsWritten | Strict

  /** The core loop: one digit run per iteration, at most `slots` more parts.
      Returns the parts and the position after the core. */
  function ScanCore(input: string, pos: nat, slots: nat, dialect: Dialect): (r: Result<(seq<nat>, nat), Error>)
    requires pos <= |input| && 1 <= slots
    ensures r.Success? ==> 1 <= |r.value.0| <= slots && pos < r.value.1 <= |input|
    ensures r.Failure? ==> r.error == InvalidVersion
    decreases slots
  {
    var end := RunEnd(input, pos, Digits);
    RunEndProps(input, pos, Digits);
    if end == pos || (input[pos] == '0' && end - pos > 1) then Failure(InvalidVersion)
    else
      var part := NumeralValue(input[pos..end]);
      if end < |input| && input[end] == '.' then
        if slots > 1 then
          var rest :- ScanCore(input, end + 1, slots - 1, dialect);
          Success(([part] + rest.0, rest.1))
        else if dialect == AsWritten then Success(([part], end + 1))
        else Success(([part], end))
      else Success(([part], end))
  }

  /** Build metadata (stateMeta): dot-separated identifiers up to the end of input. */
  function ScanBuild(input: string, pos: nat): (r: Result<seq<string>, Error>)
    requires pos <= |input|
    ensures r.Success? ==> BuildIds(r.value)
    ensures r.Failure? ==> r.error == InvalidVersion
    decreases |input| - pos
  {
    var end := RunEnd(input, pos, Identifier);
    RunEndProps(input, pos, Identifier);
    if end == pos then Failure(InvalidVersion)
    else
      var id := input[pos..end];
      if end == |input| then Success([id])
      else if input[end] == '.' then
        var rest :- ScanBuild(input, end + 1);
        Success([id] + rest)
      else Failure(InvalidVersion)
  }

  /** Pre-release (stateRelease): dot-separated identifiers, none starting with
      '0', up to the end of input or a '+' that starts build metadata. */
  function ScanRelease(input: string, pos: nat): (r: Result<(seq<string>, Option<seq<string>>), Error>)
    requires pos <= |input|
    ensures r.Success? ==> PreReleaseIds(r.value.0) && (r.value.1.Some? ==> BuildIds(r.value.1.value))
    ensures r.Failure? ==> r.error == InvalidVersion
    decreases |input| - pos
  {
    var end := RunEnd(input, pos, Identifier);
    RunEndProps(input, pos, Identifier);
    if end == pos then Failure(InvalidVersion)
    else if input[pos] == '0' then Failure(InvalidVersion)
    else
      var id := input[pos..end];
      if end == |input| then Success(([id], None))
      else if input[end] == '.' then
        var rest :- ScanRelease(input, end + 1);
        Success(([id] + rest.0, rest.1))
      else if input[end] == '+' then
        var build :- ScanBuild(input, end + 1);
        Success(([id], Some(build)))
      else Failure(InvalidVersion)
  }

  /** splitSemanticVersion: a space anywhere fails first; then the core, then at
      most one of a '+' build list or a '-' pre-release list, each allowed only
      after three core parts. */
  function ParseWith(s: string, dialect: Dialect): (r: Result<Version, Error>)
    ensures ' ' in s ==> r == Failure(ContainsWhiteSpace)
    ensures r.Failure? && ' ' !in s ==> r.error == InvalidVersion
    ensures r.Success? ==> WellFormed(r.value)
  {
    if ' ' in s then Failure(ContainsWhiteSpace)
    else
      var core :- ScanCore(s, 0, 3, dialect);
      var parts := core.0;
      var pos := core.1;
      if pos == |s| then Success(Version(parts, None, None))
      else if s[pos] == '+' then
        if |parts| < 3 then Failure(InvalidVersion)
        else
          var build :- ScanBuild(s, pos + 1);
          Success(Version(parts, None, Some(build)))
      else if s[pos] == '-' then
        if |parts| < 3 then Failure(InvalidVersion)
        else
          var release :- ScanRelease(s, pos + 1);
          Success(Version(parts, Some(release.0), release.1))
      else Failure(InvalidVersion)
  }

  /** The parser as the source has it. */
  function Parse(s: string): Result<Version, Error> {
    ParseWith(s, AsWritten)
  }

  /** The parser with a '.' after the third core part rejected. */
  function ParseStrict(s: string): Result<Version, Error> {
    ParseWith(s, Strict)
  }

  predicate IsPrefix<T(==)>(p: seq<T>, s: seq<T>) {
    |p| <= |s| && s[..|p|] == p
  }

  /** The core loop of compare: only the target's positions are examined; the
      first differing part decides by numeric order, and an actual that runs
      out of parts first is smaller. Zero exactly when the target's parts are
      a prefix of the actual's, so a shorter target is a wildcard. */
  function CoreOrder(actual: seq<nat>, target: seq<nat>): (r: int)
    ensures -1 <= r <= 1
    ensures r == 0 <==> IsPrefix(target, actual)
    decreases |target|
  {
    if |target| == 0 then 0
    else if |actual| == 0 then -1
    else if actual[0] != target[0] then (if actual[0] < target[0] then -1 else 1)
    else
      assert |target| > |actual| || actual[..|target|] == [actual[0]] + actual[1..][..|target| - 1];
      assert target == [target[0]] + target[1..];
      CoreOrder(actual[1..], target[1..])
  }

  /** The pre-release loop of compare: identifiers at the target's indices are
      compared with `compareTo`, the first non-zero result decides, and an
      actual list shorter than needed makes `get(index)` throw. */
  function PreReleaseOrder(actual: seq<string>, target: seq<string>): (r: Result<int, Error>)
    ensures r.Failure? <==> |actual| < |target| && IsPrefix(actual, target)
    ensures r == Success(0) <==> IsPrefix(target, actual)
    decreases |target|
  {
    if |target| == 0 then Success(0)
    else if |actual| == 0 then Failure(PreReleaseIndexOutOfBounds)
    else
      var c := CompareTo(actual[0], target[0]);
      if c != 0 then Success(c)
      else
        assert |target| > |actual| || actual[..|target|] == [actual[0]] + actual[1..][..|target| - 1];
        assert |actual| > |target| || target[..|actual|] == [target[0]] + target[1..][..|actual| - 1];
        assert target == [target[0]] + target[1..];
        assert actual == [actual[0]] + actual[1..];
        PreReleaseOrder(actual[1..], target[1..])
  }

  /** compare on parsed operands; build metadata is never consulted. It fails
      only when the cores match on the target's parts and the actual's
      pre-release list is a proper prefix of the target's; it is zero exactly
      when the target's parts are a prefix of the actual's and, if the target
      has a pre-release list, the actual has one that extends it. */
  function CompareVersions(actual: Version, target: Version): (r: Result<int, Error>)
    ensures r.Failure? <==>
              && IsPrefix(target.core, actual.core)
              && actual.preRelease.Some? && target.preRelease.Some?
              && |actual.preRelease.value| < |target.preRelease.value|
              && IsPrefix(actual.preRelease.value, target.preRelease.value)
    ensures r == Success(0) <==>
              && IsPrefix(target.core, actual.core)
              && (target.preRelease.Some? ==>
                    actual.preRelease.Some? && IsPrefix(target.preRelease.value, actual.preRelease.value))
  {
    var c := CoreOrder(actual.core, target.core);
    if c != 0 then Success(c)
    else if target.preRelease.None? then Success(0)
    else if actual.preRelease.None? then Success(1)
    else PreReleaseOrder(actual.preRelease.value, target.preRelease.value)
  }

  /** `actual.compare(target)`: an absent or empty target compares equal before
      anything is parsed; otherwise the target is parsed, then the actual, and
      the parsed values are compared. */
  function Compare(actual: string, target: Option<string>): (r: Result<int, Error>)
    ensures target.None? || target.value == [] ==> r == Success(0)
    ensures target.Some? && target.value != [] && Parse(target.value).Failure? ==> r == Failure(Parse(target.value).error)
    ensures target.Some? && target.value != [] && Parse(target.value).Success? && Parse(actual).Failure? ==> r == Failure(Parse(actual).error)
  {
    if target.None? || target.value == [] then Success(0)
    else
      var t :- Parse(target.value);
      var a :- Parse(actual);
      CompareVersions(a, t)
  }
}
