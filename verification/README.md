# Semantic-version and substring matching for audience conditions

This project models two leaf matchers of the SDK's audience-condition
evaluator.

- `SemanticVersion` scans a version string into a core and suffix lists:
  - one to three numeric core parts: major, minor, patch;
  - an optional list of pre-release identifiers after `-`;
  - an optional list of build-metadata identifiers after `+`.

  It then compares an actual version against a targeted version. The
  scanner is a small state machine:
  - the core loop of `splitSemanticVersion`;
  - `stateRelease` for pre-release identifiers;
  - `stateMeta` for build metadata.

  The comparator `compare` has four steps:
  1. It treats an absent or empty target as equal.
  2. It walks the target's core parts.
  3. A release actual beats a pre-release target.
  4. Otherwise it compares pre-release identifiers with Java's `String.compareTo`.
- `SubstringMatch` is the tri-state substring matcher:
  - a non-string condition is an error;
  - a non-string attribute gives "unknown";
  - otherwise the result is whether the attribute contains the condition.

The model is pure. A thrown exception becomes a `Failure` value of `Result`.
The scanner's mutable `preParts`/`metaParts` fields become parts of the
returned `Version`. Java `null` lists become `None`.

The model has eight modules:

- `Wrappers`: `Result` and `Option`.
- `Lexical`: character classes, maximal runs, decimal numerals and joining.
- `JavaString`: `String.compareTo` and `String.contains`. Each is stated
  against an independent definition: lexicographic order and substring
  occurrence.
- `VersionSyntax`: the `Version` datatype and the `WellFormed` shape of
  accepted versions. It also holds `Render`, the canonical text of a
  version. `Render` is the reference the scanner is proved against.
- `SemanticVersion`: the scanner and the comparator.
- `ParseRoundTrip` proves both directions against `Render`:
  - every accepted string is the rendering of its result;
  - every well-formed version's rendering is accepted and gives the version
    back.
- `VersionOrder`: the order `compare` imposes, against first-difference
  characterisations.
- `SubstringMatch`: the substring matcher.

`SemanticVersionVectors` restates the repository's semantic-version unit
tests as lemmas about the model.

A '.' that follows the third core part is consumed by the source's core loop,
so "1.2.3." is accepted as 1.2.3. The scanner takes a `Dialect` parameter:
- `AsWritten` (`Parse`) is the behaviour of the code;
- `Strict` (`ParseStrict`) rejects that '.' as a trailing character.

The comparator uses `Parse`, as the code does. See "## Findings".

Where the code differs from the documented grammar, the model follows the code:

- Every pre-release identifier that starts with '0' is rejected, not only
  all-digit ones. For example, "1.0.0-0abc" fails.
- A pre-release actual against a release target with the same core compares
  as 0. The unit test at SemanticVersionTest.java lines 281-286 expects a
  negative result.

## Model

| member | source | states |
|---|---|---|
| Lexical.RunEndProps | core-api/src/main/java/com/optimizely/ab/config/audience/match/SemanticVersion.java:77-82 | the scanning loop stops at the first character outside the class: everything before it is in the class and the stop is the end of input or an outside character |
| Lexical.Decimal | core-api/src/main/java/com/optimizely/ab/config/audience/match/SemanticVersion.java:147-152 | every natural has a canonical numeral (non-empty digits, no leading zero unless exactly "0") whose value is that natural |
| Lexical.CanonicalNumeralRoundTrip | core-api/src/main/java/com/optimizely/ab/config/audience/match/SemanticVersion.java:147-152 | a core part that passes the empty/leading-zero check is exactly the canonical numeral of the value `parseNumeric` reads from it, so parsing a part loses nothing |
| JavaString.CompareTo | core-api/src/main/java/com/optimizely/ab/config/audience/match/SemanticVersion.java:63 | `compareTo` is zero exactly when the two identifiers are equal |
| JavaString.CompareToNegative | core-api/src/main/java/com/optimizely/ab/config/audience/match/SemanticVersion.java:63 | `compareTo` is negative exactly when the first identifier precedes the second in lexicographic order on characters (a proper prefix precedes its extensions) |
| JavaString.CompareToAntisymmetric | core-api/src/main/java/com/optimizely/ab/config/audience/match/SemanticVersion.java:63 | swapping the operands of `compareTo` negates the result |
| JavaString.Contains | core-api/src/main/java/com/optimizely/ab/config/audience/match/SubstringMatch.java:37 | `contains` is true exactly when the needle occurs as a contiguous substring of the haystack |
| VersionSyntax.RenderChars | core-api/src/main/java/com/optimizely/ab/config/audience/match/SemanticVersion.java:131-133 | the text of a well-formed version contains no space, so the whitespace check never rejects it |
| SemanticVersion.ScanCore | core-api/src/main/java/com/optimizely/ab/config/audience/match/SemanticVersion.java:141-159 | the core loop yields between one and three parts (no more than the slots left) and stops after at least one character, at most at the end of input; every failure is the invalid-version error |
| SemanticVersion.ScanBuild | core-api/src/main/java/com/optimizely/ab/config/audience/match/SemanticVersion.java:106-127 | `stateMeta` succeeds only with a non-empty list of non-empty [0-9A-Za-z-] identifiers, and every failure is the invalid-version error |
| SemanticVersion.ScanRelease | core-api/src/main/java/com/optimizely/ab/config/audience/match/SemanticVersion.java:75-104 | `stateRelease` succeeds only with a non-empty list of identifiers none of which starts with '0', and any build list after '+' is valid build metadata; every failure is the invalid-version error |
| SemanticVersion.ParseWith | core-api/src/main/java/com/optimizely/ab/config/audience/match/SemanticVersion.java:129-180 | a string with a space fails with the white-space error whatever else it holds; every accepted string yields a well-formed version (1-3 parts, exactly 3 when a suffix is present, valid identifier lists); every other failure, on a string without a space, is the invalid-version error |
| SemanticVersion.CoreOrder | core-api/src/main/java/com/optimizely/ab/config/audience/match/SemanticVersion.java:45-56 | the core loop returns -1, 0 or 1, and 0 exactly when the target's parts are a prefix of the actual's (a shorter target is a wildcard) |
| SemanticVersion.PreReleaseOrder | core-api/src/main/java/com/optimizely/ab/config/audience/match/SemanticVersion.java:61-67 | the pre-release loop throws exactly when the actual list is a proper prefix of the target list, and returns 0 exactly when the target list is a prefix of the actual list |
| SemanticVersion.CompareVersions | core-api/src/main/java/com/optimizely/ab/config/audience/match/SemanticVersion.java:45-70 | comparing parsed versions fails exactly when the cores match and the actual's pre-release list is a proper prefix of the target's, and is 0 exactly when the target's core is a prefix of the actual's and any target pre-release list is a prefix of the actual's |
| SemanticVersion.Compare | core-api/src/main/java/com/optimizely/ab/config/audience/match/SemanticVersion.java:36-43 | an absent or empty target compares equal without parsing; otherwise a target parse error is raised first, then an actual parse error |
| ParseRoundTrip.ScanBuildSound | core-api/src/main/java/com/optimizely/ab/config/audience/match/SemanticVersion.java:106-127 | the build identifiers `stateMeta` collects, joined by '.', are exactly the rest of the input |
| ParseRoundTrip.ScanReleaseSound | core-api/src/main/java/com/optimizely/ab/config/audience/match/SemanticVersion.java:75-104 | the pre-release identifiers joined by '.', followed by '+' and the build list when present, are exactly the rest of the input |
| ParseRoundTrip.ScanCoreSound | core-api/src/main/java/com/optimizely/ab/config/audience/match/SemanticVersion.java:141-159 | the text the core loop consumes is the canonical rendering of its parts, plus a '.' only after the last allowed part in the as-written dialect |
| ParseRoundTrip.ParseWithSound | core-api/src/main/java/com/optimizely/ab/config/audience/match/SemanticVersion.java:129-180 | an accepted string is the rendering of its result, or (as written only) that rendering with one extra '.' after a three-part core |
| ParseRoundTrip.ParseStrictSound | core-api/src/main/java/com/optimizely/ab/config/audience/match/SemanticVersion.java:129-180 | with the trailing '.' rejected, every accepted string is exactly the rendering of the version it yields |
| ParseRoundTrip.ScanBuildComplete | core-api/src/main/java/com/optimizely/ab/config/audience/match/SemanticVersion.java:106-127 | any non-empty list of valid build identifiers joined by '.' is read back by `stateMeta` as that list |
| ParseRoundTrip.ScanReleaseComplete | core-api/src/main/java/com/optimizely/ab/config/audience/match/SemanticVersion.java:75-104 | any valid pre-release list, optionally followed by '+' and a valid build list, is read back by `stateRelease` as those lists |
| ParseRoundTrip.ScanCoreComplete | core-api/src/main/java/com/optimizely/ab/config/audience/match/SemanticVersion.java:141-159 | the canonical rendering of one to three parts, followed by end of input, '-' or '+', is read back by the core loop as those parts, stopping right after them |
| ParseRoundTrip.ParseRender | core-api/src/main/java/com/optimizely/ab/config/audience/match/SemanticVersion.java:129-180 | every well-formed version's rendering parses back to that version in both dialects |
| ParseRoundTrip.DotAfterPatchAccepted | core-api/src/main/java/com/optimizely/ab/config/audience/match/SemanticVersion.java:154-158 | as written, a '.' inserted after a three-part core is silently accepted and yields the same version |
| VersionOrder.CoreOrderAtFirstDiff | core-api/src/main/java/com/optimizely/ab/config/audience/match/SemanticVersion.java:45-56 | at the first position where the cores differ, the numerically smaller side is the smaller version |
| VersionOrder.CoreOrderShorter | core-api/src/main/java/com/optimizely/ab/config/audience/match/SemanticVersion.java:47-49 | an actual core that is a proper prefix of the target's core is smaller |
| VersionOrder.CoreOrderAntisymmetric | core-api/src/main/java/com/optimizely/ab/config/audience/match/SemanticVersion.java:45-56 | for cores of equal length, swapping actual and target negates the core comparison |
| VersionOrder.PreReleaseOrderAtFirstDiff | core-api/src/main/java/com/optimizely/ab/config/audience/match/SemanticVersion.java:61-67 | at the first differing pre-release identifier, `compareTo` of that pair is the result |
| VersionOrder.PreReleaseOrderAntisymmetric | core-api/src/main/java/com/optimizely/ab/config/audience/match/SemanticVersion.java:61-67 | for pre-release lists of equal length the loop never throws, and swapping the operands negates it |
| VersionOrder.CompareVersionsIgnoresBuild | core-api/src/main/java/com/optimizely/ab/config/audience/match/SemanticVersion.java:45-70 | replacing either side's build metadata never changes the comparison |
| VersionOrder.ReleaseAbovePreRelease | core-api/src/main/java/com/optimizely/ab/config/audience/match/SemanticVersion.java:57-59 | a release actual is above a pre-release target with the same core |
| VersionOrder.CompareVersionsAntisymmetric | core-api/src/main/java/com/optimizely/ab/config/audience/match/SemanticVersion.java:45-70 | with equal core lengths and matching pre-release shapes, the comparison never fails and is antisymmetric |
| VersionOrder.CompareRendered | core-api/src/main/java/com/optimizely/ab/config/audience/match/SemanticVersion.java:36-71 | comparing the texts of two well-formed versions is comparing the versions themselves |
| VersionOrder.CompareReflexive | core-api/src/main/java/com/optimizely/ab/config/audience/match/SemanticVersion.java:36-71 | a version string compares equal to itself when it parses, and a non-empty one that does not parse fails with its own parse error |
| SubstringMatch.Eval | core-api/src/main/java/com/optimizely/ab/config/audience/match/SubstringMatch.java:27-41 | a non-string condition is an error; otherwise a non-string attribute is unknown; otherwise true exactly when the condition occurs in the attribute and false exactly when it does not |
| SubstringMatch.EmptyConditionMatches | core-api/src/main/java/com/optimizely/ab/config/audience/match/SubstringMatch.java:36-37 | the empty condition matches every string attribute |
| SubstringMatch.EqualStringsMatch | core-api/src/main/java/com/optimizely/ab/config/audience/match/SubstringMatch.java:36-37 | an attribute equal to the condition matches it |
| SubstringMatch.DefiniteOnlyForText | core-api/src/main/java/com/optimizely/ab/config/audience/match/SubstringMatch.java:27-41 | a definite true/false answer comes exactly when both operands are strings |
| SubstringMatch.MatchSurvivesExtension | core-api/src/main/java/com/optimizely/ab/config/audience/match/SubstringMatch.java:36-37 | a match survives extending the attribute on either side |
| SubstringMatch.MatchSurvivesShorterCondition | core-api/src/main/java/com/optimizely/ab/config/audience/match/SubstringMatch.java:36-37 | a match survives replacing the condition by any of its substrings |
| SemanticVersionVectors.RejectsNoLeadingDigit | core-api/src/test/java/com/optimizely/ab/config/audience/SemanticVersionTest.java:31-71 | "-", ".", "..", "+", "+test" are invalid and " " is rejected for white space |
| SemanticVersionVectors.RejectsSpaces | core-api/src/test/java/com/optimizely/ab/config/audience/SemanticVersionTest.java:73-78 | "2 .3. 0" is rejected for white space |
| SemanticVersionVectors.RejectsDotWithoutMinor | core-api/src/test/java/com/optimizely/ab/config/audience/SemanticVersionTest.java:80-85 | "2." is invalid |
| SemanticVersionVectors.RejectsLeadingZeroMajor | core-api/src/test/java/com/optimizely/ab/config/audience/SemanticVersionTest.java:87-92 | "02.1" is invalid |
| SemanticVersionVectors.RejectsLeadingZeroMinor | core-api/src/test/java/com/optimizely/ab/config/audience/SemanticVersionTest.java:94-99 | "2.01.3" is invalid |
| SemanticVersionVectors.RejectsLeadingZeroPatch | core-api/src/test/java/com/optimizely/ab/config/audience/SemanticVersionTest.java:101-106 | "2.1.03" is invalid |
| SemanticVersionVectors.RejectsBuildAfterBuild | core-api/src/test/java/com/optimizely/ab/config/audience/SemanticVersionTest.java:108-113 | "2.1.3+1.2+3" is invalid |
| SemanticVersionVectors.RejectsUnderscoreInBuild | core-api/src/test/java/com/optimizely/ab/config/audience/SemanticVersionTest.java:115-120 | "2.1.31+3_12" is invalid |
| SemanticVersionVectors.RejectsEmptyFirstBuildId | core-api/src/test/java/com/optimizely/ab/config/audience/SemanticVersionTest.java:122-127 | "1.0.0+.123" is invalid |
| SemanticVersionVectors.RejectsEmptyLastBuildId | core-api/src/test/java/com/optimizely/ab/config/audience/SemanticVersionTest.java:129-134 | "1.0.0+123." is invalid |
| SemanticVersionVectors.RejectsEmptyFirstPreReleaseId | core-api/src/test/java/com/optimizely/ab/config/audience/SemanticVersionTest.java:136-141 | "1.0.0-.123" is invalid |
| SemanticVersionVectors.RejectsBuildRightAfterDash | core-api/src/test/java/com/optimizely/ab/config/audience/SemanticVersionTest.java:143-148 | "1.0.0-+123" is invalid |
| SemanticVersionVectors.RejectsLeadingZeroPreRelease | core-api/src/test/java/com/optimizely/ab/config/audience/SemanticVersionTest.java:149-154 | "1.0.0-0123" is invalid |
| SemanticVersionVectors.RejectsPreReleaseAfterTwoParts | core-api/src/test/java/com/optimizely/ab/config/audience/SemanticVersionTest.java:155-160 | "1.2-SNAPCHAT" is invalid: a suffix needs three core parts |
| SemanticVersionVectors.RejectsNoMajor | core-api/src/test/java/com/optimizely/ab/config/audience/SemanticVersionTest.java:162-195 | "-1.2.3-SNAPCHAT", ".2.1", ",", "+build-prerelease" and "a.2.1" are invalid |
| SemanticVersionVectors.RejectsLetterMinor | core-api/src/test/java/com/optimizely/ab/config/audience/SemanticVersionTest.java:197-202 | "1.b.1" is invalid |
| SemanticVersionVectors.RejectsLetterPatch | core-api/src/test/java/com/optimizely/ab/config/audience/SemanticVersionTest.java:204-209 | "1.2.c" is invalid |
| SemanticVersionVectors.RejectsFourParts | core-api/src/test/java/com/optimizely/ab/config/audience/SemanticVersionTest.java:211-216 | "1.2.2.3" is invalid |
| SemanticVersionVectors.Parses371 | core-api/src/test/java/com/optimizely/ab/config/audience/SemanticVersionTest.java:218-223 | "3.7.1" parses to core [3,7,1] with no suffix |
| SemanticVersionVectors.Parses370 | core-api/src/test/java/com/optimizely/ab/config/audience/SemanticVersionTest.java:225-230 | "3.7.0" parses to core [3,7,0] |
| SemanticVersionVectors.ParsesDashedPreRelease | core-api/src/test/java/com/optimizely/ab/config/audience/SemanticVersionTest.java:232-244 | "3.7.0-beta-2.2+1" parses to pre-release ["beta-2","2"] and build ["1"] |
| SemanticVersionVectors.ParsesDashedPreReleaseLower | core-api/src/test/java/com/optimizely/ab/config/audience/SemanticVersionTest.java:232-237 | "3.7.0-beta-2.1+1" parses to pre-release ["beta-2","1"] and build ["1"] |
| SemanticVersionVectors.ParsesDashedPreReleaseOtherBuild | core-api/src/test/java/com/optimizely/ab/config/audience/SemanticVersionTest.java:239-244 | "3.7.0-beta-2.2+2" parses to pre-release ["beta-2","2"] and build ["2"] |
| SemanticVersionVectors.ParsesDashedBuild | core-api/src/test/java/com/optimizely/ab/config/audience/SemanticVersionTest.java:246-251 | "3.7.0-beta+2-2.-21" parses to pre-release ["beta"] and build ["2-2","-21"] |
| SemanticVersionVectors.ParsesDashedBuildOther | core-api/src/test/java/com/optimizely/ab/config/audience/SemanticVersionTest.java:246-251 | "3.7.0-beta+1-2.22" parses to pre-release ["beta"] and build ["1-2","22"] |
| SemanticVersionVectors.Parses372 | core-api/src/test/java/com/optimizely/ab/config/audience/SemanticVersionTest.java:253-258 | "3.7.2" parses to core [3,7,2] |
| SemanticVersionVectors.Parses37 | core-api/src/test/java/com/optimizely/ab/config/audience/SemanticVersionTest.java:260-272 | "3.7" parses to the two-part core [3,7] |
| SemanticVersionVectors.Parses371Beta | core-api/src/test/java/com/optimizely/ab/config/audience/SemanticVersionTest.java:274-279 | "3.7.1-beta" parses to pre-release ["beta"] |
| SemanticVersionVectors.Parses370Beta | core-api/src/test/java/com/optimizely/ab/config/audience/SemanticVersionTest.java:281-286 | "3.7.0-beta" parses to pre-release ["beta"] |
| SemanticVersionVectors.Parses371Alpha | core-api/src/test/java/com/optimizely/ab/config/audience/SemanticVersionTest.java:288-293 | "3.7.1-alpha" parses to pre-release ["alpha"] |
| SemanticVersionVectors.Parses371Beta1Build | core-api/src/test/java/com/optimizely/ab/config/audience/SemanticVersionTest.java:295-300 | "3.7.1-beta.1+2.3" parses to pre-release ["beta","1"] and build ["2","3"] |
| SemanticVersionVectors.Parses371Beta1 | core-api/src/test/java/com/optimizely/ab/config/audience/SemanticVersionTest.java:302-307 | "3.7.1-beta.1" parses to pre-release ["beta","1"] |
| SemanticVersionVectors.Parses371Beta2 | core-api/src/test/java/com/optimizely/ab/config/audience/SemanticVersionTest.java:302-307 | "3.7.1-beta.2" parses to pre-release ["beta","2"] |
| SemanticVersionVectors.CompareEqual | core-api/src/test/java/com/optimizely/ab/config/audience/SemanticVersionTest.java:218-223 | "3.7.1" against "3.7.1" is 0 |
| SemanticVersionVectors.CompareActualLess | core-api/src/test/java/com/optimizely/ab/config/audience/SemanticVersionTest.java:225-230 | "3.7.0" against "3.7.1" is negative |
| SemanticVersionVectors.ComparePreReleaseLess | core-api/src/test/java/com/optimizely/ab/config/audience/SemanticVersionTest.java:232-237 | "3.7.0-beta-2.1+1" against "3.7.0-beta-2.2+1" is negative |
| SemanticVersionVectors.CompareIgnoresBuildAfterPreRelease | core-api/src/test/java/com/optimizely/ab/config/audience/SemanticVersionTest.java:239-244 | "3.7.0-beta-2.2+2" against "3.7.0-beta-2.2+1" is 0 |
| SemanticVersionVectors.CompareIgnoresDashedBuild | core-api/src/test/java/com/optimizely/ab/config/audience/SemanticVersionTest.java:246-251 | "3.7.0-beta+1-2.22" against "3.7.0-beta+2-2.-21" is 0 |
| SemanticVersionVectors.CompareActualGreater | core-api/src/test/java/com/optimizely/ab/config/audience/SemanticVersionTest.java:253-258 | "3.7.2" against "3.7.1" is positive |
| SemanticVersionVectors.CompareTargetPatchMissing | core-api/src/test/java/com/optimizely/ab/config/audience/SemanticVersionTest.java:260-265 | "3.7.1" against "3.7" is 0 |
| SemanticVersionVectors.CompareActualPatchMissing | core-api/src/test/java/com/optimizely/ab/config/audience/SemanticVersionTest.java:267-272 | "3.7" against "3.7.1" is negative |
| SemanticVersionVectors.CompareReleaseAbovePreRelease | core-api/src/test/java/com/optimizely/ab/config/audience/SemanticVersionTest.java:274-279 | "3.7.1" against "3.7.1-beta" is positive |
| SemanticVersionVectors.ComparePreReleaseAgainstRelease | core-api/src/main/java/com/optimizely/ab/config/audience/match/SemanticVersion.java:57-70 | "3.7.0-beta" against "3.7.0" is 0 as the code is written (its unit test expects a negative result) |
| SemanticVersionVectors.CompareAlphaBeta | core-api/src/test/java/com/optimizely/ab/config/audience/SemanticVersionTest.java:288-293 | "3.7.1-beta" against "3.7.1-alpha" is positive |
| SemanticVersionVectors.CompareSameWithBuild | core-api/src/test/java/com/optimizely/ab/config/audience/SemanticVersionTest.java:295-300 | "3.7.1-beta.1+2.3" against itself is 0 |
| SemanticVersionVectors.ComparePreReleaseNumber | core-api/src/test/java/com/optimizely/ab/config/audience/SemanticVersionTest.java:302-307 | "3.7.1-beta.2" against "3.7.1-beta.1" is positive |
| SemanticVersionVectors.TrailingDotAfterPatch | core-api/src/main/java/com/optimizely/ab/config/audience/match/SemanticVersion.java:154-158 | "1.2.3." is accepted as 1.2.3 as written and rejected as invalid in the strict dialect |

## Left out

- Integer overflow in `parseNumeric`: core parts are unbounded naturals. A part beyond the range of a Java `Integer` is not modelled. `AttributesUtil` is not part of this model.
- A `null` actual version string: the source would fail on the null dereference; the model's strings are never null.
- Exception message texts: all parse errors other than white space are one `InvalidVersion` value.
- The `catch` in `SubstringMatch.eval`: `toString` and `contains` on two strings cannot throw, so that branch is unreachable.
- Attribute and condition values other than strings: they collapse into one `NotText` value, because the matcher only distinguishes string from non-string.
- A Java `char` is a UTF-16 unit, but a Dafny `char` is a Unicode scalar value. The model is exact only on text without supplementary characters:
  - a Java string holding an unpaired surrogate has no counterpart in the model;
  - a supplementary character is one Dafny `char` but two Java units, so `compareTo` differs on it: for "\U{1F600}" against "" the model gives 1 and Java gives 2;
  - `LexLess` orders by scalar value rather than by UTF-16 unit, so U+FFFF against U+10000 comes out the other way round.

  The semantic-version core is unaffected, because SemanticVersion.java lines 77-80 admit only ASCII into pre-release identifiers. `contains` agrees with Java on well-formed text.
- The mutable `preParts`/`metaParts` fields: they become parts of the returned value. A stale list left over from an earlier call on the same object cannot differ, because the object's version string is final.
- The rest of the SDK is not part of this model:
  - `Optimizely.java`;
  - the other matchers, such as `LTMatch`;
  - bucketing (`ExperimentBucketerService`);
  - feature evaluation (`FeatureService`);
  - JSON handling (`OptimizelyJSONTest`).
- SemanticVersionTest.java lines 281-286 expect a negative result. The model follows the code, which returns 0 (`ComparePreReleaseAgainstRelease`).

## Findings

| source | as written | input that shows it | evidently intended | confidence | as-written member | corrected member |
|---|---|---|---|---|---|---|
| core-api/src/main/java/com/optimizely/ab/config/audience/match/SemanticVersion.java:154-158 | the core loop consumes a '.' after the third part before leaving the loop, so nothing rejects it | "1.2.3." parses as 1.2.3 | a '.' after the patch part is a trailing character and the string is invalid, so accepted strings are exactly renderings of versions | not executed | SemanticVersionVectors.TrailingDotAfterPatch, ParseRoundTrip.DotAfterPatchAccepted | ParseRoundTrip.ParseStrictSound with ParseRoundTrip.ParseRender (`Strict` dialect) |
