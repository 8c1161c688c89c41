/** The version strings of the unit tests for the semantic-version scanner and
    comparator, evaluated on the model. Accepted strings are read through the
    rendering round trip; rejected strings are scanned step by step up to the
    character that stops the scanner. */
module SemanticVersionVectors {
  import opened Wrappers
  import opened Lexical
  import opened JavaString
  import opened VersionSyntax
  import opened SemanticVersion
  import opened ParseRoundTrip

  // ---------------------------------------------------------------------------
  // Helpers.

  lemma ThreeDigitCore(a: nat, b: nat, c: nat)
    requires a < 10 && b < 10 && c < 10
    ensures RenderCore([a, b, c]) == [DigitChar(a), '.', DigitChar(b), '.', DigitChar(c)]
  {
    var n := Numerals([a, b, c]);
    assert n == [[DigitChar(a)], [DigitChar(b)], [DigitChar(c)]];
    assert n[1..] == [[DigitChar(b)], [DigitChar(c)]];
    assert n[1..][1..] == [[DigitChar(c)]];
    assert Join(n[1..][1..], '.') == [DigitChar(c)];
    assert Join(n[1..], '.') == [DigitChar(b), '.', DigitChar(c)];
  }

  lemma TwoDigitCore(a: nat, b: nat)
    requires a < 10 && b < 10
    ensures RenderCore([a, b]) == [DigitChar(a), '.', DigitChar(b)]
  {
    var n := Numerals([a, b]);
    assert n == [[DigitChar(a)], [DigitChar(b)]];
    assert n[1..] == [[DigitChar(b)]];
    assert Join(n[1..], '.') == [DigitChar(b)];
  }

  /** A string that renders a well-formed version parses to it in both dialects. */
  lemma ParsesAs(s: string, v: Version)
    requires WellFormed(v) && Render(v) == s
    ensures Parse(s) == Success(v) && ParseStrict(s) == Success(v)
  {
    ParseRender(v, AsWritten);
    ParseRender(v, Strict);
  }

  /** `ParsesAs` for a three-part core of one-digit parts, with the suffix
      stated on its own. */
  lemma ParsesAsDigits(s: string, v: Version, suffix: string)
    requires |v.core| == 3 && v.core[0] < 10 && v.core[1] < 10 && v.core[2] < 10
    requires WellFormed(v) && RenderSuffix(v) == suffix
    requires s == [DigitChar(v.core[0]), '.', DigitChar(v.core[1]), '.', DigitChar(v.core[2])] + suffix
    ensures Parse(s) == Success(v) && ParseStrict(s) == Success(v)
  {
    ThreeDigitCore(v.core[0], v.core[1], v.core[2]);
    assert v.core == [v.core[0], v.core[1], v.core[2]];
    ParsesAs(s, v);
  }

  /** A string that does not start with a digit is rejected, for the space
      check first if it has a space. */
  lemma NoLeadingDigit(s: string, dialect: Dialect)
    requires s == [] || !IsDigit(s[0])
    ensures ParseWith(s, dialect) == Failure(if ' ' in s then ContainsWhiteSpace else InvalidVersion)
  {
    if ' ' !in s {
      RunEndProps(s, 0, Digits);
    }
  }

  // ---------------------------------------------------------------------------
  // One scanner step over facts about a few characters, so that a concrete
  // string is only ever inspected at the positions that decide.

  /** The digit run at `pos` is empty or has a leading zero: the core fails. */
  lemma CoreRunBad(input: string, pos: nat, end: nat, slots: nat, dialect: Dialect)
    requires pos <= |input| && 1 <= slots && RunEnd(input, pos, Digits) == end
    requires end == pos || (input[pos] == '0' && end - pos > 1)
    ensures ScanCore(input, pos, slots, dialect) == Failure(InvalidVersion)
  {
  }

  /** A part that ends the core. */
  lemma CoreRunStop(input: string, pos: nat, end: nat, slots: nat, dialect: Dialect)
    requires pos < end <= |input| && 1 <= slots && RunEnd(input, pos, Digits) == end
    requires input[pos] != '0' || end == pos + 1
    requires end == |input| || input[end] != '.'
    ensures AllIn(input[pos..end], Digits)
    ensures ScanCore(input, pos, slots, dialect) == Success(([NumeralValue(input[pos..end])], end))
  {
    RunEndProps(input, pos, Digits);
  }

  /** A part followed by a '.' with no slot left: the source consumes the dot. */
  lemma CoreRunDotLast(input: string, pos: nat, end: nat, dialect: Dialect)
    requires pos < end < |input| && RunEnd(input, pos, Digits) == end
    requires input[pos] != '0' || end == pos + 1
    requires input[end] == '.'
    ensures AllIn(input[pos..end], Digits)
    ensures ScanCore(input, pos, 1, dialect)
            == Success(([NumeralValue(input[pos..end])], if dialect == AsWritten then end + 1 else end))
  {
    RunEndProps(input, pos, Digits);
  }

  /** A part followed by a '.' with slots left: the rest of the core decides. */
  lemma CoreRunGo(input: string, pos: nat, end: nat, slots: nat, dialect: Dialect)
    requires pos < end < |input| && 1 < slots && RunEnd(input, pos, Digits) == end
    requires input[pos] != '0' || end == pos + 1
    requires input[end] == '.'
    ensures AllIn(input[pos..end], Digits)
    ensures var rest := ScanCore(input, end + 1, slots - 1, dialect);
            ScanCore(input, pos, slots, dialect)
            == if rest.Success? then Success(([NumeralValue(input[pos..end])] + rest.value.0, rest.value.1))
               else Failure(rest.error)
  {
    RunEndProps(input, pos, Digits);
  }

  lemma OneDigit(s: string, k: nat)
    requires k < |s| && IsDigit(s[k])
    ensures AllIn(s[k..k + 1], Digits) && NumeralValue(s[k..k + 1]) == DigitValue(s[k])
  {
    assert s[k..k + 1][..0] == [];
  }

  /** One-digit major and minor parts, then a patch part that runs to `end`;
      a '.' right after the patch is consumed only by the source's dialect. */
  lemma CoreOfThreeParts(s: string, end: nat, dialect: Dialect)
    requires 4 < end <= |s| && IsDigit(s[0]) && s[1] == '.' && IsDigit(s[2]) && s[3] == '.'
    requires RunEnd(s, 4, Digits) == end && (s[4] != '0' || end == 5)
    ensures AllIn(s[4..end], Digits)
    ensures ScanCore(s, 0, 3, dialect)
            == Success(([DigitValue(s[0]), DigitValue(s[2]), NumeralValue(s[4..end])],
                        if end < |s| && s[end] == '.' && dialect == AsWritten then end + 1 else end))
  {
    var next := if end < |s| && s[end] == '.' && dialect == AsWritten then end + 1 else end;
    RunEndProps(s, 4, Digits);
    var patch := NumeralValue(s[4..end]);
    assert ScanCore(s, 4, 1, dialect) == Success(([patch], next)) by {
      if end < |s| && s[end] == '.' {
        CoreRunDotLast(s, 4, end, dialect);
      } else {
        CoreRunStop(s, 4, end, 1, dialect);
      }
    }
    assert ScanCore(s, 2, 2, dialect) == Success(([DigitValue(s[2]), patch], next)) by {
      assert RunEnd(s, 2, Digits) == 3;
      OneDigit(s, 2);
      CoreRunGo(s, 2, 3, 2, dialect);
      assert [DigitValue(s[2])] + [patch] == [DigitValue(s[2]), patch];
    }
    assert RunEnd(s, 0, Digits) == 1;
    OneDigit(s, 0);
    CoreRunGo(s, 0, 1, 3, dialect);
    assert [DigitValue(s[0])] + [DigitValue(s[2]), patch] == [DigitValue(s[0]), DigitValue(s[2]), patch];
  }

  /** Three one-digit parts at the start of `s`. */
  lemma SingleDigitCore(s: string, dialect: Dialect)
    requires 5 <= |s| && IsDigit(s[0]) && s[1] == '.' && IsDigit(s[2]) && s[3] == '.' && IsDigit(s[4])
    requires |s| == 5 || !IsDigit(s[5])
    ensures ScanCore(s, 0, 3, dialect)
            == Success(([DigitValue(s[0]), DigitValue(s[2]), DigitValue(s[4])],
                        if |s| > 5 && s[5] == '.' && dialect == AsWritten then 6 else 5))
  {
    assert RunEnd(s, 4, Digits) == 5;
    CoreOfThreeParts(s, 5, dialect);
    OneDigit(s, 4);
  }

  /** An empty identifier fails either identifier list. */
  lemma IdRunEmpty(input: string, pos: nat)
    requires pos <= |input| && RunEnd(input, pos, Identifier) == pos
    ensures ScanBuild(input, pos) == Failure(InvalidVersion)
    ensures ScanRelease(input, pos) == Failure(InvalidVersion)
  {
  }

  /** A build identifier followed by a character other than '.'. */
  lemma BuildRunBadEnd(input: string, pos: nat, end: nat)
    requires pos < end < |input| && RunEnd(input, pos, Identifier) == end && input[end] != '.'
    ensures ScanBuild(input, pos) == Failure(InvalidVersion)
  {
  }

  /** A build identifier followed by a '.' and a failing rest. */
  lemma BuildRunThenFails(input: string, pos: nat, end: nat)
    requires pos < end < |input| && RunEnd(input, pos, Identifier) == end && input[end] == '.'
    requires ScanBuild(input, end + 1).Failure?
    ensures ScanBuild(input, pos) == Failure(ScanBuild(input, end + 1).error)
  {
  }

  /** A pre-release identifier may not start with '0'. */
  lemma ReleaseLeadingZero(input: string, pos: nat)
    requires pos < |input| && input[pos] == '0'
    ensures ScanRelease(input, pos) == Failure(InvalidVersion)
  {
    RunEndProps(input, pos, Identifier);
  }

  /** After the core: a failing build list fails the parse. */
  lemma ParseBuildFails(s: string, dialect: Dialect, parts: seq<nat>, pos: nat)
    requires ' ' !in s && ScanCore(s, 0, 3, dialect) == Success((parts, pos)) && |parts| == 3
    requires pos < |s| && s[pos] == '+' && ScanBuild(s, pos + 1).Failure?
    ensures ParseWith(s, dialect) == Failure(ScanBuild(s, pos + 1).error)
  {
  }

  /** After the core: a failing pre-release list fails the parse. */
  lemma ParseReleaseFails(s: string, dialect: Dialect, parts: seq<nat>, pos: nat)
    requires ' ' !in s && ScanCore(s, 0, 3, dialect) == Success((parts, pos)) && |parts| == 3
    requires pos < |s| && s[pos] == '-' && ScanRelease(s, pos + 1).Failure?
    ensures ParseWith(s, dialect) == Failure(ScanRelease(s, pos + 1).error)
  {
  }

  /** After the core: anything but the end, or a marker after three parts, fails. */
  lemma ParseBadAfterCore(s: string, dialect: Dialect, parts: seq<nat>, pos: nat)
    requires ' ' !in s && ScanCore(s, 0, 3, dialect) == Success((parts, pos)) && pos < |s|
    requires (s[pos] != '+' && s[pos] != '-') || |parts| < 3
    ensures ParseWith(s, dialect) == Failure(InvalidVersion)
  {
  }

  // ---------------------------------------------------------------------------
  // Rejected strings.

  lemma RejectsNoLeadingDigit()
    ensures Parse("-") == Failure(InvalidVersion)
    ensures Parse(".") == Failure(InvalidVersion)
    ensures Parse("..") == Failure(InvalidVersion)
    ensures Parse("+") == Failure(InvalidVersion)
    ensures Parse("+test") == Failure(InvalidVersion)
    ensures Parse(" ") == Failure(ContainsWhiteSpace)
  {
    NoLeadingDigit("-", AsWritten);
    NoLeadingDigit(".", AsWritten);
    NoLeadingDigit("..", AsWritten);
    NoLeadingDigit("+", AsWritten);
    NoLeadingDigit("+test", AsWritten);
    NoLeadingDigit(" ", AsWritten);
  }

  lemma RejectsSpaces()
    ensures Parse("2 .3. 0") == Failure(ContainsWhiteSpace)
  {
  }

  lemma RejectsNoMajor()
    ensures Parse("-1.2.3-SNAPCHAT") == Failure(InvalidVersion)
    ensures Parse(".2.1") == Failure(InvalidVersion)
    ensures Parse(",") == Failure(InvalidVersion)
    ensures Parse("+build-prerelease") == Failure(InvalidVersion)
    ensures Parse("a.2.1") == Failure(InvalidVersion)
  {
    NoLeadingDigit("-1.2.3-SNAPCHAT", AsWritten);
    NoLeadingDigit(".2.1", AsWritten);
    NoLeadingDigit(",", AsWritten);
    NoLeadingDigit("+build-prerelease", AsWritten);
    NoLeadingDigit("a.2.1", AsWritten);
  }

  lemma RejectsDotWithoutMinor()
    ensures Parse("2.") == Failure(InvalidVersion)
  {
    var s := "2.";
    assert ScanCore(s, 2, 2, AsWritten) == Failure(InvalidVersion) by {
      assert RunEnd(s, 2, Digits) == 2;
    }
    assert RunEnd(s, 0, Digits) == 1;
  }

  lemma RejectsLeadingZeroMajor()
    ensures Parse("02.1") == Failure(InvalidVersion)
  {
    assert RunEnd("02.1", 0, Digits) == 2;
  }

  lemma RejectsLeadingZeroMinor()
    ensures Parse("2.01.3") == Failure(InvalidVersion)
  {
    var s := "2.01.3";
    assert ScanCore(s, 2, 2, AsWritten) == Failure(InvalidVersion) by {
      assert RunEnd(s, 2, Digits) == 4;
    }
    assert RunEnd(s, 0, Digits) == 1;
  }

  lemma RejectsLeadingZeroPatch()
    ensures Parse("2.1.03") == Failure(InvalidVersion)
  {
    var s := "2.1.03";
    assert ScanCore(s, 2, 2, AsWritten) == Failure(InvalidVersion) by {
      assert ScanCore(s, 4, 1, AsWritten) == Failure(InvalidVersion) by {
        assert RunEnd(s, 4, Digits) == 6;
      }
      assert RunEnd(s, 2, Digits) == 3;
    }
    assert RunEnd(s, 0, Digits) == 1;
  }

  lemma RejectsLetterMinor()
    ensures Parse("1.b.1") == Failure(InvalidVersion)
  {
    var s := "1.b.1";
    assert ScanCore(s, 2, 2, AsWritten) == Failure(InvalidVersion) by {
      assert RunEnd(s, 2, Digits) == 2;
    }
    assert RunEnd(s, 0, Digits) == 1;
  }

  lemma RejectsLetterPatch()
    ensures Parse("1.2.c") == Failure(InvalidVersion)
  {
    var s := "1.2.c";
    assert ScanCore(s, 2, 2, AsWritten) == Failure(InvalidVersion) by {
      assert ScanCore(s, 4, 1, AsWritten) == Failure(InvalidVersion) by {
        assert RunEnd(s, 4, Digits) == 4;
      }
      assert RunEnd(s, 2, Digits) == 3;
    }
    assert RunEnd(s, 0, Digits) == 1;
  }

  lemma RejectsBuildAfterBuild()
    ensures Parse("2.1.3+1.2+3") == Failure(InvalidVersion)
  {
    var s := "2.1.3+1.2+3";
    SingleDigitCore(s, AsWritten);
    assert ScanBuild(s, 6) == Failure(InvalidVersion) by {
      assert RunEnd(s, 8, Identifier) == 9;
      BuildRunBadEnd(s, 8, 9);
      assert RunEnd(s, 6, Identifier) == 7;
      BuildRunThenFails(s, 6, 7);
    }
    ParseBuildFails(s, AsWritten, ScanCore(s, 0, 3, AsWritten).value.0, 5);
  }

  lemma RejectsUnderscoreInBuild()
    ensures Parse("2.1.31+3_12") == Failure(InvalidVersion)
  {
    var s := "2.1.31+3_12";
    assert ScanCore(s, 0, 3, AsWritten) == Success(([2, 1, 31], 6)) by {
      assert RunEnd(s, 4, Digits) == 6;
      CoreOfThreeParts(s, 6, AsWritten);
      assert NumeralValue(s[4..6]) == 31 by {
        assert s[4..6][..1] == s[4..5];
        OneDigit(s, 4);
      }
    }
    assert RunEnd(s, 7, Identifier) == 8;
    BuildRunBadEnd(s, 7, 8);
    ParseBuildFails(s, AsWritten, [2, 1, 31], 6);
  }

  lemma RejectsEmptyFirstBuildId()
    ensures Parse("1.0.0+.123") == Failure(InvalidVersion)
  {
    var s := "1.0.0+.123";
    SingleDigitCore(s, AsWritten);
    assert RunEnd(s, 6, Identifier) == 6;
    IdRunEmpty(s, 6);
    ParseBuildFails(s, AsWritten, ScanCore(s, 0, 3, AsWritten).value.0, 5);
  }

  lemma RejectsEmptyLastBuildId()
    ensures Parse("1.0.0+123.") == Failure(InvalidVersion)
  {
    var s := "1.0.0+123.";
    SingleDigitCore(s, AsWritten);
    assert RunEnd(s, 10, Identifier) == 10;
    IdRunEmpty(s, 10);
    assert RunEnd(s, 6, Identifier) == 9;
    BuildRunThenFails(s, 6, 9);
    ParseBuildFails(s, AsWritten, ScanCore(s, 0, 3, AsWritten).value.0, 5);
  }

  lemma RejectsEmptyFirstPreReleaseId()
    ensures Parse("1.0.0-.123") == Failure(InvalidVersion)
  {
    var s := "1.0.0-.123";
    SingleDigitCore(s, AsWritten);
    assert RunEnd(s, 6, Identifier) == 6;
    IdRunEmpty(s, 6);
    ParseReleaseFails(s, AsWritten, ScanCore(s, 0, 3, AsWritten).value.0, 5);
  }

  lemma RejectsBuildRightAfterDash()
    ensures Parse("1.0.0-+123") == Failure(InvalidVersion)
  {
    var s := "1.0.0-+123";
    SingleDigitCore(s, AsWritten);
    assert RunEnd(s, 6, Identifier) == 6;
    IdRunEmpty(s, 6);
    ParseReleaseFails(s, AsWritten, ScanCore(s, 0, 3, AsWritten).value.0, 5);
  }

  lemma RejectsLeadingZeroPreRelease()
    ensures Parse("1.0.0-0123") == Failure(InvalidVersion)
  {
    var s := "1.0.0-0123";
    SingleDigitCore(s, AsWritten);
    ReleaseLeadingZero(s, 6);
    ParseReleaseFails(s, AsWritten, ScanCore(s, 0, 3, AsWritten).value.0, 5);
  }

  lemma RejectsPreReleaseAfterTwoParts()
    ensures Parse("1.2-SNAPCHAT") == Failure(InvalidVersion)
  {
    var s := "1.2-SNAPCHAT";
    assert RunEnd(s, 2, Digits) == 3;
    CoreRunStop(s, 2, 3, 2, AsWritten);
    assert RunEnd(s, 0, Digits) == 1;
    CoreRunGo(s, 0, 1, 3, AsWritten);
    ParseBadAfterCore(s, AsWritten, ScanCore(s, 0, 3, AsWritten).value.0, 3);
  }

  lemma RejectsFourParts()
    ensures Parse("1.2.2.3") == Failure(InvalidVersion)
  {
    var s := "1.2.2.3";
    SingleDigitCore(s, AsWritten);
    ParseBadAfterCore(s, AsWritten, ScanCore(s, 0, 3, AsWritten).value.0, 6);
  }

  // ---------------------------------------------------------------------------
  // Accepted strings: each is the rendering of the version it parses to.

  lemma Parses371()
    ensures Parse("3.7.1") == Success(Version([3, 7, 1], None, None))
  {
    var v := Version([3, 7, 1], None, None);
    ParsesAsDigits("3.7.1", v, "");
  }

  lemma Parses370()
    ensures Parse("3.7.0") == Success(Version([3, 7, 0], None, None))
  {
    var v := Version([3, 7, 0], None, None);
    ParsesAsDigits("3.7.0", v, "");
  }

  lemma Parses372()
    ensures Parse("3.7.2") == Success(Version([3, 7, 2], None, None))
  {
    var v := Version([3, 7, 2], None, None);
    ParsesAsDigits("3.7.2", v, "");
  }

  lemma Parses37()
    ensures Parse("3.7") == Success(Version([3, 7], None, None))
  {
    TwoDigitCore(3, 7);
    ParsesAs("3.7", Version([3, 7], None, None));
  }

  lemma Parses371Beta()
    ensures Parse("3.7.1-beta") == Success(Version([3, 7, 1], Some(["beta"]), None))
  {
    var v := Version([3, 7, 1], Some(["beta"]), None);
    ParsesAsDigits("3.7.1-beta", v, "-beta");
  }

  lemma Parses370Beta()
    ensures Parse("3.7.0-beta") == Success(Version([3, 7, 0], Some(["beta"]), None))
  {
    var v := Version([3, 7, 0], Some(["beta"]), None);
    ParsesAsDigits("3.7.0-beta", v, "-beta");
  }

  lemma Parses371Alpha()
    ensures Parse("3.7.1-alpha") == Success(Version([3, 7, 1], Some(["alpha"]), None))
  {
    var v := Version([3, 7, 1], Some(["alpha"]), None);
    ParsesAsDigits("3.7.1-alpha", v, "-alpha");
  }

  lemma Parses371Beta1()
    ensures Parse("3.7.1-beta.1") == Success(Version([3, 7, 1], Some(["beta", "1"]), None))
  {
    var v := Version([3, 7, 1], Some(["beta", "1"]), None);
    assert RenderSuffix(v) == "-beta.1" by {
      assert Join(["beta", "1"], '.') == "beta.1";
    }
    ParsesAsDigits("3.7.1-beta.1", v, "-beta.1");
  }

  lemma Parses371Beta2()
    ensures Parse("3.7.1-beta.2") == Success(Version([3, 7, 1], Some(["beta", "2"]), None))
  {
    var v := Version([3, 7, 1], Some(["beta", "2"]), None);
    assert RenderSuffix(v) == "-beta.2" by {
      assert Join(["beta", "2"], '.') == "beta.2";
    }
    ParsesAsDigits("3.7.1-beta.2", v, "-beta.2");
  }

  lemma Parses371Beta1BuildText()
    ensures WellFormed(Version([3, 7, 1], Some(["beta", "1"]), Some(["2", "3"])))
    ensures RenderSuffix(Version([3, 7, 1], Some(["beta", "1"]), Some(["2", "3"]))) == "-beta.1+2.3"
    ensures "3.7.1-beta.1+2.3" == [DigitChar(3), '.', DigitChar(7), '.', DigitChar(1)] + "-beta.1+2.3"
  {
    assert Join(["beta", "1"], '.') == "beta.1";
    assert Join(["2", "3"], '.') == "2.3";
  }

  lemma Parses371Beta1Build()
    ensures Parse("3.7.1-beta.1+2.3") == Success(Version([3, 7, 1], Some(["beta", "1"]), Some(["2", "3"])))
  {
    Parses371Beta1BuildText();
    ParsesAsDigits("3.7.1-beta.1+2.3", Version([3, 7, 1], Some(["beta", "1"]), Some(["2", "3"])), "-beta.1+2.3");
  }

  lemma ParsesDashedPreReleaseText()
    ensures WellFormed(Version([3, 7, 0], Some(["beta-2", "2"]), Some(["1"])))
    ensures RenderSuffix(Version([3, 7, 0], Some(["beta-2", "2"]), Some(["1"]))) == "-beta-2.2+1"
    ensures "3.7.0-beta-2.2+1" == [DigitChar(3), '.', DigitChar(7), '.', DigitChar(0)] + "-beta-2.2+1"
  {
    assert Join(["beta-2", "2"], '.') == "beta-2.2";
  }

  /** A '-' inside a pre-release identifier is part of it. */
  lemma ParsesDashedPreRelease()
    ensures Parse("3.7.0-beta-2.2+1") == Success(Version([3, 7, 0], Some(["beta-2", "2"]), Some(["1"])))
  {
    ParsesDashedPreReleaseText();
    ParsesAsDigits("3.7.0-beta-2.2+1", Version([3, 7, 0], Some(["beta-2", "2"]), Some(["1"])), "-beta-2.2+1");
  }

  lemma ParsesDashedPreReleaseLowerText()
    ensures WellFormed(Version([3, 7, 0], Some(["beta-2", "1"]), Some(["1"])))
    ensures RenderSuffix(Version([3, 7, 0], Some(["beta-2", "1"]), Some(["1"]))) == "-beta-2.1+1"
    ensures "3.7.0-beta-2.1+1" == [DigitChar(3), '.', DigitChar(7), '.', DigitChar(0)] + "-beta-2.1+1"
  {
    assert Join(["beta-2", "1"], '.') == "beta-2.1";
  }

  lemma ParsesDashedPreReleaseLower()
    ensures Parse("3.7.0-beta-2.1+1") == Success(Version([3, 7, 0], Some(["beta-2", "1"]), Some(["1"])))
  {
    ParsesDashedPreReleaseLowerText();
    ParsesAsDigits("3.7.0-beta-2.1+1", Version([3, 7, 0], Some(["beta-2", "1"]), Some(["1"])), "-beta-2.1+1");
  }

  lemma ParsesDashedPreReleaseOtherBuildText()
    ensures WellFormed(Version([3, 7, 0], Some(["beta-2", "2"]), Some(["2"])))
    ensures RenderSuffix(Version([3, 7, 0], Some(["beta-2", "2"]), Some(["2"]))) == "-beta-2.2+2"
    ensures "3.7.0-beta-2.2+2" == [DigitChar(3), '.', DigitChar(7), '.', DigitChar(0)] + "-beta-2.2+2"
  {
    assert Join(["beta-2", "2"], '.') == "beta-2.2";
  }

  lemma ParsesDashedPreReleaseOtherBuild()
    ensures Parse("3.7.0-beta-2.2+2") == Success(Version([3, 7, 0], Some(["beta-2", "2"]), Some(["2"])))
  {
    ParsesDashedPreReleaseOtherBuildText();
    ParsesAsDigits("3.7.0-beta-2.2+2", Version([3, 7, 0], Some(["beta-2", "2"]), Some(["2"])), "-beta-2.2+2");
  }

  lemma ParsesDashedBuildText()
    ensures WellFormed(Version([3, 7, 0], Some(["beta"]), Some(["2-2", "-21"])))
    ensures RenderSuffix(Version([3, 7, 0], Some(["beta"]), Some(["2-2", "-21"]))) == "-beta+2-2.-21"
    ensures "3.7.0-beta+2-2.-21" == [DigitChar(3), '.', DigitChar(7), '.', DigitChar(0)] + "-beta+2-2.-21"
  {
    assert Join(["2-2", "-21"], '.') == "2-2.-21";
  }

  /** After the first '+' everything is build metadata, a '-' included. */
  lemma ParsesDashedBuild()
    ensures Parse("3.7.0-beta+2-2.-21") == Success(Version([3, 7, 0], Some(["beta"]), Some(["2-2", "-21"])))
  {
    ParsesDashedBuildText();
    ParsesAsDigits("3.7.0-beta+2-2.-21", Version([3, 7, 0], Some(["beta"]), Some(["2-2", "-21"])), "-beta+2-2.-21");
  }

  lemma ParsesDashedBuildOtherText()
    ensures WellFormed(Version([3, 7, 0], Some(["beta"]), Some(["1-2", "22"])))
    ensures RenderSuffix(Version([3, 7, 0], Some(["beta"]), Some(["1-2", "22"]))) == "-beta+1-2.22"
    ensures "3.7.0-beta+1-2.22" == [DigitChar(3), '.', DigitChar(7), '.', DigitChar(0)] + "-beta+1-2.22"
  {
    assert Join(["1-2", "22"], '.') == "1-2.22";
  }

  lemma ParsesDashedBuildOther()
    ensures Parse("3.7.0-beta+1-2.22") == Success(Version([3, 7, 0], Some(["beta"]), Some(["1-2", "22"])))
  {
    ParsesDashedBuildOtherText();
    ParsesAsDigits("3.7.0-beta+1-2.22", Version([3, 7, 0], Some(["beta"]), Some(["1-2", "22"])), "-beta+1-2.22");
  }

  // ---------------------------------------------------------------------------
  // compare, actual against target.

  lemma CompareEqual()
    ensures Compare("3.7.1", Some("3.7.1")) == Success(0)
  {
    Parses371();
  }

  lemma CompareActualLess()
    ensures Compare("3.7.0", Some("3.7.1")) == Success(-1)
  {
    Parses370();
    Parses371();
  }

  lemma ComparePreReleaseLess()
    ensures Compare("3.7.0-beta-2.1+1", Some("3.7.0-beta-2.2+1")) == Success(-1)
  {
    ParsesDashedPreReleaseLower();
    ParsesDashedPreRelease();
  }

  lemma CompareIgnoresBuildAfterPreRelease()
    ensures Compare("3.7.0-beta-2.2+2", Some("3.7.0-beta-2.2+1")) == Success(0)
  {
    ParsesDashedPreReleaseOtherBuild();
    ParsesDashedPreRelease();
  }

  lemma CompareIgnoresDashedBuild()
    ensures Compare("3.7.0-beta+1-2.22", Some("3.7.0-beta+2-2.-21")) == Success(0)
  {
    ParsesDashedBuildOther();
    ParsesDashedBuild();
  }

  lemma CompareActualGreater()
    ensures Compare("3.7.2", Some("3.7.1")) == Success(1)
  {
    Parses372();
    Parses371();
  }

  /** A target without a patch part matches any patch. */
  lemma CompareTargetPatchMissing()
    ensures Compare("3.7.1", Some("3.7")) == Success(0)
  {
    Parses371();
    Parses37();
  }

  lemma CompareActualPatchMissing()
    ensures Compare("3.7", Some("3.7.1")) == Success(-1)
  {
    Parses37();
    Parses371();
  }

  lemma CompareReleaseAbovePreRelease()
    ensures Compare("3.7.1", Some("3.7.1-beta")) == Success(1)
  {
    Parses371();
    Parses371Beta();
  }

  /** The source returns 0 when a pre-release actual meets a release target
      with the same core; its unit test expects a negative result. */
  lemma ComparePreReleaseAgainstRelease()
    ensures Compare("3.7.0-beta", Some("3.7.0")) == Success(0)
  {
    Parses370Beta();
    Parses370();
  }

  /** Pre-release identifiers compare as Java strings: 'b' - 'a'. */
  lemma CompareAlphaBeta()
    ensures Compare("3.7.1-beta", Some("3.7.1-alpha")) == Success(1)
  {
    Parses371Beta();
    Parses371Alpha();
  }

  lemma CompareSameWithBuild()
    ensures Compare("3.7.1-beta.1+2.3", Some("3.7.1-beta.1+2.3")) == Success(0)
  {
    Parses371Beta1Build();
  }

  lemma ComparePreReleaseNumber()
    ensures Compare("3.7.1-beta.2", Some("3.7.1-beta.1")) == Success(1)
  {
    Parses371Beta2();
    Parses371Beta1();
  }

  // ---------------------------------------------------------------------------
  // The '.' after the patch part.

  /** The source accepts "1.2.3." as 1.2.3; the strict dialect rejects it. */
  lemma TrailingDotAfterPatch()
    ensures Parse("1.2.3.") == Success(Version([1, 2, 3], None, None))
    ensures ParseStrict("1.2.3.") == Failure(InvalidVersion)
  {
    var s := "1.2.3.";
    SingleDigitCore(s, AsWritten);
    SingleDigitCore(s, Strict);
    ParseCoreOnly(s, Version([1, 2, 3], None, None), AsWritten);
    ParseBadAfterCore(s, Strict, [1, 2, 3], 5);
  }
}
