/** The scanner against the rendering: every accepted string is the rendering
    of its parse (with, for the source's own parser, one extra form), and every
    well-formed version's rendering parses back to it. The inductive lemmas
    only chain facts established by the small step lemmas before them. */
module ParseRoundTrip {
  import opened Wrappers
  import opened Lexical
  import opened VersionSyntax
  import opened SemanticVersion

  // ---------------------------------------------------------------------------
  // Sequence and rendering helpers.

  /** Splitting the suffix of `input` at `pos` into `w` and `rest`. */
  lemma Split(input: string, pos: nat, w: string, rest: string)
    requires pos <= |input| && input[pos..] == w + rest
    ensures pos + |w| <= |input|
    ensures input[pos..pos + |w|] == w
    ensures input[pos + |w|..] == rest
  {
    assert input[pos..][..|w|] == w;
    assert input[pos..][|w|..] == rest;
  }

  /** `input` from `pos` on is exactly `s`, stated one character at a time
      so that only the characters a proof asks about are unfolded. */
  predicate Spells(input: string, pos: nat, s: string)
    decreases |s|
  {
    && pos <= |input|
    && if s == [] then pos == |input|
       else pos < |input| && input[pos] == s[0] && Spells(input, pos + 1, s[1..])
  }

  lemma {:induction false} SpellsIff(input: string, pos: nat, s: string)
    ensures Spells(input, pos, s) <==> pos <= |input| && input[pos..] == s
    decreases |s|
  {
    if s != [] && pos < |input| {
      SpellsIff(input, pos + 1, s[1..]);
      if input[pos..] == s {
        assert input[pos + 1..] == s[1..];
      }
      if input[pos] == s[0] && input[pos + 1..] == s[1..] {
        assert input[pos..] == [input[pos]] + input[pos + 1..];
      }
    }
  }

  lemma SpellsOf(input: string, pos: nat, s: string)
    requires pos <= |input| && input[pos..] == s
    ensures Spells(input, pos, s)
  {
    SpellsIff(input, pos, s);
  }

  /** What follows a word and one separator. */
  lemma AfterSeparator(input: string, pos: nat, w: string, sep: char, rest: string)
    requires pos <= |input| && input[pos..] == w + ([sep] + rest)
    ensures pos + |w| + 1 <= |input| && input[pos + |w| + 1..] == rest
  {
    Split(input, pos, w, [sep] + rest);
    Split(input, pos + |w|, [sep], rest);
  }

  /** Gluing a run, one separator and the remainder back together. */
  lemma Glue(input: string, pos: nat, end: nat)
    requires pos <= end < |input|
    ensures input[pos..] == input[pos..end] + [input[end]] + input[end + 1..]
  {
  }

  lemma JoinCons(head: string, tail: seq<string>, sep: char)
    requires |tail| > 0
    ensures Join([head] + tail, sep) == head + [sep] + Join(tail, sep)
  {
    assert ([head] + tail)[1..] == tail;
  }

  /** The first identifier of a list of two or more, then the rest. */
  lemma JoinFirst(ids: seq<string>, sep: char, after: string)
    requires |ids| > 1
    ensures Join(ids, sep) + after == ids[0] + ([sep] + (Join(ids[1..], sep) + after))
  {
  }

  lemma RenderCoreCons(core: seq<nat>)
    requires |core| > 0
    ensures |core| == 1 ==> RenderCore(core) == Decimal(core[0])
    ensures |core| > 1 ==> RenderCore(core) == Decimal(core[0]) + ['.'] + RenderCore(core[1..])
  {
    assert Numerals(core)[1..] == Numerals(core[1..]);
  }

  /** A word of the class followed by a character outside it: the run ends there. */
  lemma WordThen(input: string, pos: nat, w: string, after: string, cls: CharClass)
    requires pos <= |input| && input[pos..] == w + after
    requires AllIn(w, cls) && (after == [] || !InClass(after[0], cls))
    ensures pos + |w| <= |input| && RunEnd(input, pos, cls) == pos + |w|
    ensures input[pos..pos + |w|] == w && input[pos + |w|..] == after
    ensures after != [] ==> input[pos + |w|] == after[0]
  {
    Split(input, pos, w, after);
    if after != [] {
      assert input[pos + |w|] == after[0];
    }
    RunEndOfWord(input, pos, w, cls);
  }

  // ---------------------------------------------------------------------------
  // One step of each scanner on its own.

  lemma ScanBuildCases(input: string, pos: nat)
    requires pos <= |input| && ScanBuild(input, pos).Success?
    ensures var end := RunEnd(input, pos, Identifier);
            var ids := ScanBuild(input, pos).value;
            && pos < end
            && (|| (end == |input| && ids == [input[pos..end]])
                || (&& end < |input| && input[end] == '.' && ScanBuild(input, end + 1).Success?
                    && ids == [input[pos..end]] + ScanBuild(input, end + 1).value))
  {
  }

  lemma BuildLast(input: string, pos: nat, w: string)
    requires pos <= |input| && IsBuildId(w) && input[pos..] == w
    ensures ScanBuild(input, pos) == Success([w])
  {
    WordThen(input, pos, w, [], Identifier);
  }

  lemma BuildCons(input: string, pos: nat, w: string, rest: string, tail: seq<string>)
    requires pos <= |input| && IsBuildId(w) && input[pos..] == w + (['.'] + rest)
    requires pos + |w| + 1 <= |input| && ScanBuild(input, pos + |w| + 1) == Success(tail)
    ensures ScanBuild(input, pos) == Success([w] + tail)
  {
    WordThen(input, pos, w, ['.'] + rest, Identifier);
  }

  lemma ScanReleaseCases(input: string, pos: nat)
    requires pos <= |input| && ScanRelease(input, pos).Success?
    ensures var end := RunEnd(input, pos, Identifier);
            var r := ScanRelease(input, pos).value;
            && pos < end
            && (|| (end == |input| && r == ([input[pos..end]], None))
                || (&& end < |input| && input[end] == '.' && ScanRelease(input, end + 1).Success?
                    && r == ([input[pos..end]] + ScanRelease(input, end + 1).value.0, ScanRelease(input, end + 1).value.1))
                || (&& end < |input| && input[end] == '+' && ScanBuild(input, end + 1).Success?
                    && r == ([input[pos..end]], Some(ScanBuild(input, end + 1).value))))
  {
  }

  lemma ReleaseLast(input: string, pos: nat, w: string)
    requires pos <= |input| && IsPreReleaseId(w) && input[pos..] == w
    ensures ScanRelease(input, pos) == Success(([w], None))
  {
    WordThen(input, pos, w, [], Identifier);
  }

  lemma ReleaseThenBuild(input: string, pos: nat, w: string, rest: string, build: seq<string>)
    requires pos <= |input| && IsPreReleaseId(w) && input[pos..] == w + (['+'] + rest)
    requires pos + |w| + 1 <= |input| && ScanBuild(input, pos + |w| + 1) == Success(build)
    ensures ScanRelease(input, pos) == Success(([w], Some(build)))
  {
    WordThen(input, pos, w, ['+'] + rest, Identifier);
  }

  /** A core loop that read more than one part went on past a '.'. */
  lemma ScanCoreMore(input: string, pos: nat, slots: nat, dialect: Dialect, parts: seq<nat>, next: nat)
    requires pos <= |input| && 1 <= slots && ScanCore(input, pos, slots, dialect) == Success((parts, next))
    requires |parts| > 1
    ensures var end := RunEnd(input, pos, Digits);
            && pos < end < |input| && input[pos..end] == Decimal(parts[0]) && input[end] == '.' && slots > 1
            && ScanCore(input, end + 1, slots - 1, dialect) == Success((parts[1..], next))
  {
    RunEndProps(input, pos, Digits);
    CanonicalNumeralRoundTrip(input[pos..RunEnd(input, pos, Digits)]);
  }

  /** A core loop that read one part stopped right after it, or after the '.'
      that follows the last slot in the source's dialect. */
  lemma ScanCoreLast(input: string, pos: nat, slots: nat, dialect: Dialect, parts: seq<nat>, next: nat)
    requires pos <= |input| && 1 <= slots && ScanCore(input, pos, slots, dialect) == Success((parts, next))
    requires |parts| <= 1
    ensures var end := RunEnd(input, pos, Digits);
            && pos < end <= |input| && |parts| == 1 && input[pos..end] == Decimal(parts[0])
            && (|| next == end
                || (next == end + 1 && end < |input| && input[end] == '.' && dialect == AsWritten && slots == 1))
  {
    RunEndProps(input, pos, Digits);
    CanonicalNumeralRoundTrip(input[pos..RunEnd(input, pos, Digits)]);
  }

  /** The core loop's three ways on from the numeral of `core[0]`, read at
      `pos` up to `end`, stated over ground facts only. */
  lemma CoreStop(input: string, pos: nat, end: nat, slots: nat, dialect: Dialect, core: seq<nat>, next: nat)
    requires |core| == 1 && 1 <= slots && end == pos + |Decimal(core[0])| && end <= |input|
    requires RunEnd(input, pos, Digits) == end && input[pos..end] == Decimal(core[0])
    requires end == |input| || input[end] != '.'
    requires next == end
    ensures ScanCore(input, pos, slots, dialect) == Success((core, next))
  {
    assert input[pos] == Decimal(core[0])[0];
    assert [NumeralValue(Decimal(core[0]))] == core;
  }

  lemma CoreDot(input: string, pos: nat, end: nat, slots: nat, dialect: Dialect, core: seq<nat>, next: nat)
    requires |core| == 1 && slots == 1 && dialect == AsWritten
    requires end == pos + |Decimal(core[0])| && end < |input|
    requires RunEnd(input, pos, Digits) == end && input[pos..end] == Decimal(core[0])
    requires input[end] == '.'
    requires next == end + 1
    ensures ScanCore(input, pos, slots, dialect) == Success((core, next))
  {
    assert input[pos] == Decimal(core[0])[0];
    assert [NumeralValue(Decimal(core[0]))] == core;
  }

  lemma CoreGo(input: string, pos: nat, end: nat, slots: nat, dialect: Dialect, core: seq<nat>, next: nat)
    requires 1 < |core| <= slots && end == pos + |Decimal(core[0])| && end < |input|
    requires RunEnd(input, pos, Digits) == end && input[pos..end] == Decimal(core[0])
    requires input[end] == '.' && ScanCore(input, end + 1, slots - 1, dialect) == Success((core[1..], next))
    ensures ScanCore(input, pos, slots, dialect) == Success((core, next))
  {
    assert input[pos] == Decimal(core[0])[0];
    assert [NumeralValue(Decimal(core[0]))] + core[1..] == core;
  }

  /** An accepted string starts with an accepted core. */
  lemma ParseCore(s: string, dialect: Dialect)
    requires ParseWith(s, dialect).Success?
    ensures ScanCore(s, 0, 3, dialect).Success?
  {
  }

  /** The three shapes of an accepted string after its core. */
  lemma ParseWithCases(s: string, dialect: Dialect, v: Version, core: seq<nat>, pos: nat)
    requires ParseWith(s, dialect) == Success(v) && ScanCore(s, 0, 3, dialect) == Success((core, pos))
    ensures core == v.core && pos <= |s|
    ensures pos == |s| ==> v.preRelease.None? && v.build.None?
    ensures pos < |s| && s[pos] == '+' ==>
              v.preRelease.None? && v.build.Some? && ScanBuild(s, pos + 1) == Success(v.build.value)
    ensures pos < |s| && s[pos] != '+' ==>
              s[pos] == '-' && v.preRelease.Some? && ScanRelease(s, pos + 1) == Success((v.preRelease.value, v.build))
  {
  }

  // ---------------------------------------------------------------------------
  // Soundness: what a scanner accepts is the rendering of what it returns.

  lemma {:induction false} ScanBuildSound(input: string, pos: nat)
    requires pos <= |input| && ScanBuild(input, pos).Success?
    ensures Join(ScanBuild(input, pos).value, '.') == input[pos..]
    decreases |input| - pos
  {
    ScanBuildCases(input, pos);
    var end := RunEnd(input, pos, Identifier);
    if end < |input| {
      ScanBuildSound(input, end + 1);
      JoinCons(input[pos..end], ScanBuild(input, end + 1).value, '.');
      Glue(input, pos, end);
    }
  }

  lemma Regroup(a: string, b: string, c: string, d: string)
    ensures a + b + c + d == a + b + (c + d)
  {
  }

  /** An identifier, a '.', and the rendering of the identifiers after it. */
  lemma ReleaseSoundDot(input: string, pos: nat, end: nat, ids: seq<string>, build: Option<seq<string>>)
    requires pos <= end < |input| && input[end] == '.' && |ids| > 0
    requires Join(ids, '.') + RenderBuild(build) == input[end + 1..]
    ensures Join([input[pos..end]] + ids, '.') + RenderBuild(build) == input[pos..]
  {
    var head := input[pos..end];
    Glue(input, pos, end);
    JoinCons(head, ids, '.');
    Regroup(head, ['.'], Join(ids, '.'), RenderBuild(build));
  }

  /** The last pre-release identifier, a '+', and the build identifiers after it. */
  lemma ReleaseSoundPlus(input: string, pos: nat, end: nat, build: seq<string>)
    requires pos <= end < |input| && input[end] == '+'
    requires Join(build, '.') == input[end + 1..]
    ensures Join([input[pos..end]], '.') + RenderBuild(Some(build)) == input[pos..]
  {
    Glue(input, pos, end);
  }

  lemma {:induction false} ScanReleaseSound(input: string, pos: nat)
    requires pos <= |input| && ScanRelease(input, pos).Success?
    ensures var r := ScanRelease(input, pos).value;
            Join(r.0, '.') + RenderBuild(r.1) == input[pos..]
    decreases |input| - pos
  {
    ScanReleaseCases(input, pos);
    var end := RunEnd(input, pos, Identifier);
    if end < |input| {
      if input[end] == '.' {
        var rest := ScanRelease(input, end + 1).value;
        assert Join(rest.0, '.') + RenderBuild(rest.1) == input[end + 1..] by {
          ScanReleaseSound(input, end + 1);
        }
        ReleaseSoundDot(input, pos, end, rest.0, rest.1);
      } else {
        var build := ScanBuild(input, end + 1).value;
        assert Join(build, '.') == input[end + 1..] by {
          ScanBuildSound(input, end + 1);
        }
        ReleaseSoundPlus(input, pos, end, build);
      }
    }
  }

  /** A rendered part, a '.', and the rendering of the remaining parts. */
  lemma CoreRenderCons(part: nat, rest: seq<nat>, dot: string)
    requires |rest| > 0
    ensures RenderCore([part] + rest) + dot == Decimal(part) + ['.'] + (RenderCore(rest) + dot)
  {
    RenderCoreCons([part] + rest);
    assert ([part] + rest)[1..] == rest;
    Regroup(Decimal(part), ['.'], RenderCore(rest), dot);
  }

  /** A slice cut at a separator position. */
  lemma Glue3(input: string, pos: nat, end: nat, next: nat)
    requires pos <= end < next <= |input|
    ensures input[pos..next] == input[pos..end] + [input[end]] + input[end + 1..next]
  {
  }

  /** The first rendered part, a '.', and the rendering of the remaining parts. */
  lemma CoreSoundCons(input: string, pos: nat, end: nat, next: nat, parts: seq<nat>, dot: string)
    requires pos <= end < next <= |input| && |parts| > 1
    requires input[pos..end] == Decimal(parts[0]) && input[end] == '.'
    requires input[end + 1..next] == RenderCore(parts[1..]) + dot
    ensures input[pos..next] == RenderCore(parts) + dot
  {
    Glue3(input, pos, end, next);
    CoreRenderCons(parts[0], parts[1..], dot);
    assert [parts[0]] + parts[1..] == parts;
  }

  /** The last part read, with the '.' after it when the loop consumed one. */
  lemma CoreSoundLast(input: string, pos: nat, end: nat, next: nat, part: nat, dot: string)
    requires pos <= end <= next <= |input| && input[pos..end] == Decimal(part)
    requires (next == end && dot == []) || (next == end + 1 && input[end] == '.' && dot == ['.'])
    ensures input[pos..next] == Decimal(part) + dot
  {
    assert input[pos..next] == input[pos..end] + input[end..next];
  }

  /** The core loop accepts the rendering of its parts, followed, in the
      source's dialect only, by one '.' (`dot`) once all slots are used. */
  lemma {:induction false} ScanCoreSound(input: string, pos: nat, slots: nat, dialect: Dialect, parts: seq<nat>, next: nat)
    returns (dot: string)
    requires pos <= |input| && 1 <= slots && ScanCore(input, pos, slots, dialect) == Success((parts, next))
    ensures dot == [] || (dot == ['.'] && dialect == AsWritten && |parts| == slots)
    ensures input[pos..next] == RenderCore(parts) + dot
    decreases slots, 1
  {
    if |parts| > 1 {
      dot := CoreSoundMore(input, pos, slots, dialect, parts, next);
    } else {
      dot := CoreSoundOne(input, pos, slots, dialect, parts, next);
    }
  }

  /** `ScanCoreSound` when the loop read several parts: the first, a '.', the rest. */
  lemma {:induction false} CoreSoundMore(input: string, pos: nat, slots: nat, dialect: Dialect, parts: seq<nat>, next: nat)
    returns (dot: string)
    requires pos <= |input| && 1 <= slots && ScanCore(input, pos, slots, dialect) == Success((parts, next))
    requires |parts| > 1
    ensures dot == [] || (dot == ['.'] && dialect == AsWritten && |parts| == slots)
    ensures input[pos..next] == RenderCore(parts) + dot
    decreases slots, 0
  {
    ScanCoreMore(input, pos, slots, dialect, parts, next);
    var end := RunEnd(input, pos, Digits);
    dot := ScanCoreSound(input, end + 1, slots - 1, dialect, parts[1..], next);
    CoreSoundCons(input, pos, end, next, parts, dot);
  }

  /** `ScanCoreSound` when the loop read one part. */
  lemma CoreSoundOne(input: string, pos: nat, slots: nat, dialect: Dialect, parts: seq<nat>, next: nat)
    returns (dot: string)
    requires pos <= |input| && 1 <= slots && ScanCore(input, pos, slots, dialect) == Success((parts, next))
    requires |parts| <= 1
    ensures dot == [] || (dot == ['.'] && dialect == AsWritten && |parts| == slots)
    ensures input[pos..next] == RenderCore(parts) + dot
  {
    ScanCoreLast(input, pos, slots, dialect, parts, next);
    var end := RunEnd(input, pos, Digits);
    dot := if next == end then [] else ['.'];
    CoreSoundLast(input, pos, end, next, parts[0], dot);
    RenderCoreCons(parts);
  }

  lemma BuildSuffixSound(s: string, pos: nat, build: seq<string>)
    requires pos < |s| && s[pos] == '+' && ScanBuild(s, pos + 1) == Success(build)
    ensures s[pos..] == ['+'] + Join(build, '.')
  {
    Glue(s, pos, pos);
    ScanBuildSound(s, pos + 1);
  }

  lemma ReleaseSuffixSound(s: string, pos: nat, r: (seq<string>, Option<seq<string>>))
    requires pos < |s| && s[pos] == '-' && ScanRelease(s, pos + 1) == Success(r)
    ensures s[pos..] == ['-'] + (Join(r.0, '.') + RenderBuild(r.1))
  {
    Glue(s, pos, pos);
    ScanReleaseSound(s, pos + 1);
  }

  /** What follows the core of an accepted string is the rendering of its lists. */
  lemma SuffixSound(s: string, dialect: Dialect, v: Version, core: seq<nat>, pos: nat)
    requires ParseWith(s, dialect) == Success(v) && ScanCore(s, 0, 3, dialect) == Success((core, pos))
    ensures core == v.core && pos <= |s| && s[pos..] == RenderSuffix(v)
  {
    ParseWithCases(s, dialect, v, core, pos);
    if pos < |s| {
      if s[pos] == '+' {
        BuildSuffixSound(s, pos, v.build.value);
      } else {
        ReleaseSuffixSound(s, pos, (v.preRelease.value, v.build));
      }
    }
  }

  lemma Concat(s: string, pos: nat, front: string, back: string)
    requires pos <= |s| && s[..pos] == front && s[pos..] == back
    ensures s == front + back
  {
    assert s == s[..pos] + s[pos..];
  }

  /** Soundness of the parser: an accepted string is the rendering of its
      parse, or, for the source's parser, that rendering with a '.' inserted
      after a three-part core. */
  lemma ParseWithSound(s: string, dialect: Dialect)
    requires ParseWith(s, dialect).Success?
    ensures var v := ParseWith(s, dialect).value;
            || s == Render(v)
            || (dialect == AsWritten && |v.core| == 3 && s == RenderCore(v.core) + ['.'] + RenderSuffix(v))
  {
    var v := ParseWith(s, dialect).value;
    ParseCore(s, dialect);
    var core := ScanCore(s, 0, 3, dialect).value;
    SuffixSound(s, dialect, v, core.0, core.1);
    var dot := ScanCoreSound(s, 0, 3, dialect, core.0, core.1);
    assert s[0..core.1] == s[..core.1];
    Concat(s, core.1, RenderCore(v.core) + dot, RenderSuffix(v));
    if dot == [] {
      assert RenderCore(v.core) + dot == RenderCore(v.core);
    }
  }

  /** The corrected parser reads exactly what the rendering writes. */
  lemma ParseStrictSound(s: string)
    requires ParseStrict(s).Success?
    ensures Render(ParseStrict(s).value) == s
  {
    ParseWithSound(s, Strict);
  }

  // ---------------------------------------------------------------------------
  // Completeness: the rendering of a well-formed version is accepted.

  lemma {:induction false} ScanBuildComplete(input: string, pos: nat, ids: seq<string>)
    requires pos <= |input| && BuildIds(ids) && input[pos..] == Join(ids, '.')
    ensures ScanBuild(input, pos) == Success(ids)
    decreases |ids|
  {
    var w := ids[0];
    assert IsBuildId(w);
    if |ids| == 1 {
      assert ids == [w];
      BuildLast(input, pos, w);
    } else {
      var rest := Join(ids[1..], '.');
      JoinFirst(ids, '.', []);
      assert input[pos..] == w + (['.'] + rest);
      AfterSeparator(input, pos, w, '.', rest);
      ScanBuildComplete(input, pos + |w| + 1, ids[1..]);
      BuildCons(input, pos, w, rest, ids[1..]);
      assert [w] + ids[1..] == ids;
    }
  }

  /** The last pre-release identifier, a '+', and a build list. */
  lemma LastReleaseThenBuild(input: string, pos: nat, w: string, ids: seq<string>)
    requires pos <= |input| && IsPreReleaseId(w) && BuildIds(ids)
    requires input[pos..] == w + (['+'] + Join(ids, '.'))
    ensures ScanRelease(input, pos) == Success(([w], Some(ids)))
  {
    var rest := Join(ids, '.');
    AfterSeparator(input, pos, w, '+', rest);
    ScanBuildComplete(input, pos + |w| + 1, ids);
    ReleaseThenBuild(input, pos, w, rest, ids);
  }

  /** The last pre-release identifier, then the end or the build list. */
  lemma LastReleaseComplete(input: string, pos: nat, w: string, build: Option<seq<string>>)
    requires pos <= |input| && IsPreReleaseId(w) && (build.Some? ==> BuildIds(build.value))
    requires input[pos..] == w + RenderBuild(build)
    ensures ScanRelease(input, pos) == Success(([w], build))
  {
    if build.Some? {
      LastReleaseThenBuild(input, pos, w, build.value);
    } else {
      assert input[pos..] == w;
      ReleaseLast(input, pos, w);
    }
  }

  /** The first pre-release identifier of two or more, then a '.'. */
  lemma ReleaseHead(input: string, pos: nat, pre: seq<string>, build: Option<seq<string>>) returns (end: nat)
    requires |pre| > 1 && IsPreReleaseId(pre[0])
    requires Spells(input, pos, Join(pre, '.') + RenderBuild(build))
    ensures end == pos + |pre[0]| && end < |input|
    ensures RunEnd(input, pos, Identifier) == end && input[pos..end] == pre[0] && input[end] == '.'
    ensures Spells(input, end + 1, Join(pre[1..], '.') + RenderBuild(build))
  {
    var rest := Join(pre[1..], '.') + RenderBuild(build);
    SpellsIff(input, pos, Join(pre, '.') + RenderBuild(build));
    JoinFirst(pre, '.', RenderBuild(build));
    end := pos + |pre[0]|;
    WordThen(input, pos, pre[0], ['.'] + rest, Identifier);
    AfterSeparator(input, pos, pre[0], '.', rest);
    SpellsIff(input, end + 1, rest);
  }

  lemma ReleaseGo(input: string, pos: nat, end: nat, pre: seq<string>, build: Option<seq<string>>)
    requires |pre| > 1 && IsPreReleaseId(pre[0]) && end == pos + |pre[0]| && end < |input|
    requires RunEnd(input, pos, Identifier) == end && input[pos..end] == pre[0] && input[end] == '.'
    requires ScanRelease(input, end + 1) == Success((pre[1..], build))
    ensures ScanRelease(input, pos) == Success((pre, build))
  {
    assert input[pos] == pre[0][0];
    assert [pre[0]] + pre[1..] == pre;
  }

  lemma ReleaseOne(input: string, pos: nat, pre: seq<string>, build: Option<seq<string>>)
    requires |pre| == 1 && IsPreReleaseId(pre[0]) && (build.Some? ==> BuildIds(build.value))
    requires Spells(input, pos, Join(pre, '.') + RenderBuild(build))
    ensures ScanRelease(input, pos) == Success((pre, build))
  {
    SpellsIff(input, pos, Join(pre, '.') + RenderBuild(build));
    assert pre == [pre[0]];
    LastReleaseComplete(input, pos, pre[0], build);
  }

  lemma {:induction false} ScanReleaseComplete(input: string, pos: nat, pre: seq<string>, build: Option<seq<string>>)
    requires PreReleaseIds(pre) && (build.Some? ==> BuildIds(build.value))
    requires Spells(input, pos, Join(pre, '.') + RenderBuild(build))
    ensures ScanRelease(input, pos) == Success((pre, build))
    decreases |pre|
  {
    assert IsPreReleaseId(pre[0]);
    if |pre| == 1 {
      ReleaseOne(input, pos, pre, build);
    } else {
      assert ScanRelease(input, pos) == Success((pre, build)) by {
        var end := ReleaseHead(input, pos, pre, build);
        ScanReleaseComplete(input, end + 1, pre[1..], build);
        ReleaseGo(input, pos, end, pre, build);
      }
    }
  }

  /** A run of digits, a '.', and what follows it. */
  lemma DigitsThenDot(input: string, pos: nat, w: string, rest: string)
    requires pos <= |input| && AllIn(w, Digits) && input[pos..] == w + (['.'] + rest)
    ensures pos + |w| < |input| && RunEnd(input, pos, Digits) == pos + |w|
    ensures input[pos..pos + |w|] == w && input[pos + |w|] == '.'
    ensures input[pos + |w| + 1..] == rest
  {
    WordThen(input, pos, w, ['.'] + rest, Digits);
    AfterSeparator(input, pos, w, '.', rest);
  }

  /** The first rendered part of a core with more parts, then a '.'. */
  lemma CoreHead(input: string, pos: nat, core: seq<nat>, after: string) returns (end: nat)
    requires |core| > 1 && Spells(input, pos, RenderCore(core) + after)
    ensures end == pos + |Decimal(core[0])| && end < |input|
    ensures RunEnd(input, pos, Digits) == end && input[pos..end] == Decimal(core[0]) && input[end] == '.'
    ensures Spells(input, end + 1, RenderCore(core[1..]) + after)
    ensures end + 1 + |RenderCore(core[1..])| == pos + |RenderCore(core)|
  {
    var w := Decimal(core[0]);
    var rest := RenderCore(core[1..]) + after;
    assert input[pos..] == w + (['.'] + rest) by {
      SpellsIff(input, pos, RenderCore(core) + after);
      RenderCoreCons(core);
    }
    assert |RenderCore(core)| == |w| + 1 + |RenderCore(core[1..])| by {
      RenderCoreCons(core);
    }
    end := pos + |w|;
    DigitsThenDot(input, pos, w, rest);
    SpellsOf(input, end + 1, rest);
  }

  /** The only part of a one-part core, then the end, a marker or a `dot`. */
  lemma CoreEnd(input: string, pos: nat, core: seq<nat>, dot: string, tail: string) returns (end: nat)
    requires |core| == 1 && (dot == [] || dot == ['.'])
    requires tail == [] || tail[0] == '-' || tail[0] == '+'
    requires Spells(input, pos, RenderCore(core) + (dot + tail))
    ensures end == pos + |Decimal(core[0])| && end <= |input| && end == pos + |RenderCore(core)|
    ensures RunEnd(input, pos, Digits) == end && input[pos..end] == Decimal(core[0])
    ensures dot == [] ==> end == |input| || input[end] != '.'
    ensures dot != [] ==> end < |input| && input[end] == '.'
  {
    SpellsIff(input, pos, RenderCore(core) + (dot + tail));
    RenderCoreCons(core);
    end := pos + |Decimal(core[0])|;
    WordThen(input, pos, Decimal(core[0]), dot + tail, Digits);
  }

  lemma CoreOne(input: string, pos: nat, core: seq<nat>, slots: nat, dialect: Dialect, dot: string, tail: string)
    requires |core| == 1 && 1 <= slots
    requires dot == [] || (dot == ['.'] && dialect == AsWritten && slots == 1)
    requires tail == [] || tail[0] == '-' || tail[0] == '+'
    requires Spells(input, pos, RenderCore(core) + (dot + tail))
    ensures ScanCore(input, pos, slots, dialect) == Success((core, pos + |RenderCore(core)| + |dot|))
  {
    var end := CoreEnd(input, pos, core, dot, tail);
    if dot == [] {
      CoreStop(input, pos, end, slots, dialect, core, pos + |RenderCore(core)| + |dot|);
    } else {
      CoreDot(input, pos, end, slots, dialect, core, pos + |RenderCore(core)| + |dot|);
    }
  }

  /** The core loop reads back the rendered parts; a `dot` after them is the
      '.' after the last slot that only the source's dialect consumes. */
  lemma {:induction false} ScanCoreComplete(input: string, pos: nat, core: seq<nat>, slots: nat,
                                            dialect: Dialect, dot: string, tail: string)
    requires 1 <= |core| <= slots
    requires dot == [] || (dot == ['.'] && dialect == AsWritten && |core| == slots)
    requires tail == [] || tail[0] == '-' || tail[0] == '+'
    requires Spells(input, pos, RenderCore(core) + (dot + tail))
    ensures pos <= |input|
    ensures ScanCore(input, pos, slots, dialect) == Success((core, pos + |RenderCore(core)| + |dot|))
    decreases |core|
  {
    if |core| == 1 {
      CoreOne(input, pos, core, slots, dialect, dot, tail);
    } else {
      assert ScanCore(input, pos, slots, dialect) == Success((core, pos + |RenderCore(core)| + |dot|)) by {
        var end := CoreHead(input, pos, core, dot + tail);
        ScanCoreComplete(input, end + 1, core[1..], slots - 1, dialect, dot, tail);
        CoreGo(input, pos, end, slots, dialect, core, pos + |RenderCore(core)| + |dot|);
      }
    }
  }

  lemma ParseBuildOnly(s: string, pos: nat, v: Version, dialect: Dialect)
    requires v.preRelease.None? && v.build.Some? && |v.core| == 3 && pos < |s| && s[pos] == '+'
    requires ScanCore(s, 0, 3, dialect) == Success((v.core, pos)) && ' ' !in s
    requires ScanBuild(s, pos + 1) == Success(v.build.value)
    ensures ParseWith(s, dialect) == Success(v)
  {
  }

  lemma ParsePreRelease(s: string, pos: nat, v: Version, dialect: Dialect)
    requires v.preRelease.Some? && |v.core| == 3 && pos < |s| && s[pos] == '-'
    requires ScanCore(s, 0, 3, dialect) == Success((v.core, pos)) && ' ' !in s
    requires ScanRelease(s, pos + 1) == Success((v.preRelease.value, v.build))
    ensures ParseWith(s, dialect) == Success(v)
  {
  }

  lemma ParseCoreOnly(s: string, v: Version, dialect: Dialect)
    requires v.preRelease.None? && v.build.None?
    requires ScanCore(s, 0, 3, dialect) == Success((v.core, |s|)) && ' ' !in s
    ensures ParseWith(s, dialect) == Success(v)
  {
  }

  /** The markers after a core parse back to the version's lists. */
  lemma SuffixComplete(s: string, pos: nat, v: Version, dialect: Dialect)
    requires WellFormed(v) && pos <= |s| && s[pos..] == RenderSuffix(v)
    requires ScanCore(s, 0, 3, dialect) == Success((v.core, pos)) && ' ' !in s
    ensures ParseWith(s, dialect) == Success(v)
  {
    if v.preRelease.Some? {
      ReleaseSuffixComplete(s, pos, v.preRelease.value, v.build);
      ParsePreRelease(s, pos, v, dialect);
    } else if v.build.Some? {
      BuildSuffixComplete(s, pos, v.build.value);
      ParseBuildOnly(s, pos, v, dialect);
    } else {
      ParseCoreOnly(s, v, dialect);
    }
  }

  lemma ReleaseSuffixComplete(s: string, pos: nat, pre: seq<string>, build: Option<seq<string>>)
    requires PreReleaseIds(pre) && (build.Some? ==> BuildIds(build.value))
    requires pos <= |s| && s[pos..] == ['-'] + (Join(pre, '.') + RenderBuild(build))
    ensures pos < |s| && s[pos] == '-' && ScanRelease(s, pos + 1) == Success((pre, build))
  {
    Split(s, pos, ['-'], Join(pre, '.') + RenderBuild(build));
    SpellsIff(s, pos + 1, Join(pre, '.') + RenderBuild(build));
    ScanReleaseComplete(s, pos + 1, pre, build);
  }

  lemma BuildSuffixComplete(s: string, pos: nat, build: seq<string>)
    requires BuildIds(build)
    requires pos <= |s| && s[pos..] == ['+'] + Join(build, '.')
    ensures pos < |s| && s[pos] == '+' && ScanBuild(s, pos + 1) == Success(build)
  {
    Split(s, pos, ['+'], Join(build, '.'));
    ScanBuildComplete(s, pos + 1, build);
  }

  /** What may follow a rendered core. */
  lemma SuffixStart(v: Version)
    ensures var t := RenderSuffix(v); t == [] || t[0] == '-' || t[0] == '+'
  {
  }

  /** `ScanCoreComplete` at the start of a string. */
  lemma CoreAtStart(s: string, core: seq<nat>, slots: nat, dialect: Dialect, dot: string, suffix: string)
    requires 1 <= |core| <= slots && (dot == [] || (dot == ['.'] && dialect == AsWritten && |core| == slots))
    requires suffix == [] || suffix[0] == '-' || suffix[0] == '+'
    requires s == RenderCore(core) + dot + suffix
    ensures ScanCore(s, 0, slots, dialect) == Success((core, |RenderCore(core)| + |dot|))
  {
    assert s[0..] == RenderCore(core) + (dot + suffix);
    SpellsIff(s, 0, RenderCore(core) + (dot + suffix));
    ScanCoreComplete(s, 0, core, slots, dialect, dot, suffix);
  }

  /** The rendered core, read at the start of a string with a suffix after it. */
  lemma CoreOfRendering(s: string, core: seq<nat>, dialect: Dialect, dot: string, suffix: string) returns (pos: nat)
    requires 1 <= |core| <= 3 && (dot == [] || (dot == ['.'] && dialect == AsWritten && |core| == 3))
    requires suffix == [] || suffix[0] == '-' || suffix[0] == '+'
    requires s == RenderCore(core) + dot + suffix
    ensures pos == |RenderCore(core)| + |dot| && pos <= |s|
    ensures ScanCore(s, 0, 3, dialect) == Success((core, pos))
    ensures s[pos..] == suffix
  {
    pos := |RenderCore(core)| + |dot|;
    CoreAtStart(s, core, 3, dialect, dot, suffix);
    Split(s, 0, RenderCore(core) + dot, suffix);
  }

  /** Completeness of the parser: a well-formed version's rendering parses back
      to that version, in either dialect. */
  lemma ParseRender(v: Version, dialect: Dialect)
    requires WellFormed(v)
    ensures ParseWith(Render(v), dialect) == Success(v)
  {
    var s := Render(v);
    RenderChars(v);
    SuffixStart(v);
    assert s == RenderCore(v.core) + [] + RenderSuffix(v);
    var pos := CoreOfRendering(s, v.core, dialect, [], RenderSuffix(v));
    SuffixComplete(s, pos, v, dialect);
  }

  /** The source's parser also accepts a '.' right after a three-part core:
      the rendering with that dot inserted parses to the same version. */
  lemma DotAfterPatchAccepted(v: Version)
    requires WellFormed(v) && |v.core| == 3
    ensures Parse(RenderCore(v.core) + ['.'] + RenderSuffix(v)) == Success(v)
  {
    var s := RenderCore(v.core) + ['.'] + RenderSuffix(v);
    RenderChars(v);
    SuffixStart(v);
    NoSpaceWithDot(RenderCore(v.core), RenderSuffix(v));
    var pos := CoreOfRendering(s, v.core, AsWritten, ['.'], RenderSuffix(v));
    SuffixComplete(s, pos, v, AsWritten);
  }

  lemma NoSpaceWithDot(front: string, back: string)
    requires ' ' !in front + back
    ensures ' ' !in front + ['.'] + back
  {
    var s := front + ['.'] + back;
    assert forall k :: 0 <= k < |front| ==> s[k] == (front + back)[k];
    assert forall k :: |front| < k < |s| ==> s[k] == (front + back)[k - 1];
  }
}
