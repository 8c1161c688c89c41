/** Character classes, maximal runs, decimal numerals and joining, as used by
    the semantic-version scanner. */
module Lexical {

  predicate IsDigit(c: char) {
    '0' <= c <= '9'
  }

  /** The identifier class [0-9A-Za-z-] shared by pre-release and build identifiers. */
  predicate IsIdentChar(c: char) {
    IsDigit(c) || 'a' <= c <= 'z' || 'A' <= c <= 'Z' || c == '-'
  }

  /** The character classes whose runs the scanner reads; a rendered version
      is made of `VersionText` characters. */
  datatype CharClass = Digits | Identifier | VersionText

  predicate InClass(c: char, cls: CharClass) {
    match cls
    case Digits => IsDigit(c)
    case Identifier => IsIdentChar(c)
    case VersionText => IsIdentChar(c) || c == '.' || c == '+'
  }

  predicate AllIn(s: string, cls: CharClass) {
    forall k :: 0 <= k < |s| ==> InClass(s[k], cls)
  }

  /** The index just past the longest run of `cls` characters starting at `pos`. */
  function RunEnd(input: string, pos: nat, cls: CharClass): (end: nat)
    requires pos <= |input|
    ensures pos <= end <= |input|
    decreases |input| - pos
  {
    if pos < |input| && InClass(input[pos], cls) then RunEnd(input, pos + 1, cls) else pos
  }

  lemma {:induction false} RunEndProps(input: string, pos: nat, cls: CharClass)
    requires pos <= |input|
    ensures var end := RunEnd(input, pos, cls);
            && AllIn(input[pos..end], cls)
            && (end == |input| || !InClass(input[end], cls))
    decreases |input| - pos
  {
    if pos < |input| && InClass(input[pos], cls) {
      RunEndProps(input, pos + 1, cls);
      var end := RunEnd(input, pos, cls);
      assert forall k :: 0 < k < end - pos ==> input[pos..end][k] == input[pos + 1..end][k - 1];
    }
  }

  /** A run is determined by its contents: if `w` sits at `pos`, is all in the
      class, and is followed by the end or by a character outside the class,
      then the run starting at `pos` is exactly `w`. */
  lemma RunEndOfWord(input: string, pos: nat, w: string, cls: CharClass)
    requires pos + |w| <= |input| && input[pos..pos + |w|] == w
    requires AllIn(w, cls)
    requires pos + |w| == |input| || !InClass(input[pos + |w|], cls)
    ensures RunEnd(input, pos, cls) == pos + |w|
  {
    var end := RunEnd(input, pos, cls);
    RunEndProps(input, pos, cls);
    assert forall k :: pos <= k < pos + |w| ==> input[k] == w[k - pos];
    assert forall k :: pos <= k < end ==> input[k] == input[pos..end][k - pos];
  }

  function DigitValue(c: char): nat
    requires IsDigit(c)
  {
    c as int - '0' as int
  }

  function DigitChar(d: nat): (c: char)
    requires d < 10
    ensures IsDigit(c) && DigitValue(c) == d
  {
    ('0' as int + d) as char
  }

  /** The value of a string of decimal digits (most significant first). */
  function NumeralValue(s: string): nat
    requires AllIn(s, Digits)
    decreases |s|
  {
    if |s| == 0 then 0 else 10 * NumeralValue(s[..|s| - 1]) + DigitValue(s[|s| - 1])
  }

  /** Non-empty digits with no leading zero unless the numeral is exactly "0". */
  predicate IsCanonicalNumeral(s: string) {
    |s| > 0 && AllIn(s, Digits) && (s[0] == '0' ==> |s| == 1)
  }

  /** The canonical decimal numeral of `n`. */
  function Decimal(n: nat): (s: string)
    ensures IsCanonicalNumeral(s)
    ensures NumeralValue(s) == n
    decreases n
  {
    if n < 10 then [DigitChar(n)]
    else
      var prefix := Decimal(n / 10);
      var s := prefix + [DigitChar(n % 10)];
      assert s[..|s| - 1] == prefix;
      s
  }

  lemma NumeralPositive(s: string)
    requires |s| > 0 && AllIn(s, Digits) && s[0] != '0'
    ensures NumeralValue(s) >= 1
    decreases |s|
  {
    if |s| > 1 {
      NumeralPositive(s[..|s| - 1]);
    }
  }

  /** Canonical numerals and naturals are in one-to-one correspondence:
      reading a canonical numeral and printing the value gives it back. */
  lemma {:induction false} CanonicalNumeralRoundTrip(s: string)
    requires IsCanonicalNumeral(s)
    ensures Decimal(NumeralValue(s)) == s
    decreases |s|
  {
    if |s| > 1 {
      var prefix := s[..|s| - 1];
      assert prefix[0] == s[0];
      NumeralPositive(prefix);
      CanonicalNumeralRoundTrip(prefix);
      var n := NumeralValue(s);
      assert n / 10 == NumeralValue(prefix) && n % 10 == DigitValue(s[|s| - 1]);
      assert s == prefix + [s[|s| - 1]];
    }
  }

  /** `parts` separated by `sep`; the empty list joins to the empty string. */
  function Join(parts: seq<string>, sep: char): string
    decreases |parts|
  {
    if |parts| == 0 then []
    else if |parts| == 1 then parts[0]
    else parts[0] + [sep] + Join(parts[1..], sep)
  }

  lemma {:induction false} JoinAllIn(parts: seq<string>, sep: char, cls: CharClass)
    requires forall i :: 0 <= i < |parts| ==> AllIn(parts[i], cls)
    requires InClass(sep, cls)
    ensures AllIn(Join(parts, sep), cls)
    decreases |parts|
  {
    if |parts| > 1 {
      JoinAllIn(parts[1..], sep, cls);
      var j := Join(parts, sep);
      forall k | 0 <= k < |j|
        ensures InClass(j[k], cls)
      {
        if k < |parts[0]| {
          assert j[k] == parts[0][k];
        } else if k > |parts[0]| {
          assert j[k] == Join(parts[1..], sep)[k - |parts[0]| - 1];
        }
      }
    }
  }
}
