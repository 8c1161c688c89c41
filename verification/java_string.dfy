/** The two `java.lang.String` operations the core relies on: `compareTo`
    (pre-release ordering) and `contains` (substring matching). A Dafny `char`
    is a Unicode scalar value, whereas a Java `char` is a UTF-16 unit; the two
    agree on ASCII, which is all a pre-release identifier can hold. */
module JavaString {

  /** `a` precedes `b` lexicographically, first differing at index `k`:
      either `a` is a proper prefix of `b`, or `a[k] < b[k]`. */
  predicate LessAt(a: string, b: string, k: nat) {
    && k <= |a| && k <= |b| && a[..k] == b[..k]
    && ((k == |a| && k < |b|) || (k < |a| && k < |b| && a[k] < b[k]))
  }

  /** Lexicographic order on characters (scalar values), independent of `CompareTo`. */
  ghost predicate LexLess(a: string, b: string) {
    exists k :: LessAt(a, b, k)
  }

  /** `String.compareTo`: the difference of the first differing characters, or the
      difference of the lengths when one string is a prefix of the other. */
  function CompareTo(a: string, b: string): (r: int)
    ensures r == 0 <==> a == b
    decreases |a|
  {
    if |a| == 0 || |b| == 0 then |a| - |b|
    else if a[0] != b[0] then a[0] as int - b[0] as int
    else
      assert a == [a[0]] + a[1..] && b == [b[0]] + b[1..];
      CompareTo(a[1..], b[1..])
  }

  lemma LessAtTail(a: string, b: string, k: nat)
    requires |a| > 0 && |b| > 0 && a[0] == b[0]
    ensures LessAt(a, b, k + 1) <==> LessAt(a[1..], b[1..], k)
  {
    if k + 1 <= |a| && k + 1 <= |b| {
      assert a[..k + 1] == [a[0]] + a[1..][..k];
      assert b[..k + 1] == [b[0]] + b[1..][..k];
    }
  }

  /** `compareTo` is negative exactly when `a` precedes `b` lexicographically. */
  lemma {:induction false} CompareToNegative(a: string, b: string)
    ensures CompareTo(a, b) < 0 <==> LexLess(a, b)
    decreases |a|
  {
    if |a| == 0 || |b| == 0 {
      if |a| < |b| {
        assert LessAt(a, b, 0);
      }
    } else if a[0] != b[0] {
      if a[0] < b[0] {
        assert LessAt(a, b, 0);
      } else {
        assert forall k: nat :: 0 < k <= |a| && k <= |b| ==> a[..k][0] == a[0] && b[..k][0] == b[0];
      }
    } else {
      CompareToNegative(a[1..], b[1..]);
      if LexLess(a[1..], b[1..]) {
        var k: nat :| LessAt(a[1..], b[1..], k);
        LessAtTail(a, b, k);
      }
      if LexLess(a, b) {
        var k: nat :| LessAt(a, b, k);
        assert k > 0;
        LessAtTail(a, b, k - 1);
      }
    }
  }

  /** Swapping the operands negates `compareTo`. */
  lemma {:induction false} CompareToAntisymmetric(a: string, b: string)
    ensures CompareTo(a, b) == -CompareTo(b, a)
    decreases |a|
  {
    if |a| > 0 && |b| > 0 && a[0] == b[0] {
      CompareToAntisymmetric(a[1..], b[1..]);
    }
  }

  /** `needle` appears in `hay` starting at index `i`. */
  predicate OccursAt(hay: string, needle: string, i: nat) {
    i + |needle| <= |hay| && hay[i..i + |needle|] == needle
  }

  ghost predicate IsSubstring(needle: string, hay: string) {
    exists i :: OccursAt(hay, needle, i)
  }

  /** The search behind `String.contains`: try each start index from `from` on. */
  function ContainsFrom(hay: string, needle: string, from: nat): (r: bool)
    ensures r <==> exists i :: from <= i && OccursAt(hay, needle, i)
    decreases |hay| - from
  {
    if from + |needle| > |hay| then false
    else if OccursAt(hay, needle, from) then true
    else ContainsFrom(hay, needle, from + 1)
  }

  /** `String.contains`: `hay` has `needle` as a contiguous substring. */
  function Contains(hay: string, needle: string): (r: bool)
    ensures r <==> IsSubstring(needle, hay)
  {
    ContainsFrom(hay, needle, 0)
  }
}
