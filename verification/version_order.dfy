/** The order `compare` imposes, against independent characterisations: the
    first position where two lists differ decides, a shorter core loses, the
    result flips when the operands are swapped, and build metadata plays no
    part. */
module VersionOrder {
  import opened Wrappers
  import opened JavaString
  import opened VersionSyntax
  import opened SemanticVersion
  import opened ParseRoundTrip

  /** `a` and `b` agree before index `i` and differ at it. */
  predicate FirstDiff<T(==)>(a: seq<T>, b: seq<T>, i: nat) {
    i < |a| && i < |b| && a[..i] == b[..i] && a[i] != b[i]
  }

  lemma FirstDiffTail<T>(a: seq<T>, b: seq<T>, i: nat)
    requires FirstDiff(a, b, i) && i > 0
    ensures a[0] == b[0] && FirstDiff(a[1..], b[1..], i - 1)
  {
    assert a[0] == a[..i][0] && b[0] == b[..i][0];
    assert a[1..][..i - 1] == a[..i][1..];
    assert b[1..][..i - 1] == b[..i][1..];
  }

  /** At the first differing core part, the numerically smaller side loses. */
  lemma {:induction false} CoreOrderAtFirstDiff(actual: seq<nat>, target: seq<nat>, i: nat)
    requires FirstDiff(actual, target, i)
    ensures CoreOrder(actual, target) == if actual[i] < target[i] then -1 else 1
    decreases i
  {
    if i > 0 {
      FirstDiffTail(actual, target, i);
      CoreOrderAtFirstDiff(actual[1..], target[1..], i - 1);
    }
  }

  /** An actual core that runs out before the target's parts do is smaller. */
  lemma {:induction false} CoreOrderShorter(actual: seq<nat>, target: seq<nat>)
    requires |actual| < |target| && IsPrefix(actual, target)
    ensures CoreOrder(actual, target) == -1
    decreases |actual|
  {
    if |actual| > 0 {
      assert actual[0] == target[0];
      assert actual[1..] == target[1..][..|actual| - 1];
      CoreOrderShorter(actual[1..], target[1..]);
    }
  }

  /** Between cores of the same length, swapping the operands negates the result. */
  lemma {:induction false} CoreOrderAntisymmetric(a: seq<nat>, b: seq<nat>)
    requires |a| == |b|
    ensures CoreOrder(a, b) == -CoreOrder(b, a)
    decreases |a|
  {
    if |a| > 0 && a[0] == b[0] {
      CoreOrderAntisymmetric(a[1..], b[1..]);
    }
  }

  /** At the first differing pre-release identifier, `compareTo` of that pair decides. */
  lemma {:induction false} PreReleaseOrderAtFirstDiff(actual: seq<string>, target: seq<string>, i: nat)
    requires FirstDiff(actual, target, i)
    ensures PreReleaseOrder(actual, target) == Success(CompareTo(actual[i], target[i]))
    decreases i
  {
    if i > 0 {
      FirstDiffTail(actual, target, i);
      PreReleaseOrderAtFirstDiff(actual[1..], target[1..], i - 1);
    }
  }

  /** Between pre-release lists of the same length the comparison never fails,
      and swapping the operands negates it. */
  lemma {:induction false} PreReleaseOrderAntisymmetric(a: seq<string>, b: seq<string>)
    requires |a| == |b|
    ensures PreReleaseOrder(a, b).Success? && PreReleaseOrder(b, a).Success?
    ensures PreReleaseOrder(a, b).value == -PreReleaseOrder(b, a).value
    decreases |a|
  {
    if |a| > 0 {
      CompareToAntisymmetric(a[0], b[0]);
      if CompareTo(a[0], b[0]) == 0 {
        PreReleaseOrderAntisymmetric(a[1..], b[1..]);
      }
    }
  }

  /** Build metadata never changes the outcome. */
  lemma CompareVersionsIgnoresBuild(actual: Version, target: Version, actualBuild: Option<seq<string>>,
                                    targetBuild: Option<seq<string>>)
    ensures CompareVersions(actual.(build := actualBuild), target.(build := targetBuild))
            == CompareVersions(actual, target)
  {
  }

  /** A release is above any pre-release of the same core. */
  lemma ReleaseAbovePreRelease(actual: Version, target: Version)
    requires actual.core == target.core && actual.preRelease.None? && target.preRelease.Some?
    ensures CompareVersions(actual, target) == Success(1)
  {
    assert IsPrefix(target.core, actual.core);
  }

  /** With the cores of equal length and the pre-release lists both absent or
      of equal length, the comparison never fails and swapping the operands
      negates it. */
  lemma CompareVersionsAntisymmetric(a: Version, b: Version)
    requires |a.core| == |b.core|
    requires a.preRelease.Some? <==> b.preRelease.Some?
    requires a.preRelease.Some? ==> |a.preRelease.value| == |b.preRelease.value|
    ensures CompareVersions(a, b).Success? && CompareVersions(b, a).Success?
    ensures CompareVersions(a, b).value == -CompareVersions(b, a).value
  {
    CoreOrderAntisymmetric(a.core, b.core);
    if a.preRelease.Some? {
      PreReleaseOrderAntisymmetric(a.preRelease.value, b.preRelease.value);
    }
  }

  /** Comparing version strings is comparing the versions they render:
      `compare` on two renderings of well-formed versions parses each back and
      orders them by `CompareVersions`. */
  lemma CompareRendered(actual: Version, target: Version)
    requires WellFormed(actual) && WellFormed(target)
    ensures Compare(Render(actual), Some(Render(target))) == CompareVersions(actual, target)
  {
    ParseRender(actual, AsWritten);
    ParseRender(target, AsWritten);
    assert |Render(target)| > 0 by {
      assert |RenderCore(target.core)| > 0 by {
        RenderCoreCons(target.core);
      }
    }
  }

  /** A version string compares equal to itself whenever it parses. */
  lemma CompareReflexive(s: string)
    ensures Parse(s).Success? ==> Compare(s, Some(s)) == Success(0)
    ensures Parse(s).Failure? && s != [] ==> Compare(s, Some(s)) == Failure(Parse(s).error)
  {
    if s != [] && Parse(s).Success? {
      var v := Parse(s).value;
      assert IsPrefix(v.core, v.core);
      if v.preRelease.Some? {
        assert IsPrefix(v.preRelease.value, v.preRelease.value);
      }
    }
  }
}
