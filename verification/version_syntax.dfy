/** The parsed form of a semantic version and its canonical textual rendering.
    The rendering is the reference against which the scanner is proved. */
module VersionSyntax {
  import opened Wrappers
  import opened Lexical

  /** major[.minor[.patch]], then an optional pre-release identifier list and an
      optional build-metadata identifier list (a Java null list is `None`). */
  datatype Version = Version(core: seq<nat>, preRelease: Option<seq<string>>, build: Option<seq<string>>)

  /** A build identifier: a non-empty run of [0-9A-Za-z-]. */
  predicate IsBuildId(id: string) {
    |id| > 0 && AllIn(id, Identifier)
  }

  /** A pre-release identifier: a build identifier that does not start with '0'. */
  predicate IsPreReleaseId(id: string) {
    IsBuildId(id) && id[0] != '0'
  }

  predicate BuildIds(ids: seq<string>) {
    |ids| > 0 && forall i :: 0 <= i < |ids| ==> IsBuildId(ids[i])
  }

  predicate PreReleaseIds(ids: seq<string>) {
    |ids| > 0 && forall i :: 0 <= i < |ids| ==> IsPreReleaseId(ids[i])
  }

  /** The shape of every version the scanner accepts: one to three core parts,
      exactly three when a pre-release or build list follows, and non-empty
      lists of valid identifiers. */
  predicate WellFormed(v: Version) {
    && 1 <= |v.core| <= 3
    && (v.preRelease.Some? || v.build.Some? ==> |v.core| == 3)
    && (v.preRelease.Some? ==> PreReleaseIds(v.preRelease.value))
    && (v.build.Some? ==> BuildIds(v.build.value))
  }

  function Numerals(core: seq<nat>): (r: seq<string>)
    ensures |r| == |core|
    ensures forall i :: 0 <= i < |core| ==> r[i] == Decimal(core[i])
  {
    seq(|core|, i requires 0 <= i < |core| => Decimal(core[i]))
  }

  function RenderCore(core: seq<nat>): string {
    Join(Numerals(core), '.')
  }

  /** "+build.ids" when build metadata is present, else nothing. */
  function RenderBuild(build: Option<seq<string>>): string {
    if build.Some? then ['+'] + Join(build.value, '.') else []
  }

  function RenderSuffix(v: Version): string {
    (if v.preRelease.Some? then ['-'] + Join(v.preRelease.value, '.') else [])
      + RenderBuild(v.build)
  }

  function Render(v: Version): string {
    RenderCore(v.core) + RenderSuffix(v)
  }


  /** A rendered well-formed version is made only of identifier characters,
      '.' and '+'; in particular it has no space. */
  lemma RenderChars(v: Version)
    requires WellFormed(v)
    ensures AllIn(Render(v), VersionText)
    ensures ' ' !in Render(v)
  {
    var nums := Numerals(v.core);
    JoinAllIn(nums, '.', VersionText);
    if v.preRelease.Some? {
      JoinAllIn(v.preRelease.value, '.', VersionText);
    }
    if v.build.Some? {
      JoinAllIn(v.build.value, '.', VersionText);
    }
    var r := Render(v);
    assert AllIn(r, VersionText);
    assert forall k :: 0 <= k < |r| ==> r[k] != ' ';
  }
}
