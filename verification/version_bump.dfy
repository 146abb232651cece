/** scripts/version-bump.js: choosing a semantic-version bump from conventional-commit
    subjects, and the arithmetic that turns `M.m.p` into the next version. Reading and
    writing package.json and the git log are left to the caller: the commit subjects and
    the current version string are parameters. */
module VersionBump {
  import opened Optional
  import opened Text
  import Decimal
  import opened ConventionalCommits

  datatype Bump = Major | Minor | Patch

  /** The string `determineVersionBump` returns for each bump. */
  function BumpName(b: Bump): string {
    match b
    case Major => "major"
    case Minor => "minor"
    case Patch => "patch"
  }

  /** The `switch` of `updateVersion`: `major` and `minor` select their bump, and `patch`
      as well as every other string falls into the `patch`/`default` case. */
  function ParseBumpType(name: string): Bump {
    if name == "major" then Major
    else if name == "minor" then Minor
    else Patch
  }

  /** Reading back a bump's name gives the bump; any unknown name reads as a patch. */
  lemma BumpNameRoundTrip(b: Bump, other: string)
    ensures ParseBumpType(BumpName(b)) == b
    ensures other != "major" && other != "minor" ==> ParseBumpType(other) == Patch
  {
  }

  predicate HasBreaking(commits: seq<string>) {
    exists i :: 0 <= i < |commits| && IsBreaking(commits[i])
  }

  predicate HasFeature(commits: seq<string>) {
    exists i :: 0 <= i < |commits| && IsFeature(commits[i])
  }

  /** The bump a set of commits calls for: major if any commit is breaking, otherwise minor
      if any is a feature, otherwise patch (fixes, unconventional subjects, no commits). */
  function BumpOf(commits: seq<string>): Bump {
    if HasBreaking(commits) then Major
    else if HasFeature(commits) then Minor
    else Patch
  }

  /** `determineVersionBump`: one pass over the subjects that stops at the first breaking
      one. The flags it keeps before stopping are exactly the ones the declarative `BumpOf`
      reads off the whole list. */
  method DetermineVersionBump(commits: seq<string>) returns (b: Bump)
    ensures b == BumpOf(commits)
    ensures b == Major <==> HasBreaking(commits)
    ensures b == Minor <==> !HasBreaking(commits) && HasFeature(commits)
  {
    var hasBreaking := false;
    var hasFeature := false;
    var hasFix := false;
    var i := 0;
    while i < |commits|
      invariant 0 <= i <= |commits|
      invariant !hasBreaking
      invariant forall j :: 0 <= j < i ==> !IsBreaking(commits[j])
      invariant hasFeature <==> exists j :: 0 <= j < i && IsFeature(commits[j])
      invariant hasFix <==> exists j :: 0 <= j < i && IsFix(commits[j])
    {
      var commit := commits[i];
      if IsBreaking(commit) {
        hasBreaking := true;
        break;
      }
      if IsFeature(commit) {
        hasFeature := true;
      }
      if IsFix(commit) {
        hasFix := true;
      }
      i := i + 1;
    }
    FlagsGiveBump(commits, i, hasBreaking, hasFeature);
    if hasBreaking {
      b := Major;
    } else if hasFeature {
      b := Minor;
    } else if hasFix {
      b := Patch;
    } else {
      b := Patch;
    }
  }

  /** What the loop of `DetermineVersionBump` knows when it ends decides the bump: a
      breaking commit where it stopped, or else the features it saw in the whole list. */
  lemma FlagsGiveBump(commits: seq<string>, i: int, hasBreaking: bool, hasFeature: bool)
    requires 0 <= i <= |commits|
    requires hasBreaking ==> i < |commits| && IsBreaking(commits[i])
    requires !hasBreaking ==> i == |commits|
    requires forall j :: 0 <= j < i ==> !IsBreaking(commits[j])
    requires hasFeature <==> exists j :: 0 <= j < i && IsFeature(commits[j])
    ensures BumpOf(commits) == if hasBreaking then Major else if hasFeature then Minor else Patch
  {
  }

  /** The bump does not depend on the order of the commits: any rearrangement of the same
      subjects calls for the same bump. */
  lemma BumpIgnoresOrder(a: seq<string>, b: seq<string>)
    requires multiset(a) == multiset(b)
    ensures BumpOf(a) == BumpOf(b)
  {
    SameMembersSameFlags(a, b);
    SameMembersSameFlags(b, a);
  }

  lemma SameMembersSameFlags(a: seq<string>, b: seq<string>)
    requires multiset(a) == multiset(b)
    ensures HasBreaking(a) ==> HasBreaking(b)
    ensures HasFeature(a) ==> HasFeature(b)
  {
    if HasBreaking(a) {
      var i :| 0 <= i < |a| && IsBreaking(a[i]);
      assert a[i] in multiset(b);
      var j :| 0 <= j < |b| && b[j] == a[i];
    }
    if HasFeature(a) {
      var i :| 0 <= i < |a| && IsFeature(a[i]);
      assert a[i] in multiset(b);
      var j :| 0 <= j < |b| && b[j] == a[i];
    }
  }

  /** A semantic version `major.minor.patch`. */
  datatype Version = Version(major: nat, minor: nat, patch: nat)

  /** Strict lexicographic order on (major, minor, patch). */
  predicate Precedes(a: Version, b: Version) {
    a.major < b.major
    || (a.major == b.major && a.minor < b.minor)
    || (a.major == b.major && a.minor == b.minor && a.patch < b.patch)
  }

  predicate PrecedesOrEqual(a: Version, b: Version) {
    a == b || Precedes(a, b)
  }

  /** The version arithmetic of `updateVersion`. */
  function NextVersion(v: Version, b: Bump): (r: Version)
    ensures Precedes(v, r)
  {
    match b
    case Major => Version(v.major + 1, 0, 0)
    case Minor => Version(v.major, v.minor + 1, 0)
    case Patch => Version(v.major, v.minor, v.patch + 1)
  }

  /** `w` raises `v` at the level of `b`: a later major for a major bump, a later
      (major, minor) pair for a minor bump, and any later version for a patch bump. */
  predicate Raises(b: Bump, v: Version, w: Version) {
    match b
    case Major => v.major < w.major
    case Minor => v.major < w.major || (v.major == w.major && v.minor < w.minor)
    case Patch => Precedes(v, w)
  }

  /** The next version is the least version that raises the current one at the bump's
      level: nothing between the two versions would also be a bump of that kind. */
  lemma NextVersionIsLeast(v: Version, b: Bump, w: Version)
    requires Raises(b, v, w)
    ensures Raises(b, v, NextVersion(v, b))
    ensures PrecedesOrEqual(NextVersion(v, b), w)
  {
  }

  /** `${major}.${minor}.${patch}`. */
  function VersionString(v: Version): string {
    Decimal.FromNat(v.major) + "." + Decimal.FromNat(v.minor) + "." + Decimal.FromNat(v.patch)
  }

  /** `currentVersion.split('.').map(Number)` destructured into three names: the first three
      components are read and any further ones ignored. A version with fewer than three
      components, or a component that is not a plain digit string, is None. */
  function ParseVersion(s: string): Option<Version> {
    var parts := Split(s, '.');
    if |parts| < 3 then None
    else
      match (Decimal.ToNat(parts[0]), Decimal.ToNat(parts[1]), Decimal.ToNat(parts[2]))
      case (Some(major), Some(minor), Some(patch)) => Some(Version(major, minor, patch))
      case _ => None
  }

  /** The version string `updateVersion` writes back, from the one it read and the bump type
      it was given; None where the read version does not parse. */
  function UpdateVersion(current: string, bumpType: string): Option<string> {
    match ParseVersion(current)
    case None => None
    case Some(v) => Some(VersionString(NextVersion(v, ParseBumpType(bumpType))))
  }

  /** The three rendered components of a version. */
  function Components(v: Version): seq<string> {
    [Decimal.FromNat(v.major), Decimal.FromNat(v.minor), Decimal.FromNat(v.patch)]
  }

  lemma ComponentsJoin(v: Version)
    ensures Join(Components(v), '.') == VersionString(v)
  {
    JoinThree(Decimal.FromNat(v.major), Decimal.FromNat(v.minor), Decimal.FromNat(v.patch), '.');
  }

  /** Reading a rendered version gives the version back, even when further dot-separated
      components follow it (they are ignored, as the three-name destructuring ignores them). */
  lemma ParseVersionWithTail(v: Version, tail: seq<string>)
    requires forall i :: 0 <= i < |tail| ==> '.' !in tail[i]
    ensures ParseVersion(Join([VersionString(v)] + tail, '.')) == Some(v)
  {
    var parts := Components(v) + tail;
    RenderedParts(v, tail);
    SplitJoin(parts, '.');
    Decimal.ToNatFromNat(v.major);
    Decimal.ToNatFromNat(v.minor);
    Decimal.ToNatFromNat(v.patch);
    ParseVersionOfParts(Join([VersionString(v)] + tail, '.'), parts, v);
  }

  /** The rendered version followed by the tail is the join of its components and the tail,
      none of which contains a dot. */
  lemma RenderedParts(v: Version, tail: seq<string>)
    requires forall i :: 0 <= i < |tail| ==> '.' !in tail[i]
    ensures Join(Components(v) + tail, '.') == Join([VersionString(v)] + tail, '.')
    ensures forall i :: 0 <= i < |Components(v) + tail| ==> '.' !in (Components(v) + tail)[i]
  {
    ComponentsJoin(v);
    JoinPrefix(Components(v), tail, '.');
    NoDotInDecimal(v.major);
    NoDotInDecimal(v.minor);
    NoDotInDecimal(v.patch);
  }

  /** `ParseVersion` reads the first three pieces of the split. */
  lemma ParseVersionOfParts(s: string, parts: seq<string>, v: Version)
    requires Split(s, '.') == parts && |parts| >= 3
    requires Decimal.ToNat(parts[0]) == Some(v.major)
    requires Decimal.ToNat(parts[1]) == Some(v.minor)
    requires Decimal.ToNat(parts[2]) == Some(v.patch)
    ensures ParseVersion(s) == Some(v)
  {
  }

  /** A rendered natural has no `.` in it. */
  lemma NoDotInDecimal(n: nat)
    ensures '.' !in Decimal.FromNat(n)
  {
  }

  /** Reading a rendered version gives the version back. */
  lemma ParseVersionString(v: Version)
    ensures ParseVersion(VersionString(v)) == Some(v)
  {
    ParseVersionWithTail(v, []);
    assert [VersionString(v)] + [] == [VersionString(v)];
  }

  /** Joining a non-empty front and a tail is joining the front's join with the tail. */
  lemma {:induction false} JoinPrefix(front: seq<string>, tail: seq<string>, sep: char)
    requires |front| >= 1
    ensures Join(front + tail, sep) == Join([Join(front, sep)] + tail, sep)
    decreases |front|
  {
    if |front| > 1 {
      JoinPrefix(front[1..], tail, sep);
      assert (front + tail)[1..] == front[1..] + tail;
      if |tail| > 0 {
        assert ([Join(front, sep)] + tail)[1..] == tail;
        assert ([Join(front[1..], sep)] + tail)[1..] == tail;
      }
    }
  }

  /** On a well-formed version string, `updateVersion` writes the rendering of the next
      version for the bump its argument names. */
  lemma UpdateVersionOnCanonical(v: Version, bumpType: string)
    ensures UpdateVersion(VersionString(v), bumpType)
      == Some(VersionString(NextVersion(v, ParseBumpType(bumpType))))
  {
    ParseVersionString(v);
  }
}
