/** The version algebra of the catalog lookup (runtime/dsh/semver-range.js), on the version strings
    themselves. */
module SemverRange {
  import opened Wrappers

  predicate IsDigit(c: char) { '0' <= c <= '9' }

  predicate Digits(s: string) { s != "" && forall i :: 0 <= i < |s| ==> IsDigit(s[i]) }

  /** `Number` of a digit string. */
  function Number(s: string): nat
    requires forall i :: 0 <= i < |s| ==> IsDigit(s[i])
  {
    assert s != "" ==> IsDigit(s[|s|-1]);
    if s == "" then 0 else 10 * Number(s[..|s|-1]) + (s[|s|-1] as int - '0' as int)
  }

  /** `s.split` on any character of `seps`. */
  function Split(s: string, seps: set<char>): (parts: seq<string>)
    ensures |parts| >= 1
  {
    if s == "" then [""]
    else
      var rest := Split(s[1..], seps);
      if s[0] in seps then [""] + rest else [[s[0]] + rest[0]] + rest[1..]
  }

  const CUTS := {'.', '+', '-'}

  /** The three release segments are there and numeric: what the catalog's SEMVER pattern grants. */
  predicate Released(v: string) {
    var parts := Split(v, CUTS);
    |parts| >= 3 && Digits(parts[0]) && Digits(parts[1]) && Digits(parts[2])
  }

  datatype Release = Release(major: nat, minor: nat, patch: nat)

  function ReleaseOf(v: string): Release
    requires Released(v)
  {
    var parts := Split(v, CUTS);
    Release(Number(parts[0]), Number(parts[1]), Number(parts[2]))
  }

  predicate ReleaseLess(a: Release, b: Release) {
    || a.major < b.major
    || (a.major == b.major && (a.minor < b.minor || (a.minor == b.minor && a.patch < b.patch)))
  }

  // ---- versionLess -----------------------------------------------------------------

  /** A segment that is not there is `undefined`. */
  function Segment(parts: seq<string>, i: nat): Option<nat>
    requires forall n :: 0 <= n < |parts| ==> Digits(parts[n])
  {
    if i < |parts| then assert Digits(parts[i]); Some(Number(parts[i])) else None
  }

  /** The index scan: the first differing position decides; comparing with `undefined` is false. */
  predicate ScanLess(pa: seq<string>, pb: seq<string>, i: nat)
    requires forall n :: 0 <= n < |pa| ==> Digits(pa[n])
    requires forall n :: 0 <= n < |pb| ==> Digits(pb[n])
    decreases 3 - i
  {
    if i >= 3 then false
    else
      var a, b := Segment(pa, i), Segment(pb, i);
      if a != b then a.Some? && b.Some? && a.value < b.value else ScanLess(pa, pb, i + 1)
  }

  lemma {:induction false} SplitHasNoSeparator(s: string, seps: set<char>, i: nat)
    requires i < |Split(s, seps)|
    ensures forall n :: 0 <= n < |Split(s, seps)[i]| ==> Split(s, seps)[i][n] !in seps
  {
    if s != "" {
      if s[0] in seps {
        if i > 0 { SplitHasNoSeparator(s[1..], seps, i - 1); }
      } else {
        SplitHasNoSeparator(s[1..], seps, i);
      }
    }
  }

  lemma {:induction false} SplitOfOneSegment(s: string, seps: set<char>)
    requires forall n :: 0 <= n < |s| ==> s[n] !in seps
    ensures Split(s, seps) == [s]
  {
    if s != "" {
      SplitOfOneSegment(s[1..], seps);
      assert [s[0]] + s[1..] == s;
    }
  }

  /** The second split runs on the FIRST segment of the first one, which has no dot left. */
  lemma HeadSplit(v: string)
    ensures Split(Split(v, CUTS)[0], {'.'}) == [Split(v, CUTS)[0]]
  {
    SplitHasNoSeparator(v, CUTS, 0);
    SplitOfOneSegment(Split(v, CUTS)[0], {'.'});
  }

  predicate VersionLess(a: string, b: string)
    requires Released(a) && Released(b)
  {
    HeadSplit(a);
    HeadSplit(b);
    ScanLess(Split(Split(a, CUTS)[0], {'.'}), Split(Split(b, CUTS)[0], {'.'}), 0)
  }

  /** The order the code uses is the order of the MAJOR numbers alone. */
  lemma VersionLessComparesMajors(a: string, b: string)
    requires Released(a) && Released(b)
    ensures VersionLess(a, b) <==> ReleaseOf(a).major < ReleaseOf(b).major
  {
    HeadSplit(a);
    HeadSplit(b);
    var pa, pb := [Split(a, CUTS)[0]], [Split(b, CUTS)[0]];
    assert !ScanLess(pa, pb, 3) && !ScanLess(pa, pb, 2) && !ScanLess(pa, pb, 1);
  }

  /** It is the semver release order of the two exactly when the majors differ or a is not below b:
      it never sees a minor or patch upgrade. */
  lemma VersionLessIsSemverExactly(a: string, b: string)
    requires Released(a) && Released(b)
    ensures (VersionLess(a, b) <==> ReleaseLess(ReleaseOf(a), ReleaseOf(b)))
       <==> (ReleaseOf(a).major != ReleaseOf(b).major
             || (ReleaseOf(b).minor, ReleaseOf(b).patch) == (ReleaseOf(a).minor, ReleaseOf(a).patch)
             || ReleaseOf(b).minor < ReleaseOf(a).minor
             || (ReleaseOf(b).minor == ReleaseOf(a).minor && ReleaseOf(b).patch < ReleaseOf(a).patch))
  {
    VersionLessComparesMajors(a, b);
  }

  // ---- satisfies --------------------------------------------------------------------

  datatype Range = Any | Exact(at: Release) | Caret(at: Release) | Tilde(at: Release) | Unsupported

  /** The pattern of a supported range; everything else throws. */
  function ParseRange(r: string): Range {
    if r == "*" || r == "" then Any
    else
      var op := if r[0] == '^' || r[0] == '~' then 1 else 0;
      var parts := Split(r[op..], {'.'});
      if |parts| != 3 || !Digits(parts[0]) || !Digits(parts[1]) || !Digits(parts[2]) then Unsupported
      else
        var at := Release(Number(parts[0]), Number(parts[1]), Number(parts[2]));
        if op == 0 then Exact(at) else if r[0] == '^' then Caret(at) else Tilde(at)
  }

  predicate InRange(v: Release, r: Range) {
    match r
    case Any => true
    case Exact(m) => v == m
    case Caret(m) => v.major == m.major && (v.minor > m.minor || (v.minor == m.minor && v.patch >= m.patch))
    case Tilde(m) => v.major == m.major && v.minor == m.minor && v.patch >= m.patch
    case Unsupported => false
  }

  /** A caret range is the releases from its base up to the next major; a tilde range those up to the
      next minor. */
  lemma RangesAreIntervals(v: Release, m: Release)
    ensures InRange(v, Caret(m)) <==> !ReleaseLess(v, m) && ReleaseLess(v, Release(m.major + 1, 0, 0))
    ensures InRange(v, Tilde(m)) <==> !ReleaseLess(v, m) && ReleaseLess(v, Release(m.major, m.minor + 1, 0))
  {}
}
