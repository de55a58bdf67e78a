/**
  The Go version model of internal/version/version.go: parsing a release tag
  such as "go1.22.1" or "go1.22rc1", its canonical rendering, the total order
  on versions, and version-string normalisation. Grouping lives in module
  Grouping.

  Digit runs are read as unbounded naturals: the source ignores the error of
  `strconv.Atoi`, which only fails here on a run too large for a Go `int`.
*/
module Version {
  import opened Wrappers
  import opened Text

  /**
    A parsed tag. `rc` is 0 when `isRC` is false. The source's `FetchedAt`
    timestamp is not modelled.
  */
  datatype Version = Version(
    tag: string,
    major: nat,
    minor: nat,
    patch: nat,
    rc: nat,
    fullVersion: string,
    isRC: bool)

  /** The versions sharing one "major.minor" key. */
  datatype VersionGroup = VersionGroup(majorMinor: string, versions: seq<Version>)

  /** The cached catalog (its `FetchedAt` timestamp is not modelled). */
  datatype VersionsData = VersionsData(groups: seq<VersionGroup>)

  datatype ParseError = InvalidFormat(tag: string)

  // ---------------------------------------------------------------------------
  // The tag grammar  ^go(\d+)\.(\d+)(?:\.(\d+))?(?:rc(\d+))?$
  // ---------------------------------------------------------------------------

  /** The four capture groups of the grammar; the last two are optional. */
  datatype TagParts = TagParts(major: string, minor: string, patch: Option<string>, rc: Option<string>)

  predicate DigitGroup(d: string) {
    |d| > 0 && AllDigits(d)
  }

  predicate WellFormedParts(p: TagParts) {
    && DigitGroup(p.major)
    && DigitGroup(p.minor)
    && (p.patch.Some? ==> DigitGroup(p.patch.value))
    && (p.rc.Some? ==> DigitGroup(p.rc.value))
  }

  function PatchText(patch: Option<string>): string {
    if patch.Some? then "." + patch.value else ""
  }

  function RcText(rc: Option<string>): string {
    if rc.Some? then "rc" + rc.value else ""
  }

  /** What follows the '.' after the major digits. */
  function MinorText(p: TagParts): string {
    p.minor + (PatchText(p.patch) + RcText(p.rc))
  }

  /** What follows the "go" prefix. */
  function MajorText(p: TagParts): string {
    p.major + ("." + MinorText(p))
  }

  /** The one string the grammar matches with these capture groups. */
  function RenderParts(p: TagParts): string {
    "go" + MajorText(p)
  }

  /** `tag` matches the grammar, with nothing before or after. */
  ghost predicate MatchesTagGrammar(tag: string) {
    exists p :: WellFormedParts(p) && RenderParts(p) == tag
  }

  /** The group the recogniser reads next. */
  datatype Stage = Major | Minor | Patch | Rc

  function StageRank(stage: Stage): nat {
    match stage
    case Major => 3
    case Minor => 2
    case Patch => 1
    case Rc => 0
  }

  /**
    The recogniser from `stage` on: `p` holds the groups read so far and `s`
    the rest of the input. Digit runs are taken greedily; since neither '.',
    'r' nor the end of input is a digit, no other split could match.
  */
  function Split(stage: Stage, p: TagParts, s: string): Option<TagParts>
    decreases StageRank(stage)
  {
    match stage
    case Major =>
      // (\d+)\.
      var n := DigitRun(s);
      if n == 0 || n == |s| || s[n] != '.' then
        None
      else
        Split(Minor, p.(major := s[..n]), s[n + 1..])
    case Minor =>
      // (\d+)
      var n := DigitRun(s);
      if n == 0 then
        None
      else
        Split(Patch, p.(minor := s[..n]), s[n..])
    case Patch =>
      // (?:\.(\d+))?
      if s != [] && s[0] == '.' then
        var t := s[1..];
        var n := DigitRun(t);
        if n == 0 then
          None
        else
          Split(Rc, p.(patch := Some(t[..n])), t[n..])
      else
        Split(Rc, p.(patch := None), s)
    case Rc =>
      // (?:rc(\d+))?$
      if s == [] then
        Some(p.(rc := None))
      else if HasPrefix(s, "rc") && |s| > 2 && DigitRun(s[2..]) == |s| - 2 then
        Some(p.(rc := Some(s[2..])))
      else
        None
  }

  /** The recogniser: the capture groups of `tag`, or None when the grammar does not match it. */
  function SplitTag(tag: string): (r: Option<TagParts>)
    ensures r.Some? ==> WellFormedParts(r.value) && RenderParts(r.value) == tag
  {
    if !HasPrefix(tag, "go") then
      None
    else
      assert tag == "go" + tag[2..];
      SplitMajorSound(TagParts([], [], None, None), tag[2..]);
      Split(Major, TagParts([], [], None, None), tag[2..])
  }

  lemma SplitRcSound(p: TagParts, s: string)
    ensures var r := Split(Rc, p, s);
            r.Some? ==> && r.value.major == p.major && r.value.minor == p.minor && r.value.patch == p.patch
                        && RcText(r.value.rc) == s && (r.value.rc.Some? ==> DigitGroup(r.value.rc.value))
  {
    if s != [] && HasPrefix(s, "rc") && |s| > 2 && DigitRun(s[2..]) == |s| - 2 {
      assert s[2..][..|s| - 2] == s[2..];
      assert "rc" + s[2..] == s;
    }
  }

  lemma SplitPatchSound(p: TagParts, s: string)
    ensures var r := Split(Patch, p, s);
            r.Some? ==> && r.value.major == p.major && r.value.minor == p.minor
                        && PatchText(r.value.patch) + RcText(r.value.rc) == s
                        && (r.value.patch.Some? ==> DigitGroup(r.value.patch.value))
                        && (r.value.rc.Some? ==> DigitGroup(r.value.rc.value))
  {
    if s != [] && s[0] == '.' {
      var t := s[1..];
      var n := DigitRun(t);
      if n != 0 {
        assert s == "." + t[..n] + t[n..];
        SplitRcSound(p.(patch := Some(t[..n])), t[n..]);
      }
    } else {
      SplitRcSound(p.(patch := None), s);
    }
  }

  lemma SplitMinorSound(p: TagParts, s: string)
    ensures var r := Split(Minor, p, s);
            r.Some? ==> && r.value.major == p.major && MinorText(r.value) == s && DigitGroup(r.value.minor)
                        && (r.value.patch.Some? ==> DigitGroup(r.value.patch.value))
                        && (r.value.rc.Some? ==> DigitGroup(r.value.rc.value))
  {
    var n := DigitRun(s);
    if n != 0 {
      assert s == s[..n] + s[n..];
      SplitPatchSound(p.(minor := s[..n]), s[n..]);
    }
  }

  lemma SplitMajorSound(p: TagParts, s: string)
    ensures var r := Split(Major, p, s);
            r.Some? ==> WellFormedParts(r.value) && MajorText(r.value) == s
  {
    var n := DigitRun(s);
    if !(n == 0 || n == |s| || s[n] != '.') {
      assert s == s[..n] + ("." + s[n + 1..]);
      SplitMinorSound(p.(major := s[..n]), s[n + 1..]);
    }
  }

  // ---------------------------------------------------------------------------
  // ParseVersion and the canonical rendering
  // ---------------------------------------------------------------------------

  /** The canonical rendering "M.m", then ".p" only when p > 0, then "rcN" only for a candidate. */
  function FullVersion(major: nat, minor: nat, patch: nat, isRC: bool, rc: nat): string {
    NatToString(major) + ("." + (NatToString(minor)
      + ((if patch > 0 then "." + NatToString(patch) else "")
      + (if isRC then "rc" + NatToString(rc) else ""))))
  }

  /** What every parsed version satisfies. */
  predicate Consistent(v: Version) {
    && v.fullVersion == FullVersion(v.major, v.minor, v.patch, v.isRC, v.rc)
    && (!v.isRC ==> v.rc == 0)
  }

  function FromParts(tag: string, p: TagParts): Version
    requires WellFormedParts(p)
  {
    var major := DigitsValue(p.major);
    var minor := DigitsValue(p.minor);
    var patch := if p.patch.Some? then DigitsValue(p.patch.value) else 0;
    var rc := if p.rc.Some? then DigitsValue(p.rc.value) else 0;
    Version(tag, major, minor, patch, rc, FullVersion(major, minor, patch, p.rc.Some?, rc), p.rc.Some?)
  }

  /** ParseVersion: the version a tag denotes, or InvalidFormat. */
  function ParseVersion(tag: string): (r: Result<Version, ParseError>)
    ensures r.Success? ==> r.value.tag == tag && Consistent(r.value)
    ensures r.Failure? ==> r.error == InvalidFormat(tag)
  {
    match SplitTag(tag)
    case None => Failure(InvalidFormat(tag))
    case Some(p) => Success(FromParts(tag, p))
  }

  lemma SplitRcRendered(p: TagParts, q: TagParts)
    requires q.major == p.major && q.minor == p.minor && q.patch == p.patch
    requires q.rc.Some? ==> DigitGroup(q.rc.value)
    ensures Split(Rc, p, RcText(q.rc)) == Some(q)
  {
    if q.rc.Some? {
      var s := RcText(q.rc);
      assert s[2..] == q.rc.value;
      DigitRunOfConcat(q.rc.value, []);
      assert q.rc.value + [] == q.rc.value;
    }
  }

  lemma SplitPatchRendered(p: TagParts, q: TagParts)
    requires q.major == p.major && q.minor == p.minor
    requires WellFormedParts(q)
    ensures Split(Patch, p, PatchText(q.patch) + RcText(q.rc)) == Some(q)
  {
    SplitRcRendered(p.(patch := q.patch), q);
    if q.patch.Some? {
      assert RcText(q.rc) == [] || RcText(q.rc)[0] == 'r';
      SplitPatchDigits(p, q.patch.value, RcText(q.rc));
    } else {
      assert PatchText(q.patch) + RcText(q.rc) == RcText(q.rc);
    }
  }

  /** A patch group is read as the digits after the dot, up to what follows. */
  lemma SplitPatchDigits(p: TagParts, d: string, rcText: string)
    requires DigitGroup(d) && (rcText == [] || rcText[0] == 'r')
    ensures Split(Patch, p, "." + d + rcText) == Split(Rc, p.(patch := Some(d)), rcText)
  {
    var s := "." + d + rcText;
    var t := s[1..];
    assert t == d + rcText;
    DigitRunOfConcat(d, rcText);
    assert t[..|d|] == d;
    assert t[|d|..] == rcText;
  }

  lemma SplitMinorRendered(p: TagParts, q: TagParts)
    requires q.major == p.major
    requires WellFormedParts(q)
    ensures Split(Minor, p, MinorText(q)) == Some(q)
  {
    var tail := PatchText(q.patch) + RcText(q.rc);
    assert tail == [] || tail[0] == '.' || tail[0] == 'r';
    DigitRunOfConcat(q.minor, tail);
    var s := MinorText(q);
    assert s[..|q.minor|] == q.minor;
    assert s[|q.minor|..] == tail;
    SplitPatchRendered(p.(minor := q.minor), q);
  }

  lemma SplitMajorRendered(p: TagParts, q: TagParts)
    requires WellFormedParts(q)
    ensures Split(Major, p, MajorText(q)) == Some(q)
  {
    var tail := "." + MinorText(q);
    DigitRunOfConcat(q.major, tail);
    var s := MajorText(q);
    assert s[..|q.major|] == q.major;
    assert s[|q.major| + 1..] == MinorText(q);
    SplitMinorRendered(p.(major := q.major), q);
  }

  /** The recogniser accepts every rendering of well-formed groups and gives those groups back. */
  lemma SplitRendered(p: TagParts)
    requires WellFormedParts(p)
    ensures SplitTag(RenderParts(p)) == Some(p)
  {
    assert RenderParts(p)[2..] == MajorText(p);
    SplitMajorRendered(TagParts([], [], None, None), p);
  }

  /** Every tag the grammar matches starts with 'g' and ends with a digit. */
  lemma RenderedShape(p: TagParts)
    requires WellFormedParts(p)
    ensures var t := RenderParts(p); |t| > 3 && t[0] == 'g' && IsDigit(t[|t| - 1])
  {
    var t := RenderParts(p);
    if p.rc.Some? {
      assert t[|t| - 1] == p.rc.value[|p.rc.value| - 1];
    } else if p.patch.Some? {
      assert t[|t| - 1] == p.patch.value[|p.patch.value| - 1];
    } else {
      assert t[|t| - 1] == p.minor[|p.minor| - 1];
    }
  }

  /**
    Round trip through the grammar: a tag built from well-formed groups parses,
    keeps the tag verbatim, reads every group as a decimal number, takes an
    absent patch as 0 and an absent rc as "not a candidate" with number 0, and
    marks any rc group, even "rc0", as a candidate.
  */
  lemma ParseRendered(p: TagParts)
    requires WellFormedParts(p)
    ensures var tag := RenderParts(p);
            var patch := if p.patch.Some? then DigitsValue(p.patch.value) else 0;
            var rc := if p.rc.Some? then DigitsValue(p.rc.value) else 0;
            ParseVersion(tag) == Success(Version(
              tag, DigitsValue(p.major), DigitsValue(p.minor), patch, rc,
              FullVersion(DigitsValue(p.major), DigitsValue(p.minor), patch, p.rc.Some?, rc),
              p.rc.Some?))
  {
    SplitRendered(p);
  }

  /** ParseVersion succeeds on exactly the strings the grammar matches. */
  lemma ParseAcceptsExactlyTheGrammar(tag: string)
    ensures ParseVersion(tag).Success? <==> MatchesTagGrammar(tag)
  {
    if MatchesTagGrammar(tag) {
      var p :| WellFormedParts(p) && RenderParts(p) == tag;
      SplitRendered(p);
    }
    if ParseVersion(tag).Success? {
      var p := SplitTag(tag).value;
      assert WellFormedParts(p) && RenderParts(p) == tag;
    }
  }

  /** Surrounding white space, a missing "go" or a trailing remainder make a tag invalid. */
  lemma ParseRejectsNearMisses(p: TagParts, c: char)
    requires WellFormedParts(p)
    requires IsSpace(c)
    ensures ParseVersion([c] + RenderParts(p)).Failure?
    ensures ParseVersion(RenderParts(p) + [c]).Failure?
    ensures ParseVersion(RenderParts(p)[2..]).Failure?
  {
    var tag := RenderParts(p);
    RenderedShape(p);
    var t := tag + [c];
    assert t[|t| - 1] == c;
    if SplitTag(t).Some? {
      RenderedShape(SplitTag(t).value);
    }
    var l := [c] + tag;
    assert l[0] == c;
    if SplitTag(l).Some? {
      RenderedShape(SplitTag(l).value);
    }
    var u := tag[2..];
    assert u[0] == p.major[0];
    if SplitTag(u).Some? {
      RenderedShape(SplitTag(u).value);
    }
  }

  /**
    The canonical rendering is a tag of its own: "go" + fullVersion parses back
    to the same numbers.
  */
  lemma ReparseFullVersion(v: Version)
    requires Consistent(v)
    ensures ParseVersion("go" + v.fullVersion)
            == Success(Version("go" + v.fullVersion, v.major, v.minor, v.patch, v.rc, v.fullVersion, v.isRC))
  {
    var p := NumberParts(v.major, v.minor, v.patch, v.isRC, v.rc);
    RenderNumberParts(v.major, v.minor, v.patch, v.isRC, v.rc);
    ParseRendered(p);
  }

  /** The groups that render a version's numbers canonically. */
  function NumberParts(major: nat, minor: nat, patch: nat, isRC: bool, rc: nat): TagParts {
    TagParts(
      NatToString(major), NatToString(minor),
      if patch > 0 then Some(NatToString(patch)) else None,
      if isRC then Some(NatToString(rc)) else None)
  }

  lemma RenderNumberParts(major: nat, minor: nat, patch: nat, isRC: bool, rc: nat)
    ensures var p := NumberParts(major, minor, patch, isRC, rc);
            && WellFormedParts(p)
            && MajorText(p) == FullVersion(major, minor, patch, isRC, rc)
            && (if p.patch.Some? then DigitsValue(p.patch.value) else 0) == patch
  {
    var p := NumberParts(major, minor, patch, isRC, rc);
    assert PatchText(p.patch) == if patch > 0 then "." + NatToString(patch) else "";
    assert RcText(p.rc) == if isRC then "rc" + NatToString(rc) else "";
  }

  /** Every group is written as `%d` writes it, and a patch group is never "0". */
  predicate CanonicalParts(p: TagParts) {
    && NoLeadingZero(p.major)
    && NoLeadingZero(p.minor)
    && (p.patch.Some? ==> NoLeadingZero(p.patch.value) && p.patch.value != "0")
    && (p.rc.Some? ==> NoLeadingZero(p.rc.value))
  }

  /**
    The groups the grammar finds in "go" + fullVersion carry no leading zero:
    there is a patch group exactly when the patch is above 0, and an rc group
    exactly for a candidate.
  */
  lemma FullVersionGroupsCanonical(major: nat, minor: nat, patch: nat, isRC: bool, rc: nat)
    ensures var r := SplitTag("go" + FullVersion(major, minor, patch, isRC, rc));
            && r.Some? && CanonicalParts(r.value)
            && (r.value.patch.Some? <==> patch > 0)
            && (r.value.rc.Some? <==> isRC)
  {
    var p := NumberParts(major, minor, patch, isRC, rc);
    RenderNumberParts(major, minor, patch, isRC, rc);
    SplitRendered(p);
    assert RenderParts(p) == "go" + FullVersion(major, minor, patch, isRC, rc);
  }

  /**
    The converse: a tag whose groups are canonical is its own canonical
    rendering, so its fullVersion is the tag without "go".
  */
  lemma CanonicalTagRendersItself(p: TagParts)
    requires WellFormedParts(p) && CanonicalParts(p)
    ensures ParseVersion(RenderParts(p)).Success?
    ensures "go" + ParseVersion(RenderParts(p)).value.fullVersion == RenderParts(p)
  {
    ParseRendered(p);
    NatToStringOfValue(p.major);
    NatToStringOfValue(p.minor);
    var patch := if p.patch.Some? then DigitsValue(p.patch.value) else 0;
    var rc := if p.rc.Some? then DigitsValue(p.rc.value) else 0;
    if p.patch.Some? {
      NatToStringOfValue(p.patch.value);
      PositiveValue(p.patch.value);
    }
    if p.rc.Some? {
      NatToStringOfValue(p.rc.value);
    }
    assert NumberParts(DigitsValue(p.major), DigitsValue(p.minor), patch, p.rc.Some?, rc) == p;
    RenderNumberParts(DigitsValue(p.major), DigitsValue(p.minor), patch, p.rc.Some?, rc);
  }

  // ---------------------------------------------------------------------------
  // Compare
  // ---------------------------------------------------------------------------

  /**
    Compare: -1, 0 or 1 as `v` is below, level with or above `other`: by
    major, minor and patch, then a release candidate before the final
    release, then by candidate number.
  */
  function Compare(v: Version, other: Version): (r: int)
    ensures -1 <= r <= 1
  {
    if v.major != other.major then
      (if v.major < other.major then -1 else 1)
    else if v.minor != other.minor then
      (if v.minor < other.minor then -1 else 1)
    else if v.patch != other.patch then
      (if v.patch < other.patch then -1 else 1)
    else if v.isRC && !other.isRC then
      -1
    else if !v.isRC && other.isRC then
      1
    else if v.isRC && other.isRC && v.rc < other.rc then
      -1
    else if v.isRC && other.isRC && v.rc > other.rc then
      1
    else
      0
  }

  /** The reference order: the key a version sorts by, compared lexicographically. */
  function OrderKey(v: Version): seq<int> {
    [v.major, v.minor, v.patch, if v.isRC then 0 else 1, if v.isRC then v.rc else 0]
  }

  function LexCompare(a: seq<int>, b: seq<int>): (r: int)
    requires |a| == |b|
    ensures -1 <= r <= 1
  {
    if a == [] then 0
    else if a[0] < b[0] then -1
    else if a[0] > b[0] then 1
    else LexCompare(a[1..], b[1..])
  }

  lemma {:induction false} LexCompareAntisymmetric(a: seq<int>, b: seq<int>)
    requires |a| == |b|
    ensures LexCompare(a, b) == -LexCompare(b, a)
  {
    if a != [] && a[0] == b[0] {
      LexCompareAntisymmetric(a[1..], b[1..]);
    }
  }

  lemma {:induction false} LexCompareZero(a: seq<int>, b: seq<int>)
    requires |a| == |b|
    ensures LexCompare(a, b) == 0 <==> a == b
  {
    if a != [] {
      LexCompareZero(a[1..], b[1..]);
      if a[0] == b[0] {
        assert a == [a[0]] + a[1..] && b == [b[0]] + b[1..];
      }
    }
  }

  lemma {:induction false} LexCompareTransitive(a: seq<int>, b: seq<int>, c: seq<int>)
    requires |a| == |b| == |c|
    requires LexCompare(a, b) <= 0 && LexCompare(b, c) <= 0
    ensures LexCompare(a, c) <= 0
    ensures LexCompare(a, b) < 0 || LexCompare(b, c) < 0 ==> LexCompare(a, c) < 0
  {
    if a != [] && a[0] == b[0] == c[0] {
      LexCompareTransitive(a[1..], b[1..], c[1..]);
    }
  }

  lemma LexCompareCons(x: int, a: seq<int>, y: int, b: seq<int>)
    requires |a| == |b|
    ensures LexCompare([x] + a, [y] + b) == if x < y then -1 else if x > y then 1 else LexCompare(a, b)
  {
    assert ([x] + a)[1..] == a && ([y] + b)[1..] == b;
  }

  /** Compare is the lexicographic order on OrderKey. */
  lemma CompareIsLexicographic(v: Version, w: Version)
    ensures Compare(v, w) == LexCompare(OrderKey(v), OrderKey(w))
  {
    var a, b := OrderKey(v), OrderKey(w);
    assert a == [a[0]] + ([a[1]] + ([a[2]] + ([a[3]] + ([a[4]] + []))));
    assert b == [b[0]] + ([b[1]] + ([b[2]] + ([b[3]] + ([b[4]] + []))));
    LexCompareCons(a[4], [], b[4], []);
    LexCompareCons(a[3], [a[4]] + [], b[3], [b[4]] + []);
    LexCompareCons(a[2], [a[3]] + ([a[4]] + []), b[2], [b[3]] + ([b[4]] + []));
    LexCompareCons(a[1], [a[2]] + ([a[3]] + ([a[4]] + [])), b[1], [b[2]] + ([b[3]] + ([b[4]] + [])));
    LexCompareCons(a[0], a[1..], b[0], b[1..]);
  }

  lemma CompareAntisymmetric(a: Version, b: Version)
    ensures Compare(a, b) == -Compare(b, a)
  {
    CompareIsLexicographic(a, b);
    CompareIsLexicographic(b, a);
    LexCompareAntisymmetric(OrderKey(a), OrderKey(b));
  }

  lemma CompareTransitive(a: Version, b: Version, c: Version)
    requires Compare(a, b) <= 0 && Compare(b, c) <= 0
    ensures Compare(a, c) <= 0
    ensures Compare(a, b) < 0 || Compare(b, c) < 0 ==> Compare(a, c) < 0
  {
    CompareIsLexicographic(a, b);
    CompareIsLexicographic(b, c);
    CompareIsLexicographic(a, c);
    LexCompareTransitive(OrderKey(a), OrderKey(b), OrderKey(c));
  }

  /**
    Two versions are level exactly when they agree on major, minor, patch and
    candidacy, and, for candidates, on the candidate number.
  */
  lemma CompareZeroIff(a: Version, b: Version)
    ensures Compare(a, b) == 0 <==>
      a.major == b.major && a.minor == b.minor && a.patch == b.patch && a.isRC == b.isRC
      && (a.isRC ==> a.rc == b.rc)
  {
    CompareIsLexicographic(a, b);
    LexCompareZero(OrderKey(a), OrderKey(b));
    if Compare(a, b) == 0 {
      assert OrderKey(a)[0] == OrderKey(b)[0] && OrderKey(a)[1] == OrderKey(b)[1];
      assert OrderKey(a)[2] == OrderKey(b)[2] && OrderKey(a)[3] == OrderKey(b)[3];
      assert OrderKey(a)[4] == OrderKey(b)[4];
    }
  }

  /** A release candidate ranks below the final release of the same major.minor.patch, and candidates rank by number. */
  lemma ReleaseCandidatesFirst(a: Version, b: Version)
    requires a.major == b.major && a.minor == b.minor && a.patch == b.patch
    ensures a.isRC && !b.isRC ==> Compare(a, b) == -1
    ensures a.isRC && b.isRC ==> (Compare(a, b) < 0 <==> a.rc < b.rc)
  {
  }

  /**
    The canonical rendering names the order's classes: two parsed versions
    share a fullVersion exactly when Compare puts them level.
  */
  lemma FullVersionIdentifiesLevel(a: Version, b: Version)
    requires Consistent(a) && Consistent(b)
    ensures a.fullVersion == b.fullVersion <==> Compare(a, b) == 0
  {
    CompareZeroIff(a, b);
    if a.fullVersion == b.fullVersion {
      ReparseFullVersion(a);
      ReparseFullVersion(b);
    }
  }

  /**
    "goM.m" and "goM.m.0" are different tags for the same release: both parse,
    Compare puts them level and they share their fullVersion.
  */
  lemma ZeroPatchIsNoPatch(major: string, minor: string)
    requires DigitGroup(major) && DigitGroup(minor)
    ensures var a := ParseVersion("go" + major + "." + minor);
            var b := ParseVersion("go" + major + "." + minor + ".0");
            && a.Success? && b.Success? && a.value.tag != b.value.tag
            && Compare(a.value, b.value) == 0
            && a.value.fullVersion == b.value.fullVersion
  {
    var p := TagParts(major, minor, None, None);
    var q := TagParts(major, minor, Some("0"), None);
    assert RenderParts(p) == "go" + major + "." + minor by {
      assert MinorText(p) == minor;
    }
    assert RenderParts(q) == "go" + major + "." + minor + ".0" by {
      assert MinorText(q) == minor + ".0";
    }
    assert DigitsValue("0") == 0 by {
      assert "0"[..0] == [];
    }
    ParseRendered(p);
    ParseRendered(q);
  }

  // ---------------------------------------------------------------------------
  // Group keys
  // ---------------------------------------------------------------------------

  /** GetMajorMinor: the group key "M.m". */
  function GetMajorMinor(v: Version): string {
    NatToString(v.major) + "." + NatToString(v.minor)
  }

  /** The key is two groups of decimal digits around a dot that read back as the major and the minor number. */
  lemma MajorMinorKeyDecodes(v: Version)
    ensures var key := GetMajorMinor(v);
            exists i :: 0 < i < |key| - 1 && key[i] == '.'
              && DigitGroup(key[..i]) && DigitsValue(key[..i]) == v.major
              && DigitGroup(key[i + 1..]) && DigitsValue(key[i + 1..]) == v.minor
              && NoLeadingZero(key[..i]) && NoLeadingZero(key[i + 1..])
  {
    var a, b := NatToString(v.major), NatToString(v.minor);
    assert GetMajorMinor(v)[..|a|] == a && GetMajorMinor(v)[|a| + 1..] == b;
  }

  /** Conversely, two digit groups without leading zeros around a dot are the key of the numbers they read as. */
  lemma CanonicalKeyOfNumbers(v: Version, a: string, b: string)
    requires NoLeadingZero(a) && NoLeadingZero(b)
    requires v.major == DigitsValue(a) && v.minor == DigitsValue(b)
    ensures GetMajorMinor(v) == a + "." + b
  {
    NatToStringOfValue(a);
    NatToStringOfValue(b);
  }

  /** The version the group sort compares a key by: the key re-parsed as "go" + key + ".0". */
  function KeyVersion(key: string): Result<Version, ParseError> {
    ParseVersion("go" + key + ".0")
  }

  /**
    A group key always re-parses: "go" + GetMajorMinor(v) + ".0" gives v's major
    and minor, patch 0, and a final (non-candidate) release.
  */
  lemma KeyVersionOfMajorMinor(v: Version)
    ensures var k := KeyVersion(GetMajorMinor(v));
            && k.Success?
            && k.value.major == v.major && k.value.minor == v.minor
            && k.value.patch == 0 && !k.value.isRC && k.value.rc == 0
  {
    var p := TagParts(NatToString(v.major), NatToString(v.minor), Some("0"), None);
    assert RenderParts(p) == "go" + GetMajorMinor(v) + ".0";
    ParseRendered(p);
    assert DigitsValue("0") == 0 by {
      assert "0"[..0] == [];
    }
  }

  /** Keys are equal exactly when major and minor are. */
  lemma MajorMinorKeyInjective(a: Version, b: Version)
    ensures GetMajorMinor(a) == GetMajorMinor(b) <==> a.major == b.major && a.minor == b.minor
  {
    KeyVersionOfMajorMinor(a);
    KeyVersionOfMajorMinor(b);
  }

  // ---------------------------------------------------------------------------
  // NormalizeVersion
  // ---------------------------------------------------------------------------

  /** NormalizeVersion: trims white space and prefixes "go" when it is missing. */
  function NormalizeVersion(version: string): (r: string)
    ensures HasPrefix(r, "go") && Trimmed(r)
    ensures r == TrimSpace(version) || r == "go" + TrimSpace(version)
    ensures r == TrimSpace(version) <==> HasPrefix(TrimSpace(version), "go")
  {
    var t := TrimSpace(version);
    if HasPrefix(t, "go") then t else "go" + t
  }

  /** A trimmed string that already starts with "go" is left alone. */
  lemma NormalizeVersionOfNormal(t: string)
    requires HasPrefix(t, "go") && Trimmed(t)
    ensures NormalizeVersion(t) == t
  {
    TrimSpaceOfTrimmed(t);
  }

  lemma NormalizeVersionIdempotent(version: string)
    ensures NormalizeVersion(NormalizeVersion(version)) == NormalizeVersion(version)
  {
    NormalizeVersionOfNormal(NormalizeVersion(version));
  }
}
