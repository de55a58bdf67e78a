/**
  `FetchTags` of internal/github/github.go: resolve the fetch options, then
  request pages of tags of the golang/go repository until a page is empty,
  a page holds only tags known locally, the last page is reached, or a
  request fails; keep every new tag that parses and passes the filters.

  The remote end is a sequence of replies, one per request, in request
  order. The five-minute overall deadline is the reply `DeadlineExpired`,
  met at the top of an iteration; running out of replies counts the same.
*/
module GitHub {
  import opened Wrappers
  import opened Text
  import opened Version

  // ---------------------------------------------------------------------------
  // Options
  // ---------------------------------------------------------------------------

  /** The minimum version used when none is given and not all versions are wanted. */
  const DefaultMinVersion: string := "go1.10"

  /** The functional options WithMinVersion, WithMinYear and WithAllVersions. */
  datatype FetchOption =
    | WithMinVersion(version: string)
    | WithMinYear(year: int)
    | WithAllVersions

  /** The values of the three fields of a FetchOptions. */
  datatype OptionValues = OptionValues(minVersion: string, minYear: int, allVersions: bool)

  /** The fields after applying `options` in order to a zero FetchOptions. */
  function Applied(options: seq<FetchOption>): OptionValues
    decreases |options|
  {
    if options == [] then OptionValues("", 0, false)
    else ApplyTo(Applied(options[..|options| - 1]), options[|options| - 1])
  }

  function ApplyTo(o: OptionValues, opt: FetchOption): OptionValues {
    match opt
    case WithMinVersion(v) => o.(minVersion := v)
    case WithMinYear(y) => o.(minYear := y)
    case WithAllVersions => o.(allVersions := true)
  }

  /** The options record each option function updates in place. */
  class FetchOptions {
    var minVersion: string
    var minYear: int
    var allVersions: bool

    constructor ()
      ensures minVersion == "" && minYear == 0 && !allVersions
    {
      minVersion := "";
      minYear := 0;
      allVersions := false;
    }

    function Values(): OptionValues
      reads this
    {
      OptionValues(minVersion, minYear, allVersions)
    }

    /** Runs one option function on this record. */
    method Apply(opt: FetchOption)
      modifies this
      ensures Values() == ApplyTo(old(Values()), opt)
    {
      match opt
      case WithMinVersion(v) => minVersion := v;
      case WithMinYear(y) => minYear := y;
      case WithAllVersions => allVersions := true;
    }
  }

  /** The last WithMinVersion wins, whatever comes after it. */
  lemma {:induction false} LastMinVersionWins(options: seq<FetchOption>, v: string, later: seq<FetchOption>)
    requires forall k :: 0 <= k < |later| ==> !later[k].WithMinVersion?
    ensures Applied(options + [WithMinVersion(v)] + later).minVersion == v
    decreases |later|
  {
    if later == [] {
      assert options + [WithMinVersion(v)] + later == options + [WithMinVersion(v)];
      assert (options + [WithMinVersion(v)])[..|options|] == options;
    } else {
      var s := options + [WithMinVersion(v)] + later;
      var init := later[..|later| - 1];
      assert s[..|s| - 1] == options + [WithMinVersion(v)] + init;
      LastMinVersionWins(options, v, init);
    }
  }

  /** All versions are wanted exactly when some option asks for them. */
  lemma {:induction false} AllVersionsIffAsked(options: seq<FetchOption>)
    ensures Applied(options).allVersions <==> WithAllVersions in options
    decreases |options|
  {
    if options != [] {
      var init := options[..|options| - 1];
      assert options == init + [options[|options| - 1]];
      AllVersionsIffAsked(init);
    }
  }

  // ---------------------------------------------------------------------------
  // Filters and per-tag classification
  // ---------------------------------------------------------------------------

  /** The resolved filter: all versions, or a minimum version and a minimum year. */
  datatype Filter = Filter(allVersions: bool, minVersion: Option<Version>, minYear: int)

  datatype FetchError =
    | InvalidMinVersion(minVersion: string, cause: ParseError)
    | Timeout
    | RateLimitExceeded
    | AbuseRateLimitExceeded
    | RequestFailed(page: int)
    | BadStatus(statusCode: int, page: int)

  /**
    Option resolution: an empty minimum version without AllVersions becomes
    the default; then the minimum version is parsed, as below.
  */
  function ResolveFilter(o: OptionValues): (r: Result<Filter, FetchError>)
    ensures r.Success? ==> r.value.allVersions == o.allVersions && r.value.minYear == o.minYear
    ensures r.Success? ==> (r.value.minVersion.Some? <==> !o.allVersions)
    ensures o.allVersions ==> r == Success(Filter(true, None, o.minYear))
    ensures !o.allVersions && o.minVersion != "" ==>
              (r.Failure? <==> ParseVersion(NormalizeVersion(o.minVersion)).Failure?)
    ensures !o.allVersions && o.minVersion != "" && r.Success? ==>
              r.value.minVersion == Some(ParseVersion(NormalizeVersion(o.minVersion)).value)
    ensures r.Failure? ==>
              && r.error.InvalidMinVersion? && r.error.minVersion == WithDefault(o).minVersion
              && ParseVersion(NormalizeVersion(WithDefault(o).minVersion)) == Failure(r.error.cause)
  {
    ParseFilter(WithDefault(o))
  }

  /** The defaulting step: a minimum version is set unless all versions are wanted. */
  function WithDefault(o: OptionValues): (d: OptionValues)
    ensures d.allVersions == o.allVersions && d.minYear == o.minYear
    ensures !o.allVersions ==> d.minVersion != ""
    ensures o.minVersion != "" ==> d.minVersion == o.minVersion
    ensures o.minVersion == "" && !o.allVersions ==> d.minVersion == DefaultMinVersion
  {
    if o.minVersion == "" && !o.allVersions then o.(minVersion := DefaultMinVersion) else o
  }

  /**
    The parsing step: the minimum version is parsed, after normalisation,
    only when AllVersions is not set, and one that does not parse is an error.
  */
  function ParseFilter(o: OptionValues): (r: Result<Filter, FetchError>)
    ensures r.Success? ==> r.value.allVersions == o.allVersions && r.value.minYear == o.minYear
    ensures r.Success? ==> (r.value.minVersion.Some? <==> o.minVersion != "" && !o.allVersions)
    ensures r.Failure? ==> o.minVersion != "" && !o.allVersions
    ensures o.allVersions ==> r == Success(Filter(true, None, o.minYear))
    ensures o.minVersion != "" && !o.allVersions ==>
              (r.Failure? <==> ParseVersion(NormalizeVersion(o.minVersion)).Failure?)
    ensures r.Success? && r.value.minVersion.Some? ==>
              r.value.minVersion == Some(ParseVersion(NormalizeVersion(o.minVersion)).value)
    ensures r.Failure? ==>
              && r.error.InvalidMinVersion? && r.error.minVersion == o.minVersion
              && ParseVersion(NormalizeVersion(o.minVersion)) == Failure(r.error.cause)
  {
    if o.minVersion != "" && !o.allVersions then
      match ParseVersion(NormalizeVersion(o.minVersion))
      case Failure(e) => Failure(InvalidMinVersion(o.minVersion, e))
      case Success(v) => Success(Filter(false, Some(v), o.minYear))
    else
      Success(Filter(o.allVersions, None, o.minYear))
  }

  /** The default minimum version parses to 1.10, a final release. */
  lemma ParseDefaultMinVersion()
    ensures ParseVersion(NormalizeVersion(DefaultMinVersion))
         == Success(Version(DefaultMinVersion, 1, 10, 0, 0, FullVersion(1, 10, 0, false, 0), false))
  {
    NormalizeVersionOfNormal(DefaultMinVersion);
    DefaultMinVersionRendered();
    ReparseFullVersion(Version(DefaultMinVersion, 1, 10, 0, 0, FullVersion(1, 10, 0, false, 0), false));
  }

  lemma DefaultMinVersionRendered()
    ensures "go" + FullVersion(1, 10, 0, false, 0) == DefaultMinVersion
  {
    assert NatToString(1) == "1";
    assert NatToString(10) == "10";
  }

  /** With no minimum version given and AllVersions unset, the floor is go1.10. */
  lemma DefaultFloor(minYear: int)
    ensures ResolveFilter(OptionValues("", minYear, false))
         == Success(Filter(false, Some(Version(DefaultMinVersion, 1, 10, 0, 0, FullVersion(1, 10, 0, false, 0), false)), minYear))
  {
    ParseDefaultMinVersion();
  }

  /**
    A minimum version written as "M.N" between white space is trimmed, gets
    "go" in front and resolves to goM.N with patch 0: " 1.22 " (p and q a
    single space, major 1, minor 22) resolves to go1.22.
  */
  lemma PaddedMinVersionResolves(p: string, q: string, major: nat, minor: nat, minYear: int)
    requires AllSpace(p) && AllSpace(q)
    ensures var text := FullVersion(major, minor, 0, false, 0);
            ResolveFilter(OptionValues(p + text + q, minYear, false))
            == Success(Filter(false, Some(Version("go" + text, major, minor, 0, 0, text, false)), minYear))
  {
    var text := FullVersion(major, minor, 0, false, 0);
    var a, b := NatToString(major), NatToString(minor);
    assert text == a + "." + b;
    assert IsDigit(text[0]) && IsDigit(text[|text| - 1]);
    NormalizePadded(p, text, q);
    ReparseFullVersion(Version("go" + text, major, minor, 0, 0, text, false));
  }

  /** White space around a trimmed version without "go" is dropped and "go" is put in front. */
  lemma NormalizePadded(p: string, t: string, q: string)
    requires AllSpace(p) && AllSpace(q) && Trimmed(t) && !HasPrefix(t, "go")
    ensures NormalizeVersion(p + t + q) == "go" + t
  {
    TrimSpaceOfPadded(p, t, q);
  }

  /**
    Go 1.0 came out in 2012; a minor release roughly every half year: every
    six minor numbers add a year, and a major number adds one more.
  */
  function EstimatedYear(v: Version): (year: int)
    ensures 6 * (year - 2011 - v.major) <= v.minor < 6 * (year - 2011 - v.major) + 6
  {
    2012 + (v.major - 1) + v.minor / 6
  }

  /** The filters of FetchTags. */
  predicate Admits(f: Filter, v: Version) {
    f.allVersions
    || (&& (f.minVersion.Some? ==> Compare(v, f.minVersion.value) >= 0)
        && (f.minYear > 0 ==> EstimatedYear(v) >= f.minYear))
  }

  /**
    The filters are floors: a version at or above an admitted one, with an
    estimated year at least as late, is admitted too.
  */
  lemma AdmitsUpwardClosed(f: Filter, v: Version, w: Version)
    requires Admits(f, v)
    requires Compare(w, v) >= 0 && EstimatedYear(w) >= EstimatedYear(v)
    ensures Admits(f, w)
  {
    if !f.allVersions && f.minVersion.Some? {
      var m := f.minVersion.value;
      CompareAntisymmetric(v, m);
      CompareAntisymmetric(w, v);
      CompareTransitive(m, v, w);
      CompareAntisymmetric(w, m);
    }
  }

  /** What happens to one tag of a page. */
  datatype TagClass = Known | Unparsable | FilteredOut | Included

  /** Known tags are never parsed; unparsable ones are skipped; the rest are filtered. */
  function Classify(tag: string, existing: set<string>, f: Filter): (c: TagClass)
    ensures c == Known <==> tag in existing
    ensures c == Unparsable <==> tag !in existing && ParseVersion(tag).Failure?
    ensures c == FilteredOut <==> tag !in existing && ParseVersion(tag).Success? && !Admits(f, ParseVersion(tag).value)
    ensures c == Included <==> tag !in existing && ParseVersion(tag).Success? && Admits(f, ParseVersion(tag).value)
  {
    if tag in existing then Known
    else match ParseVersion(tag)
      case Failure(_) => Unparsable
      case Success(v) => if Admits(f, v) then Included else FilteredOut
  }

  /** The tags of a page that FetchTags keeps, in page order. */
  function PageNew(tags: seq<string>, existing: set<string>, f: Filter): seq<string>
    decreases |tags|
  {
    if tags == [] then []
    else
      var last := tags[|tags| - 1];
      PageNew(tags[..|tags| - 1], existing, f) + (if Classify(last, existing, f) == Included then [last] else [])
  }

  /** How many tags of a page are known locally. */
  function KnownCount(tags: seq<string>, existing: set<string>): (n: nat)
    ensures n <= |tags|
    decreases |tags|
  {
    if tags == [] then 0
    else KnownCount(tags[..|tags| - 1], existing) + (if tags[|tags| - 1] in existing then 1 else 0)
  }

  /** Every tag of the page is known locally. */
  predicate AllKnown(tags: seq<string>, existing: set<string>) {
    forall k :: 0 <= k < |tags| ==> tags[k] in existing
  }

  // ---------------------------------------------------------------------------
  // The remote end and the specification of the loop
  // ---------------------------------------------------------------------------

  /** Status code and NextPage of an HTTP response. */
  datatype HttpMeta = HttpMeta(statusCode: int, nextPage: int)

  /** One request's outcome; `meta` is None when there is no response object. */
  datatype Reply =
    | DeadlineExpired
    | RateLimited
    | AbuseRateLimited
    | RequestError
    | Page(tags: seq<string>, meta: Option<HttpMeta>)

  /** The tags gathered and the error, if any: Go's `([]string, error)`. */
  datatype Fetched = Fetched(tags: seq<string>, err: Option<FetchError>)

  function Prepend(tags: seq<string>, r: Fetched): Fetched {
    Fetched(tags + r.tags, r.err)
  }

  /** A reply that makes FetchTags keep its page and request the next one. */
  predicate Continues(reply: Reply, existing: set<string>) {
    && reply.Page? && reply.meta.Some?
    && reply.meta.value.statusCode == 200
    && reply.tags != []
    && !AllKnown(reply.tags, existing)
    && reply.meta.value.nextPage != 0
  }

  /** The loop from page `page` on, over the replies still to come. */
  function Pages(replies: seq<Reply>, page: int, existing: set<string>, f: Filter): Fetched
    decreases |replies|
  {
    if replies == [] then Fetched([], Some(Timeout))
    else match replies[0]
      case DeadlineExpired => Fetched([], Some(Timeout))
      case RateLimited => Fetched([], Some(RateLimitExceeded))
      case AbuseRateLimited => Fetched([], Some(AbuseRateLimitExceeded))
      case RequestError => Fetched([], Some(RequestFailed(page)))
      case Page(tags, meta) =>
        if meta.Some? && meta.value.statusCode != 200 then
          Fetched([], Some(BadStatus(meta.value.statusCode, page)))
        else if tags == [] then
          Fetched([], None)
        else
          var got := PageNew(tags, existing, f);
          if AllKnown(tags, existing) || meta.None? || meta.value.nextPage == 0 then
            Fetched(got, None)
          else
            Prepend(got, Pages(replies[1..], meta.value.nextPage, existing, f))
  }

  /** What FetchTags returns for these options, known tags and replies. */
  function FetchSpec(existing: set<string>, options: seq<FetchOption>, replies: seq<Reply>): Fetched {
    match ResolveFilter(Applied(options))
    case Failure(e) => Fetched([], Some(e))
    case Success(f) => Pages(replies, 1, existing, f)
  }

  // ---------------------------------------------------------------------------
  // FetchTags
  // ---------------------------------------------------------------------------

  /** FetchTags: resolve the options, then fetch page after page. */
  method FetchTags(existing: set<string>, options: seq<FetchOption>, replies: seq<Reply>)
    returns (allTags: seq<string>, fetchErr: Option<FetchError>)
    ensures Fetched(allTags, fetchErr) == FetchSpec(existing, options, replies)
  {
    var resolved := ResolveOptions(options);
    if resolved.Failure? {
      return [], Some(resolved.error);
    }
    allTags, fetchErr := FetchPages(existing, resolved.value, replies);
  }

  /**
    The option handling at the start of FetchTags: apply the options to a
    zero record, default the minimum version, parse it when it applies.
  */
  method ResolveOptions(options: seq<FetchOption>) returns (r: Result<Filter, FetchError>)
    ensures r == ResolveFilter(Applied(options))
  {
    var opts := ApplyOptions(options);
    if opts.minVersion == "" && !opts.allVersions {
      opts.minVersion := DefaultMinVersion;
    }
    assert opts.Values() == WithDefault(Applied(options));
    r := ParseMinVersion(opts);
  }

  /** Parses the minimum version of `opts` when it applies. */
  method ParseMinVersion(opts: FetchOptions) returns (r: Result<Filter, FetchError>)
    ensures r == ParseFilter(opts.Values())
  {
    var minVersion: Option<Version> := None;
    if opts.minVersion != "" && !opts.allVersions {
      var parsed := ParseVersion(NormalizeVersion(opts.minVersion));
      if parsed.Failure? {
        return Failure(InvalidMinVersion(opts.minVersion, parsed.error));
      }
      minVersion := Some(parsed.value);
    }
    r := Success(Filter(opts.allVersions, minVersion, opts.minYear));
  }

  /** A zero FetchOptions with every option function run on it, in order. */
  method ApplyOptions(options: seq<FetchOption>) returns (opts: FetchOptions)
    ensures fresh(opts) && opts.Values() == Applied(options)
  {
    opts := new FetchOptions();
    for k := 0 to |options|
      invariant fresh(opts) && opts.Values() == Applied(options[..k])
    {
      assert options[..k + 1][..k] == options[..k];
      opts.Apply(options[k]);
    }
    assert options[..|options|] == options;
  }

  /** The request loop of FetchTags, from page 1, under the resolved filter. */
  method FetchPages(existing: set<string>, f: Filter, replies: seq<Reply>)
    returns (allTags: seq<string>, fetchErr: Option<FetchError>)
    ensures Fetched(allTags, fetchErr) == Pages(replies, 1, existing, f)
  {
    allTags := [];
    var page := 1;
    var i := 0;
    while true
      invariant 0 <= i <= |replies|
      invariant Prepend(allTags, Pages(replies[i..], page, existing, f)) == Pages(replies, 1, existing, f)
      decreases |replies| - i
    {
      if i == |replies| || replies[i].DeadlineExpired? {
        return allTags, Some(Timeout);
      }
      var reply := replies[i];
      if reply.RateLimited? {
        return allTags, Some(RateLimitExceeded);
      } else if reply.AbuseRateLimited? {
        return allTags, Some(AbuseRateLimitExceeded);
      } else if reply.RequestError? {
        return allTags, Some(RequestFailed(page));
      }
      var tags, meta := reply.tags, reply.meta;
      if meta.Some? && meta.value.statusCode != 200 {
        return allTags, Some(BadStatus(meta.value.statusCode, page));
      }
      if |tags| == 0 {
        return allTags, None;
      }
      var found, allExistingFound := ScanPage(tags, existing, f);
      PagesStep(replies[i..], page, existing, f);
      assert replies[i..][1..] == replies[i + 1..];
      allTags := allTags + found;
      if allExistingFound || meta.None? || meta.value.nextPage == 0 {
        return allTags, None;
      }
      page := meta.value.nextPage;
      i := i + 1;
    }
  }

  /**
    The loop over one non-empty page: keep the new tags that pass, count
    known, new and skipped tags, and stop at the end of the page when every
    tag is known (allExistingFound).
  */
  method ScanPage(tags: seq<string>, existing: set<string>, f: Filter)
    returns (found: seq<string>, allExistingFound: bool)
    requires tags != []
    ensures found == PageNew(tags, existing, f)
    ensures allExistingFound <==> AllKnown(tags, existing)
  {
    found := [];
    var newTagsCount, existingCount, skippedCount := 0, 0, 0;
    allExistingFound := false;
    var k := 0;
    while k < |tags|
      invariant 0 <= k <= |tags|
      invariant found == PageNew(tags[..k], existing, f)
      invariant existingCount == KnownCount(tags[..k], existing) < |tags|
      invariant newTagsCount == |found|
      invariant newTagsCount + existingCount + skippedCount == k
    {
      var tagName := tags[k];
      var c := ClassifyTag(tagName, existing, f);
      ScanStep(tags, k, existing, f, found, existingCount, c);
      if c == Known {
        existingCount := existingCount + 1;
        if existingCount == |tags| {
          KnownPageEnds(tags, k, existing, f);
          return [], true;
        }
      } else if c == Included {
        found := found + [tagName];
        newTagsCount := newTagsCount + 1;
      } else {
        skippedCount := skippedCount + 1;
      }
      k := k + 1;
    }
    assert tags[..|tags|] == tags;
    KnownCountFull(tags, existing);
  }

  /** What one more tag adds to the kept tags and to the count of known ones. */
  lemma ScanStep(tags: seq<string>, k: nat, existing: set<string>, f: Filter,
                 found: seq<string>, known: nat, c: TagClass)
    requires k < |tags| && c == Classify(tags[k], existing, f)
    requires found == PageNew(tags[..k], existing, f) && known == KnownCount(tags[..k], existing)
    ensures PageNew(tags[..k + 1], existing, f) == found + (if c == Included then [tags[k]] else [])
    ensures KnownCount(tags[..k + 1], existing) == known + (if c == Known then 1 else 0)
  {
    var t := tags[..k + 1];
    assert t[..|t| - 1] == tags[..k] && t[|t| - 1] == tags[k];
  }

  /**
    The body of the page loop for one tag: a known tag is not parsed; a tag
    that does not parse is skipped; otherwise the minimum version and then
    the minimum year decide, unless all versions are wanted.
  */
  method ClassifyTag(tagName: string, existing: set<string>, f: Filter) returns (c: TagClass)
    ensures c == Classify(tagName, existing, f)
  {
    if tagName in existing {
      return Known;
    }
    var v := ParseVersion(tagName);
    if v.Failure? {
      return Unparsable;
    }
    var shouldInclude := ApplyFilters(v.value, f);
    c := if shouldInclude then Included else FilteredOut;
  }

  /** The filters, unless all versions are wanted: the minimum version, then the minimum year. */
  method ApplyFilters(v: Version, f: Filter) returns (shouldInclude: bool)
    ensures shouldInclude == Admits(f, v)
  {
    shouldInclude := true;
    if !f.allVersions {
      if f.minVersion.Some? {
        if Compare(v, f.minVersion.value) < 0 {
          shouldInclude := false;
        }
      }
      if f.minYear > 0 && shouldInclude {
        var estimatedYear := 2012 + (v.major - 1) + v.minor / 6;
        if estimatedYear < f.minYear {
          shouldInclude := false;
        }
      }
    }
  }

  // ---------------------------------------------------------------------------
  // Lemmas
  // ---------------------------------------------------------------------------

  /** How the loop reads the first reply, when it is a page with a 200 (or no) status. */
  lemma PagesStep(replies: seq<Reply>, page: int, existing: set<string>, f: Filter)
    requires replies != [] && replies[0].Page? && replies[0].tags != []
    requires replies[0].meta.None? || replies[0].meta.value.statusCode == 200
    ensures var tags, meta := replies[0].tags, replies[0].meta;
            var got := PageNew(tags, existing, f);
            Pages(replies, page, existing, f)
            == if AllKnown(tags, existing) || meta.None? || meta.value.nextPage == 0 then Fetched(got, None)
               else Prepend(got, Pages(replies[1..], meta.value.nextPage, existing, f))
  {
    var r := replies[0];
    assert r == Page(r.tags, r.meta);
  }

  /** The known count reaches the page length exactly when every tag is known. */
  lemma {:induction false} KnownCountFull(tags: seq<string>, existing: set<string>)
    ensures KnownCount(tags, existing) == |tags| <==> AllKnown(tags, existing)
    decreases |tags|
  {
    if tags != [] {
      var init := tags[..|tags| - 1];
      KnownCountFull(init, existing);
      if AllKnown(tags, existing) {
        assert AllKnown(init, existing);
      }
    }
  }

  /**
    A tag is kept exactly when it is on the page, is not known locally,
    parses, and passes the filters.
  */
  lemma {:induction false} PageNewAdmitted(tags: seq<string>, existing: set<string>, f: Filter)
    ensures forall t :: t in PageNew(tags, existing, f) <==>
              && t in tags && t !in existing
              && ParseVersion(t).Success? && Admits(f, ParseVersion(t).value)
    decreases |tags|
  {
    if tags != [] {
      PageNewAdmitted(tags[..|tags| - 1], existing, f);
    }
  }

  /** Once the known count reaches the page length, the page is over, every tag is known and nothing is kept. */
  lemma KnownPageEnds(tags: seq<string>, k: nat, existing: set<string>, f: Filter)
    requires k < |tags| && KnownCount(tags[..k + 1], existing) == |tags|
    ensures AllKnown(tags, existing) && PageNew(tags, existing, f) == []
  {
    assert tags[..k + 1] == tags;
    KnownCountFull(tags, existing);
    PageNewOfKnown(tags, existing, f);
  }

  /** A page of known tags yields nothing. */
  lemma {:induction false} PageNewOfKnown(tags: seq<string>, existing: set<string>, f: Filter)
    requires AllKnown(tags, existing)
    ensures PageNew(tags, existing, f) == []
    decreases |tags|
  {
    if tags != [] {
      PageNewOfKnown(tags[..|tags| - 1], existing, f);
    }
  }

  /**
    Every tag FetchTags returns comes from a page, is not known locally,
    parses, and passes the filters.
  */
  lemma {:induction false} PagesAdmitted(replies: seq<Reply>, page: int, existing: set<string>, f: Filter)
    ensures forall t :: t in Pages(replies, page, existing, f).tags ==>
              && t in TagsOf(replies) && t !in existing
              && ParseVersion(t).Success? && Admits(f, ParseVersion(t).value)
    decreases |replies|
  {
    if replies != [] && replies[0].Page? {
      PageNewAdmitted(replies[0].tags, existing, f);
      if |replies| > 0 {
        PagesAdmitted(replies[1..], page, existing, f);
        var meta := replies[0].meta;
        if meta.Some? {
          PagesAdmitted(replies[1..], meta.value.nextPage, existing, f);
        }
      }
    }
  }

  /** The result of FetchTags keeps only new, parsable tags that pass the filters. */
  lemma FetchedTagsAdmitted(existing: set<string>, options: seq<FetchOption>, replies: seq<Reply>)
    ensures var r := FetchSpec(existing, options, replies);
            forall t :: t in r.tags ==>
              && t !in existing && ParseVersion(t).Success?
              && (ResolveFilter(Applied(options)).Success? ==>
                    Admits(ResolveFilter(Applied(options)).value, ParseVersion(t).value))
  {
    if ResolveFilter(Applied(options)).Success? {
      PagesAdmitted(replies, 1, existing, ResolveFilter(Applied(options)).value);
    }
  }

  /**
    Unless AllVersions is set, a returned tag is at or above the minimum
    version and, when a minimum year is set, its estimated year reaches it.
  */
  lemma FiltersHold(existing: set<string>, options: seq<FetchOption>, replies: seq<Reply>, t: string)
    requires !Applied(options).allVersions
    requires t in FetchSpec(existing, options, replies).tags
    ensures ResolveFilter(Applied(options)).Success? && ParseVersion(t).Success?
    ensures ResolveFilter(Applied(options)).value.minVersion.Some?
    ensures Compare(ParseVersion(t).value, ResolveFilter(Applied(options)).value.minVersion.value) >= 0
    ensures Applied(options).minYear > 0 ==> EstimatedYear(ParseVersion(t).value) >= Applied(options).minYear
  {
    FetchedTagsAdmitted(existing, options, replies);
  }

  /**
    A minimum version that does not parse once normalised is an error before
    any page is requested: no tags, an InvalidMinVersion error naming it,
    and the replies do not matter.
  */
  lemma InvalidMinVersionRequestsNothing(existing: set<string>, options: seq<FetchOption>,
                                         replies: seq<Reply>, others: seq<Reply>)
    requires !Applied(options).allVersions && Applied(options).minVersion != ""
    requires ParseVersion(NormalizeVersion(Applied(options).minVersion)).Failure?
    ensures FetchSpec(existing, options, replies) == FetchSpec(existing, options, others)
    ensures FetchSpec(existing, options, replies).tags == []
    ensures FetchSpec(existing, options, replies).err
            == Some(InvalidMinVersion(Applied(options).minVersion,
                                      ParseVersion(NormalizeVersion(Applied(options).minVersion)).error))
  {
  }

  /** With AllVersions set the minimum version is never parsed, so it cannot fail. */
  lemma AllVersionsNeverFails(options: seq<FetchOption>)
    requires WithAllVersions in options
    ensures ResolveFilter(Applied(options)).Success?
    ensures ResolveFilter(Applied(options)).value.minVersion.None?
  {
    AllVersionsIffAsked(options);
  }

  /** The tags kept from pages that all continue, concatenated. */
  function KeptFrom(pages: seq<Reply>, existing: set<string>, f: Filter): seq<string>
    decreases |pages|
  {
    if pages == [] then []
    else (if pages[0].Page? then PageNew(pages[0].tags, existing, f) else []) + KeptFrom(pages[1..], existing, f)
  }

  /** The tags of the page replies, in reply order. */
  function TagsOf(replies: seq<Reply>): seq<string>
    decreases |replies|
  {
    if replies == [] then []
    else (if replies[0].Page? then replies[0].tags else []) + TagsOf(replies[1..])
  }

  /** The tags kept from pages are exactly the new admitted tags on them. */
  lemma {:induction false} KeptFromExactly(pages: seq<Reply>, existing: set<string>, f: Filter)
    ensures forall t :: t in KeptFrom(pages, existing, f) <==>
              t in TagsOf(pages) && Classify(t, existing, f) == Included
    decreases |pages|
  {
    if pages != [] {
      KeptFromExactly(pages[1..], existing, f);
      if pages[0].Page? {
        PageNewAdmitted(pages[0].tags, existing, f);
      }
    }
  }

  /**
    When the fetch completes, every new tag that parses and passes the
    filters on any page read is returned, and nothing else.
  */
  lemma AdmittedTagsKept(pages: seq<Reply>, last: Reply, rest: seq<Reply>, page: int,
                         existing: set<string>, f: Filter)
    requires forall k :: 0 <= k < |pages| ==> Continues(pages[k], existing)
    requires last.Page? && (last.meta.None? || last.meta.value.statusCode == 200)
    requires last.tags == [] || AllKnown(last.tags, existing) || last.meta.None? || last.meta.value.nextPage == 0
    ensures forall t :: t in Pages(pages + [last] + rest, page, existing, f).tags <==>
              (t in TagsOf(pages) || t in last.tags) && Classify(t, existing, f) == Included
  {
    CompleteResults(pages, last, rest, page, existing, f);
    KeptFromExactly(pages, existing, f);
    PageNewAdmitted(last.tags, existing, f);
  }

  /**
    When a request fails, every new admitted tag on the pages read before it
    is still returned, and nothing else.
  */
  lemma AdmittedTagsKeptOnFailure(pages: seq<Reply>, bad: Reply, rest: seq<Reply>, page: int,
                                  existing: set<string>, f: Filter)
    requires forall k :: 0 <= k < |pages| ==> Continues(pages[k], existing)
    requires Fails(bad)
    ensures forall t :: t in Pages(pages + [bad] + rest, page, existing, f).tags <==>
              t in TagsOf(pages) && Classify(t, existing, f) == Included
  {
    PartialResults(pages, bad, rest, page, existing, f);
    KeptFromExactly(pages, existing, f);
  }

  /** A reply that ends the loop with an error. */
  predicate Fails(reply: Reply) {
    || reply.DeadlineExpired? || reply.RateLimited? || reply.AbuseRateLimited? || reply.RequestError?
    || (reply.Page? && reply.meta.Some? && reply.meta.value.statusCode != 200)
  }

  /**
    Partial results: when requests that continue are followed by one that
    fails, FetchTags returns every tag kept so far, in page order and then
    in page order within each page, together with an error.
  */
  lemma {:induction false} PartialResults(pages: seq<Reply>, bad: Reply, rest: seq<Reply>, page: int,
                                          existing: set<string>, f: Filter)
    requires forall k :: 0 <= k < |pages| ==> Continues(pages[k], existing)
    requires Fails(bad)
    ensures Pages(pages + [bad] + rest, page, existing, f).tags == KeptFrom(pages, existing, f)
    ensures Pages(pages + [bad] + rest, page, existing, f).err.Some?
    decreases |pages|
  {
    if pages == [] {
      assert pages + [bad] + rest == [bad] + rest;
    } else {
      var s := pages + [bad] + rest;
      assert s[0] == pages[0] && s[1..] == pages[1..] + [bad] + rest;
      PartialResults(pages[1..], bad, rest, pages[0].meta.value.nextPage, existing, f);
    }
  }

  /** Requests that continue, then the end of the catalog: the same tags, and no error. */
  lemma {:induction false} CompleteResults(pages: seq<Reply>, last: Reply, rest: seq<Reply>, page: int,
                                           existing: set<string>, f: Filter)
    requires forall k :: 0 <= k < |pages| ==> Continues(pages[k], existing)
    requires last.Page? && (last.meta.None? || last.meta.value.statusCode == 200)
    requires last.tags == [] || AllKnown(last.tags, existing) || last.meta.None? || last.meta.value.nextPage == 0
    ensures Pages(pages + [last] + rest, page, existing, f)
            == Fetched(KeptFrom(pages, existing, f) + PageNew(last.tags, existing, f), None)
    decreases |pages|
  {
    var s := pages + [last] + rest;
    if pages == [] {
      assert s == [last] + rest;
      LastPage(last, rest, page, existing, f);
    } else {
      var first, tail := pages[0], pages[1..] + [last] + rest;
      assert s == [first] + tail;
      var next := first.meta.value.nextPage;
      FollowsNextPage(first, tail, page, existing, f);
      CompleteResults(pages[1..], last, rest, next, existing, f);
      var a, b, c := PageNew(first.tags, existing, f), KeptFrom(pages[1..], existing, f), PageNew(last.tags, existing, f);
      assert KeptFrom(pages, existing, f) == a + b;
      ConcatAssociative(a, b, c);
    }
  }

  lemma ConcatAssociative(a: seq<string>, b: seq<string>, c: seq<string>)
    ensures a + (b + c) == (a + b) + c
  {
  }

  /** The page that ends the catalog: its kept tags, and no error. */
  lemma LastPage(last: Reply, rest: seq<Reply>, page: int, existing: set<string>, f: Filter)
    requires last.Page? && (last.meta.None? || last.meta.value.statusCode == 200)
    requires last.tags == [] || AllKnown(last.tags, existing) || last.meta.None? || last.meta.value.nextPage == 0
    ensures Pages([last] + rest, page, existing, f) == Fetched(PageNew(last.tags, existing, f), None)
  {
    assert ([last] + rest)[0] == last;
  }

  /**
    Early stop: a page of known tags ends the fetch without error, even when
    the response names a next page, and nothing after it is requested.
  */
  lemma StopsWhenPageKnown(tags: seq<string>, meta: HttpMeta, rest: seq<Reply>, page: int,
                           existing: set<string>, f: Filter)
    requires tags != [] && AllKnown(tags, existing) && meta.statusCode == 200
    ensures Pages([Page(tags, Some(meta))] + rest, page, existing, f) == Fetched([], None)
  {
    PageNewOfKnown(tags, existing, f);
  }

  /** The request after a page that continues asks for the page the response named. */
  lemma FollowsNextPage(reply: Reply, rest: seq<Reply>, page: int, existing: set<string>, f: Filter)
    requires Continues(reply, existing)
    ensures Pages([reply] + rest, page, existing, f)
            == Prepend(PageNew(reply.tags, existing, f), Pages(rest, reply.meta.value.nextPage, existing, f))
  {
    assert ([reply] + rest)[1..] == rest;
  }
}
