/**
  The `versions` command of internal/cmd/versions.go: decide whether to
  update, collect the tags of the cached catalog, turn the flags into fetch
  options, fetch, parse the new tags and regroup them together with the
  cached versions.

  The cache file, the console and the clock are not modelled: the cached
  catalog and the typed answer are inputs, and the remote end is the
  sequence of replies of module GitHub.
*/
module VersionsCmd {
  import opened Wrappers
  import opened Text
  import opened Version
  import opened Grouping
  import opened GitHub

  /** The flags --update, --all, --min-version and --min-year. */
  datatype Flags = Flags(update: bool, all: bool, minVersion: string, minYear: int)

  // ---------------------------------------------------------------------------
  // The update decision
  // ---------------------------------------------------------------------------

  /** askForUpdate's check of the answer: lower-cased, then trimmed, is "y" or "yes". */
  predicate AskForUpdate(response: string) {
    var r := TrimSpace(ToLower(response));
    r == "y" || r == "yes"
  }

  /** "y" or "yes" in any letter case. */
  predicate IsYes(w: string) {
    ToLower(w) == "y" || ToLower(w) == "yes"
  }

  /** Every way to write "y" or "yes" with lower- and upper-case letters. */
  const YesSpellings: set<string> := {"y", "Y", "yes", "yeS", "yEs", "yES", "Yes", "YeS", "YEs", "YES"}

  /** Lower-casing accepts exactly the spellings of "y" and "yes" in any letter case. */
  lemma IsYesSpellings(w: string)
    ensures IsYes(w) <==> w in YesSpellings
  {
    if IsYes(w) {
      LowerCharTo(w[0], 'y');
      if |w| == 1 {
        assert w == [w[0]];
      } else {
        LowerCharTo(w[1], 'e');
        LowerCharTo(w[2], 's');
        assert w == [w[0], w[1], w[2]];
      }
    }
    if w in YesSpellings {
      assert ToLower(w) == [LowerChar(w[0])] || ToLower(w) == [LowerChar(w[0]), LowerChar(w[1]), LowerChar(w[2])];
    }
  }

  /** `response` is a yes with nothing but white space around it. */
  predicate PaddedYes(response: string, p: string, w: string, q: string) {
    response == p + w + q && AllSpace(p) && AllSpace(q) && w in YesSpellings
  }

  /** Update without asking under --update or without a cache; otherwise the answer decides. */
  function ShouldUpdate(update: bool, cached: Option<VersionsData>, answer: string): bool {
    update || cached.None? || AskForUpdate(answer)
  }

  /** The answer is a yes exactly when it is "y" or "yes", in any case, padded with white space. */
  lemma AskForUpdateIff(response: string)
    ensures AskForUpdate(response) <==> exists p, w, q :: PaddedYes(response, p, w, q)
  {
    forall p, w, q | PaddedYes(response, p, w, q)
      ensures AskForUpdate(response)
    {
      PaddedYesAccepted(p, w, q);
    }
    if AskForUpdate(response) {
      AcceptedIsPaddedYes(response);
    }
  }

  lemma AcceptedIsPaddedYes(response: string)
    requires AskForUpdate(response)
    ensures exists p, w, q :: PaddedYes(response, p, w, q)
  {
    var p, w, q := LowerCore(response);
    IsYesSpellings(w);
    assert PaddedYes(response, p, w, q);
  }

  /** Any string is its lower-cased, trimmed core, in its own letter case, with white space around it. */
  lemma LowerCore(response: string) returns (p: string, w: string, q: string)
    ensures response == p + w + q && AllSpace(p) && AllSpace(q)
    ensures ToLower(w) == TrimSpace(ToLower(response))
  {
    var x := ToLower(response);
    var a, b := TrimCore(x);
    p, w, q := response[..a], response[a..b], response[b..];
    SplitThree(response, a, b);
    LowerSlices(response, a, b);
    SpaceOfLower(p);
    SpaceOfLower(q);
  }

  lemma PaddedYesAccepted(p: string, w: string, q: string)
    requires AllSpace(p) && AllSpace(q) && w in YesSpellings
    ensures AskForUpdate(p + w + q)
  {
    IsYesSpellings(w);
    var lp, lw, lq := ToLower(p), ToLower(w), ToLower(q);
    assert ToLower(p + w + q) == lp + lw + lq;
    assert AllSpace(lp) && AllSpace(lq);
    TrimSpaceOfPadded(lp, lw, lq);
  }

  /**
    The answer is consulted only when --update is not given and a cache
    exists, and then it decides.
  */
  lemma PromptOnlyWithCache(update: bool, cached: Option<VersionsData>, answer: string, other: string)
    ensures update || cached.None? ==> ShouldUpdate(update, cached, answer)
    ensures ShouldUpdate(update, cached, answer) != ShouldUpdate(update, cached, other) ==>
              !update && cached.Some?
    ensures !update && cached.Some? ==>
              (ShouldUpdate(update, cached, answer) <==> exists p, w, q :: PaddedYes(answer, p, w, q))
  {
    AskForUpdateIff(answer);
  }

  // ---------------------------------------------------------------------------
  // The cached catalog
  // ---------------------------------------------------------------------------

  function TagSet(vs: seq<Version>): set<string> {
    set v | v in vs :: v.tag
  }

  /** The cached versions, group after group; none without a cache. */
  function CachedVersions(cached: Option<VersionsData>): seq<Version> {
    match cached
    case None => []
    case Some(d) => Flatten(d.groups)
  }

  function CachedTags(cached: Option<VersionsData>): set<string> {
    TagSet(CachedVersions(cached))
  }

  /** The tags of the cached catalog are those of its versions in its groups, and none without it. */
  lemma CachedTagsExactly(cached: Option<VersionsData>)
    ensures cached.None? ==> CachedTags(cached) == {}
    ensures cached.Some? ==> forall t :: t in CachedTags(cached) <==>
              exists g, v :: g in cached.value.groups && v in g.versions && v.tag == t
  {
    if cached.Some? {
      forall v
        ensures v in Flatten(cached.value.groups) <==> exists g :: g in cached.value.groups && v in g.versions
      {
        InFlatten(cached.value.groups, v);
      }
    }
  }

  lemma {:induction false} InFlatten(groups: seq<VersionGroup>, v: Version)
    ensures v in Flatten(groups) <==> exists g :: g in groups && v in g.versions
    decreases |groups|
  {
    if groups != [] {
      var init, last := groups[..|groups| - 1], groups[|groups| - 1];
      assert groups == init + [last];
      InFlatten(init, v);
      if exists g :: g in groups && v in g.versions {
        var g :| g in groups && v in g.versions;
        if g != last {
          assert g in init;
        }
      }
    }
  }

  /** Flattening one more group appends its versions. */
  lemma FlattenSnoc(groups: seq<VersionGroup>, i: int)
    requires 0 <= i < |groups|
    ensures Flatten(groups[..i + 1]) == Flatten(groups[..i]) + groups[i].versions
  {
    assert groups[..i + 1][..i] == groups[..i];
  }

  lemma TagSetConcat(a: seq<Version>, b: seq<Version>)
    ensures TagSet(a + b) == TagSet(a) + TagSet(b)
  {
    forall t | t in TagSet(a + b)
      ensures t in TagSet(a) + TagSet(b)
    {
      var v :| v in a + b && v.tag == t;
    }
    forall t | t in TagSet(a) + TagSet(b)
      ensures t in TagSet(a + b)
    {
      var v :| (v in a || v in b) && v.tag == t;
      assert v in a + b;
    }
  }

  /** The existingTags loop: the tag of every version of every cached group. */
  method BuildExistingTags(cached: Option<VersionsData>) returns (existing: set<string>)
    ensures existing == CachedTags(cached)
  {
    existing := {};
    if cached.Some? {
      var groups := cached.value.groups;
      for i := 0 to |groups|
        invariant existing == TagSet(Flatten(groups[..i]))
      {
        var vs := groups[i].versions;
        for j := 0 to |vs|
          invariant existing == TagSet(Flatten(groups[..i]) + vs[..j])
        {
          assert Flatten(groups[..i]) + vs[..j + 1] == Flatten(groups[..i]) + vs[..j] + [vs[j]];
          TagSetConcat(Flatten(groups[..i]) + vs[..j], [vs[j]]);
          existing := existing + {vs[j].tag};
        }
        assert vs[..|vs|] == vs;
        FlattenSnoc(groups, i);
      }
      assert groups[..|groups|] == groups;
    }
  }

  // ---------------------------------------------------------------------------
  // Flags to fetch options
  // ---------------------------------------------------------------------------

  /**
    The fetch options the flags ask for: with --all only the all-versions
    option; otherwise --min-version when not empty and --min-year when positive.
  */
  function FlagOptions(flags: Flags): (options: seq<FetchOption>)
    ensures flags.all ==> options == [WithAllVersions]
    ensures !flags.all ==> WithAllVersions !in options
    ensures !flags.all ==> (WithMinVersion(flags.minVersion) in options <==> flags.minVersion != "")
    ensures !flags.all ==> (WithMinYear(flags.minYear) in options <==> flags.minYear > 0)
    ensures forall opt :: opt in options ==>
              opt == WithAllVersions || opt == WithMinVersion(flags.minVersion) || opt == WithMinYear(flags.minYear)
  {
    if flags.all then [WithAllVersions]
    else
      (if flags.minVersion != "" then [WithMinVersion(flags.minVersion)] else [])
      + (if flags.minYear > 0 then [WithMinYear(flags.minYear)] else [])
  }

  /** The appends to fetchOptions. */
  method BuildFetchOptions(flags: Flags) returns (options: seq<FetchOption>)
    ensures options == FlagOptions(flags)
  {
    options := [];
    if flags.all {
      options := options + [WithAllVersions];
    } else {
      if flags.minVersion != "" {
        options := options + [WithMinVersion(flags.minVersion)];
      }
      if flags.minYear > 0 {
        options := options + [WithMinYear(flags.minYear)];
      }
    }
  }

  /**
    What FetchTags makes of the flags: --all fetches everything without a
    year floor; otherwise the floor is --min-version, or go1.10 when it is
    not given, and the year floor is --min-year when positive.
  */
  lemma FlagsResolve(flags: Flags)
    ensures Applied(FlagOptions(flags)) ==
              if flags.all then OptionValues("", 0, true)
              else OptionValues(flags.minVersion, if flags.minYear > 0 then flags.minYear else 0, false)
    ensures flags.all ==> ResolveFilter(Applied(FlagOptions(flags))) == Success(Filter(true, None, 0))
    ensures !flags.all && flags.minVersion == "" ==>
              ResolveFilter(Applied(FlagOptions(flags))) ==
              Success(Filter(false, Some(Version(DefaultMinVersion, 1, 10, 0, 0, FullVersion(1, 10, 0, false, 0), false)),
                             if flags.minYear > 0 then flags.minYear else 0))
  {
    var options := FlagOptions(flags);
    if flags.all {
      assert options[..0] == [];
    } else {
      var first := if flags.minVersion != "" then [WithMinVersion(flags.minVersion)] else [];
      var second := if flags.minYear > 0 then [WithMinYear(flags.minYear)] else [];
      assert options == first + second;
      assert Applied(first) == OptionValues(flags.minVersion, 0, false) by {
        if first != [] {
          assert first[..0] == [];
        }
      }
      if second != [] {
        assert options[..|options| - 1] == first;
      }
      if flags.minVersion == "" {
        DefaultFloor(if flags.minYear > 0 then flags.minYear else 0);
      }
    }
  }

  // ---------------------------------------------------------------------------
  // Parsing and merging
  // ---------------------------------------------------------------------------

  /** The successful results of `parse` over `s`, in order; the failures are dropped. */
  function Successes<T, U, E>(s: seq<T>, parse: T -> Result<U, E>): seq<U>
    decreases |s|
  {
    if s == [] then []
    else
      var last := parse(s[|s| - 1]);
      Successes(s[..|s| - 1], parse) + if last.Success? then [last.value] else []
  }

  /** The versions of the tags that parse, in order; the others are dropped. */
  function ParsedTags(tags: seq<string>): seq<Version> {
    Successes(tags, ParseVersion)
  }

  /** The loop that parses the fetched tags. */
  method ParseNewTags(tags: seq<string>) returns (newVersions: seq<Version>)
    ensures newVersions == ParsedTags(tags)
  {
    newVersions := [];
    for i := 0 to |tags|
      invariant newVersions == Successes(tags[..i], ParseVersion)
    {
      assert tags[..i + 1][..i] == tags[..i];
      var v := ParseVersion(tags[i]);
      if v.Success? {
        newVersions := newVersions + [v.value];
      }
    }
    assert tags[..|tags|] == tags;
  }

  /**
    Exactly the successes are kept: every kept value is the result of one of
    the inputs, and the result of every input that succeeds is kept.
  */
  lemma {:induction false} SuccessesExactly<T, U, E>(s: seq<T>, parse: T -> Result<U, E>)
    ensures forall u :: u in Successes(s, parse) ==> exists x :: x in s && parse(x) == Success(u)
    ensures forall x :: x in s && parse(x).Success? ==> parse(x).value in Successes(s, parse)
    decreases |s|
  {
    if s != [] {
      var init, last := s[..|s| - 1], s[|s| - 1];
      assert s == init + [last];
      SuccessesExactly(init, parse);
    }
  }

  /** When every input succeeds, none is dropped and the order is kept. */
  lemma {:induction false} SuccessesOfAll<T, U, E>(s: seq<T>, parse: T -> Result<U, E>)
    requires forall x :: x in s ==> parse(x).Success?
    ensures |Successes(s, parse)| == |s|
    ensures forall i :: 0 <= i < |s| ==> Successes(s, parse)[i] == parse(s[i]).value
    decreases |s|
  {
    if s != [] {
      var init, last := s[..|s| - 1], s[|s| - 1];
      assert s == init + [last];
      assert forall x :: x in init ==> x in s;
      SuccessesOfAll(init, parse);
      forall i | 0 <= i < |s|
        ensures Successes(s, parse)[i] == parse(s[i]).value
      {
        if i < |init| {
          assert s[i] == init[i];
        }
      }
    }
  }

  /**
    Parsing keeps exactly the tags that parse, each as its own parse, and
    keeps every tag and the order when all of them parse.
  */
  lemma ParsedTagsExactly(tags: seq<string>)
    ensures forall v :: v in ParsedTags(tags) ==> v.tag in tags && ParseVersion(v.tag) == Success(v)
    ensures forall t :: t in tags && ParseVersion(t).Success? ==> ParseVersion(t).value in ParsedTags(tags)
    ensures (forall t :: t in tags ==> ParseVersion(t).Success?) ==>
              |ParsedTags(tags)| == |tags| && forall i :: 0 <= i < |tags| ==> ParsedTags(tags)[i].tag == tags[i]
  {
    SuccessesExactly(tags, ParseVersion);
    forall v | v in ParsedTags(tags)
      ensures v.tag in tags && ParseVersion(v.tag) == Success(v)
    {
      var t :| t in tags && ParseVersion(t) == Success(v);
    }
    if forall t :: t in tags ==> ParseVersion(t).Success? {
      SuccessesOfAll(tags, ParseVersion);
    }
  }

  /** The merge: every cached version, group after group, then the new versions. */
  method MergeVersions(cached: Option<VersionsData>, newVersions: seq<Version>) returns (all: seq<Version>)
    ensures all == CachedVersions(cached) + newVersions
  {
    all := [];
    if cached.Some? {
      var groups := cached.value.groups;
      for i := 0 to |groups|
        invariant all == Flatten(groups[..i])
      {
        var vs := groups[i].versions;
        for j := 0 to |vs|
          invariant all == Flatten(groups[..i]) + vs[..j]
        {
          assert vs[..j + 1] == vs[..j] + [vs[j]];
          all := all + [vs[j]];
        }
        assert vs[..|vs|] == vs;
        FlattenSnoc(groups, i);
      }
      assert groups[..|groups|] == groups;
    }
    all := all + newVersions;
  }

  // ---------------------------------------------------------------------------
  // runVersions
  // ---------------------------------------------------------------------------

  /** What FetchTags returns for the cached catalog and the flags. */
  function FetchFor(cached: Option<VersionsData>, flags: Flags, replies: seq<Reply>): Fetched {
    FetchSpec(CachedTags(cached), FlagOptions(flags), replies)
  }

  /**
    The catalog an update produces: the grouping of the cached versions and
    the parsed fetched tags, whether or not the fetch ended in an error.
  */
  ghost predicate UpdatedCatalog(data: VersionsData, cached: Option<VersionsData>, flags: Flags, replies: seq<Reply>) {
    GroupingOf(data.groups, CachedVersions(cached) + ParsedTags(FetchFor(cached, flags, replies).tags))
  }

  /** The update branch of runVersions. A fetch error is only reported. */
  method UpdateCatalog(cached: Option<VersionsData>, flags: Flags, replies: seq<Reply>)
    returns (data: VersionsData, warning: Option<FetchError>)
    ensures UpdatedCatalog(data, cached, flags, replies)
    ensures warning == FetchFor(cached, flags, replies).err
  {
    var existing := BuildExistingTags(cached);
    var options := BuildFetchOptions(flags);
    var tags, err := FetchTags(existing, options, replies);
    var newVersions := ParseNewTags(tags);
    var all := MergeVersions(cached, newVersions);
    var groups := GroupVersions(all);
    data := VersionsData(groups);
    warning := err;
  }

  /**
    runVersions: the catalog to display, updated or the cached one, and the
    fetch error reported on the way, if any.
  */
  method RunVersions(flags: Flags, cached: Option<VersionsData>, answer: string, replies: seq<Reply>)
    returns (shown: Option<VersionsData>, warning: Option<FetchError>)
    ensures !ShouldUpdate(flags.update, cached, answer) ==> shown == cached && warning == None
    ensures ShouldUpdate(flags.update, cached, answer) ==>
              && shown.Some? && UpdatedCatalog(shown.value, cached, flags, replies)
              && warning == FetchFor(cached, flags, replies).err
  {
    var shouldUpdate := flags.update || cached.None?;
    if !shouldUpdate {
      shouldUpdate := AskForUpdate(answer);
    }
    if shouldUpdate {
      var data;
      data, warning := UpdateCatalog(cached, flags, replies);
      shown := Some(data);
    } else {
      shown := cached;
      warning := None;
    }
  }

  // ---------------------------------------------------------------------------
  // What the merge adds
  // ---------------------------------------------------------------------------

  /** A regrouping holds the same versions, so the same tags and as many versions. */
  lemma RegroupedTags(groups: seq<VersionGroup>, vs: seq<Version>)
    requires multiset(Flatten(groups)) == multiset(vs)
    ensures TagSet(Flatten(groups)) == TagSet(vs)
    ensures |Flatten(groups)| == |vs|
  {
    forall v
      ensures v in Flatten(groups) <==> v in vs
    {
      assert v in Flatten(groups) <==> v in multiset(Flatten(groups));
      assert v in vs <==> v in multiset(vs);
    }
    assert |multiset(Flatten(groups))| == |multiset(vs)|;
  }

  /**
    The merge adds no cached tag: every new version's tag is a fetched tag,
    and FetchTags never returns a tag it was told is known.
  */
  lemma MergeAddsNoCachedTag(cached: Option<VersionsData>, flags: Flags, replies: seq<Reply>)
    ensures forall v :: v in ParsedTags(FetchFor(cached, flags, replies).tags) ==> v.tag !in CachedTags(cached)
  {
    var fetched := FetchFor(cached, flags, replies);
    FetchedTagsAdmitted(CachedTags(cached), FlagOptions(flags), replies);
    ParsedTagsExactly(fetched.tags);
  }

  /**
    The updated catalog holds the cached tags and the fetched tags, which are
    disjoint, and as many versions as the cache plus the fetched tags.
  */
  lemma UpdatedCatalogContents(data: VersionsData, cached: Option<VersionsData>, flags: Flags, replies: seq<Reply>)
    requires UpdatedCatalog(data, cached, flags, replies)
    ensures var fetched := FetchFor(cached, flags, replies).tags;
            && TagSet(Flatten(data.groups)) == CachedTags(cached) + (set t | t in fetched)
            && CachedTags(cached) !! (set t | t in fetched)
            && |Flatten(data.groups)| == |CachedVersions(cached)| + |fetched|
  {
    var added := ParsedTags(FetchFor(cached, flags, replies).tags);
    FetchedVersions(cached, flags, replies);
    RegroupedTags(data.groups, CachedVersions(cached) + added);
    TagSetConcat(CachedVersions(cached), added);
  }

  /** The fetched tags all parse, none is cached, and parsing keeps each of them. */
  lemma FetchedVersions(cached: Option<VersionsData>, flags: Flags, replies: seq<Reply>)
    ensures var fetched := FetchFor(cached, flags, replies).tags;
            && |ParsedTags(fetched)| == |fetched|
            && TagSet(ParsedTags(fetched)) == (set t | t in fetched)
            && CachedTags(cached) !! (set t | t in fetched)
  {
    FetchedTagsAdmitted(CachedTags(cached), FlagOptions(flags), replies);
    ParsedTagSet(FetchFor(cached, flags, replies).tags);
  }

  /** When every tag parses, the parsed versions carry exactly the tags. */
  lemma ParsedTagSet(tags: seq<string>)
    requires forall t :: t in tags ==> ParseVersion(t).Success?
    ensures |ParsedTags(tags)| == |tags|
    ensures TagSet(ParsedTags(tags)) == (set t | t in tags)
  {
    var added := ParsedTags(tags);
    ParsedTagsExactly(tags);
    forall t | t in tags
      ensures t in TagSet(added)
    {
      var i :| 0 <= i < |tags| && tags[i] == t;
      assert added[i] in added;
    }
  }
}
