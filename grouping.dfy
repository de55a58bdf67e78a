/**
  `GroupVersions` of internal/version/version.go: partition versions by their
  "major.minor" key into a map, sort each bucket in place, then sort the list
  of groups in place by re-parsing each key as "go" + key + ".0". Both sorts
  are the exchange sort of module Sorting.
*/
module Grouping {
  import opened Wrappers
  import opened Version
  import opened Sorting
  import opened Buckets

  // ---------------------------------------------------------------------------
  // Specification functions
  // ---------------------------------------------------------------------------

  /** The versions of `vs` whose key is `key`, in input order: the bucket of `key`. */
  function WithKey(vs: seq<Version>, key: string): seq<Version> {
    Select(vs, GetMajorMinor, {key})
  }

  /** The keys that occur in `vs`. */
  function KeysIn(vs: seq<Version>): set<string> {
    KeysOf(vs, GetMajorMinor)
  }

  function KeySet(groups: seq<VersionGroup>): set<string> {
    set g | g in groups :: g.majorMinor
  }

  /** All versions of all groups, group after group. */
  function Flatten(groups: seq<VersionGroup>): seq<Version>
    decreases |groups|
  {
    if groups == [] then [] else Flatten(groups[..|groups| - 1]) + groups[|groups| - 1].versions
  }

  /** Ascending under Compare. */
  ghost predicate SortedVersions(s: seq<Version>) {
    forall i, j :: 0 <= i < j < |s| ==> Compare(s[i], s[j]) <= 0
  }

  predicate KeyParses(g: VersionGroup) {
    KeyVersion(g.majorMinor).Success?
  }

  /**
    The version a group is ranked by: its key re-parsed as "go" + key + ".0".
    The source ignores the parse error and would then dereference a nil
    version; the zero version stands in for it here, and every key that
    GroupVersions produces parses.
  */
  function GroupKey(g: VersionGroup): Version {
    match KeyVersion(g.majorMinor)
    case Success(v) => v
    case Failure(_) => Version("", 0, 0, 0, 0, "", false)
  }

  /** The order of the group sort. */
  function GroupCompare(g: VersionGroup, h: VersionGroup): int {
    Compare(GroupKey(g), GroupKey(h))
  }

  ghost predicate GroupsSorted(s: seq<VersionGroup>) {
    forall i, j :: 0 <= i < j < |s| ==> GroupCompare(s[i], s[j]) <= 0
  }

  ghost predicate DistinctKeys(s: seq<VersionGroup>) {
    forall i, j :: 0 <= i < j < |s| ==> s[i].majorMinor != s[j].majorMinor
  }

  /** `g` is the bucket of key g.majorMinor of `versions`: the right members, sorted. */
  ghost predicate IsBucketOf(g: VersionGroup, versions: seq<Version>) {
    && g.versions != []
    && (forall v :: v in g.versions ==> GetMajorMinor(v) == g.majorMinor)
    && multiset(g.versions) == multiset(WithKey(versions, g.majorMinor))
    && SortedVersions(g.versions)
  }

  /** (major, minor) of the first group strictly below that of the second. */
  predicate MajorMinorBelow(g: VersionGroup, h: VersionGroup) {
    && g.versions != [] && h.versions != []
    && var a, b := g.versions[0], h.versions[0];
       a.major < b.major || (a.major == b.major && a.minor < b.minor)
  }

  /** What GroupVersions promises of its result. */
  ghost predicate GroupingOf(groups: seq<VersionGroup>, versions: seq<Version>) {
    && (forall g :: g in groups ==> IsBucketOf(g, versions))
    && KeySet(groups) == KeysIn(versions)
    && DistinctKeys(groups)
    && (forall i, j :: 0 <= i < j < |groups| ==> MajorMinorBelow(groups[i], groups[j]))
    && multiset(Flatten(groups)) == multiset(versions)
  }

  // ---------------------------------------------------------------------------
  // The two sorts
  // ---------------------------------------------------------------------------

  lemma CompareIsTotalPreorder()
    ensures TotalPreorder(Compare)
  {
    forall x, y
      ensures Compare(x, y) == -Compare(y, x)
    {
      CompareAntisymmetric(x, y);
    }
    forall x, y, z | Compare(x, y) <= 0 && Compare(y, z) <= 0
      ensures Compare(x, z) <= 0
    {
      CompareTransitive(x, y, z);
    }
  }

  lemma GroupCompareIsTotalPreorder()
    ensures TotalPreorder(GroupCompare)
  {
    forall g, h
      ensures GroupCompare(g, h) == -GroupCompare(h, g)
    {
      CompareAntisymmetric(GroupKey(g), GroupKey(h));
    }
    forall f, g, h | GroupCompare(f, g) <= 0 && GroupCompare(g, h) <= 0
      ensures GroupCompare(f, h) <= 0
    {
      CompareTransitive(GroupKey(f), GroupKey(g), GroupKey(h));
    }
  }

  /** The bucket sort of GroupVersions: ascending under Compare. */
  method SortVersions(a: array<Version>)
    modifies a
    ensures SortedVersions(a[..])
    ensures multiset(a[..]) == multiset(old(a[..]))
  {
    CompareIsTotalPreorder();
    ExchangeSort(a, Compare);
  }

  /**
    The group sort of GroupVersions: ascending by the keys re-parsed as
    "go" + key + ".0". The source needs every key to parse.
  */
  method SortGroups(a: array<VersionGroup>)
    requires forall k :: 0 <= k < a.Length ==> KeyParses(a[k])
    modifies a
    ensures GroupsSorted(a[..])
    ensures multiset(a[..]) == multiset(old(a[..]))
  {
    GroupCompareIsTotalPreorder();
    ExchangeSort(a, GroupCompare);
  }

  // ---------------------------------------------------------------------------
  // GroupVersions
  // ---------------------------------------------------------------------------

  /** `groups` maps each key of `vs` to its bucket. */
  ghost predicate BucketMap(groups: map<string, seq<Version>>, vs: seq<Version>) {
    && groups.Keys == KeysIn(vs)
    && forall k :: k in groups ==> groups[k] == WithKey(vs, k)
  }

  /** The first loop of GroupVersions: append each version to its key's bucket. */
  method CollectBuckets(versions: seq<Version>) returns (groups: map<string, seq<Version>>)
    ensures BucketMap(groups, versions)
  {
    groups := map[];
    for i := 0 to |versions|
      invariant BucketMap(groups, versions[..i])
    {
      var v := versions[i];
      var key := GetMajorMinor(v);
      var bucket := if key in groups then groups[key] else [];
      CollectStep(groups, versions, i, bucket);
      groups := groups[key := bucket + [v]];
    }
    assert versions[..|versions|] == versions;
  }

  /** The sort of one bucket, on a fresh array holding its versions. */
  method SortBucket(bucket: seq<Version>) returns (sorted: seq<Version>)
    ensures SortedVersions(sorted)
    ensures multiset(sorted) == multiset(bucket)
  {
    var vers := new Version[|bucket|](k requires 0 <= k < |bucket| => bucket[k]);
    assert vers[..] == bucket;
    SortVersions(vers);
    sorted := vers[..];
  }

  /** `groups` are buckets of `versions`, one per key of `done`. */
  ghost predicate BucketsFor(groups: seq<VersionGroup>, done: set<string>, versions: seq<Version>) {
    && (forall g :: g in groups ==> IsBucketOf(g, versions))
    && DistinctKeys(groups)
    && KeySet(groups) == done
  }

  /**
    The second loop of GroupVersions: visit the map in whatever order it
    hands out its keys, sort each bucket and make it a group.
  */
  method BuildGroups(groups: map<string, seq<Version>>, ghost versions: seq<Version>)
    returns (result: seq<VersionGroup>)
    requires BucketMap(groups, versions)
    ensures BucketsFor(result, KeysIn(versions), versions)
  {
    result := [];
    var remaining := groups.Keys;
    while remaining != {}
      invariant remaining <= groups.Keys
      invariant BucketsFor(result, groups.Keys - remaining, versions)
      decreases remaining
    {
      var key :| key in remaining;
      var sorted := SortBucket(groups[key]);
      var g := VersionGroup(key, sorted);
      BuildStep(groups, remaining, result, g, versions);
      result := result + [g];
      remaining := remaining - {key};
    }
  }

  /**
    GroupVersions: the groups partition the input, every member of a group has
    the group's key, keys are distinct, each group is ascending under Compare,
    and the groups come out strictly ascending by (major, minor) whatever
    order the map hands its keys out in.
  */
  method GroupVersions(versions: seq<Version>) returns (result: seq<VersionGroup>)
    ensures GroupingOf(result, versions)
  {
    var groups := CollectBuckets(versions);
    var unsorted := BuildGroups(groups, versions);

    // Sort the groups by their re-parsed keys.
    forall g | g in unsorted
      ensures KeyParses(g)
    {
      GroupKeyOfBucket(g, versions);
    }
    var sorted := new VersionGroup[|unsorted|](k requires 0 <= k < |unsorted| => unsorted[k]);
    assert sorted[..] == unsorted;
    SortGroups(sorted);
    result := sorted[..];
    SortedGroupsOfBuckets(result, unsorted, versions);
  }

  // ---------------------------------------------------------------------------
  // Lemmas
  // ---------------------------------------------------------------------------

  /** What the group sort leaves, as a permutation of the buckets, is the grouping. */
  lemma SortedGroupsOfBuckets(result: seq<VersionGroup>, unsorted: seq<VersionGroup>, versions: seq<Version>)
    requires multiset(result) == multiset(unsorted)
    requires BucketsFor(unsorted, KeysIn(versions), versions)
    requires GroupsSorted(result)
    ensures GroupingOf(result, versions)
  {
    DistinctKeysPermutation(result, unsorted);
    assert forall g :: g in result ==> g in unsorted by {
      forall g | g in result
        ensures g in unsorted
      {
        assert g in multiset(result);
      }
    }
    assert KeySet(result) == KeySet(unsorted) by {
      forall g | g in unsorted
        ensures g in result
      {
        assert g in multiset(unsorted);
      }
    }
    forall i, j | 0 <= i < j < |result|
      ensures MajorMinorBelow(result[i], result[j])
    {
      GroupsStrictlyAscend(result[i], result[j], versions);
    }
    FlattenGroups(result, versions);
    SelectAll(versions, GetMajorMinor, KeysIn(versions));
  }

  /** One step of the first loop keeps the map the buckets of the prefix read so far. */
  lemma CollectStep(groups: map<string, seq<Version>>, versions: seq<Version>, i: nat, bucket: seq<Version>)
    requires i < |versions| && BucketMap(groups, versions[..i])
    requires var key := GetMajorMinor(versions[i]); bucket == if key in groups then groups[key] else []
    ensures BucketMap(groups[GetMajorMinor(versions[i]) := bucket + [versions[i]]], versions[..i + 1])
  {
    var vs, v := versions[..i], versions[i];
    var key := GetMajorMinor(v);
    var next := groups[key := bucket + [v]];
    assert versions[..i + 1] == vs + [v];
    SelectSnoc(vs, v, GetMajorMinor, {key});
    assert next.Keys == KeysIn(vs + [v]);
    forall k | k in next
      ensures next[k] == WithKey(vs + [v], k)
    {
      SelectSnoc(vs, v, GetMajorMinor, {k});
      if k == key && key !in groups {
        SelectAbsent(vs, GetMajorMinor, key);
      }
    }
  }


  /** One step of the second loop adds the bucket of one more key. */
  lemma BuildStep(groups: map<string, seq<Version>>, remaining: set<string>, result: seq<VersionGroup>,
                  g: VersionGroup, versions: seq<Version>)
    requires BucketMap(groups, versions)
    requires remaining <= groups.Keys && g.majorMinor in remaining
    requires BucketsFor(result, groups.Keys - remaining, versions)
    requires SortedVersions(g.versions) && multiset(g.versions) == multiset(groups[g.majorMinor])
    ensures BucketsFor(result + [g], groups.Keys - (remaining - {g.majorMinor}), versions)
  {
    NewBucket(g, versions);
    AddBucket(result, g, groups.Keys - remaining, versions);
    assert groups.Keys - remaining + {g.majorMinor} == groups.Keys - (remaining - {g.majorMinor});
  }

  /** A sorted permutation of the bucket of a key that occurs is a bucket. */
  lemma NewBucket(g: VersionGroup, versions: seq<Version>)
    requires g.majorMinor in KeysIn(versions)
    requires SortedVersions(g.versions)
    requires multiset(g.versions) == multiset(WithKey(versions, g.majorMinor))
    ensures IsBucketOf(g, versions)
  {
    SelectPresent(versions, GetMajorMinor, g.majorMinor);
    SelectMembers(versions, GetMajorMinor, {g.majorMinor});
    var bucket := WithKey(versions, g.majorMinor);
    assert forall v :: v in g.versions ==> v in multiset(bucket);
    assert bucket[0] in multiset(g.versions);
  }

  /** One more bucket, for a new key, keeps the buckets well formed. */
  lemma AddBucket(groups: seq<VersionGroup>, g: VersionGroup, done: set<string>, versions: seq<Version>)
    requires BucketsFor(groups, done, versions)
    requires IsBucketOf(g, versions) && g.majorMinor !in done
    ensures BucketsFor(groups + [g], done + {g.majorMinor}, versions)
  {
    var s := groups + [g];
    assert KeySet(s) == KeySet(groups) + {g.majorMinor};
    forall i, j | 0 <= i < j < |s|
      ensures s[i].majorMinor != s[j].majorMinor
    {
      if j == |groups| {
        assert s[i] in groups;
      }
    }
  }

  /** Buckets with distinct keys, flattened, hold exactly the versions with those keys. */
  lemma {:induction false} FlattenGroups(groups: seq<VersionGroup>, vs: seq<Version>)
    requires DistinctKeys(groups)
    requires forall g :: g in groups ==> multiset(g.versions) == multiset(WithKey(vs, g.majorMinor))
    ensures multiset(Flatten(groups)) == multiset(Select(vs, GetMajorMinor, KeySet(groups)))
    decreases |groups|
  {
    if groups == [] {
      assert KeySet(groups) == {};
      SelectNone(vs, GetMajorMinor);
    } else {
      var init := groups[..|groups| - 1];
      var last := groups[|groups| - 1];
      assert groups == init + [last];
      FlattenGroups(init, vs);
      assert KeySet(groups) == KeySet(init) + {last.majorMinor};
      forall g | g in init
        ensures g.majorMinor != last.majorMinor
      {
        var k :| 0 <= k < |init| && init[k] == g;
        assert groups[k] == g;
      }
      FlattenStep(init, last, vs, KeySet(init));
    }
  }

  /** One more bucket, of a new key, adds that key's versions. */
  lemma FlattenStep(init: seq<VersionGroup>, last: VersionGroup, vs: seq<Version>, keys: set<string>)
    requires multiset(Flatten(init)) == multiset(Select(vs, GetMajorMinor, keys))
    requires multiset(last.versions) == multiset(WithKey(vs, last.majorMinor))
    requires last.majorMinor !in keys
    ensures multiset(Flatten(init + [last])) == multiset(Select(vs, GetMajorMinor, keys + {last.majorMinor}))
  {
    assert (init + [last])[..|init|] == init;
    SelectAdd(vs, GetMajorMinor, keys, last.majorMinor);
  }

  /** Distinct keys give each group at most one occurrence. */
  lemma {:induction false} DistinctKeysCount(t: seq<VersionGroup>, g: VersionGroup)
    requires DistinctKeys(t)
    ensures multiset(t)[g] <= 1
    decreases |t|
  {
    if t != [] {
      var init, last := t[..|t| - 1], t[|t| - 1];
      assert t == init + [last];
      DistinctKeysCount(init, g);
      if g == last {
        assert g !in init;
      }
    }
  }

  /** Reordering keeps keys distinct. */
  lemma DistinctKeysPermutation(s: seq<VersionGroup>, t: seq<VersionGroup>)
    requires multiset(s) == multiset(t) && DistinctKeys(t)
    ensures DistinctKeys(s)
  {
    forall p, q | 0 <= p < q < |s|
      ensures s[p].majorMinor != s[q].majorMinor
    {
      if s[p] == s[q] {
        assert s == s[..q] + [s[q]] + s[q + 1..];
        assert s[p] in s[..q];
        assert multiset(s)[s[q]] >= 2;
        DistinctKeysCount(t, s[q]);
      } else {
        assert s[p] in multiset(t) && s[q] in multiset(t);
        var p' :| 0 <= p' < |t| && t[p'] == s[p];
        var q' :| 0 <= q' < |t| && t[q'] == s[q];
        assert p' != q';
      }
    }
  }

  /**
    Two buckets of the result that the group sort left in order, with
    different keys, are strictly ascending by (major, minor).
  */
  lemma GroupsStrictlyAscend(g: VersionGroup, h: VersionGroup, versions: seq<Version>)
    requires IsBucketOf(g, versions) && IsBucketOf(h, versions)
    requires GroupCompare(g, h) <= 0
    requires g.majorMinor != h.majorMinor
    ensures MajorMinorBelow(g, h)
  {
    var a, b := g.versions[0], h.versions[0];
    GroupKeyOfBucket(g, versions);
    GroupKeyOfBucket(h, versions);
    MajorMinorKeyInjective(a, b);
  }

  /** A bucket is ranked by its first member's (major, minor), as a final release with patch 0. */
  lemma GroupKeyOfBucket(g: VersionGroup, versions: seq<Version>)
    requires IsBucketOf(g, versions)
    ensures KeyParses(g)
    ensures var k, a := GroupKey(g), g.versions[0];
            k.major == a.major && k.minor == a.minor && k.patch == 0 && !k.isRC && k.rc == 0
  {
    var a := g.versions[0];
    assert GetMajorMinor(a) == g.majorMinor;
    KeyVersionOfMajorMinor(a);
  }
}
