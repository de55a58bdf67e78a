# goenv version catalog and installer, modelled in Dafny

goenv is a command-line manager for Go toolchains. This project models
four parts of it, and proves properties of each.

- **Version tags.** `internal/version/version.go` parses Go release tags
  such as `go1.22.1` or `go1.22rc1` into numbers and orders them. It also
  groups a list of versions by their major.minor key, sorts the versions
  within each group, and sorts the groups by key. And it normalises a
  version string so that it starts with `go`.
- **Fetching tags.** `internal/github/github.go` holds `FetchOptions` and
  its three option setters, plus `FetchTags`. FetchTags pages through the
  tags of the golang/go repository. It skips tags already known locally,
  filters the rest by a minimum version (default `go1.10`) and by an
  estimated release year, and stops early once a page holds only known
  tags. On any error it returns what it has so far together with the
  error.
- **The `versions` command.** `internal/cmd/versions.go` decides whether
  to refresh the cached catalog. It asks the user only when a cache exists
  and `--update` was not given. It then builds the set of cached tags,
  turns the flags into fetch options, fetches, parses the new tags, merges
  them with the cached versions and regroups everything.
- **The installer.** `internal/installer/installer.go` normalises the
  version name. It maps the entry names of the release archive onto the
  installation directory, stripping the top-level directory. It also
  chooses the paths of the `go` and `gofmt` wrapper scripts, and skips
  rewriting the gofmt wrapper when it already points at this
  installation.

Each file is modelled in the form it has in the source:

- **Pure code becomes functions with lemmas.** This covers parsing,
  comparison, normalisation, option resolution, name mapping and script
  paths.
- **Code that loops or updates state becomes methods proved against those
  functions.**
  - `FetchOptions` is a class whose fields the options update.
  - Both exchange sorts of `GroupVersions` work in place on arrays.
  - The bucket map is a `map` that the collecting loop reassigns.
  - The paging loop of `FetchTags`, the tag loop inside it, the loops of
    the `versions` command and the loop over the archive are methods with
    loop invariants.

The remote end of `FetchTags` is a sequence of replies, one per request.
The archive is the sequence of its entry headers. The cached catalog and
the typed answer are inputs.

Files:

- `text.dfy` holds `Option`/`Result` and models of Go's `strings`/`strconv`
  helpers: white space, trimming, prefixes, lower-casing and decimal digits.
- `version.dfy` holds the tag grammar, `ParseVersion`, `Compare`,
  `GetMajorMinor` and `NormalizeVersion`.
- `sorting.dfy` holds the in-place exchange sort that both loops of
  `GroupVersions` spell out.
- `buckets.dfy` holds selection by key, which is what a bucket of the map
  holds.
- `grouping.dfy` holds `GroupVersions`.
- `github.dfy` holds `FetchOptions`, option resolution and `FetchTags`.
- `versions_cmd.dfy` holds the `versions` command.
- `installer.dfy` holds the installer's names and paths.

## Model

| member | source | states |
|---|---|---|
| Text.TrimSpaceOfPadded | internal/version/version.go:162 | trimming removes exactly the white-space padding around a trimmed core |
| Text.TrimSpace | internal/version/version.go:162 | the result has no white space at either end and is no longer than the input |
| Text.TrimCore | internal/version/version.go:162 | the trimmed string is a slice of the input with nothing but white space before and after it |
| Text.TrimPrefix | internal/installer/installer.go:198 | when the prefix is present it is removed once, and prefix + result is the input; otherwise the input is unchanged |
| Text.ToLower | internal/cmd/versions.go:129 | same length; every character is lower-cased on its own, by LowerChar |
| Text.LowerChar | internal/cmd/versions.go:129 | an ASCII capital becomes the small letter at the same place in the alphabet; every other character is left alone |
| Text.NatToString | internal/version/version.go:59-65 | the decimal rendering of n is a non-empty digit string whose value is n, with no leading zero, starting with '0' exactly when n is 0 |
| Text.PositiveValue | internal/version/version.go:59-65 | a digit string without a leading zero that is not "0" has a positive value |
| Text.NatToStringOfValue | internal/version/version.go:59-65 | `%d` is the only rendering without a leading zero: rendering the value of such a digit string gives the string back |
| Version.SplitTag | internal/version/version.go:35-42 | the groups found for a tag are well-formed digit runs and render back to exactly that tag |
| Version.SplitRendered | internal/version/version.go:35-42 | the recogniser finds the groups of every tag the grammar renders |
| Version.ParseVersion | internal/version/version.go:38-76 | success keeps the tag and yields a consistent version: fullVersion is major.minor, then .patch only when patch > 0, then rcN only for a candidate; rc is 0 for a final release; failure is InvalidFormat of the tag |
| Version.ParseAcceptsExactlyTheGrammar | internal/version/version.go:35-42 | ParseVersion succeeds if and only if the tag is "go" digits "." digits, then optionally "." digits, then optionally "rc" digits, with nothing before or after |
| Version.ParseRendered | internal/version/version.go:44-76 | for every tag of the grammar, the exact version built: decimal values of the groups, patch 0 when absent, isRC and rc from the rc group |
| Version.ParseRejectsNearMisses | internal/version/version.go:35 | the match is anchored: a leading or trailing space, or a missing "go", makes a valid tag fail |
| Version.ReparseFullVersion | internal/version/version.go:59-65 | "go" + fullVersion of a parsed version parses back to the same numbers |
| Version.RenderNumberParts | internal/version/version.go:59-65 | fullVersion is the grammar's rendering of groups holding the same numbers |
| Version.FullVersionGroupsCanonical | internal/version/version.go:59-65 | the grammar's groups in "go" + fullVersion have no leading zero; a patch group appears exactly when the patch is above 0, an rc group exactly for a candidate |
| Version.CanonicalTagRendersItself | internal/version/version.go:59-65 | a tag whose groups have no leading zero and no ".0" patch parses, and its fullVersion is the tag without "go" |
| Version.FullVersion | internal/version/version.go:59-65 | defines fullVersion ("%d.%d", then ".%d" for a patch above 0, then "rc%d" for a candidate); RenderNumberParts and ReparseFullVersion state what it means |
| Version.Compare | internal/version/version.go:84-119 | the result is -1, 0 or 1 |
| Version.CompareIsLexicographic | internal/version/version.go:84-119 | Compare is the lexicographic order of (major, minor, patch, final-after-candidate, rc) |
| Version.CompareAntisymmetric | internal/version/version.go:84-119 | swapping the arguments negates the result |
| Version.CompareTransitive | internal/version/version.go:84-119 | at-or-below is transitive, and strictly so when either step is strict |
| Version.CompareZeroIff | internal/version/version.go:84-119 | two versions compare equal if and only if major, minor, patch and the candidate flag agree and, for candidates, rc agrees |
| Version.ReleaseCandidatesFirst | internal/version/version.go:103-117 | at the same major.minor.patch a candidate is below the final release, and candidates are ordered by rc number |
| Version.FullVersionIdentifiesLevel | internal/version/version.go:59-119 | for parsed versions, equal fullVersion if and only if Compare is 0 |
| Version.ZeroPatchIsNoPatch | internal/version/version.go:59-62 | "goM.N" and "goM.N.0" parse to versions with different tags but equal fullVersion that compare equal |
| Version.KeyVersionOfMajorMinor | internal/version/version.go:149-150 | "go" + GetMajorMinor(v) + ".0" always parses, to v's major and minor, patch 0, final release |
| Version.MajorMinorKeyInjective | internal/version/version.go:79-81 | two versions share a major.minor key if and only if their major and minor agree |
| Version.MajorMinorKeyDecodes | internal/version/version.go:79-81 | the key is two groups of decimal digits, with no leading zero, around a dot that read back as the major and the minor number |
| Version.CanonicalKeyOfNumbers | internal/version/version.go:79-81 | two digit groups without leading zeros around a dot are exactly the key of the numbers they read as |
| Version.GetMajorMinor | internal/version/version.go:79-81 | defines the key "%d.%d"; MajorMinorKeyDecodes, MajorMinorKeyInjective and KeyVersionOfMajorMinor state what it means |
| Version.NormalizeVersion | internal/version/version.go:161-167 | the result is trimmed and starts with "go"; it is the trimmed input, with "go" put in front exactly when the trimmed input lacks it |
| Version.NormalizeVersionOfNormal | internal/version/version.go:161-167 | a trimmed string starting with "go" is left unchanged |
| Version.NormalizeVersionIdempotent | internal/version/version.go:161-167 | normalising twice is normalising once |
| Sorting.ExchangeSort | internal/version/version.go:133-139 | for a total preorder, the array ends ascending and is a permutation of what it was |
| Sorting.SettlePosition | internal/version/version.go:134-138 | one run of the inner loop puts a least remaining element at position i and keeps the array a permutation |
| Sorting.SwapKeepsOrder | internal/version/version.go:135-137 | a swap of a later, lower element keeps the settled prefix and makes position i least so far |
| Sorting.Swap | internal/version/version.go:136 | exchanges the two elements and changes nothing else |
| Grouping.CompareIsTotalPreorder | internal/version/version.go:84-119 | Compare is antisymmetric and transitive, so it can drive the sort |
| Grouping.GroupCompareIsTotalPreorder | internal/version/version.go:149-151 | comparing groups by their re-parsed keys is a total preorder |
| Grouping.SortVersions | internal/version/version.go:133-139 | a bucket ends ascending by Compare and is a permutation of itself |
| Grouping.SortGroups | internal/version/version.go:147-155 | groups whose keys parse end ascending by key and are a permutation |
| Grouping.CollectBuckets | internal/version/version.go:123-128 | the map's keys are exactly the keys that occur; each bucket holds that key's versions in input order |
| Grouping.CollectStep | internal/version/version.go:125-128 | appending one version to its key's bucket keeps the map exact for the longer prefix |
| Grouping.SortBucket | internal/version/version.go:133-139 | a sorted copy of a bucket with the same elements |
| Grouping.BuildGroups | internal/version/version.go:130-144 | in whatever order the map is visited, one group per key, holding that key's versions sorted, keys distinct |
| Grouping.BuildStep | internal/version/version.go:131-144 | adding the group of one more key keeps the groups exact and their keys distinct |
| Grouping.GroupVersions | internal/version/version.go:122-158 | every group is non-empty and holds exactly its key's input versions, sorted; the keys are exactly the occurring ones, distinct, and strictly ascending by (major, minor); all groups together are a permutation of the input |
| Grouping.SortedGroupsOfBuckets | internal/version/version.go:146-155 | sorting exact buckets by key yields a grouping with strictly ascending major.minor |
| Grouping.GroupsStrictlyAscend | internal/version/version.go:149-151 | two buckets with different keys, in sorted order, have strictly increasing (major, minor) |
| Grouping.GroupKeyOfBucket | internal/version/version.go:149-150 | a bucket's key always re-parses, to the major and minor of its versions, patch 0 |
| GitHub.FetchOptions.constructor | internal/github/github.go:76 | the options start empty: no minimum version, year 0, not all versions |
| GitHub.FetchOptions.Apply | internal/github/github.go:34-53 | each option sets its own field and leaves the other two alone |
| GitHub.ApplyOptions | internal/github/github.go:76-79 | the options applied in order give the fields of Applied |
| GitHub.LastMinVersionWins | internal/github/github.go:34-39 | the last WithMinVersion decides the minimum version |
| GitHub.AllVersionsIffAsked | internal/github/github.go:48-53 | AllVersions is set if and only if WithAllVersions was given |
| GitHub.WithDefault | internal/github/github.go:81-84 | without AllVersions the minimum version is never empty: an empty one becomes go1.10, a given one is kept |
| GitHub.ParseFilter | internal/github/github.go:86-95 | without AllVersions a non-empty minimum version is normalised and parsed: the filter fails exactly when that parse fails, with InvalidMinVersion naming the option and the parse error, and otherwise its floor is the parsed version; with AllVersions nothing is parsed |
| GitHub.ParseMinVersion | internal/github/github.go:86-95 | the method computes ParseFilter of the option fields |
| GitHub.ResolveFilter | internal/github/github.go:81-95 | a resolved filter keeps AllVersions and MinYear, and has a minimum version exactly when AllVersions is off; with AllVersions it never fails; otherwise it fails exactly when the normalised (or defaulted) minimum version does not parse, and its floor is that parsed version |
| GitHub.ResolveOptions | internal/github/github.go:76-95 | applying the options and resolving them gives ResolveFilter of Applied |
| GitHub.ParseDefaultMinVersion | internal/github/github.go:27-29 | "go1.10" parses to 1.10.0, a final release |
| GitHub.DefaultMinVersionRendered | internal/github/github.go:28 | the default is "go" followed by the fullVersion of 1.10 |
| GitHub.DefaultFloor | internal/github/github.go:81-95 | with no minimum version and no AllVersions, the filter is "at or above go1.10" |
| GitHub.PaddedMinVersionResolves | internal/github/github.go:86-95 | a minimum version "M.N" with white space around it, such as " 1.22 ", resolves to the floor goM.N with patch 0 |
| GitHub.NormalizePadded | internal/version/version.go:161-167 | white space around a trimmed version without "go" is dropped and "go" is put in front |
| GitHub.EstimatedYear | internal/github/github.go:211 | every six minor numbers add a year: the estimate is 2011 + major + minor div 6 |
| GitHub.AdmitsUpwardClosed | internal/github/github.go:198-216 | the filters are floors: a version at or above an admitted one, with an estimated year at least as late, is admitted too |
| GitHub.Admits | internal/github/github.go:198-216 | defines the filters; ApplyFilters computes it, and AdmitsUpwardClosed and FiltersHold state what it means |
| GitHub.Classify | internal/github/github.go:176-223 | a tag is Known exactly when it is in the local set; otherwise Unparsable exactly when it does not parse, Included exactly when it parses and passes the filters, and FilteredOut exactly when it parses and fails them |
| GitHub.ClassifyTag | internal/github/github.go:179-223 | the method computes Classify |
| GitHub.PageNew | internal/github/github.go:190-223 | defines the tags kept from one page, in page order; ScanPage computes it and PageNewAdmitted characterises it |
| GitHub.ApplyFilters | internal/github/github.go:198-216 | a tag is kept if and only if all versions are wanted, or it is at or above the minimum version and its estimated year is at or above the minimum year |
| GitHub.ScanPage | internal/github/github.go:170-224 | the tags kept from a page are its new admitted tags in page order; the early-stop flag is set if and only if every tag on the page is known |
| GitHub.ScanStep | internal/github/github.go:174-224 | one tag extends the kept tags and the known count as Classify says |
| GitHub.KnownCountFull | internal/github/github.go:179-186 | the known count reaches the page size if and only if every tag on the page is known |
| GitHub.KnownPageEnds | internal/github/github.go:179-186 | when the known count reaches the page size, every tag on the page is known and the page keeps no tag |
| GitHub.FetchPages | internal/github/github.go:104-246 | the paging loop returns exactly the tags and error of the reply-by-reply specification |
| GitHub.Pages | internal/github/github.go:104-246 | defines the paging loop reply by reply; FetchPages computes it, and PagesAdmitted, PartialResults, CompleteResults and AdmittedTagsKept state what it returns |
| GitHub.FetchSpec | internal/github/github.go:74-247 | defines FetchTags: the option failure, or the pages from page 1; FetchTags computes it and FetchedTagsAdmitted and InvalidMinVersionRequestsNothing state what it returns |
| GitHub.FetchTags | internal/github/github.go:74-247 | FetchTags returns exactly the tags and error of the specification: option failure, or pages from page 1 |
| GitHub.PagesStep | internal/github/github.go:164-242 | a non-empty 200 page contributes its new tags, then the loop stops or goes on from NextPage |
| GitHub.PageNewAdmitted | internal/github/github.go:190-223 | a tag is kept from a page if and only if it is on the page, not known, parses and passes the filters |
| GitHub.PageNewOfKnown | internal/github/github.go:179-188 | a page of known tags contributes nothing |
| GitHub.PagesAdmitted | internal/github/github.go:174-223 | every tag returned is on a page read, not known, parses and passes the filters |
| GitHub.FetchedTagsAdmitted | internal/github/github.go:74-247 | every tag FetchTags returns is new and parses, and it passes the resolved filter |
| GitHub.FiltersHold | internal/github/github.go:198-216 | without AllVersions, every returned tag is at or above the minimum version, and at or above the minimum year when one is set |
| GitHub.InvalidMinVersionRequestsNothing | internal/github/github.go:89-95 | without AllVersions, a minimum version that does not parse once normalised returns no tags and the InvalidMinVersion error naming it, whatever the remote would answer |
| GitHub.AllVersionsNeverFails | internal/github/github.go:82-95 | with WithAllVersions the options always resolve, with no minimum version |
| GitHub.PartialResults | internal/github/github.go:144-162 | a failing request after pages that continue returns every tag kept so far, in order, with an error |
| GitHub.CompleteResults | internal/github/github.go:164-246 | a last page, whether empty, all known or without a next page, ends the loop with no error and all kept tags in order |
| GitHub.KeptFromExactly | internal/github/github.go:174-223 | the tags kept from pages that continue are exactly the new admitted tags on them |
| GitHub.AdmittedTagsKept | internal/github/github.go:164-246 | when the fetch completes, a tag is returned if and only if it is on a page read, new, parses and passes the filters |
| GitHub.AdmittedTagsKeptOnFailure | internal/github/github.go:144-162 | when a request fails, a tag is returned if and only if it is on a page read before it, new, parses and passes the filters |
| GitHub.LastPage | internal/github/github.go:164-240 | a single final page returns its new tags and no error |
| GitHub.StopsWhenPageKnown | internal/github/github.go:179-234 | a page of only known tags stops the fetch, and nothing after it is requested |
| GitHub.FollowsNextPage | internal/github/github.go:236-242 | a page that continues is followed by a request for its NextPage |
| VersionsCmd.AskForUpdateIff | internal/cmd/versions.go:125-131 | the answer means yes if and only if it is one of the spellings of "y" or "yes" in any letter case, with only white space around it |
| VersionsCmd.IsYesSpellings | internal/cmd/versions.go:129-130 | a word lower-cases to "y" or "yes" exactly when it is one of "y", "Y", "yes", "yeS", "yEs", "yES", "Yes", "YeS", "YEs", "YES" |
| VersionsCmd.AskForUpdate | internal/cmd/versions.go:125-131 | defines the check of the answer, lower-cased and trimmed; AskForUpdateIff states which answers it accepts |
| VersionsCmd.PaddedYesAccepted | internal/cmd/versions.go:129-130 | every padded "y"/"yes" in any case is accepted |
| VersionsCmd.AcceptedIsPaddedYes | internal/cmd/versions.go:129-130 | every accepted answer is a padded "y"/"yes" |
| VersionsCmd.PromptOnlyWithCache | internal/cmd/versions.go:40-43 | with --update or without a cache the catalog is always refreshed; the answer matters only with a cache and without --update, and then decides exactly |
| VersionsCmd.ShouldUpdate | internal/cmd/versions.go:40-43 | defines the update decision; PromptOnlyWithCache states when the answer matters |
| VersionsCmd.CachedTagsExactly | internal/cmd/versions.go:49-56 | the known set is empty without a cache, and otherwise holds exactly the tags of the cached groups' versions |
| VersionsCmd.BuildExistingTags | internal/cmd/versions.go:49-56 | the nested loops build exactly the cached tag set |
| VersionsCmd.FlagOptions | internal/cmd/versions.go:59-72 | --all gives only WithAllVersions; otherwise WithMinVersion comes exactly when the minimum version is non-empty, and WithMinYear exactly when the year is positive |
| VersionsCmd.BuildFetchOptions | internal/cmd/versions.go:59-72 | the appends build FlagOptions |
| VersionsCmd.FlagsResolve | internal/cmd/versions.go:59-72 | the flags resolve to the expected option fields; --all fetches without a floor; with no flags the floor is go1.10 |
| VersionsCmd.ParseNewTags | internal/cmd/versions.go:83-92 | the loop keeps the parsed versions of the tags that parse, in order |
| VersionsCmd.ParsedTagsExactly | internal/cmd/versions.go:83-92 | every kept version comes from a tag and parses to itself; every parsable tag is kept; when all parse, one version per tag in order |
| VersionsCmd.MergeVersions | internal/cmd/versions.go:95-103 | the merged list is the cached versions, group by group, followed by the new ones |
| VersionsCmd.UpdateCatalog | internal/cmd/versions.go:47-114 | the new catalog is GroupVersions of the cached plus the newly parsed versions; the warning is the fetch error |
| VersionsCmd.RunVersions | internal/cmd/versions.go:39-117 | without an update the cached catalog is shown unchanged; with one, the regrouped catalog is shown along with the fetch warning |
| VersionsCmd.RegroupedTags | internal/cmd/versions.go:105 | regrouping keeps the set of tags and the number of versions |
| VersionsCmd.FetchedVersions | internal/cmd/versions.go:75-92 | every fetched tag parses and is kept, and none of them is cached |
| VersionsCmd.MergeAddsNoCachedTag | internal/cmd/versions.go:49-103 | no newly added version has a tag already in the cache |
| VersionsCmd.UpdatedCatalogContents | internal/cmd/versions.go:95-109 | the refreshed catalog holds the cached tags plus the fetched ones, which are disjoint, and one version more per fetched tag |
| Installer.InstallName | internal/installer/installer.go:20-23 | the install name is NormalizeVersion of the version: trimmed and starting with "go" |
| Installer.InstallNameIdempotent | internal/installer/installer.go:20-23 | naming an install name again changes nothing |
| Installer.FirstSegment | internal/installer/installer.go:184-186 | the first path segment is a slash-free prefix of the name, followed by '/' when shorter |
| Installer.FirstSegmentOf | internal/installer/installer.go:184-186 | the first segment of seg + "/" + rest is seg |
| Installer.StripPrefixOf | internal/installer/installer.go:180-188 | there is no prefix exactly when the name, without "./", is empty or starts with '/'; otherwise it is the first segment plus "/", and the name (without "./") is that segment or starts with the prefix |
| Installer.MapName | internal/installer/installer.go:195-199 | the prefix is removed once when present; otherwise the name is unchanged |
| Installer.DetectPrefix | internal/installer/installer.go:180-188 | the first-entry check computes StripPrefixOf of the first name |
| Installer.ExtractEntry | internal/installer/installer.go:190-204 | one header is skipped or extracted under its mapped name as EntryOf says |
| Installer.EntryOf | internal/installer/installer.go:190-204 | defines what one header produces; ExtractEntry computes it and OutputsExactly and OtherKindsProduceNothing state what it means |
| Installer.ExtractSpec | internal/installer/installer.go:180-204 | defines the extraction under the prefix of the first header; ExtractTarball computes it and FirstHeaderFixesPrefix and TopDirectoryStripped state what it does |
| Installer.ExtractTarball | internal/installer/installer.go:150-234 | the loop extracts exactly the entries of the specification, under the prefix read from the first header, and reports a read error |
| Installer.OutputsConcat | internal/installer/installer.go:171-231 | the entries of two runs of headers are the entries of each, in order |
| Installer.OutputsExactly | internal/installer/installer.go:190-204 | every entry written comes from a header, and every header that is not skipped is written |
| Installer.OtherKindsProduceNothing | internal/installer/installer.go:190-193 | headers that are neither files nor directories write nothing |
| Installer.FirstHeaderFixesPrefix | internal/installer/installer.go:180-193 | the first header fixes the prefix even when it is itself skipped |
| Installer.TopDirectoryStripped | internal/installer/installer.go:180-204 | for an archive under any top directory other than ".", the prefix is "top/", "top/x" maps to "x", and the top directory itself is skipped |
| Installer.DotSlashNotStripped | internal/installer/installer.go:184-199 | for an archive under "./top/", the prefix is "top/" but "./top/x" keeps its full name and "./top/" is extracted |
| Installer.NotUnderPrefix | internal/installer/installer.go:184-199 | a name starting with "./" is never under the prefix of a top directory other than "." |
| Installer.DotSlashArchiveNotStripped | internal/installer/installer.go:180-204 | as written, the archive "./top/", "./top/x" extracts both entries under their full "./top/" names |
| Installer.MapNameIntended | internal/installer/installer.go:195-199 | agrees with MapName on names without "./"; a name "./" + prefix + r maps to r |
| Installer.DotSlashStrippedAsIntended | internal/installer/installer.go:184-199 | with the corrected mapping, both "./top/x" and "top/x" map to "x" |
| Installer.ExtractIntendedOfPlain | internal/installer/installer.go:180-204 | for archives without "./" names, the corrected extraction is the extraction as written |
| Installer.DotSlashArchiveAsIntended | internal/installer/installer.go:180-204 | with the correction, an archive whose names all carry "./" extracts exactly like the same archive without it |
| Installer.GofmtScriptName | internal/installer/installer.go:264-265 | the gofmt wrapper is "gofmt" + the version without its leading "go" |
| Installer.ScriptLocations | internal/installer/installer.go:236-266 | both wrappers are files directly in binDir, named after the version and after GofmtScriptName; the gofmt binary is bin/gofmt of the installation |
| Installer.Join | internal/installer/installer.go:237 | filepath.Join of a clean directory and name; ScriptLocations states where the joined paths lie |
| Installer.GoScriptPath | internal/installer/installer.go:237 | the go wrapper's path; ScriptLocations and ScriptPathsDistinct state what it is |
| Installer.GofmtScriptPath | internal/installer/installer.go:264-265 | the gofmt wrapper's path; ScriptLocations and ScriptPathsDistinct state what it is |
| Installer.GofmtBin | internal/installer/installer.go:266 | the gofmt binary of an installation; ScriptLocations states what it is |
| Installer.GofmtScriptWrite | internal/installer/installer.go:268-282 | nothing is written if and only if a readable script already mentions the gofmt binary |
| Installer.GofmtScriptWriteIdempotent | internal/installer/installer.go:268-280 | once written, the wrapper is skipped on the next install of that version |
| Installer.ScriptPathsDistinct | internal/installer/installer.go:236-265 | the go and gofmt wrappers of a version never share a path |
| Installer.GofmtScriptNameInjective | internal/installer/installer.go:264-265 | different install names get different gofmt wrappers |
| Installer.GofmtScriptNameNeedsPrefix | internal/installer/installer.go:264 | "go" + v and v name the same gofmt wrapper, which is why install names are normalised first |

## Left out

- The HTTP client, the OAuth token read from the environment, and the console output of every file are not modelled.
- The go-github library is not part of this model. A request's outcome is a `Reply`:
  - a page with its status code and NextPage, or with no response object;
  - a rate-limit error, an abuse rate-limit error, or another request error.
- The five-minute overall deadline of FetchTags is the reply `DeadlineExpired`, met at the top of an iteration. Running out of replies counts the same.
  - A deadline that fires during a request reaches FetchTags as an error of `ListTags`. The code then reports a failed request at that page, not a timeout, so the model gives `RequestFailed` there. This follows the code rather than describing every expiry as a timeout.
- Error messages are datatype values rather than formatted strings; the wrapped Go errors are not modelled.
- Version.ParseVersion: digit groups are unbounded naturals. `strconv.Atoi` overflow on groups longer than a Go `int` holds is not modelled.
- The `FetchedAt` timestamps of `Version` and `VersionsData` are not modelled, nor is the clock that sets them.
- Grouping.GroupKey: the source ignores a failed re-parse of a group key and would dereference a nil version. The model uses a zero version there instead. Grouping.GroupKeyOfBucket shows that this never happens for the groups GroupVersions builds.
- Grouping.GroupVersions: the order of Compare-equal versions inside a group (such as `go1.22` and `go1.22.0`) depends on the input order, and the model leaves it unspecified as the code does. The contract states sortedness and a permutation, not one fixed order.
- GroupVersions visits Go's map in an unspecified order. The model picks any remaining key at each step, so its contract holds for every visiting order.
- The cache file (`internal/cache/cache.go`) is not part of this model. Loading is the `cached` input, and saving with its warning is left out. So is the early error return when loading the cache fails (internal/cmd/versions.go:34-37): the `cached` input is either a catalog or none, and `RunVersions` has no failure path before the prompt.
- `displayVersions` and the prompt text are not modelled. Reading the answer from standard input is the `answer` input.
- VersionsCmd.BuildExistingTags: the `map[string]bool` of known tags is a `set<string>`, since only `true` is ever stored.
- Text.ToLower: only ASCII letters are lower-cased. The other Unicode upper-case letters that `strings.ToLower` maps never become "y", "e" or "s", so acceptance of an answer is unaffected.
- The download with its progress display (floating point), gzip and tar decoding, and every file-system call are not modelled:
  - `MkdirAll`, `OpenFile`, `io.Copy`, `Stat`, `ReadFile`, `WriteFile`;
  - file modes;
  - the error paths of these calls.
- The archive is the sequence of its headers, with the entry type reduced to file, directory or other. A read error is a flag.
- Installer.Join: `filepath.Join` is `dir + "/" + name`, which is what it gives for clean arguments. Path cleaning of `..` and `.` is not modelled.
- The text of the `go` wrapper script (GOROOT, GOPATH, GOBIN) is not modelled; only its path is.
- `internal/system/system.go` (GOOS and the download URL) and `internal/config/config.go` (the goenv directories) are not part of this model.
- Install's steps between naming the version and extracting are not modelled: checking for an existing installation, downloading or reusing the tarball, and cleanup.

## Findings

| source | as written | input that shows it | evidently intended | confidence | as-written member | corrected member |
|---|---|---|---|---|---|---|
| internal/installer/installer.go:184-199 | the top directory is read from the first name after dropping a leading "./", but each name is compared with that prefix as is | an archive whose entries are "./go/" and "./go/bin/go": the prefix is "go/", no name starts with it, so "./go/" is created and the tree lands under destDir/go | strip the top directory whether or not the names start with "./" | not executed | Installer.DotSlashArchiveNotStripped | Installer.DotSlashArchiveAsIntended |

`Installer.ExtractTarball` and `Installer.ExtractSpec` model the code as written. `Installer.ExtractIntended` is the corrected extraction: it reads every name without its leading "./", as `Installer.MapNameIntended` does for one name. Dropping "./" does not move any other entry, because joining with the destination directory cleans "./" away.
