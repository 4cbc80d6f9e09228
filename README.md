# python-cve in Dafny

A model of the two halves of the Python CVE browser, with proofs about it.

- **The Python build step** (`pythoncve/`) reads the PSF advisory database and works out, for every advisory:
  - which CPython release tags it affects;
  - its first fixed release per fixing commit;
  - the fixes merged but not released;
  - the minors still waiting for a fix;
  - the split into end-of-life and supported versions.

  It then sorts the advisories by id and builds the per-minor version overview.
- **The TypeScript front end** (`src/`, `vite.config.js`):
  - merges manual overrides into the advisories at build time and validates them against the zod schemas;
  - filters, searches and sorts them by Python version;
  - renders the overview's severity breakdown;
  - runs the version picker.

Modules, in the order of the system:

| module | file | models |
|---|---|---|
| `Wrappers`, `Json`, `Text`, `Sorting` | `wrappers.dfy`, `json.dfy`, `text.dfy`, `sorting.dfy` | `Option`/`Result`, decoded JSON values, the string operations both languages use (ASCII lower-casing, `split`, `includes`, `trim`, decimal rendering), and the stable sort and `sorted(set)` |
| `VersionTypes`, `PyJson` | `version_types.dfy`, `pyjson.dfy` | version triples and minors in tuple order, and how Python's `.get`, `[]`, `len`, iteration, `in`, `lower`, `startswith`, `int()` and `>` behave on JSON values, including the exception each raises |
| `Util`, `Models`, `Versions` | `util.dfy`, `models.dfy`, `versions.dfy` | the tag-name parser, the `Branch`/`Tag` orderings, the encoder's set handling, the overview defaults, the end-of-life table, the 2.x/3.x filter, the latest active patches and the range compression |
| `Cve`, `AdvisoryParse` | `cve.dfy`, `advisory_parse.dfy` | `get_affected_versions`, `get_severity`, `get_issue`, `parse_advisory` |
| `AdvisoryDerive`, `VersionOverview` | `advisory_derive.dfy`, `version_overview.dfy` | the body of `parse_advisories` and `get_version_overview`, with the git ancestry and the CVE records as inputs |
| `Schema`, `Merge` | `schema.dfy`, `merge.dfy` | the zod schemas as validation predicates with a typed record and its encoding, `deepMerge`, the override map and the validate-or-throw gate |
| `Query`, `OverviewView`, `Controls` | `query.dfy`, `overview.dfy`, `controls.dfy` | the `filteredAdvisories` pipeline and the URL defaults, the breakdown with its order, labels and end-of-life check, and the combobox as a class with one method per handler |

How the source is mirrored:

- **Errors.** The exceptions the source raises on malformed advisory, CVE and override data (KeyError, IndexError, TypeError, AttributeError, a failed `assert`, ValueError) are `Result` errors. They are never preconditions. Four departures, each with its line under "## Left out":
  - a commit id that is a JSON number, boolean or null is a `TypeError` here, while Python adds it to its set;
  - tag dates arrive already parsed, so the ValueError of `fromisoformat` on a malformed or empty `created_dt` cannot occur;
  - instants are integers without offset-awareness, so the TypeError Python raises when it compares a `published` without UTC offset with an aware datetime cannot occur;
  - a score that is a list is a `TypeError` here, while Python compares lists.
- **Loops.** Code that works by updating state in a loop is a `method` with loop invariants, proved equal to a reference function. The properties are then lemmas about that function. This covers:
  - the compression loop;
  - the accumulation in `get_affected_versions`;
  - the two commit loops per advisory;
  - the overview's nested loops;
  - `deepMerge`;
  - `matchesVersionPrefix`;
  - the staged reassignment of `filtered`.
- **Set iteration order.** Where Python iterates a set and the order can matter, the order is an input and the lemmas quantify over it. This is the case for the fixing commits, and for the tags in `get_latest_active_patch_versions`.

Inputs instead of effects:

- the ancestry maps from git;
- the CVE records for each CVE id;
- tag creation instants and the publication instant (as integers);
- the ISO-8601 reader (`isoInstant`);
- the clock's `as_of`;
- the JavaScript number-to-string conversion (`fmt`);
- zod's URL check (`isUrl`).

## Model

| member | source | states |
|---|---|---|
| Text.NatToString | pythoncve/advisory.py:230-233 | the decimal rendering of a natural (`str(n)`, `f"{n}"`, `String(n)`) is a digit string, one digit long exactly below 10 |
| Text.NatToStringValue | pythoncve/advisory.py:181-182 | the rendering reads back as the number |
| Text.NatToStringInjective | pythoncve/advisory.py:230-233 | distinct naturals render differently |
| Text.Split | pythoncve/advisory.py:180 | `split` with a one-character separator gives at least one part, none holding the separator |
| Text.SplitNoSeparator | pythoncve/advisory.py:180 | a string without the separator splits into itself |
| Text.SplitAtSeparator | pythoncve/advisory.py:180 | a separator ends the first part |
| Text.SplitJoin | pythoncve/advisory.py:180 | splitting undoes joining parts free of the separator |
| Text.SplitCount | src/App.tsx:105-106 | there is one more part than there are separators |
| Text.SplitFirstPrefix | pythoncve/advisory.py:180 | the first part is a prefix of the split string |
| Text.SplitDigitsOnly | pythoncve/util.py:26 | when every part of a split is digits, every character is a digit or the separator |
| Text.ContainsAt | src/App.tsx:154-156 | `includes` holds exactly when the needle occurs at some position |
| Text.ToLower | src/App.tsx:152-156 | lower-casing keeps the length and lowers each character on its own |
| Text.TrimStartWith | src/Controls.tsx:155 | trimming the start leaves a suffix that does not start with white space |
| Text.TrimEndWith | src/Controls.tsx:155 | trimming the end leaves a prefix that does not end with white space |
| Text.LeadingDigits | src/App.tsx:108 | the longest digit prefix: digits only, and followed by a non-digit or nothing |
| Text.StrOrder | pythoncve/models.py:74-75 | Python's string comparison is a total order, so a set of commit hashes sorts to one list |
| Sorting.SortBy | pythoncve/advisory.py:175-185 | the stable sort returns a permutation of its input |
| Sorting.SortBySorted | pythoncve/advisory.py:175-185 | under a total preorder the stable sort's output is sorted |
| Sorting.SortByAllTies | src/App.tsx:184 | when every pair ties, the stable sort keeps the order it was given |
| Sorting.SortedSet | pythoncve/models.py:74-75 | `sorted(s)` of a set lists exactly its elements, ascending and without duplicates |
| Sorting.SortedUnique | pythoncve/models.py:74-75 | a sorted duplicate-free list is determined by its elements |
| Util.ParseCpythonVersion | pythoncve/util.py:21-29 | the tag-name regular expression; its lemmas: it accepts only an optional "v" and three dot-separated digit groups, every rendered version parses back, and the test cases |
| Util.ParseAcceptsOnlyDigitsAndDots | pythoncve/util.py:26-29 | a name the parser accepts is an optional "v", digits and exactly two dots between non-empty groups (and an optional final line feed, as `$` allows) |
| Util.ParseRejectsForeignChar | pythoncve/util.py:26-28 | any character other than a digit or a dot after the optional "v" makes the name unparseable |
| Util.ParseRejectsForeignPrefix | pythoncve/util.py:26-28 | the match is anchored at the start: a name starting with neither "v" nor a digit is rejected |
| Util.ParseRequiresThreeGroups | pythoncve/util.py:26-28 | fewer or more than three numeric groups are rejected |
| Util.ParseVersionString | pythoncve/util.py:21-29 | every version's rendering parses back to that version, with or without "v" |
| Util.ParseOptionalV | tests/test_util.py:23-24 | the leading "v" does not change the result |
| Util.ParseExampleV100 | tests/test_util.py:9 | "v1.0.0" parses as (1, 0, 0) |
| Util.ParseExampleZero | pythoncve/cve.py:35-38 | "0.0.0", the default lower bound, parses as (0, 0, 0) |
| Util.ParseExampleV3102 | tests/test_util.py:11 | "3.10.2" parses as (3, 10, 2) |
| Util.ParseExampleTwoGroups | tests/test_util.py:15 | "v3.9" is rejected |
| Util.ParseExampleSuffix | tests/test_util.py:16 | "v3.9.7rc1" is rejected |
| Util.ParseExamplePrefix | tests/test_util.py:17 | "release-3.10.0" is rejected |
| Models.BranchLess | pythoncve/models.py:14-19 | `Branch.__lt__`; its lemmas: `main` is never less, every other branch is less than `main`, maintenance branches go by minor, and the order is irreflexive and transitive |
| Models.MainNeverLess | pythoncve/models.py:14-16 | `main` is never less than another branch |
| Models.NonMainLessThanMain | pythoncve/models.py:17-18 | every maintenance branch is less than `main` |
| Models.MaintenanceBranchesByMinor | pythoncve/models.py:19 | two maintenance branches compare by their minor, lexicographically |
| Models.BranchLessIrreflexive | pythoncve/models.py:14-19 | no branch is less than itself |
| Models.BranchLessTransitive | pythoncve/models.py:14-19 | the branch order is transitive |
| Models.TagLess | pythoncve/models.py:35-36 | `Tag.__lt__`; its lemma: tags are ordered by version alone |
| Models.TagLessByVersionOnly | pythoncve/models.py:35-36 | tags are ordered by version alone; the hashes and the creation date make no difference |
| Models.EncodeVersions | pythoncve/models.py:74-75 | a set of versions is written as a sorted list without duplicates holding exactly its elements |
| Models.EncodeCommits | pythoncve/models.py:74-75 | a set of commit hashes is written as a sorted list without duplicates holding exactly its elements |
| Models.EncodeVersionsCanonical | pythoncve/models.py:74-75 | the written list depends only on the set: any sorted duplicate-free list of its elements is it |
| Models.NewMinorVersionOverview | pythoncve/models.py:83-94 | a new overview entry holds its minor, and every other field has its default, `last_published` being `datetime.min` |
| PyJson.RemoveUnderscores | pythoncve/advisory.py:181-182 | stripping the underscores of a digit-and-underscore string leaves only digits |
| PyJson.DecimalIntDigits | pythoncve/advisory.py:181-182 | a plain run of digits is an integer literal for `int` |
| PyJson.PyIntUntrimmed | pythoncve/advisory.py:181-182 | `int` strips nothing when neither end is white space |
| PyJson.UnsignedDecimal | pythoncve/advisory.py:181-182 | a run of digits reads as its decimal value |
| PyJson.RemoveUnderscoresOfDigits | pythoncve/advisory.py:181-182 | a string of digits has no underscore to strip |
| PyJson.PyIntOfDecimal | pythoncve/advisory.py:181-182 | `int` reads a plain run of decimal digits as its value |
| PyJson.PyIntOfNatString | pythoncve/advisory.py:181-182 | `int(str(n))` is `n` |
| PyJson.PyIntNeedsDigit | pythoncve/advisory.py:181-182 | a string without any digit raises a ValueError |
| PyJson.GreaterAsymmetric | pythoncve/advisory.py:227 | the score comparison never holds both ways |
| PyJson.GreaterIrreflexive | pythoncve/advisory.py:227 | no score is greater than itself |
| PyJson.GreaterTransitive | pythoncve/advisory.py:227 | the score comparison is transitive wherever it answers |
| PyJson.GreaterFailsWithTypeError | pythoncve/advisory.py:227 | the only failure of the comparison is a TypeError |
| VersionTypes.VersionOrder | pythoncve/models.py:35-36 | tuple order on versions is a total order |
| VersionTypes.MinorOrder | pythoncve/advisory.py:164 | tuple order on minors is a total order |
| VersionTypes.NatStringHasNoDot | pythoncve/advisory.py:230 | a rendered number contains no dot |
| VersionTypes.VersionStringInjective | pythoncve/advisory.py:230 | distinct versions render as distinct `major.minor.patch` strings |
| VersionTypes.MinorStringInjective | pythoncve/advisory.py:233 | distinct minors render as distinct `major.minor` strings |
| Versions.EolRetiredMinors | pythoncve/versions.py:13-43 | only 2.0 to 2.7 and 3.0 to 3.9 can ever be end of life; nothing is before 2001-06-22, and from 2025-10-31 on exactly those minors are |
| Versions.IsVersionEol | pythoncve/versions.py:35-43 | `is_version_eol` with the instant given; its lemmas: it is monotone in time, independent of the patch, holds only for the retired minors, and agrees with the test |
| Versions.EolMonotone | pythoncve/versions.py:39-43 | once end of life, always end of life, and the patch number does not matter |
| Versions.EolExamples | tests/test_versions.py:16-23 | every listed minor is end of life on 2025-12-24; 3.10 and 4.0 are not |
| Versions.UndatedMinors | pythoncve/versions.py:13-32 | 3.10 and 4.0 have no end-of-life date |
| Versions.LastEolDate | pythoncve/versions.py:31 | no listed date is later than 2025-10-31 |
| Versions.Get2xOr3xVersions | pythoncve/versions.py:46-48 | keeps exactly the tags whose major version is 2 or 3 |
| Versions.Get2xOr3xExample | tests/test_versions.py:26-35 | of the test's four tags, 3.6.15 and 2.7.2 are kept |
| Versions.IsLatestActive | pythoncve/versions.py:51-60 | what the latest-patch map must be: one entry per supported minor, each a tag of it with the highest patch; the loop establishes it and end-of-life minors never appear |
| Versions.GetLatestActivePatchVersions | pythoncve/versions.py:51-60 | the loop, in whatever order it visits the tags, maps every minor with a supported tag to one of its tags with the highest patch number, and nothing else |
| Versions.LatestOmitsEolMinors | pythoncve/versions.py:55-56 | end-of-life minors never appear |
| Versions.LatestActiveExample | tests/test_versions.py:60-71 | with 3.6 end of life, only 4.0 remains and its latest tag is 4.0.2 |
| Versions.Runs | pythoncve/versions.py:72-82 | the cut into runs is empty exactly for the empty input, and no run is empty |
| Versions.RunsFlatten | pythoncve/versions.py:72-82 | the runs, put back together, are the input |
| Versions.RunsAdjacent | pythoncve/versions.py:74-75 | inside a run every element satisfies the join test with its predecessor |
| Versions.RunsMaximal | pythoncve/versions.py:76-82 | a run starts exactly where the join test fails: its first element does not join the last of the run before |
| Versions.RunsEndWithLast | pythoncve/versions.py:83-86 | the last run ends with the last version, so the final range is closed on it |
| Versions.RunsAgree | pythoncve/versions.py:74 | two join tests that agree on the input give the same runs |
| Versions.RangesOf | pythoncve/versions.py:77-86 | one range per run |
| Versions.RunsSnoc | pythoncve/versions.py:72-82 | one more version either extends the last run or opens a new one |
| Versions.CompressStep | pythoncve/versions.py:73-82 | one iteration of the loop: the current range is extended when the patch is one more, and closed and restarted otherwise |
| Versions.RangesOfSnoc | pythoncve/versions.py:77-80 | closing the current run appends its `(start,)` or `(start, end)` |
| Versions.Compressed | pythoncve/versions.py:63-87 | the reference compression as written; its lemmas: the loop computes it, the ranges ascend, within one minor they stand for exactly the set, and across minors the code joins runs (see Findings) |
| Versions.CompressPatchVersionsIntoRanges | pythoncve/versions.py:63-87 | sorting the set and walking it once gives the reference ranges |
| Versions.CompressSortedVersions | pythoncve/versions.py:69-87 | the loop over the sorted versions gives one range per maximal run of consecutive patch numbers |
| Versions.RunSpan | pythoncve/versions.py:74-75 | a run of consecutive patches of one minor is exactly the versions its range stands for |
| Versions.ExpandRuns | pythoncve/versions.py:72-87 | the ranges of runs of consecutive patches stand for exactly the versions in the runs |
| Versions.CompressedByMinorExpands | pythoncve/versions.py:63-87 | with the intended join test, the ranges stand for exactly the input set, whatever minors it mixes |
| Versions.CompressedWithinMinorExpands | pythoncve/versions.py:63-87 | within one minor the code as written is the intended compression, and its ranges stand for exactly the input set |
| Versions.RunsOrdered | pythoncve/versions.py:68-82 | the runs of the sorted list are ascending and follow one another |
| Versions.CompressedOrdered | pythoncve/versions.py:68-87 | the ranges come out ascending and each runs upwards; a range is a one-element `(v,)` exactly when its start equals its end |
| Versions.RangesOrdered | pythoncve/versions.py:77-86 | ascending runs that follow one another give ascending ranges |
| Versions.CompressedEmptyAndSingleton | tests/test_versions.py:38-40 | the empty set gives no ranges; a single version gives `[(v,)]` |
| Versions.CompressMergesAcrossMinors | pythoncve/versions.py:74 | as written, 3.11.0 and 3.12.1 become the single range (3.11.0, 3.12.1), which stands for 3.11.0 and 3.11.1 instead; the intended compression keeps them apart |
| Versions.WitnessRuns | pythoncve/versions.py:74 | the runs of the two-version witness under each join test |
| Versions.WitnessEncoded | pythoncve/versions.py:68 | the witness sorts as 3.11.0, 3.12.1 |
| Versions.CompressedWitness | pythoncve/versions.py:74-80 | the code as written merges the witness into one range |
| Versions.CompressedByMinorWitness | pythoncve/versions.py:74-82 | the intended compression keeps the witness as two single ranges |
| Versions.MergedRangeExpands | pythoncve/versions.py:74 | the merged range stands for 3.11.0 and 3.11.1 |
| Cve.PythonEntries | pythoncve/cve.py:22-24 | keeps exactly the version entries whose `versionType` is "python" and whose `status` is "affected", and it succeeds only when every entry can be asked those questions |
| Cve.TagsInRange | pythoncve/cve.py:44 | a version is selected exactly when some tag carries it and it lies in the half-open range `[lo, hi)` under tuple order |
| Cve.BoundsOf | pythoncve/cve.py:29-42 | computes one bounds result per qualifying entry, in order |
| Cve.UnionErrPersists | pythoncve/cve.py:29-44 | once one entry of the loop raises, no later entry changes the outcome |
| Cve.GetAffectedVersions | pythoncve/cve.py:18-46 | the loop that accumulates the union returns the result of the reference definition, including the same exception |
| Cve.MissingContainersGiveEmpty | pythoncve/cve.py:20-26 | a record without `containers` has no affected versions |
| Cve.MissingCnaGivesEmpty | pythoncve/cve.py:20-26 | a record without `cna` has no affected versions |
| Cve.MissingAffectedGivesEmpty | pythoncve/cve.py:20-26 | a record without `affected` falls back to `[{}]` and has no affected versions |
| Cve.EmptyAffectedRaises | pythoncve/cve.py:20 | an empty `affected` list is indexed at 0 regardless, so the lookup raises an IndexError |
| Cve.UnionOk | pythoncve/cve.py:29-44 | the loop completes exactly when no entry raises |
| Cve.UnionMembers | pythoncve/cve.py:29-44 | a version is in the completed union exactly when some non-skipped entry contributes it |
| Cve.UnionMemberHasSource | pythoncve/cve.py:29-44 | every member of the union comes from some entry's contribution |
| Cve.UnionContainsContribution | pythoncve/cve.py:44 | every entry's contribution is contained in the union |
| Cve.AffectedRaisesOnBadEntry | pythoncve/cve.py:30-31 | the function raises exactly when some qualifying entry lacks `version` or `lessThan` |
| Cve.AffectedAreTagVersions | pythoncve/cve.py:44 | every affected version is the version of a given tag |
| Cve.AffectedCharacterized | pythoncve/cve.py:18-46 | a version is affected exactly when some python/affected entry with parseable bounds `[lo, hi)` has a tag of that version between them |
| Cve.MemberHasEntry | pythoncve/cve.py:29-44 | every affected version is traced to a qualifying entry and its bounds |
| Cve.EntryGivesMember | pythoncve/cve.py:29-44 | every tag inside a qualifying entry's bounds is affected |
| Cve.ZeroLowerBound | pythoncve/cve.py:34-36 | a lower bound of "0" is read as 0.0.0 |
| Cve.UnparseableBoundSkipped | pythoncve/cve.py:38-42 | an entry whose bound is not a three-part version is skipped and contributes nothing |
| Cve.PythonEntriesAllQualify | pythoncve/cve.py:22-24 | a list in which every entry qualifies is kept whole and in order |
| Cve.PythonEntryBounds | pythoncve/cve.py:22-39 | a python/affected entry built from two rendered versions qualifies and yields those versions as its bounds |
| Cve.BoundsOfVersionFields | pythoncve/cve.py:33-39 | bounds written as rendered versions parse back to those versions |
| Cve.EntryBoundsOfParsed | pythoncve/cve.py:30-42 | an entry with both keys whose lower bound (after the "0" default) and upper bound parse yields the parsed pair |
| Cve.VersionStringNotZero | pythoncve/cve.py:34 | no rendered three-part version equals "0", so the special case never hides a real version |
| Cve.UnionOfTwo | pythoncve/cve.py:28-44 | the loop over two entries that do not raise gives the union of their contributions |
| Cve.ExampleRecordVersions | tests/test_cve.py:68-91 | the example record's `affected[0]` holds the two python entries |
| Cve.ExampleRecordEntries | tests/test_cve.py:68-91 | both entries of the example qualify |
| Cve.ExampleRecordBounds | tests/test_cve.py:68-91 | the example entries have bounds `[3.6.0, 3.7.0)` and `[3.8.0, 3.9.0)` |
| Cve.ExampleTwoRanges | tests/test_cve.py:5-94 | with tags 3.6.5, 3.7.1, 3.8.2 and 3.9.0 the affected versions are exactly {3.6.5, 3.8.2} |
| Cve.ExampleRecordUnion | tests/test_cve.py:93 | the example's result is the union over its two entries |
| Cve.ExampleRange | tests/test_cve.py:6-11 | each example range holds exactly one of the example tags |
| Cve.GetSeverity | pythoncve/cve.py:49-68 | the reference `get_severity`; its lemmas: no metrics give no severity, exactly one metric gives that metric's severity, several fail the assertion |
| Cve.GetMetricSeverity | pythoncve/cve.py:58-68 | the reading of one metric; its lemmas: a truthy v4.0 block wins over v3.1, v3.1 is the fallback, neither gives no severity, and the name, score and version are copied |
| Cve.NoMetricsNoSeverity | pythoncve/cve.py:51-53 | with `metrics` missing or empty there is no severity |
| Cve.SeverityOfSingleMetric | pythoncve/cve.py:55-56 | with exactly one metric, the severity is that metric's severity |
| Cve.V4TakesPriority | pythoncve/cve.py:58 | a truthy CVSS v4.0 block is used whatever the v3.1 block holds |
| Cve.V3Fallback | pythoncve/cve.py:58 | without a truthy v4.0 block, the v3.1 block is used |
| Cve.NoCvssNoSeverity | pythoncve/cve.py:58-60 | when neither block is truthy there is no severity |
| Cve.SeveralMetricsRaise | pythoncve/cve.py:55 | more than one metric fails the assertion |
| Cve.SeverityCopied | pythoncve/cve.py:58-68 | a reported severity has its name, score and version copied from the chosen block, all three present |
| AdvisoryParse.Reports | pythoncve/advisory.py:30-32 | succeeds exactly when every reference has a `type` to lower-case; keeps exactly the "report" and "web" references, in order |
| AdvisoryParse.FindUrlFirst | pythoncve/advisory.py:33-38 | the scan returns the url of the first report containing the needle, every earlier report having been checked; `None` exactly when no report contains it |
| AdvisoryParse.GetIssue | pythoncve/advisory.py:25-40 | the reference `get_issue`; its lemmas: a CPython GitHub issue among the reports wins, a bugs.python.org issue counts only without one, no references give no issue, and non-report references never matter |
| AdvisoryParse.GitHubWins | pythoncve/advisory.py:33-35 | a CPython GitHub issue link anywhere among the reports wins over any bugs.python.org link |
| AdvisoryParse.BpoOnlyWithoutGitHub | pythoncve/advisory.py:36-38 | a bugs.python.org link is reported only when no report links to a GitHub issue |
| AdvisoryParse.NoReferencesNoIssue | pythoncve/advisory.py:26-28 | missing, null or empty references give no issue |
| AdvisoryParse.OnlyReportsMatter | pythoncve/advisory.py:30-40 | references of other types never change the issue found |
| AdvisoryParse.EventCommitsErrPersists | pythoncve/advisory.py:60-67 | once an event raises, later events do not change the outcome |
| AdvisoryParse.CollectCommits | pythoncve/advisory.py:58-67 | the loop adding to the two sets returns the reference definition's pair of sets, or its exception |
| AdvisoryParse.ParseAdvisorySpec | pythoncve/advisory.py:43-91 | the reference `parse_advisory`; its lemmas: the statement sequence returns it, and a parsed advisory carries the record's id, details, dates and first alias with empty derived fields |
| AdvisoryParse.ParseAdvisory | pythoncve/advisory.py:43-91 | the statement sequence of `parse_advisory` returns the reference definition's advisory, or its exception |
| AdvisoryParse.EventCommitsCharacterized | pythoncve/advisory.py:60-67 | a commit is introduced exactly when some event introduces it ("0" read as the first commit) and fixed exactly when some event fixes it |
| AdvisoryParse.IntroducedCommits | pythoncve/advisory.py:61-65 | the introduced half of the characterization |
| AdvisoryParse.FixedCommits | pythoncve/advisory.py:66-67 | the fixed half of the characterization |
| AdvisoryParse.IntroducedZero | pythoncve/advisory.py:63-64 | an event introducing "0" introduces the repository's first commit |
| AdvisoryParse.ParsedAdvisoryShape | pythoncve/advisory.py:76-91 | a parsed advisory carries the record's id, details and dates, the first alias as CVE id, no severity and empty derived fields |
| AdvisoryParse.NoAliasesNoCve | pythoncve/advisory.py:44-46 | without aliases there is no CVE id |
| AdvisoryParse.NonCveAliasRaises | pythoncve/advisory.py:48-49 | a first alias not starting with "CVE-" fails the assertion |
| AdvisoryDerive.IntroducedTags | pythoncve/advisory.py:122-131 | fails with KeyError exactly when a descendant tag of an introducing commit has no date; otherwise a version is kept exactly when it descends from an introducing commit and its tag was created before publication |
| AdvisoryDerive.FixedDescendants | pythoncve/advisory.py:132-135 | a version is removed exactly when it descends from some fixing commit |
| AdvisoryDerive.TheOnly | pythoncve/advisory.py:143-144 | `sorted(br)[0]` of a one-element set is its only element |
| AdvisoryDerive.FixedDescendantsStep | pythoncve/advisory.py:132-135 | removing one more commit's descendants matches removing the descendants of the larger set of commits |
| AdvisoryDerive.EncodeMinors | pythoncve/advisory.py:164-177 | the pending minors as a list hold exactly the set's elements, sorted ascending and without duplicates |
| AdvisoryDerive.EolPart | pythoncve/advisory.py:167-171 | a version is in the end-of-life part exactly when its minor had reached end of life at publication |
| AdvisoryDerive.IntroducedStep | pythoncve/advisory.py:123-131 | adding one introducing commit adds its dated descendants created before publication, or raises KeyError |
| AdvisoryDerive.IntroducedErrGrows | pythoncve/advisory.py:124-129 | a KeyError for some commits is raised for every larger set of commits |
| AdvisoryDerive.FixesErrPersists | pythoncve/advisory.py:132-148 | once a fixing commit fails its assertion, later commits do not change the outcome |
| AdvisoryDerive.CompleteOrder | pythoncve/advisory.py:132 | any visiting order of a set of commits extends to one of the whole set |
| AdvisoryDerive.FixesStep | pythoncve/advisory.py:132-148 | visiting one more fixing commit appends its released fix or its unreleased fix, as the commit's tags and branches dictate |
| AdvisoryDerive.FailedFixOrder | pythoncve/advisory.py:141-143 | a fixing commit that fails the assertion makes the whole loop fail, whatever order the remaining commits come in |
| AdvisoryDerive.CollectIntroduced | pythoncve/advisory.py:122-131 | the first loop over the introducing commits returns the reference set, or raises KeyError as it does |
| AdvisoryDerive.CollectFixes | pythoncve/advisory.py:132-148 | the second loop visits the fixing commits in some order that enumerates them, returns that order's two lists, and removes from the introduced tags everything a fixing commit reaches |
| AdvisoryDerive.DeriveSpec | pythoncve/advisory.py:114-177 | the reference body of the main loop for one visiting order of the fixing commits; its lemmas: when it fails, and that the order changes nothing |
| AdvisoryDerive.DeriveAdvisory | pythoncve/advisory.py:114-177 | the body of the main loop returns the reference derivation for some visiting order of the fixing commits |
| AdvisoryDerive.FixesReleased | pythoncve/advisory.py:137-139 | every released fix names a visited commit and the smallest tag containing it, and every visited commit reached by a tag has one |
| AdvisoryDerive.FixesUnreleased | pythoncve/advisory.py:140-148 | every unreleased fix names a visited commit that no tag contains and whose only branch is the named non-main minor, and every such commit has one |
| AdvisoryDerive.FixesOk | pythoncve/advisory.py:141-143 | the loop over the fixing commits fails exactly when one of them is reached neither by a tag nor by exactly one branch, and then with an AssertionError |
| AdvisoryDerive.DeriveParts | pythoncve/advisory.py:150-177 | a successful derivation is made of the affected set, its end-of-life split, the severity given, the fixed releases sorted by version, the unreleased fixes, and the pending minors |
| AdvisoryDerive.AffectedFromAncestry | pythoncve/advisory.py:122-153 | without versions from the CVE record, an advisory affects the tags created before publication that descend from an introducing commit and from no fixing commit |
| AdvisoryDerive.RemainingMembers | pythoncve/advisory.py:122-135 | a version survives both loops exactly when it is introduced, dated before publication and reached by no fixing commit |
| AdvisoryDerive.ApiVersionsOverride | pythoncve/advisory.py:116-151 | versions listed by the CVE record replace the ones found by ancestry, and the record's severity is kept |
| AdvisoryDerive.EolSplit | pythoncve/advisory.py:166-173 | the supported and end-of-life sets are disjoint, together the affected set, and the end-of-life one holds exactly the versions whose minor had reached end of life at publication |
| AdvisoryDerive.FixedInOrder | pythoncve/advisory.py:175 | comparing fixed releases by version is a total preorder |
| AdvisoryDerive.FixedInSorted | pythoncve/advisory.py:137-175 | the fixed releases end sorted by version; each is the smallest tag containing its fixing commit, and every fixing commit reached by a tag has one |
| AdvisoryDerive.SortedSameElements | pythoncve/advisory.py:175 | sorting the fixed releases keeps exactly the same elements |
| AdvisoryDerive.UnreleasedFixes | pythoncve/advisory.py:140-148 | the unreleased fixes are exactly those of fixing commits no tag contains whose only branch is not main |
| AdvisoryDerive.DeriveOk | pythoncve/advisory.py:124-143 | the derivation fails exactly on an undated tag or on a fixing commit reached neither by a tag nor by exactly one branch |
| AdvisoryDerive.PendingCharacterized | pythoncve/advisory.py:155-177 | a minor is pending exactly when it is affected, has no released fix and had not reached end of life at publication; the list is sorted and free of duplicates |
| AdvisoryDerive.PendingMembers | pythoncve/advisory.py:155-162 | the membership test of the pending minors, stated on the sets |
| AdvisoryDerive.ReleasedElements | pythoncve/advisory.py:137-139 | a released fix is exactly a visited commit reached by a tag, paired with the smallest such tag |
| AdvisoryDerive.DeriveOrderIrrelevant | pythoncve/advisory.py:132 | the order Python happens to iterate the fixing commits in changes neither the affected sets, nor the pending minors, nor which fixes are listed |
| AdvisoryDerive.FixesSameElements | pythoncve/advisory.py:132-148 | two visiting orders of the same commits list the same fixes |
| AdvisoryDerive.PendingSameFixes | pythoncve/advisory.py:158-162 | the pending minors depend only on which fixes are listed |
| AdvisoryDerive.IdKeyOfParts | pythoncve/advisory.py:179-183 | an id `PREFIX-year-num` has sort key `(year, num)` |
| AdvisoryDerive.NatStringHasNoDash | pythoncve/advisory.py:180 | a rendered number contains no dash, so it stays one part of the split |
| AdvisoryDerive.IdKeyNeedsYear | pythoncve/advisory.py:180-181 | an id with no dash has no second part: IndexError |
| AdvisoryDerive.KeyOrder | pythoncve/advisory.py:183-185 | tuple order on the keys is a total preorder |
| AdvisoryDerive.Keyed | pythoncve/advisory.py:185 | every element paired with its key, in list order; it fails exactly when some key fails |
| AdvisoryDerive.Unkeyed | pythoncve/advisory.py:185 | dropping the keys gives back the elements in order |
| AdvisoryDerive.UnkeyedPermutes | pythoncve/advisory.py:185 | dropping the keys of two permutations of each other leaves two permutations of each other |
| AdvisoryDerive.SortedKeyed | pythoncve/advisory.py:185 | every element of the sorted keyed list carries its own advisory's key |
| AdvisoryDerive.SortAdvisoriesOrdered | pythoncve/advisory.py:179-185 | the sorted advisories are in ascending order of `(year, num)` |
| AdvisoryDerive.SortAdvisoriesPermutes | pythoncve/advisory.py:185 | sorting keeps every advisory, each as often as before |
| AdvisoryDerive.FetchCveInputs | pythoncve/advisory.py:114-117 | the CVE record of an advisory (when it has a CVE id) gives its severity and affected versions, or no such record gives neither |
| AdvisoryDerive.ParseAll | pythoncve/advisory.py:101-105 | every raw record is parsed, in order; a failure is the exception of the first record that fails, every earlier record parsing |
| AdvisoryDerive.ProcessAdvisory | pythoncve/advisory.py:112-177 | one iteration of the main loop yields an advisory that the reference derivation produces, or an exception that reading the CVE record or the reference derivation raises |
| AdvisoryDerive.AllDerivedSnoc | pythoncve/advisory.py:112 | the derived list grows by one advisory per iteration |
| AdvisoryDerive.DerivesExcludesFailure | pythoncve/advisory.py:124-143 | an advisory that derives for some visiting order of its fixing commits fails for none |
| AdvisoryDerive.DeriveAll | pythoncve/advisory.py:112-177 | the main loop derives every parsed advisory, in order; a failure is the exception of the first advisory that fails, every earlier advisory deriving |
| AdvisoryDerive.DerivesStep | pythoncve/advisory.py:114-177 | the reference derivation of one advisory for some order is a valid step of the main loop |
| AdvisoryDerive.ParseAdvisories | pythoncve/advisory.py:94-186 | on success, the result is the list of parsed records, each derived from the ancestry maps and its CVE record, then sorted by id |
| VersionOverview.VersionsOfMinor | pythoncve/advisory.py:201-203 | keeps exactly the versions of the given minor |
| VersionOverview.TagVersionsOf | pythoncve/advisory.py:208-213 | a version is listed exactly when it is some tag's version and belongs to the minor |
| VersionOverview.LatestKeys | pythoncve/advisory.py:190-191 | the entries are keyed by exactly the minors that still have a supported release |
| VersionOverview.Collected | pythoncve/advisory.py:191-203 | an entry after the advisories keeps its minor, has no safe versions yet, is affected exactly when it was counted, and holds only versions of its minor |
| VersionOverview.CollectedCount | pythoncve/advisory.py:194-198 | every advisory touching the minor is counted exactly once, however many of its versions are in it |
| VersionOverview.CollectedIsAffected | pythoncve/advisory.py:196-197 | a minor is affected exactly when some advisory touches it |
| VersionOverview.CollectedAffected | pythoncve/advisory.py:201-203 | the affected versions of a minor are exactly the versions of that minor that some advisory affects |
| VersionOverview.CollectedLastPublished | pythoncve/advisory.py:199-200 | the last publication is at least every touching advisory's and equals one of them, or `datetime.min` when none touches |
| VersionOverview.MarkMinors | pythoncve/advisory.py:194-200 | the loop over an advisory's minors marks, counts and dates exactly the existing entries of those minors and leaves the key set alone |
| VersionOverview.VersionsOfMinorAdd | pythoncve/advisory.py:201-203 | adding a version matches filtering the larger set |
| VersionOverview.AddVersionStep | pythoncve/advisory.py:202-203 | adding a version to its minor's entry extends that entry only |
| VersionOverview.SkipVersionStep | pythoncve/advisory.py:202 | a version of a minor without an entry changes nothing |
| VersionOverview.AddVersions | pythoncve/advisory.py:201-203 | the loop over an advisory's versions adds to every entry exactly that advisory's versions of its minor |
| VersionOverview.AddAdvisory | pythoncve/advisory.py:193-203 | one advisory's two inner loops update every entry as the reference step does |
| VersionOverview.CollectAll | pythoncve/advisory.py:193-206 | the loop over the advisories leaves every entry equal to its reference definition |
| VersionOverview.BestErrPersists | pythoncve/advisory.py:223-228 | once a score comparison fails, the severity computation fails |
| VersionOverview.BestFailsWithTypeError | pythoncve/advisory.py:227 | the only failure is a TypeError from comparing scores |
| VersionOverview.BestIsHighest | pythoncve/advisory.py:223-228 | the severity kept for a version belongs to an advisory affecting it, and no advisory affecting it has a strictly greater score |
| VersionOverview.BestNone | pythoncve/advisory.py:225-228 | no severity is kept exactly when no advisory affecting the version has one |
| VersionOverview.BestSkips | pythoncve/advisory.py:225 | an advisory not affecting the version, or without severity, changes nothing |
| VersionOverview.Candidates | pythoncve/advisory.py:223-225 | the versions of the minor that some advisory affects |
| VersionOverview.AbsorbSeverity | pythoncve/advisory.py:224-228 | one advisory's versions update the best-so-far map of the minor as the reference does, or raise its TypeError |
| VersionOverview.SeverityByPatch | pythoncve/advisory.py:222-228 | the severity loops for a minor give the reference map, or its TypeError |
| VersionOverview.SeverityComplete | pythoncve/advisory.py:222-228 | a map agreeing with the per-version best severity everywhere is the reference map |
| VersionOverview.BestNoneAtStart | pythoncve/advisory.py:225 | a failure can only come from a version some advisory affects |
| VersionOverview.NeverAffectedNone | pythoncve/advisory.py:225 | a version no advisory affects gets no severity |
| VersionOverview.VersionStringsInjective | pythoncve/advisory.py:230 | two versions with the same `major.minor.patch` string are equal, so the string keys lose nothing |
| VersionOverview.MinorStringsInjective | pythoncve/advisory.py:233 | two minors with the same `major.minor` string are equal |
| VersionOverview.ByVersionString | pythoncve/advisory.py:229-231 | the severity map re-keyed by `"major.minor.patch"` has exactly the strings of the versions as keys and the same values |
| VersionOverview.ByMinorString | pythoncve/advisory.py:233 | the overview re-keyed by `"major.minor"` has exactly the strings of the minors as keys and the same values |
| VersionOverview.SetSafe | pythoncve/advisory.py:207-209 | every entry's safe versions become its minor's released versions minus its affected ones |
| VersionOverview.FinishEntry | pythoncve/advisory.py:212-231 | the body of the loop over the entries gives the reference finished entry |
| VersionOverview.PrepareEntries | pythoncve/advisory.py:190-209 | the first loops create one entry per active minor, absorb the advisories and set the safe versions |
| VersionOverview.FinishEntries | pythoncve/advisory.py:211-231 | the loop over the entries, in whatever order, finishes every entry or fails on one whose severity computation fails |
| VersionOverview.FinishedPrepared | pythoncve/advisory.py:190-231 | finishing the prepared entries gives the specified ones |
| VersionOverview.OverviewSpec | pythoncve/advisory.py:189-233 | the reference `get_version_overview`; its lemmas: the loops compute it, it has one entry per active minor, and it fails exactly on incomparable scores |
| VersionOverview.OverviewOfEntries | pythoncve/advisory.py:233 | the specified entries, re-keyed, are the overview |
| VersionOverview.EntryMap | pythoncve/advisory.py:211-233 | entries that all succeed are read back as one map |
| VersionOverview.OverviewOfFailure | pythoncve/advisory.py:227 | one failing entry makes the overview fail with TypeError |
| VersionOverview.GetVersionOverview | pythoncve/advisory.py:189-233 | the loops of `get_version_overview` return the reference overview, or its exception |
| VersionOverview.OverviewKeys | pythoncve/advisory.py:190-233 | the overview has exactly one entry per active minor, keyed `"major.minor"`, each the specified entry |
| VersionOverview.SeverityFails | pythoncve/advisory.py:223-228 | the severity computation of a minor fails exactly when that of one of its affected versions does |
| VersionOverview.EntryFails | pythoncve/advisory.py:211-231 | an entry fails exactly when its severity computation does |
| VersionOverview.OverviewFails | pythoncve/advisory.py:227 | the overview fails exactly when, for an affected version of an active minor, two scores cannot be compared, and then with TypeError |
| VersionOverview.EntryCounts | pythoncve/advisory.py:194-200 | an entry keeps its minor, counts the touching advisories, is affected exactly when one touches it, and dates its last publication as their latest |
| VersionOverview.EntryVersions | pythoncve/advisory.py:201-219 | the affected ranges expand to exactly the affected versions of the minor, the safe ranges to its released versions no advisory affects, and the all-affected flag holds exactly when every release is affected |
| VersionOverview.EntrySeverity | pythoncve/advisory.py:221-231 | a version of the minor has a severity exactly when an advisory with a severity affects it, and the one kept belongs to such an advisory and is not beaten by a strictly greater score |
| VersionOverview.EntrySeverityKeys | pythoncve/advisory.py:229-231 | every key of the severity map is the string of a version of the minor |
| Schema.EncodeAll | src/types.ts:26-41 | a list encodes as an array of the encodings of its items, in order |
| Schema.DecodeVersion | src/types.ts:3 | an accepted Version is the encoding of the three numbers read from it |
| Schema.DecodeMinor | src/types.ts:4 | an accepted minor is the encoding of the two numbers read from it |
| Schema.DecodeRange | src/types.ts:26-28 | an accepted `affected_versions` entry is the encoding of the 1-tuple or 2-tuple read from it |
| Schema.DecodeIssue | src/types.ts:6-10 | an accepted issue has type github or bpo and a URL |
| Schema.DecodeSeverity | src/types.ts:12-16 | an accepted severity has a name among LOW, MEDIUM, HIGH, CRITICAL and version "3.1" or "4.0" |
| Schema.DecodeAdvisory | src/types.ts:18-42 | the typed record of an accepted advisory meets the enumerations and the URL format |
| Schema.VersionShapes | src/types.ts:3-4 | a Version is accepted exactly when it is three numbers, a minor exactly when it is two |
| Schema.EncodedFields | src/types.ts:18-42 | each field of a record lands under its own key in the encoding |
| Schema.EncodedScalars | src/types.ts:19-25 | the string fields and the nullable `cve`, `severity` and `issue` are encoded as such |
| Schema.EncodedLists | src/types.ts:26-41 | the four lists are encoded item by item |
| Schema.EncodedListsOk | src/types.ts:26-41 | the encoded lists always pass their schemas |
| Schema.EncodedRefsOk | src/types.ts:6-24 | the encoded severity and issue pass exactly when they meet the enumerations and the URL format |
| Schema.EncodeAccepted | src/types.ts:18-42 | the schema accepts the encoding of a record exactly when the record meets the enumerations and the URL format |
| Schema.DecodeEncode | src/types.ts:18-42 | decoding the encoding of a valid record gives the record back |
| Schema.DecodeEncodeLists | src/types.ts:26-41 | decoding the encoded lists gives the lists back |
| Schema.DecodeEncodeRanges | src/types.ts:26-34 | decoding the encoded ranges and first fixes gives them back |
| Schema.DecodeEncodeMinors | src/types.ts:35-41 | decoding the encoded unreleased fixes and pending minors gives them back |
| Schema.VersionRoundTrip | src/types.ts:3 | every three-number version encodes to an accepted Version that decodes back to it |
| Schema.DecodeRangeInjective | src/types.ts:26-28 | every range encodes to an accepted entry that decodes back to it |
| Schema.DecodeFaithful | src/types.ts:18-42 | decoding an accepted advisory loses nothing on the keys it passes through unchanged |
| Schema.PipelineFixedInRejected | src/types.ts:29-34 | a `fixed_in` item as the Python step writes it (pythoncve/advisory.py:139), with `commit` and no `commits`, is rejected |
| Schema.PipelineIssueRejected | src/types.ts:6-10 | an issue as the Python step writes it (pythoncve/advisory.py:35,38), without `issue_number`, is rejected |
| Schema.PipelineOverviewEntryRejected | src/types.ts:60-76 | an overview entry without `latest_patch` or `ranges_by_status`, as the Python step writes it (pythoncve/advisory.py:233), is rejected |
| Schema.StatusKeysPresent | src/types.ts:69-75 | an accepted overview entry lists ranges under each of the five statuses |
| Merge.SpreadProperties | vite.config.js:86 | `{ ...target }` copies an object's fields, an array's items under their indices and a string's characters; nothing else has properties |
| Merge.ArraySpreadKey | vite.config.js:86 | every key of a spread array is one of its indices |
| Merge.ArraySpreadAt | vite.config.js:86 | a spread array holds each item under its index |
| Merge.StringSpreadAt | vite.config.js:86 | a spread string holds each character under its index |
| Merge.OrEmpty | vite.config.js:93 | the default of line 93 is the entry of the result when present and truthy, and `{}` otherwise |
| Merge.Merge | vite.config.js:85-99 | the reference `deepMerge`; its lemmas: the loop computes it, its keys, replacement, recursion, idempotence and the empty override |
| Merge.DeepMerge | vite.config.js:85-99 | the loop over the source's keys, building `result` in place, returns the reference merge |
| Merge.MergeKey | vite.config.js:88-96 | one iteration of the loop stores the reference merge's value for that key |
| Merge.PartialStep | vite.config.js:87-97 | after one more key the partial result agrees with the reference on every key handled |
| Merge.PartialDone | vite.config.js:97-98 | once every source key is handled the result is the reference merge |
| Merge.MergeAt | vite.config.js:88-96 | the value of one source key, computed from the still untouched entry of the result |
| Merge.MergeKeys | vite.config.js:86-97 | the result has exactly the target's keys and the source's keys, and a key the source lacks keeps the target's value |
| Merge.MergeReplaces | vite.config.js:94-96 | a source value that is not a truthy plain object (an array, a string, a number, a boolean, `null`) replaces the target's value wholesale |
| Merge.MergeRecurses | vite.config.js:88-93 | a source value that is a truthy non-array object is merged into the entry of the result when that is truthy, and into `{}` otherwise |
| Merge.ShallowWhenFlat | vite.config.js:85-99 | with no object in the source, the merge is the shallow `{ ...target, ...source }` |
| Merge.MergeIdempotent | vite.config.js:85-99 | merging the same source a second time changes nothing |
| Merge.MergeIntoIdempotent | vite.config.js:85-99 | the same, for the merge of two field maps |
| Merge.MergeEmpty | vite.config.js:85-99 | merging an empty override keeps the target's own properties |
| Merge.IdOf | vite.config.js:32-36 | `o.id` raises a TypeError exactly on `null`, reads an object's `id` field, and is `undefined` otherwise |
| Merge.OverrideEntries | vite.config.js:32 | `overrides.map(o => [o.id, o])` pairs every override with its id, in order, and fails with TypeError exactly on a `null` override |
| Merge.LookupNone | vite.config.js:32-36 | the map lookup finds nothing exactly when no override has the id (under `Map`'s SameValueZero key equality) |
| Merge.LookupFound | vite.config.js:32-36 | what the lookup finds is the last override with the id |
| Merge.CombineAll | vite.config.js:35-42 | `advisories.map(...)` combines every advisory, in order, and fails with TypeError exactly on a `null` advisory |
| Merge.CombinedShape | vite.config.js:35-42 | the combined list keeps the length and order of the advisories; an advisory whose id matches no truthy override comes through unchanged, and one that matches is merged with the last override with its id |
| Merge.Load | vite.config.js:28-53 | the plugin's `load`; its lemmas: a list is exported exactly when the combined list validates, and a non-list file or a `null` entry is a TypeError |
| Merge.LoadGate | vite.config.js:44-53 | the build exports a list exactly when the combined list passes the schema; what it exports is then the combined list, every entry a valid advisory |
| Merge.LoadTypeErrors | vite.config.js:28-35 | a file that is not a list, or a `null` entry in either file, fails the build with a TypeError before validation |
| Query.Filter | src/App.tsx:107-153 | `xs.filter(p)` keeps exactly the elements satisfying `p` and never grows |
| Query.FilterAppend | src/App.tsx:153 | filtering keeps the input order: the filter of a concatenation is the concatenation of the filters |
| Query.FilterAll | src/App.tsx:131-153 | a filter that keeps everything returns its input unchanged |
| Query.ParseInt | src/App.tsx:108 | `parseInt(s, 10)` is `NaN` exactly when no digit follows the leading white space and sign |
| Query.LeadingDigitsOfDigits | src/App.tsx:108 | a string of digits is read whole |
| Query.ParseIntDigits | src/App.tsx:108 | `parseInt` reads a string of digits as its decimal value |
| Query.ParseIntOfDecimal | src/App.tsx:108 | `parseInt` reads back the decimal rendering of a natural |
| Query.ParseIntStopsAtNonDigit | src/App.tsx:108 | `parseInt` stops at the first non-digit, so "3.1x" has parts 3 and 1 |
| Query.ParseIntPrefix | src/App.tsx:108 | a digit prefix followed by a non-digit reads as the prefix's value |
| Query.LeadingDigitsPrefix | src/App.tsx:108 | the digit run ends at the first non-digit |
| Query.Values | src/App.tsx:109-110 | the parts of a valid filter, all numbers, in order |
| Query.MatchesVersionPrefix | src/App.tsx:120-127 | the early-return loop answers true exactly when the parts are a component-wise prefix of the version |
| Query.VersionFilter | src/App.tsx:130-147 | keeps exactly the advisories one of whose ranges matches the parts |
| Query.Search | src/App.tsx:151-160 | with a non-empty term, keeps exactly the advisories whose lower-cased id, CVE (null read as "") or details contain the lower-cased term; an empty term keeps the list |
| Query.EmptySearchKeepsAll | src/App.tsx:151 | skipping the search for an empty term is the same as searching for it |
| Query.SeverityRank | src/App.tsx:163-181 | the rank is -1 exactly when the severity is missing or its lower-cased name is not one of critical, high, medium, low; otherwise it is that name's rank (4 down to 1) |
| Query.SeverityRanks | src/App.tsx:163 | critical ranks 4, high 3, medium 2, low 1, and a missing severity -1 |
| Query.BeforeTotalPreorder | src/App.tsx:164-185 | every one of the comparators is a total preorder, so the stable sort is well defined |
| Query.SortAdvisories | src/App.tsx:164 | sorting a copy keeps every advisory, each as often |
| Query.SortOrdered | src/App.tsx:164-185 | the sorted list is a permutation of its input ordered by the chosen key: newest or oldest first by date, highest or lowest first by severity rank |
| Query.UnknownSortKeepsOrder | src/App.tsx:184 | an unknown sort option (comparator 0) leaves the order unchanged |
| Query.FilteredAdvisories | src/App.tsx:102-188 | the reference `filteredAdvisories`; its lemmas: the hook body computes it, "all" shows everything, an invalid filter shows nothing, and a valid one lists exactly the matching advisories with their multiplicity |
| Query.FilterAdvisories | src/App.tsx:102-188 | the hook body, reassigning `filtered` stage by stage and returning early on an invalid filter, computes the reference list |
| Query.FilterPartsNoDot | src/App.tsx:105-108 | a filter without "." has no part when empty and otherwise one part, its `parseInt` |
| Query.AllIsNotAVersion | src/App.tsx:109-110 | "all" is not a valid version filter |
| Query.WordIsNotAVersion | src/App.tsx:105-110 | a word without "." starting with a letter is `NaN` and not a valid filter |
| Query.EmptyIsNotAVersion | src/App.tsx:105-107 | the empty string has no parts |
| Query.ParseIntNoDigit | src/App.tsx:108 | `parseInt` of a string starting with a letter is `NaN` |
| Query.AllShowsEverything | src/App.tsx:109-130 | "all" and "" apply no version filter: the result is the searched and sorted list of all advisories |
| Query.InvalidFilterShowsNothing | src/App.tsx:112-118 | any other string that is not a valid version gives an empty list |
| Query.ValidFilterMembership | src/App.tsx:130-185 | with a valid filter, an advisory is listed exactly when one of its ranges matches and the search matches; the number of times it is listed is the number of times it occurs in the input when it matches, zero otherwise |
| Query.ThreePartsImplyTwo | src/App.tsx:139-145 | a three-part match of a range implies the match of its first two parts |
| Query.ShortFilterIgnoresEnd | src/App.tsx:133-138 | with at most two parts, a pair is matched by its start alone |
| Query.FilterMatchesExpansion | src/App.tsx:133-145 | for a range produced by the pipeline, a three-part filter matches exactly the versions the range stands for, and a two-part filter exactly the minor of its start |
| Query.MinorFilterParses | src/App.tsx:105-110 | a minor such as "3.12" parses as the two-part filter [3, 12] |
| Query.SplitDecimals | src/App.tsx:105-106 | two digit strings joined by "." split back into them |
| Query.DecimalHasNoDot | src/App.tsx:106 | a digit string has no "." |
| Query.PythonVersions | src/App.tsx:11-14 | the version choices are "all" followed by one "major.minor" entry per overview version, in order |
| Query.InitialVersion | src/App.tsx:27-35 | the starting version is the URL's `version` when it is one of the choices, "all" otherwise |
| Query.InitialInputValue | src/App.tsx:54-61 | the box's starting text; its lemma ties it to the starting filter |
| Query.InitialStateAgrees | src/App.tsx:54-61 | the box starts showing "All Versions" for the "all" filter and the filter itself otherwise |
| Query.InitialSortBy | src/App.tsx:19-51 | the starting sort is the URL's `sort` when it is a valid option, "published_date_newest" otherwise |
| Query.AffectsLabel | src/App.tsx:645-649 | the label of an affected range; its lemma gives the one-version and two-version cases |
| Query.AffectsLabelCases | src/App.tsx:645-649 | a one-version entry, or a pair with equal ends, shows the version alone; a pair with different ends shows both |
| Query.LabelInjective | src/App.tsx:645-649 | two versions render alike exactly when they are equal |
| Query.LabelParts | src/App.tsx:645-649 | splitting a label on "." gives back its three numbers |
| OverviewView.Rank | src/Overview.tsx:159-166 | each of the five statuses has its place in the order CRITICAL, HIGH, MEDIUM, LOW, SAFE |
| OverviewView.InOrder | src/Overview.tsx:156-167 | the reference breakdown holds exactly the statuses of the order that have a non-empty range list, each with its own list |
| OverviewView.Breakdown | src/Overview.tsx:156-167 | the severity breakdown; its lemma: whatever the entry order, it is the non-empty statuses from CRITICAL down to SAFE |
| OverviewView.BreakdownCanonical | src/Overview.tsx:156-167 | whatever order `Object.entries` yields the statuses in, the breakdown is the non-empty statuses from CRITICAL down to SAFE, each with its own ranges |
| OverviewView.RankInjective | src/Overview.tsx:159-166 | buckets of one object are told apart by the rank of their status |
| OverviewView.RankSorted | src/Overview.tsx:158-167 | a list sorted by the comparator is ordered by rank |
| OverviewView.SameBuckets | src/Overview.tsx:156-157 | the non-empty entries are exactly the buckets of the reference breakdown, each once |
| OverviewView.InOrderSorted | src/Overview.tsx:158-167 | the reference breakdown is sorted by rank and lists each status once |
| OverviewView.RangeLabel | src/Overview.tsx:194-199 | the label of a status range; its lemmas: the label distinguishes ranges and splits back on the en dash |
| OverviewView.RangeLabelInjective | src/Overview.tsx:194-199 | a range without an end is labelled by its start alone and one with an end by "start – end"; two ranges get the same label exactly when they are the same range |
| OverviewView.LabelWithoutDash | src/Overview.tsx:196 | a version label holds no en dash, so a label without an end is never mistaken for one with |
| OverviewView.DashedSplit | src/Overview.tsx:199 | a label with an end splits on the en dash into its start and end, each with its space |
| OverviewView.IsEol | src/Overview.tsx:35-36 | the row's end-of-life test; its lemma: exactly the rows of Python 3.9 |
| OverviewView.EolExactly | src/Overview.tsx:35-36 | a row is end of life exactly when its `major.minor` is in the end-of-life list, which holds only Python 3.9 |
| Controls.VersionCombobox.constructor | src/Controls.tsx:121-122 | the options are "all" followed by the rendered minors (lines 4-7); the list starts closed with nothing highlighted |
| Controls.VersionCombobox.Select | src/Controls.tsx:140-145 | `handleVersionSelect` sets the selection, shows "All Versions" for "all" and the version otherwise, closes the list and drops the highlight |
| Controls.VersionCombobox.InputChange | src/Controls.tsx:148-164 | `handleVersionInputChange` stores the text, opens the list with nothing highlighted and selects what the text names |
| Controls.VersionCombobox.KeyDown | src/Controls.tsx:167-213 | `handleVersionKeyDown` steps the state as the key dictates, keeping the highlight on an option or at -1 |
| Controls.VersionCombobox.Focus | src/Controls.tsx:252 | focusing the box opens the list and changes nothing else |
| Controls.VersionCombobox.Hover | src/Controls.tsx:288 | hovering an option highlights it |
| Controls.VersionCombobox.ClickOutside | src/Controls.tsx:126-133 | a click outside the box closes the list and changes nothing else |
| Controls.SelectStep | src/Controls.tsx:140-145 | `handleVersionSelect` on a state value; the class method steps by it and typing a shown label selects its option again |
| Controls.InputStep | src/Controls.tsx:148-164 | `handleVersionInputChange` on a state value; its lemmas give the resulting state and the selection every kind of text makes |
| Controls.KeyStep | src/Controls.tsx:167-213 | `handleVersionKeyDown` on a state value; its lemmas keep the highlight in range and give each key's effect |
| Controls.KeyStepInRange | src/Controls.tsx:167-213 | every key keeps the highlighted index at -1 or on an option |
| Controls.ClosedKeys | src/Controls.tsx:168-178 | a closed list opens at the first option on an arrow key and ignores every other key |
| Controls.ArrowDownPresses | src/Controls.tsx:181-186 | on an open list, each ArrowDown moves down one option and stops at the last, leaving the rest of the state alone |
| Controls.ArrowUpPresses | src/Controls.tsx:187-190 | on an open list, each ArrowUp moves up one option and stops at the first; from "nothing highlighted" it goes to the first |
| Controls.EnterSelects | src/Controls.tsx:191-201 | Enter on a highlighted option selects it, shows its text and closes the list; with nothing highlighted it only closes the list |
| Controls.EscapeAndTab | src/Controls.tsx:202-209 | Escape closes the list and drops the highlight; Tab only closes it |
| Controls.KeyboardSelection | src/Controls.tsx:168-201 | from a closed list, ArrowDown, `n` more ArrowDowns and Enter select the option `n` places below "all", or the last one |
| Controls.InputStepShape | src/Controls.tsx:148-164 | any text change stores the text, opens the list with nothing highlighted, and selects something non-empty |
| Controls.TypedAll | src/Controls.tsx:155-162 | "all" and "all versions" in any case and with any surrounding white space, and the blank text, select "all" |
| Controls.TypedCustom | src/Controls.tsx:158-163 | any other text selects its normalised form, whether or not it is an option |
| Controls.TypedLabelSelects | src/Controls.tsx:142-159 | typing back the text a selected option shows selects that option again |
| Controls.AllVersionsNormal | src/Controls.tsx:142-156 | the text shown for "all" normalises to "all versions" |
| Controls.TrimKeeps | src/Controls.tsx:155 | `trim` leaves alone a text that neither starts nor ends with white space |
| Controls.VersionTextNormal | src/Controls.tsx:155-158 | option labels made of digits and dots, such as "3.12", are already normalised |

## Left out

- Git is not part of this model. This covers `pythoncve/git.py`, `compute_ancestry_optimized` and `compute_ancestry_branch` (pythoncve/versions.py:90-171). Their results are the inputs `descendants` and `branchAncestors`. `mentioned_commits` (pythoncve/advisory.py:96-108) only feeds that computation, so it is left out with it.
- Network and files are left out: `fetch_cve_data` (pythoncve/cve.py:10-15), `get_raw_advisories` (pythoncve/advisory.py:17-22), the JSON file reads, `JSON.stringify` of the export, and the dev server's file watching in vite.config.js.
  - The CVE records are the input `cveRecords`; a missing record stands for a failed fetch.
  - `pythoncve/__main__.py` is not part of this model. It writes the files, and its call at line 27 passes one argument to `parse_advisories`, which takes two (pythoncve/advisory.py:94).
- Clocks are left out. `is_version_eol`'s default of "now" (pythoncve/versions.py:37-38), `now_utc` and `formatRelativeTime` in `src/util.ts` are not modelled; the instant is always a parameter.
- Times are integers. ISO-8601 is read by the parameter `isoInstant`, whose `None` is the ValueError of `fromisoformat`, and `new Date(...)` by the parameter `time`. The UTC offset is not kept, so naive and aware datetimes are not told apart. Invalid dates are not modelled: the front end's comparator would then compare `NaN`.
- Score comparison uses numbers and strings only. Scores are compared as JSON numbers (as reals) and as strings, with a TypeError between the two. Python's comparison of lists and other containers is left out.
- Strings are ASCII for case and digits:
  - lower-casing (`str.lower`, `toLowerCase`) handles ASCII letters only;
  - the regex `\d` and `int()` accept only ASCII digits, though Python also accepts other Unicode digits.
- Key order is not modelled. JSON objects and Python dicts are maps, so their insertion order and the written key order are left out. Where the order of `Object.entries` matters (`OverviewView.BreakdownCanonical`), the lemma quantifies over every order.
- Rendering is left out: JSX, `HighlightText.tsx`, the debounced search input, scroll pagination, the URL write-back (src/App.tsx:63-99), the expand/collapse state in `src/Overview.tsx`, `preventDefault`, styling and `tailwind.config.js`.
- `handleViewCVEs` (src/App.tsx:191-200) is not modelled. It sets the box text and the selection from the overview and scrolls.
- URL well-formedness is the parameter `isUrl`, standing for zod's `z.url()`.
- JSON text that does not parse is left out; the model starts from decoded values.
- The keys `__proto__` and `constructor`, and JavaScript's getters, are not modelled in `deepMerge`.
- Special numbers are not modelled in the front end. Version numbers there are reals, stringified by the parameter `fmt`. `parseInt` is exact, without the rounding JavaScript applies above 2^53.
- The 7-version vector of `test_compress_patch_versions_into_ranges` (tests/test_versions.py:42-57) is not evaluated as a concrete example; it is covered by `Versions.CompressedWithinMinorExpands` and `Versions.CompressedOrdered`.
- Merge.DeepMerge, AdvisoryDerive.CollectFixes, VersionOverview.MarkMinors, VersionOverview.AddVersions, VersionOverview.AddAdvisory, VersionOverview.CollectAll and VersionOverview.SetSafe take and return values. The source updates objects in place, but each updated object is fresh and held once, so no aliasing is lost.
- AdvisoryDerive.ParseAdvisories: states the successful case only. Which record's exception propagates on failure is stated by `AdvisoryDerive.ParseAll` and `AdvisoryDerive.DeriveAll` for their loops, not for the composition.
- AdvisoryParse.CommitId: takes string commit ids only. Python's `set.add` also accepts a number, a boolean or null, and only a list or an object would raise `TypeError`; the model raises `TypeError` for every non-string id. The ids are annotated `set[str]` (pythoncve/versions.py:93) and are only used as git revisions, and the git ancestry is not modelled.
- AdvisoryParse.CollectCommits: non-string commit ids are a `TypeError` here (see `AdvisoryParse.CommitId`), where Python collects them.
- AdvisoryParse.IntroducedCommits: characterizes the sets for string commit ids only (see `AdvisoryParse.CommitId`).
- AdvisoryParse.FixedCommits: characterizes the sets for string commit ids only (see `AdvisoryParse.CommitId`).
- AdvisoryParse.EventCommitsCharacterized: characterizes the sets for string commit ids only (see `AdvisoryParse.CommitId`).
- AdvisoryParse.ParseAdvisory: fails with `TypeError` on a non-string commit id (see `AdvisoryParse.CommitId`), where Python goes on parsing.
- AdvisoryDerive.IntroducedTags: tag dates reach the model parsed, as the instants of `tagDates`. Python parses each `created_dt` string with `datetime.fromisoformat` (pythoncve/advisory.py:129), which raises ValueError on a malformed or empty date. Instants are integers, so the TypeError of comparing a naive `published` with an aware tag date is not modelled either.
- AdvisoryDerive.EolPart: compares integer instants. Python compares `published` with the aware end-of-life dates (pythoncve/versions.py:43, reached from pythoncve/advisory.py:161 and 170), which raises TypeError for a `published` without UTC offset.
- VersionOverview.MarkMinors: takes `max` over integer instants. Python's `max` with the aware `datetime.min` default (pythoncve/advisory.py:200, pythoncve/models.py:90-91) raises TypeError for a `published` without UTC offset.
- AdvisoryDerive.DeriveOk: its "fails exactly when" is stated over the model's integer instants. The ValueError of an unparseable tag date and the TypeError of a naive `published` are not among the failures it names.
- AdvisoryDerive.DeriveOrderIrrelevant: states that the lists of fixes hold the same elements for every visiting order. Their order can differ among fixes whose first released versions tie, as Python's stable sort keeps the set's iteration order.
- AdvisoryDerive.DeriveAdvisory: `tag_dates` (pythoncve/advisory.py:110) is the parameter `tagDates`. Two tags with the same version would make the source keep one date, chosen by set iteration order.
- VersionOverview.BestIsHighest: among several advisories with the same highest score, it does not state that the first one is kept.
- VersionOverview.ByVersionString: keeps `Severity` values instead of the dictionaries `asdict` makes of them.
- Schema.DecodeFaithful: stated for the keys whose values pass through unchanged. The nested keys round-trip by `Schema.DecodeEncode`.
- OverviewView.Rank: gives 5 to a key that is not a status, where the source's comparator would compute `NaN`. The breakdown lemmas require the keys to be statuses, as the schema describes.
- Controls.TypedAll and Controls.InputStepShape require that no option is the empty string. With an empty option, an empty text would select `""` (src/Controls.tsx:158-159).
- Controls.VersionCombobox.Hover requires an index of a rendered option, as only rendered options receive the event (src/Controls.tsx:288).
- Controls.VersionCombobox.ClickOutside: models a click outside the box. The DOM containment test is left out (src/Controls.tsx:127-130).
- The overview's "latest patch" verdict and `ranges_by_status` are read by the front end but computed in no file of this model, so no computation of them is invented.
  - The schema's shape for them is modelled (`Schema.StatusKeysPresent`).
  - Per `Schema.PipelineOverviewEntryRejected`, what `get_version_overview` writes does not have that shape.

## Findings

| source | as written | input that shows it | evidently intended | confidence | as-written member | corrected member |
|---|---|---|---|---|---|---|
| pythoncve/versions.py:74 | a run continues whenever the patch number goes up by one, whatever the minor | `{(3, 11, 0), (3, 12, 1)}` compresses to the single range (3.11.0, 3.12.1), which stands for 3.11.0 and 3.11.1; `pythoncve/__main__.py:32` compresses each advisory's versions across minors, so the front end's 3.12 filter (src/App.tsx:136-138) then misses the advisory | a run continues only to the next patch of the same minor, so the ranges stand for exactly the input set | not executed | Versions.CompressMergesAcrossMinors | Versions.CompressedByMinorExpands |

`get_version_overview` compresses one minor's versions at a time. There the code as written and the corrected compression coincide (`Versions.CompressedWithinMinorExpands`), which is what `VersionOverview.EntryVersions` relies on.

Three mismatches between what the Python step writes and what the zod schemas accept are modelled as written:

- `Schema.PipelineFixedInRejected`: `commit` where the schema has `commits`;
- `Schema.PipelineIssueRejected`: no `issue_number`;
- `Schema.PipelineOverviewEntryRejected`: the overview's entry shape.
