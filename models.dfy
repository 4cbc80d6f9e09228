/** `pythoncve/models.py`: the records the data pipeline builds, the two
    orderings it sorts by, the encoder's treatment of sets and the defaults of
    a per-minor overview. Timestamps are instants in whole seconds. */
module Models {
  import opened Wrappers
  import opened Json
  import opened Text
  import opened VersionTypes
  import Sorting

  /** Seconds since 1970-01-01T00:00:00Z. */
  type Instant = int

  /** `datetime.datetime.min` with the UTC time zone: 0001-01-01T00:00:00Z. */
  const MinInstant: Instant := -62135596800

  // ---------------------------------------------------------------- Branch

  /** A branch is either `main` or a maintenance branch of one minor. */
  datatype BranchVersion = Main | MinorBranch(minor: Minor)

  datatype Branch = Branch(version: BranchVersion, commitSha: string)
  {
    predicate IsMain()
    {
      version.Main?
    }
  }

  /** `Branch.__lt__` */
  predicate BranchLess(a: Branch, b: Branch)
  {
    if a.IsMain() then false
    else if b.IsMain() then true
    else MinorLe(a.version.minor, b.version.minor) && a.version.minor != b.version.minor
  }

  lemma MainNeverLess(a: Branch, b: Branch)
    requires a.IsMain()
    ensures !BranchLess(a, b)
  {
  }

  lemma NonMainLessThanMain(a: Branch, b: Branch)
    requires !a.IsMain() && b.IsMain()
    ensures BranchLess(a, b)
  {
  }

  /** Two maintenance branches compare by their minor, lexicographically. */
  lemma MaintenanceBranchesByMinor(a: Branch, b: Branch)
    requires !a.IsMain() && !b.IsMain()
    ensures BranchLess(a, b) <==>
      (a.version.minor.0 < b.version.minor.0
       || (a.version.minor.0 == b.version.minor.0 && a.version.minor.1 < b.version.minor.1))
  {
  }

  lemma BranchLessIrreflexive(a: Branch)
    ensures !BranchLess(a, a)
  {
  }

  lemma BranchLessTransitive(a: Branch, b: Branch, c: Branch)
    requires BranchLess(a, b) && BranchLess(b, c)
    ensures BranchLess(a, c)
  {
  }

  // ---------------------------------------------------------------- Tag

  /** A CPython release tag; `createdDt` is the tag's creation instant. */
  datatype Tag = Tag(sha: string, commitSha: string, version: Version, createdDt: Instant)

  /** `Tag.__lt__`: only the version takes part. */
  predicate TagLess(a: Tag, b: Tag)
  {
    VersionLt(a.version, b.version)
  }

  /** Tags are ordered by their version alone: the hashes and the creation
      date make no difference. */
  lemma TagLessByVersionOnly(a: Tag, b: Tag, a2: Tag, b2: Tag)
    requires a2.version == a.version && b2.version == b.version
    ensures TagLess(a, b) <==> TagLess(a2, b2)
    ensures TagLess(a, b) <==> !VersionLe(b.version, a.version)
  {
  }

  // ---------------------------------------------------------------- Severity, Advisory

  /** Name, score and CVSS version, copied unchanged from the CVE record. */
  datatype Severity = Severity(name: Json, score: Json, version: Json)

  datatype IssueKind = GitHub | Bpo

  /** `{"type": "github" | "bpo", "url": ...}` */
  datatype Issue = Issue(kind: IssueKind, url: Json)

  /** `{"version": v, "commit": c}`: the first release that contains fix `c`. */
  datatype FixedIn = FixedIn(version: Version, commit: string)

  /** `{"branch": m, "commit": c}`: a fix merged on the branch of minor `m`
      but not yet part of any release. */
  datatype UnreleasedFix = UnreleasedFix(branch: Minor, commit: string)

  datatype Advisory = Advisory(
    id: Json,
    cve: Option<string>,
    published: Instant,
    modified: Instant,
    severity: Option<Severity>,
    issue: Option<Issue>,
    details: Json,
    introducedCommits: set<string>,
    fixedCommits: set<string>,
    affectedVersions: set<Version>,
    affectedEolVersions: set<Version>,
    fixedIn: seq<FixedIn>,
    fixedButNotReleased: seq<UnreleasedFix>,
    fixesPending: seq<Minor>)

  // ---------------------------------------------------------------- encoder

  /** `AdvisoryEncoder` writes a set of versions as its sorted list. */
  function EncodeVersions(s: set<Version>): (r: seq<Version>)
    ensures |r| == |s| && (forall v :: v in r <==> v in s)
    ensures Sorting.SortedBy(r, VersionLe) && Sorting.NoDuplicates(r)
  {
    VersionOrder();
    Sorting.SortedSet(s, VersionLe)
  }

  /** `AdvisoryEncoder` writes a set of commit hashes as its sorted list. */
  function EncodeCommits(s: set<string>): (r: seq<string>)
    ensures |r| == |s| && (forall c :: c in r <==> c in s)
    ensures Sorting.SortedBy(r, StrLe) && Sorting.NoDuplicates(r)
  {
    StrOrder();
    Sorting.SortedSet(s, StrLe)
  }

  /** The encoding of a set does not depend on how the set was built: equal
      sets give equal lists. */
  lemma EncodeVersionsCanonical(s: set<Version>, sorted: seq<Version>)
    requires Sorting.SortedBy(sorted, VersionLe) && Sorting.NoDuplicates(sorted)
    requires forall v :: v in sorted <==> v in s
    ensures EncodeVersions(s) == sorted
  {
    VersionOrder();
    Sorting.SortedUnique(EncodeVersions(s), sorted, VersionLe);
  }

  // ---------------------------------------------------------------- overview

  /** The per-minor aggregate while it is being built: version sets. */
  datatype MinorVersionOverview = MinorVersionOverview(
    version: Minor,
    isAffected: bool,
    allVersionsAffected: bool,
    severityByPatchVersion: map<string, Severity>,
    totalAdvisories: nat,
    lastPublished: Instant,
    affectedVersions: set<Version>,
    safeVersions: set<Version>)

  /** `MinorVersionOverview(version=v)` with every other field defaulted. */
  function NewMinorVersionOverview(v: Minor): (o: MinorVersionOverview)
    ensures o.version == v
    ensures !o.isAffected && !o.allVersionsAffected && o.totalAdvisories == 0
    ensures o.affectedVersions == {} && o.safeVersions == {} && o.severityByPatchVersion == map[]
    ensures o.lastPublished == MinInstant
  {
    MinorVersionOverview(v, false, false, map[], 0, MinInstant, {}, {})
  }
}
