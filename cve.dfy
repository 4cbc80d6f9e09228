/** What the data pipeline reads from a CVE record (the CVE JSON 5 format as
    the CIRCL API serves it): the CPython versions the CNA lists as affected,
    as half-open ranges over the known release tags, and the CVSS severity. */
module Cve {
  import opened Wrappers
  import opened Json
  import opened Text
  import opened VersionTypes
  import opened PyJson
  import opened Util
  import opened Models

  /** `cve_data.get("containers", {}).get("cna", {})`. */
  function Cna(cveData: Json): Result<Json, Exc>
  {
    var containers :- Get(cveData, "containers", JObject(map[]));
    Get(containers, "cna", JObject(map[]))
  }

  /** The `versions` list of the first `affected` entry, with the defaults
      `[{}]` for `affected` and `[]` for `versions`. */
  function AffectedEntries(cveData: Json): Result<Json, Exc>
  {
    var cna :- Cna(cveData);
    var affected :- Get(cna, "affected", JArray([JObject(map[])]));
    var first :- Index(affected, 0);
    Get(first, "versions", JArray([]))
  }

  /** The condition of the list comprehension, evaluated left to right with
      `and` short-circuiting: only a dict has `get`. */
  function IsPythonAffected(v: Json): Result<bool, Exc>
  {
    var versionType :- Get(v, "versionType", JNull);
    if versionType != JString("python") then Ok(false)
    else
      var status :- Get(v, "status", JNull);
      Ok(status == JString("affected"))
  }

  /** `[v for v in versions if ...]`, the first exception ending it. */
  function PythonEntries(versions: seq<Json>): (r: Result<seq<Json>, Exc>)
    ensures r.Ok? ==> forall e :: e in r.value <==> e in versions && IsPythonAffected(e) == Ok(true)
    ensures r.Ok? ==> forall e :: e in versions ==> IsPythonAffected(e).Ok?
    decreases |versions|
  {
    if |versions| == 0 then Ok([])
    else
      var keep :- IsPythonAffected(versions[0]);
      var rest :- PythonEntries(versions[1..]);
      assert forall e :: e in versions ==> e == versions[0] || e in versions[1..];
      Ok(if keep then [versions[0]] + rest else rest)
  }

  /** `parse_cpython_version` applied to a decoded JSON value: `re.match`
      raises TypeError on anything but a string. */
  function ParseJsonVersion(j: Json): Result<Option<Version>, Exc>
  {
    match j
    case JString(s) => Ok(ParseCpythonVersion(s))
    case _ => Err(TypeError)
  }

  /** The lower bound "0" stands for "0.0.0". */
  function LowerBound(raw: Json): Json
  {
    if raw == JString("0") then JString("0.0.0") else raw
  }

  /** The bounds one qualifying entry contributes: both keys must be present
      (AssertionError otherwise); a lower bound of "0" means "0.0.0"; `None`
      when either bound does not parse, in which case the entry is skipped. */
  function EntryBounds(v: Json): Result<Option<(Version, Version)>, Exc>
  {
    var hasVersion :- In("version", v);
    if !hasVersion then Err(AssertionError)
    else
      var hasLessThan :- In("lessThan", v);
      if !hasLessThan then Err(AssertionError)
      else
        var raw :- Item(v, "version");
        var lo :- ParseJsonVersion(LowerBound(raw));
        var upper :- Item(v, "lessThan");
        var hi :- ParseJsonVersion(upper);
        if lo.None? || hi.None? then Ok(None) else Ok(Some((lo.value, hi.value)))
  }

  /** The tag versions in the half-open range `[lo, hi)`, compared as tuples. */
  function TagsInRange(lo: Version, hi: Version, tags: set<Tag>): (r: set<Version>)
    ensures forall x :: x in r <==> exists t :: t in tags && t.version == x && VersionLe(lo, x) && VersionLt(x, hi)
  {
    set t | t in tags && VersionLe(lo, t.version) && VersionLt(t.version, hi) :: t.version
  }

  function Contribution(b: Option<(Version, Version)>, tags: set<Tag>): set<Version>
  {
    match b
    case None => {}
    case Some((lo, hi)) => TagsInRange(lo, hi, tags)
  }

  /** What each entry yields: an exception, a skip, or a pair of bounds. */
  type Bounds = Result<Option<(Version, Version)>, Exc>

  function BoundsOf(entries: seq<Json>): (bs: seq<Bounds>)
    ensures |bs| == |entries| && forall k :: 0 <= k < |entries| ==> bs[k] == EntryBounds(entries[k])
  {
    seq(|entries|, k requires 0 <= k < |entries| => EntryBounds(entries[k]))
  }

  /** The loop's accumulated set after the given entries' bounds, in order;
      the first exception ends it. */
  function Union(bs: seq<Bounds>, tags: set<Tag>): Result<set<Version>, Exc>
    decreases |bs|
  {
    if |bs| == 0 then Ok({})
    else
      var before :- Union(bs[..|bs| - 1], tags);
      var b :- bs[|bs| - 1];
      Ok(before + Contribution(b, tags))
  }

  function AffectedVersionsSpec(cveData: Json, tags: set<Tag>): Result<set<Version>, Exc>
  {
    var versions :- AffectedEntries(cveData);
    var items :- Iter(versions);
    var entries :- PythonEntries(items);
    Union(BoundsOf(entries), tags)
  }

  /** Once an entry raises, so does every longer prefix. */
  lemma {:induction false} UnionErrPersists(bs: seq<Bounds>, i: nat, tags: set<Tag>)
    requires i <= |bs| && Union(bs[..i], tags).Err?
    ensures Union(bs, tags) == Union(bs[..i], tags)
    decreases |bs| - i
  {
    if i < |bs| {
      var n := |bs|;
      assert bs[..n - 1][..i] == bs[..i];
      UnionErrPersists(bs[..n - 1], i, tags);
    } else {
      assert bs[..i] == bs;
    }
  }

  /** `get_affected_versions`: the union, over the CNA's python/affected
      entries, of the tag versions inside each entry's `[version, lessThan)`. */
  method GetAffectedVersions(cveData: Json, tags: set<Tag>) returns (r: Result<set<Version>, Exc>)
    ensures r == AffectedVersionsSpec(cveData, tags)
  {
    var versions :- AffectedEntries(cveData);
    var items :- Iter(versions);
    var pythonVersions :- PythonEntries(items);
    if |pythonVersions| == 0 {
      return Ok({});
    }
    ghost var bs := BoundsOf(pythonVersions);
    var found: set<Version> := {};
    var i := 0;
    while i < |pythonVersions|
      invariant 0 <= i <= |pythonVersions|
      invariant Union(bs[..i], tags) == Ok(found)
    {
      assert bs[..i + 1][..i] == bs[..i];
      var bounds := EntryBounds(pythonVersions[i]);
      assert bs[i] == bounds;
      if bounds.Err? {
        UnionErrPersists(bs, i + 1, tags);
        return Err(bounds.error);
      }
      if bounds.value.Some? {
        var (lo, hi) := bounds.value.value;
        found := found + TagsInRange(lo, hi, tags);
      }
      i := i + 1;
    }
    assert bs[..i] == bs;
    r := Ok(found);
  }

  // ------------------------------------------------------------ properties

  /** Without `containers`, without `cna`, or without `affected`, nothing is
      affected. */
  lemma MissingContainersGiveEmpty(f: map<string, Json>, tags: set<Tag>)
    requires "containers" !in f
    ensures AffectedVersionsSpec(JObject(f), tags) == Ok({})
  {
  }

  lemma MissingCnaGivesEmpty(containers: map<string, Json>, tags: set<Tag>)
    requires "cna" !in containers
    ensures AffectedVersionsSpec(JObject(map["containers" := JObject(containers)]), tags) == Ok({})
  {
  }

  lemma MissingAffectedGivesEmpty(cna: map<string, Json>, tags: set<Tag>)
    requires "affected" !in cna
    ensures AffectedVersionsSpec(JObject(map["containers" := JObject(map["cna" := JObject(cna)])]), tags) == Ok({})
  {
    var cveData := JObject(map["containers" := JObject(map["cna" := JObject(cna)])]);
    assert Cna(cveData) == Ok(JObject(cna));
    assert AffectedEntries(cveData) == Ok(JArray([]));
  }

  /** An empty `affected` list is indexed all the same and raises. */
  lemma EmptyAffectedRaises(tags: set<Tag>)
    ensures AffectedVersionsSpec(JObject(map["containers" := JObject(map["cna" := JObject(map["affected" := JArray([])])])]), tags) == Err(IndexError)
  {
    var cveData := JObject(map["containers" := JObject(map["cna" := JObject(map["affected" := JArray([])])])]);
    assert Cna(cveData) == Ok(JObject(map["affected" := JArray([])]));
  }

  /** The loop completes exactly when no entry raises. */
  lemma {:induction false} UnionOk(bs: seq<Bounds>, tags: set<Tag>)
    ensures Union(bs, tags).Ok? <==> forall k :: 0 <= k < |bs| ==> bs[k].Ok?
    decreases |bs|
  {
    if |bs| > 0 {
      var n := |bs|;
      var init := bs[..n - 1];
      UnionOk(init, tags);
      assert forall k :: 0 <= k < n - 1 ==> init[k] == bs[k];
    }
  }

  /** A version is in the completed union exactly when some entry
      contributes it. */
  lemma UnionMembers(bs: seq<Bounds>, tags: set<Tag>, x: Version)
    requires Union(bs, tags).Ok?
    ensures x in Union(bs, tags).value <==>
      exists k :: 0 <= k < |bs| && bs[k].Ok? && x in Contribution(bs[k].value, tags)
  {
    if x in Union(bs, tags).value {
      UnionMemberHasSource(bs, tags, x);
    }
    if exists k :: 0 <= k < |bs| && bs[k].Ok? && x in Contribution(bs[k].value, tags) {
      var k :| 0 <= k < |bs| && bs[k].Ok? && x in Contribution(bs[k].value, tags);
      UnionContainsContribution(bs, tags, k);
    }
  }

  lemma {:induction false} UnionMemberHasSource(bs: seq<Bounds>, tags: set<Tag>, x: Version)
    requires Union(bs, tags).Ok? && x in Union(bs, tags).value
    ensures exists k :: 0 <= k < |bs| && bs[k].Ok? && x in Contribution(bs[k].value, tags)
    decreases |bs|
  {
    var n := |bs|;
    var init := bs[..n - 1];
    if x in Union(init, tags).value {
      UnionMemberHasSource(init, tags, x);
      var k :| 0 <= k < n - 1 && init[k].Ok? && x in Contribution(init[k].value, tags);
      assert init[k] == bs[k];
    } else {
      assert x in Contribution(bs[n - 1].value, tags);
    }
  }

  lemma {:induction false} UnionContainsContribution(bs: seq<Bounds>, tags: set<Tag>, k: nat)
    requires Union(bs, tags).Ok? && k < |bs| && bs[k].Ok?
    ensures Contribution(bs[k].value, tags) <= Union(bs, tags).value
    decreases |bs|
  {
    var n := |bs|;
    var init := bs[..n - 1];
    if k < n - 1 {
      assert init[k] == bs[k];
      UnionContainsContribution(init, tags, k);
    }
  }

  /** The whole function raises exactly when some qualifying entry does
      (given that the containers and the comprehension do not). */
  lemma AffectedRaisesOnBadEntry(entries: seq<Json>, tags: set<Tag>)
    ensures Union(BoundsOf(entries), tags).Ok? <==> forall k :: 0 <= k < |entries| ==> EntryBounds(entries[k]).Ok?
  {
    var bs := BoundsOf(entries);
    UnionOk(bs, tags);
    assert forall k :: 0 <= k < |entries| ==> bs[k] == EntryBounds(entries[k]);
  }

  /** Every affected version is the version of one of the given tags. */
  lemma AffectedAreTagVersions(cveData: Json, tags: set<Tag>)
    requires AffectedVersionsSpec(cveData, tags).Ok?
    ensures forall x :: x in AffectedVersionsSpec(cveData, tags).value ==> exists t :: t in tags && t.version == x
  {
    var versions := AffectedEntries(cveData).value;
    var items := Iter(versions).value;
    var bs := BoundsOf(PythonEntries(items).value);
    forall x | x in AffectedVersionsSpec(cveData, tags).value
      ensures exists t :: t in tags && t.version == x
    {
      UnionMembers(bs, tags, x);
      var k :| 0 <= k < |bs| && bs[k].Ok? && x in Contribution(bs[k].value, tags);
    }
  }

  /** A version is affected exactly when some python/affected entry with
      parseable bounds `[lo, hi)` has a tag of that version inside them. */
  lemma AffectedCharacterized(cveData: Json, tags: set<Tag>, x: Version)
    requires AffectedVersionsSpec(cveData, tags).Ok?
    ensures x in AffectedVersionsSpec(cveData, tags).value <==>
      exists e, lo, hi :: e in Iter(AffectedEntries(cveData).value).value
        && IsPythonAffected(e) == Ok(true)
        && EntryBounds(e) == Ok(Some((lo, hi)))
        && x in TagsInRange(lo, hi, tags)
  {
    var items := Iter(AffectedEntries(cveData).value).value;
    var entries := PythonEntries(items).value;
    assert AffectedVersionsSpec(cveData, tags) == Union(BoundsOf(entries), tags);
    if x in AffectedVersionsSpec(cveData, tags).value {
      MemberHasEntry(items, entries, tags, x);
    }
    if exists e, lo, hi :: e in items
        && IsPythonAffected(e) == Ok(true)
        && EntryBounds(e) == Ok(Some((lo, hi)))
        && x in TagsInRange(lo, hi, tags) {
      var e, lo, hi :| e in items
        && IsPythonAffected(e) == Ok(true)
        && EntryBounds(e) == Ok(Some((lo, hi)))
        && x in TagsInRange(lo, hi, tags);
      EntryGivesMember(entries, tags, e, lo, hi, x);
    }
  }

  lemma MemberHasEntry(items: seq<Json>, entries: seq<Json>, tags: set<Tag>, x: Version)
    requires PythonEntries(items) == Ok(entries)
    requires Union(BoundsOf(entries), tags).Ok? && x in Union(BoundsOf(entries), tags).value
    ensures exists e, lo, hi ::
              e in items && IsPythonAffected(e) == Ok(true)
              && EntryBounds(e) == Ok(Some((lo, hi))) && x in TagsInRange(lo, hi, tags)
  {
    var bs := BoundsOf(entries);
    UnionMemberHasSource(bs, tags, x);
    var k :| 0 <= k < |bs| && bs[k].Ok? && x in Contribution(bs[k].value, tags);
    var e := entries[k];
    assert e in entries;
    var (lo, hi) := bs[k].value.value;
    assert EntryBounds(e) == Ok(Some((lo, hi)));
  }

  lemma EntryGivesMember(entries: seq<Json>, tags: set<Tag>, e: Json, lo: Version, hi: Version, x: Version)
    requires Union(BoundsOf(entries), tags).Ok?
    requires e in entries && EntryBounds(e) == Ok(Some((lo, hi))) && x in TagsInRange(lo, hi, tags)
    ensures x in Union(BoundsOf(entries), tags).value
  {
    var bs := BoundsOf(entries);
    var k :| 0 <= k < |entries| && entries[k] == e;
    assert bs[k] == Ok(Some((lo, hi)));
    UnionContainsContribution(bs, tags, k);
  }

  /** An entry whose lower bound is "0" starts at 0.0.0. */
  lemma ZeroLowerBound(f: map<string, Json>, hi: Version)
    requires "version" in f && f["version"] == JString("0")
    requires "lessThan" in f && f["lessThan"] == JString(VersionString(hi))
    ensures EntryBounds(JObject(f)) == Ok(Some(((0, 0, 0), hi)))
  {
    ParseExampleZero();
    ParseVersionString(hi);
    assert LowerBound(f["version"]) == JString("0.0.0");
    EntryBoundsOfParsed(f, (0, 0, 0), hi);
  }

  /** An entry whose bound is not a version string contributes nothing. */
  lemma UnparseableBoundSkipped(f: map<string, Json>, tags: set<Tag>)
    requires "version" in f && "lessThan" in f
    requires f["lessThan"] == JString("3.9")
    requires f["version"].JString? && f["version"] != JString("0")
    ensures EntryBounds(JObject(f)) == Ok(None)
    ensures Contribution(EntryBounds(JObject(f)).value, tags) == {}
  {
    ParseOptionalV("3.9");
    ParseExampleTwoGroups();
  }

  /** A list whose every entry qualifies is kept whole. */
  lemma {:induction false} PythonEntriesAllQualify(vs: seq<Json>)
    requires forall e :: e in vs ==> IsPythonAffected(e) == Ok(true)
    ensures PythonEntries(vs) == Ok(vs)
    decreases |vs|
  {
    if |vs| > 0 {
      assert forall e :: e in vs[1..] ==> e in vs;
      PythonEntriesAllQualify(vs[1..]);
      assert [vs[0]] + vs[1..] == vs;
    }
  }

  /** A python/affected entry of the CVE record with the given bounds. */
  function PythonEntry(version: string, lessThan: string): Json
  {
    JObject(map["versionType" := JString("python"), "status" := JString("affected"),
                "version" := JString(version), "lessThan" := JString(lessThan)])
  }

  /** Such an entry qualifies and yields its two versions as bounds. */
  lemma PythonEntryBounds(lo: Version, hi: Version)
    ensures IsPythonAffected(PythonEntry(VersionString(lo), VersionString(hi))) == Ok(true)
    ensures EntryBounds(PythonEntry(VersionString(lo), VersionString(hi))) == Ok(Some((lo, hi)))
  {
    var f := PythonEntry(VersionString(lo), VersionString(hi)).fields;
    assert f["versionType"] == JString("python") && f["status"] == JString("affected");
    assert f["version"] == JString(VersionString(lo)) && f["lessThan"] == JString(VersionString(hi));
    BoundsOfVersionFields(f, lo, hi);
  }

  /** An entry whose bounds are two rendered versions yields those versions. */
  lemma BoundsOfVersionFields(f: map<string, Json>, lo: Version, hi: Version)
    requires "version" in f && f["version"] == JString(VersionString(lo))
    requires "lessThan" in f && f["lessThan"] == JString(VersionString(hi))
    ensures EntryBounds(JObject(f)) == Ok(Some((lo, hi)))
  {
    VersionStringNotZero(lo);
    ParseVersionString(lo);
    ParseVersionString(hi);
    assert LowerBound(f["version"]) == f["version"];
    EntryBoundsOfParsed(f, lo, hi);
  }

  /** An entry with both keys, whose (defaulted) lower bound and upper bound
      parse, yields the parsed pair. */
  lemma EntryBoundsOfParsed(f: map<string, Json>, lo: Version, hi: Version)
    requires "version" in f && "lessThan" in f
    requires ParseJsonVersion(LowerBound(f["version"])) == Ok(Some(lo))
    requires ParseJsonVersion(f["lessThan"]) == Ok(Some(hi))
    ensures EntryBounds(JObject(f)) == Ok(Some((lo, hi)))
  {
    var o := JObject(f);
    assert In("version", o) == Ok(true) && In("lessThan", o) == Ok(true);
    assert Item(o, "version") == Ok(f["version"]);
    assert Item(o, "lessThan") == Ok(f["lessThan"]);
  }

  lemma VersionStringNotZero(v: Version)
    ensures VersionString(v) != "0"
  {
    NatStringHasNoDot(v.0);
    assert VersionString(v)[|NatToString(v.0)|] == '.';
  }

  lemma UnionOfTwo(a: Bounds, b: Bounds, tags: set<Tag>)
    requires a.Ok? && b.Ok?
    ensures Union([a, b], tags) == Ok(Contribution(a.value, tags) + Contribution(b.value, tags))
  {
    var one := [a];
    assert |one[..0]| == 0;
    assert Union(one[..0], tags) == Ok({});
    assert Union(one, tags) == Ok({} + Contribution(a.value, tags));
    assert {} + Contribution(a.value, tags) == Contribution(a.value, tags);
    assert Union(one, tags) == Ok(Contribution(a.value, tags));
    var two := [a, b];
    assert two[..1] == one && two[1] == b;
    assert Union(two, tags) == Ok(Contribution(a.value, tags) + Contribution(b.value, tags));
  }

  function ExampleTags(): set<Tag>
  {
    {Tag("a1", "u1", (3, 6, 5), 0), Tag("b2", "v2", (3, 7, 1), 0),
     Tag("c3", "x3", (3, 8, 2), 0), Tag("d4", "y4", (3, 9, 0), 0)}
  }

  function ExampleEntries(): seq<Json>
  {
    [PythonEntry(VersionString((3, 6, 0)), VersionString((3, 7, 0))),
     PythonEntry(VersionString((3, 8, 0)), VersionString((3, 9, 0)))]
  }

  /** The record of the test suite with two python/affected ranges. */
  function ExampleRecord(): Json
  {
    CnaRecordOf("affected", JArray([JObject(map["versions" := JArray(ExampleEntries())])]))
  }

  lemma ExampleRecordVersions()
    ensures AffectedEntries(ExampleRecord()) == Ok(JArray(ExampleEntries()))
  {
    var affected := JArray([JObject(map["versions" := JArray(ExampleEntries())])]);
    assert Cna(ExampleRecord()) == Ok(JObject(map["affected" := affected]));
  }

  lemma ExampleRecordEntries()
    ensures PythonEntries(ExampleEntries()) == Ok(ExampleEntries())
  {
    var es := ExampleEntries();
    PythonEntryBounds((3, 6, 0), (3, 7, 0));
    PythonEntryBounds((3, 8, 0), (3, 9, 0));
    assert forall e :: e in es ==> e == es[0] || e == es[1];
    PythonEntriesAllQualify(es);
  }

  lemma ExampleRecordBounds()
    ensures BoundsOf(ExampleEntries()) == [Ok(Some(((3, 6, 0), (3, 7, 0)))), Ok(Some(((3, 8, 0), (3, 9, 0))))]
  {
    PythonEntryBounds((3, 6, 0), (3, 7, 0));
    PythonEntryBounds((3, 8, 0), (3, 9, 0));
  }

  /** The two ranges select one tag each. */
  lemma ExampleTwoRanges()
    ensures AffectedVersionsSpec(ExampleRecord(), ExampleTags()) == Ok({(3, 6, 5), (3, 8, 2)})
  {
    ExampleRecordUnion();
    var bs := BoundsOf(ExampleEntries());
    ExampleRecordBounds();
    ExampleRange((3, 6, 0), (3, 7, 0), (3, 6, 5));
    ExampleRange((3, 8, 0), (3, 9, 0), (3, 8, 2));
    UnionOfTwo(bs[0], bs[1], ExampleTags());
    assert bs == [bs[0], bs[1]];
    assert {(3, 6, 5)} + {(3, 8, 2)} == {(3, 6, 5), (3, 8, 2)};
  }

  lemma ExampleRecordUnion()
    ensures AffectedVersionsSpec(ExampleRecord(), ExampleTags()) == Union(BoundsOf(ExampleEntries()), ExampleTags())
  {
    ExampleRecordVersions();
    ExampleRecordEntries();
    assert Iter(JArray(ExampleEntries())) == Ok(ExampleEntries());
  }

  /** A range of the example that holds exactly one of its tags. */
  lemma ExampleRange(lo: Version, hi: Version, v: Version)
    requires lo.0 == hi.0 == 3 && lo.1 + 1 == hi.1 && lo.2 == hi.2 == 0 && 6 <= lo.1 <= 8
    requires v.0 == 3 && v.1 == lo.1 && (v == (3, 6, 5) || v == (3, 7, 1) || v == (3, 8, 2))
    ensures TagsInRange(lo, hi, ExampleTags()) == {v}
  {
    forall x | x in TagsInRange(lo, hi, ExampleTags()) ensures x == v {
      var t :| t in ExampleTags() && t.version == x && VersionLe(lo, x) && VersionLt(x, hi);
    }
    var t := if v == (3, 6, 5) then Tag("a1", "u1", (3, 6, 5), 0)
             else if v == (3, 7, 1) then Tag("b2", "v2", (3, 7, 1), 0)
             else Tag("c3", "x3", (3, 8, 2), 0);
    assert t in ExampleTags() && t.version == v;
    assert v in TagsInRange(lo, hi, ExampleTags());
  }

  function CnaRecordOf(key: string, value: Json): Json
  {
    JObject(map["containers" := JObject(map["cna" := JObject(map[key := value])])])
  }

  // ------------------------------------------------------------- severity

  /** `get_severity`: the single metric's CVSS v4.0 block if it is truthy,
      else its v3.1 block; name, score and version copied as found. */
  function GetSeverity(cveData: Json): Result<Option<Severity>, Exc>
  {
    var cna :- Cna(cveData);
    var metrics :- Get(cna, "metrics", JObject(map[]));
    if !PyTruthy(metrics) then Ok(None)
    else
      var count :- Len(metrics);
      if count != 1 then Err(AssertionError)
      else
        var metric :- Index(metrics, 0);
        GetMetricSeverity(metric)
  }

  function CnaRecord(cna: map<string, Json>): Json
  {
    JObject(map["containers" := JObject(map["cna" := JObject(cna)])])
  }

  /** Missing or empty `metrics` give no severity. */
  lemma NoMetricsNoSeverity(cna: map<string, Json>)
    requires "metrics" !in cna || cna["metrics"] == JArray([])
    ensures GetSeverity(CnaRecord(cna)) == Ok(None)
  {
    assert Cna(CnaRecord(cna)) == Ok(JObject(cna));
  }

  /** A CVSS block with the three fields present. */
  predicate CompleteCvss(j: Json)
  {
    j.JObject? && |j.fields| > 0
    && "baseSeverity" in j.fields && j.fields["baseSeverity"] != JNull
    && "baseScore" in j.fields && j.fields["baseScore"] != JNull
    && "version" in j.fields && j.fields["version"] != JNull
  }

  function SeverityOf(cvss: Json): Severity
    requires CompleteCvss(cvss)
  {
    Severity(cvss.fields["baseSeverity"], cvss.fields["baseScore"], cvss.fields["version"])
  }

  /** The severity of a record whose only metric is `metric`. */
  lemma SeverityOfSingleMetric(cna: map<string, Json>, metric: Json)
    requires "metrics" in cna && cna["metrics"] == JArray([metric])
    ensures GetSeverity(CnaRecord(cna)) == GetMetricSeverity(metric)
  {
    assert Cna(CnaRecord(cna)) == Ok(JObject(cna));
  }

  /** What `get_severity` does with the one metric. */
  function GetMetricSeverity(metric: Json): (r: Result<Option<Severity>, Exc>)
  {
    var v4 :- Get(metric, "cvssV4_0", JNull);
    var cvss :- if PyTruthy(v4) then Ok(v4) else Get(metric, "cvssV3_1", JNull);
    if !PyTruthy(cvss) then Ok(None)
    else
      var name :- Get(cvss, "baseSeverity", JNull);
      var score :- Get(cvss, "baseScore", JNull);
      var version :- Get(cvss, "version", JNull);
      if name == JNull || score == JNull || version == JNull then Err(AssertionError)
      else Ok(Some(Severity(name, score, version)))
  }

  /** A complete v4.0 block wins, whatever the v3.1 block holds. */
  lemma V4TakesPriority(f: map<string, Json>)
    requires "cvssV4_0" in f && CompleteCvss(f["cvssV4_0"])
    ensures GetMetricSeverity(JObject(f)) == Ok(Some(SeverityOf(f["cvssV4_0"])))
  {
  }

  /** Without a truthy v4.0 block, a complete v3.1 block is used. */
  lemma V3Fallback(f: map<string, Json>)
    requires "cvssV4_0" !in f || !PyTruthy(f["cvssV4_0"])
    requires "cvssV3_1" in f && CompleteCvss(f["cvssV3_1"])
    ensures GetMetricSeverity(JObject(f)) == Ok(Some(SeverityOf(f["cvssV3_1"])))
  {
  }

  /** Neither block (both absent or falsy): no severity. */
  lemma NoCvssNoSeverity(f: map<string, Json>)
    requires "cvssV4_0" !in f || !PyTruthy(f["cvssV4_0"])
    requires "cvssV3_1" !in f || !PyTruthy(f["cvssV3_1"])
    ensures GetMetricSeverity(JObject(f)) == Ok(None)
  {
  }

  /** More than one metric is refused. */
  lemma SeveralMetricsRaise(cna: map<string, Json>, a: Json, b: Json)
    requires "metrics" in cna && cna["metrics"] == JArray([a, b])
    ensures GetSeverity(CnaRecord(cna)) == Err(AssertionError)
  {
    assert Cna(CnaRecord(cna)) == Ok(JObject(cna));
  }

  /** Whatever `get_severity` reports was copied from the chosen block. */
  lemma SeverityCopied(metric: Json)
    requires GetMetricSeverity(metric).Ok? && GetMetricSeverity(metric).value.Some?
    ensures metric.JObject?
    ensures var chosen := if "cvssV4_0" in metric.fields && PyTruthy(metric.fields["cvssV4_0"])
                          then metric.fields["cvssV4_0"] else metric.fields["cvssV3_1"];
            CompleteCvss(chosen) && GetMetricSeverity(metric).value.value == SeverityOf(chosen)
  {
  }
}
