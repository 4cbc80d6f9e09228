/** `src/types.ts`: the zod schemas of the front end, as validation
    predicates over decoded JSON, and the typed records `z.infer` gives them.
    `z.object` accepts extra keys; `.nullable()` accepts `null` but not a
    missing key; a tuple has exactly its listed items. The URL format of
    `z.url()` is the parameter `isUrl`. */
module Schema {
  import opened Wrappers
  import opened Json

  // ------------------------------------------------------------ building blocks

  predicate IsNumber(j: Json)
  {
    j.JNumber?
  }

  predicate IsString(j: Json)
  {
    j.JString?
  }

  /** `z.enum([...])` */
  predicate IsEnum(j: Json, names: set<string>)
  {
    j.JString? && j.s in names
  }

  /** `z.object({... key: p ...})`, one key at a time: a missing key reads as
      `undefined`, which no schema used here accepts. */
  predicate Field(j: Json, key: string, p: Json -> bool)
  {
    j.JObject? && key in j.fields && p(j.fields[key])
  }

  predicate Nullable(j: Json, p: Json -> bool)
  {
    j == JNull || p(j)
  }

  predicate ArrayOf(j: Json, p: Json -> bool)
  {
    j.JArray? && forall i :: 0 <= i < |j.items| ==> p(j.items[i])
  }

  // ------------------------------------------------------------ schemas

  /** `VersionSchema`: exactly three numbers. */
  predicate VersionOk(j: Json)
  {
    j.JArray? && |j.items| == 3 && forall i :: 0 <= i < 3 ==> IsNumber(j.items[i])
  }

  /** `MinorVersionSchema`: exactly two numbers. */
  predicate MinorOk(j: Json)
  {
    j.JArray? && |j.items| == 2 && forall i :: 0 <= i < 2 ==> IsNumber(j.items[i])
  }

  const IssueTypes: set<string> := {"github", "bpo"}
  const SeverityNames: set<string> := {"LOW", "MEDIUM", "HIGH", "CRITICAL"}
  const CvssVersions: set<string> := {"3.1", "4.0"}
  const Statuses: set<string> := {"SAFE", "LOW", "MEDIUM", "HIGH", "CRITICAL"}

  predicate IssueOk(j: Json, isUrl: string -> bool)
  {
    Field(j, "type", t => IsEnum(t, IssueTypes))
    && Field(j, "issue_number", IsString)
    && Field(j, "url", (u: Json) => u.JString? && isUrl(u.s))
  }

  predicate SeverityOk(j: Json)
  {
    Field(j, "name", n => IsEnum(n, SeverityNames))
    && Field(j, "score", s => Nullable(s, IsNumber))
    && Field(j, "version", v => IsEnum(v, CvssVersions))
  }

  /** An `affected_versions` entry: `[v]` or `[start, end]`. */
  predicate RangeOk(j: Json)
  {
    j.JArray? && (|j.items| == 1 || |j.items| == 2)
    && forall i :: 0 <= i < |j.items| ==> VersionOk(j.items[i])
  }

  predicate FixedInOk(j: Json)
  {
    Field(j, "version", VersionOk) && Field(j, "commits", c => ArrayOf(c, IsString))
  }

  predicate UnreleasedOk(j: Json)
  {
    Field(j, "branch", MinorOk) && Field(j, "commit", IsString)
  }

  /** `AdvisorySchema` */
  predicate AdvisoryOk(j: Json, isUrl: string -> bool)
  {
    Field(j, "id", IsString)
    && Field(j, "cve", c => Nullable(c, IsString))
    && Field(j, "published", IsString)
    && Field(j, "modified", IsString)
    && Field(j, "severity", s => Nullable(s, SeverityOk))
    && Field(j, "issue", i => Nullable(i, x => IssueOk(x, isUrl)))
    && Field(j, "details", IsString)
    && Field(j, "affected_versions", a => ArrayOf(a, RangeOk))
    && Field(j, "fixed_in", f => ArrayOf(f, FixedInOk))
    && Field(j, "fixed_but_not_released", f => ArrayOf(f, UnreleasedOk))
    && Field(j, "fixes_pending", f => ArrayOf(f, MinorOk))
  }

  /** `AdvisoriesSchema` */
  predicate AdvisoriesOk(j: Json, isUrl: string -> bool)
  {
    j.JArray? && forall i :: 0 <= i < |j.items| ==> AdvisoryOk(j.items[i], isUrl)
  }

  predicate StatusRangeOk(j: Json)
  {
    Field(j, "start", VersionOk) && Field(j, "end", e => Nullable(e, VersionOk))
  }

  predicate RangesByStatusOk(j: Json)
  {
    Field(j, "SAFE", r => ArrayOf(r, StatusRangeOk))
    && Field(j, "LOW", r => ArrayOf(r, StatusRangeOk))
    && Field(j, "MEDIUM", r => ArrayOf(r, StatusRangeOk))
    && Field(j, "HIGH", r => ArrayOf(r, StatusRangeOk))
    && Field(j, "CRITICAL", r => ArrayOf(r, StatusRangeOk))
  }

  predicate LatestPatchOk(j: Json)
  {
    Field(j, "version", VersionOk) && Field(j, "status", s => IsEnum(s, Statuses))
  }

  /** `VersionOverviewSchema` */
  predicate VersionOverviewOk(j: Json)
  {
    Field(j, "version", MinorOk)
    && Field(j, "latest_patch", LatestPatchOk)
    && Field(j, "is_affected", (b: Json) => b.JBool?)
    && Field(j, "total_advisories", IsNumber)
    && Field(j, "last_published", IsString)
    && Field(j, "ranges_by_status", RangesByStatusOk)
  }

  /** `OverviewSchema` */
  predicate OverviewOk(j: Json)
  {
    Field(j, "last_updated", IsString) && Field(j, "versions", v => ArrayOf(v, VersionOverviewOk))
  }

  // ------------------------------------------------------------ typed records

  type TsVersion = (real, real, real)
  type TsMinor = (real, real)

  datatype Issue = Issue(kind: string, issueNumber: string, url: string)
  datatype Severity = Severity(name: string, score: Option<real>, version: string)

  /** A one-version or a two-version `affected_versions` entry; `first` is
      `range[0]` and `last` is `range.at(-1)`. */
  datatype AffectedRange = One(v: TsVersion) | Two(start: TsVersion, end: TsVersion)
  {
    function First(): TsVersion
    {
      match this
      case One(v) => v
      case Two(s, _) => s
    }

    function Last(): TsVersion
    {
      match this
      case One(v) => v
      case Two(_, e) => e
    }

    /** `range.length` */
    function Length(): nat
    {
      if One? then 1 else 2
    }
  }

  datatype FixedIn = FixedIn(version: TsVersion, commits: seq<string>)
  datatype UnreleasedFix = UnreleasedFix(branch: TsMinor, commit: string)

  /** `z.infer<typeof AdvisorySchema>` */
  datatype Advisory = Advisory(
    id: string, cve: Option<string>, published: string, modified: string,
    severity: Option<Severity>, issue: Option<Issue>, details: string,
    affectedVersions: seq<AffectedRange>, fixedIn: seq<FixedIn>,
    fixedButNotReleased: seq<UnreleasedFix>, fixesPending: seq<TsMinor>)

  /** The constraints of the schema the record types do not carry: the
      enumerations and the URL format. */
  predicate Valid(a: Advisory, isUrl: string -> bool)
  {
    (a.severity.Some? ==> a.severity.value.name in SeverityNames && a.severity.value.version in CvssVersions)
    && (a.issue.Some? ==> a.issue.value.kind in IssueTypes && isUrl(a.issue.value.url))
  }

  // ------------------------------------------------------------ encoding

  function EncodeVersion(v: TsVersion): Json
  {
    JArray([JNumber(v.0), JNumber(v.1), JNumber(v.2)])
  }

  function EncodeMinor(m: TsMinor): Json
  {
    JArray([JNumber(m.0), JNumber(m.1)])
  }

  function EncodeOption<T>(o: Option<T>, f: T -> Json): Json
  {
    match o
    case None => JNull
    case Some(x) => f(x)
  }

  function EncodeIssue(i: Issue): Json
  {
    JObject(map["type" := JString(i.kind), "issue_number" := JString(i.issueNumber), "url" := JString(i.url)])
  }

  function EncodeSeverity(s: Severity): Json
  {
    JObject(map["name" := JString(s.name), "score" := EncodeOption(s.score, n => JNumber(n)),
                "version" := JString(s.version)])
  }

  function EncodeRange(r: AffectedRange): Json
  {
    match r
    case One(v) => JArray([EncodeVersion(v)])
    case Two(s, e) => JArray([EncodeVersion(s), EncodeVersion(e)])
  }

  function EncodeFixedIn(f: FixedIn): Json
  {
    JObject(map["version" := EncodeVersion(f.version),
                "commits" := JArray(seq(|f.commits|, i requires 0 <= i < |f.commits| => JString(f.commits[i])))])
  }

  function EncodeUnreleased(u: UnreleasedFix): Json
  {
    JObject(map["branch" := EncodeMinor(u.branch), "commit" := JString(u.commit)])
  }

  function EncodeAll<T>(xs: seq<T>, f: T -> Json): (r: Json)
    ensures r.JArray? && |r.items| == |xs| && forall i :: 0 <= i < |xs| ==> r.items[i] == f(xs[i])
  {
    JArray(seq(|xs|, i requires 0 <= i < |xs| => f(xs[i])))
  }

  const AdvisoryKeys: set<string> := {"id", "cve", "published", "modified", "severity", "issue", "details",
    "affected_versions", "fixed_in", "fixed_but_not_released", "fixes_pending"}

  /** The JSON object of an advisory, with exactly the schema's keys. */
  function EncodeAdvisory(a: Advisory): Json
  {
    JObject(map k | k in AdvisoryKeys :: EncodeField(a, k))
  }

  function EncodeField(a: Advisory, k: string): Json
  {
    if k == "id" then JString(a.id)
    else if k == "cve" then EncodeOption(a.cve, Str)
    else if k == "published" then JString(a.published)
    else if k == "modified" then JString(a.modified)
    else if k == "severity" then EncodeOption(a.severity, EncodeSeverity)
    else if k == "issue" then EncodeOption(a.issue, EncodeIssue)
    else if k == "details" then JString(a.details)
    else if k == "affected_versions" then EncodeAll(a.affectedVersions, EncodeRange)
    else if k == "fixed_in" then EncodeAll(a.fixedIn, EncodeFixedIn)
    else if k == "fixed_but_not_released" then EncodeAll(a.fixedButNotReleased, EncodeUnreleased)
    else EncodeAll(a.fixesPending, EncodeMinor)
  }

  // ------------------------------------------------------------ decoding

  function DecodeVersion(j: Json): (v: TsVersion)
    requires VersionOk(j)
    ensures EncodeVersion(v) == j
  {
    assert j.items == [j.items[0], j.items[1], j.items[2]];
    (j.items[0].n, j.items[1].n, j.items[2].n)
  }

  function DecodeMinor(j: Json): (m: TsMinor)
    requires MinorOk(j)
    ensures EncodeMinor(m) == j
  {
    assert j.items == [j.items[0], j.items[1]];
    (j.items[0].n, j.items[1].n)
  }

  function DecodeRange(j: Json): (r: AffectedRange)
    requires RangeOk(j)
    ensures EncodeRange(r) == j
  {
    if |j.items| == 1 then
      assert j.items == [j.items[0]];
      One(DecodeVersion(j.items[0]))
    else
      assert j.items == [j.items[0], j.items[1]];
      Two(DecodeVersion(j.items[0]), DecodeVersion(j.items[1]))
  }

  function DecodeIssue(j: Json, ghost isUrl: string -> bool): (i: Issue)
    requires IssueOk(j, isUrl)
    ensures i.kind in IssueTypes && isUrl(i.url)
  {
    Issue(j.fields["type"].s, j.fields["issue_number"].s, j.fields["url"].s)
  }

  function DecodeSeverity(j: Json): (s: Severity)
    requires SeverityOk(j)
    ensures s.name in SeverityNames && s.version in CvssVersions
  {
    var score := j.fields["score"];
    Severity(j.fields["name"].s, if score == JNull then None else Some(score.n), j.fields["version"].s)
  }

  function DecodeFixedIn(j: Json): FixedIn
    requires FixedInOk(j)
  {
    var c := j.fields["commits"].items;
    FixedIn(DecodeVersion(j.fields["version"]), seq(|c|, i requires 0 <= i < |c| => c[i].s))
  }

  function DecodeUnreleased(j: Json): UnreleasedFix
    requires UnreleasedOk(j)
  {
    UnreleasedFix(DecodeMinor(j.fields["branch"]), j.fields["commit"].s)
  }

  /** The typed record of a JSON advisory the schema accepts (the keys the
      schema lists; any other key is not part of the record). */
  function DecodeAdvisory(j: Json, ghost isUrl: string -> bool): (a: Advisory)
    requires AdvisoryOk(j, isUrl)
    ensures Valid(a, isUrl)
  {
    var f := j.fields;
    var av := f["affected_versions"].items;
    var fi := f["fixed_in"].items;
    var fb := f["fixed_but_not_released"].items;
    var fp := f["fixes_pending"].items;
    Advisory(
      f["id"].s,
      if f["cve"] == JNull then None else Some(f["cve"].s),
      f["published"].s,
      f["modified"].s,
      if f["severity"] == JNull then None else Some(DecodeSeverity(f["severity"])),
      if f["issue"] == JNull then None else Some(DecodeIssue(f["issue"], isUrl)),
      f["details"].s,
      seq(|av|, i requires 0 <= i < |av| => DecodeRange(av[i])),
      seq(|fi|, i requires 0 <= i < |fi| => DecodeFixedIn(fi[i])),
      seq(|fb|, i requires 0 <= i < |fb| => DecodeUnreleased(fb[i])),
      seq(|fp|, i requires 0 <= i < |fp| => DecodeMinor(fp[i])))
  }

  // ------------------------------------------------------------ properties

  /** A version is accepted exactly when it is three numbers, a minor exactly
      when it is two. */
  lemma VersionShapes(j: Json)
    ensures VersionOk(j) <==> exists v: TsVersion :: j == EncodeVersion(v)
    ensures MinorOk(j) <==> exists m: TsMinor :: j == EncodeMinor(m)
  {
    if VersionOk(j) {
      assert j == EncodeVersion(DecodeVersion(j));
    }
    if MinorOk(j) {
      assert j == EncodeMinor(DecodeMinor(j));
    }
  }

  /** Where each field of a record lands in its encoding. */
  lemma EncodedFields(a: Advisory)
    ensures var f := EncodeAdvisory(a).fields;
      f["id"] == JString(a.id) && f["cve"] == EncodeOption(a.cve, Str)
      && f["published"] == JString(a.published) && f["modified"] == JString(a.modified)
      && f["severity"] == EncodeOption(a.severity, EncodeSeverity)
      && f["issue"] == EncodeOption(a.issue, EncodeIssue)
      && f["details"] == JString(a.details)
    ensures var f := EncodeAdvisory(a).fields;
      f["affected_versions"] == EncodeAll(a.affectedVersions, EncodeRange)
      && f["fixed_in"] == EncodeAll(a.fixedIn, EncodeFixedIn)
      && f["fixed_but_not_released"] == EncodeAll(a.fixedButNotReleased, EncodeUnreleased)
      && f["fixes_pending"] == EncodeAll(a.fixesPending, EncodeMinor)
  {
    EncodedScalars(a);
    EncodedLists(a);
  }

  lemma EncodedScalars(a: Advisory)
    ensures var f := EncodeAdvisory(a).fields;
      f["id"] == JString(a.id) && f["cve"] == EncodeOption(a.cve, Str)
      && f["published"] == JString(a.published) && f["modified"] == JString(a.modified)
      && f["severity"] == EncodeOption(a.severity, EncodeSeverity)
      && f["issue"] == EncodeOption(a.issue, EncodeIssue)
      && f["details"] == JString(a.details)
  {
  }

  lemma EncodedLists(a: Advisory)
    ensures var f := EncodeAdvisory(a).fields;
      f["affected_versions"] == EncodeAll(a.affectedVersions, EncodeRange)
      && f["fixed_in"] == EncodeAll(a.fixedIn, EncodeFixedIn)
      && f["fixed_but_not_released"] == EncodeAll(a.fixedButNotReleased, EncodeUnreleased)
      && f["fixes_pending"] == EncodeAll(a.fixesPending, EncodeMinor)
  {
  }

  /** The encoded lists always pass their schemas. */
  lemma EncodedListsOk(a: Advisory)
    ensures ArrayOf(EncodeAll(a.affectedVersions, EncodeRange), RangeOk)
    ensures ArrayOf(EncodeAll(a.fixedIn, EncodeFixedIn), FixedInOk)
    ensures ArrayOf(EncodeAll(a.fixedButNotReleased, EncodeUnreleased), UnreleasedOk)
    ensures ArrayOf(EncodeAll(a.fixesPending, EncodeMinor), MinorOk)
  {
    var av := EncodeAll(a.affectedVersions, EncodeRange);
    forall i | 0 <= i < |av.items| ensures RangeOk(av.items[i]) {
      assert av.items[i] == EncodeRange(a.affectedVersions[i]);
    }
    var fi := EncodeAll(a.fixedIn, EncodeFixedIn);
    forall i | 0 <= i < |fi.items| ensures FixedInOk(fi.items[i]) {
      assert fi.items[i] == EncodeFixedIn(a.fixedIn[i]);
    }
  }

  /** The severity and issue of a record pass exactly when it meets the
      enumerations and the URL format. */
  lemma EncodedRefsOk(a: Advisory, isUrl: string -> bool)
    ensures Nullable(EncodeOption(a.severity, EncodeSeverity), SeverityOk) && Nullable(EncodeOption(a.issue, EncodeIssue), x => IssueOk(x, isUrl))
      <==> Valid(a, isUrl)
  {
    if a.severity.Some? {
      var s := a.severity.value;
      assert SeverityOk(EncodeSeverity(s)) <==> s.name in SeverityNames && s.version in CvssVersions;
    }
    if a.issue.Some? {
      var i := a.issue.value;
      assert IssueOk(EncodeIssue(i), isUrl) <==> i.kind in IssueTypes && isUrl(i.url);
    }
  }

  /** The schema accepts the encoding of a record exactly when the record
      meets the enumerations and the URL format. */
  lemma EncodeAccepted(a: Advisory, isUrl: string -> bool)
    ensures AdvisoryOk(EncodeAdvisory(a), isUrl) <==> Valid(a, isUrl)
  {
    EncodedFields(a);
    EncodedListsOk(a);
    EncodedRefsOk(a, isUrl);
  }

  /** Decoding an encoded valid record gives the record back. */
  lemma DecodeEncode(a: Advisory, isUrl: string -> bool)
    requires Valid(a, isUrl)
    ensures AdvisoryOk(EncodeAdvisory(a), isUrl)
    ensures DecodeAdvisory(EncodeAdvisory(a), isUrl) == a
  {
    EncodeAccepted(a, isUrl);
    var j := EncodeAdvisory(a);
    var d := DecodeAdvisory(j, isUrl);
    var f := j.fields;
    assert d.cve == a.cve;
    assert d.severity == a.severity by {
      if a.severity.Some? {
        var s := a.severity.value;
        assert f["severity"] == EncodeSeverity(s);
        assert DecodeSeverity(EncodeSeverity(s)) == s by {
          if s.score.Some? { assert EncodeSeverity(s).fields["score"] == JNumber(s.score.value); }
        }
      }
    }
    assert d.issue == a.issue;
    DecodeEncodeLists(a, isUrl);
  }

  lemma DecodeEncodeLists(a: Advisory, isUrl: string -> bool)
    requires AdvisoryOk(EncodeAdvisory(a), isUrl)
    ensures var d := DecodeAdvisory(EncodeAdvisory(a), isUrl);
      d.affectedVersions == a.affectedVersions && d.fixedIn == a.fixedIn
      && d.fixedButNotReleased == a.fixedButNotReleased && d.fixesPending == a.fixesPending
  {
    var d := DecodeAdvisory(EncodeAdvisory(a), isUrl);
    EncodedLists(a);
    DecodeEncodeRanges(a, d.affectedVersions, d.fixedIn);
    DecodeEncodeMinors(a, d.fixedButNotReleased, d.fixesPending);
  }

  lemma DecodeEncodeRanges(a: Advisory, av: seq<AffectedRange>, fi: seq<FixedIn>)
    requires ArrayOf(EncodeAll(a.affectedVersions, EncodeRange), RangeOk)
    requires ArrayOf(EncodeAll(a.fixedIn, EncodeFixedIn), FixedInOk)
    requires var e := EncodeAll(a.affectedVersions, EncodeRange).items;
      av == seq(|e|, i requires 0 <= i < |e| => DecodeRange(e[i]))
    requires var e := EncodeAll(a.fixedIn, EncodeFixedIn).items;
      fi == seq(|e|, i requires 0 <= i < |e| => DecodeFixedIn(e[i]))
    ensures av == a.affectedVersions && fi == a.fixedIn
  {
    forall i | 0 <= i < |a.affectedVersions| ensures av[i] == a.affectedVersions[i] {
      DecodeRangeInjective(a.affectedVersions[i]);
    }
    forall i | 0 <= i < |a.fixedIn| ensures fi[i] == a.fixedIn[i] {
      var x := a.fixedIn[i];
      assert DecodeFixedIn(EncodeFixedIn(x)).commits == x.commits;
      VersionRoundTrip(x.version);
    }
  }

  lemma DecodeEncodeMinors(a: Advisory, fb: seq<UnreleasedFix>, fp: seq<TsMinor>)
    requires ArrayOf(EncodeAll(a.fixedButNotReleased, EncodeUnreleased), UnreleasedOk)
    requires ArrayOf(EncodeAll(a.fixesPending, EncodeMinor), MinorOk)
    requires var e := EncodeAll(a.fixedButNotReleased, EncodeUnreleased).items;
      fb == seq(|e|, i requires 0 <= i < |e| => DecodeUnreleased(e[i]))
    requires var e := EncodeAll(a.fixesPending, EncodeMinor).items;
      fp == seq(|e|, i requires 0 <= i < |e| => DecodeMinor(e[i]))
    ensures fb == a.fixedButNotReleased && fp == a.fixesPending
  {
    forall i | 0 <= i < |a.fixedButNotReleased| ensures fb[i] == a.fixedButNotReleased[i] {
      var x := a.fixedButNotReleased[i];
      assert DecodeMinor(EncodeMinor(x.branch)) == x.branch;
    }
    forall i | 0 <= i < |a.fixesPending| ensures fp[i] == a.fixesPending[i] {
      assert DecodeMinor(EncodeMinor(a.fixesPending[i])) == a.fixesPending[i];
    }
  }

  lemma VersionRoundTrip(v: TsVersion)
    ensures VersionOk(EncodeVersion(v)) && DecodeVersion(EncodeVersion(v)) == v
  {
  }

  lemma DecodeRangeInjective(r: AffectedRange)
    ensures RangeOk(EncodeRange(r)) && DecodeRange(EncodeRange(r)) == r
  {
    match r
    case One(v) => VersionRoundTrip(v);
    case Two(s, e) => VersionRoundTrip(s); VersionRoundTrip(e);
  }

  /** Every accepted advisory is the encoding of its record on the schema's
      keys. */
  lemma DecodeFaithful(j: Json, isUrl: string -> bool, key: string)
    requires AdvisoryOk(j, isUrl)
    requires key in {"id", "cve", "published", "modified", "details", "affected_versions", "fixes_pending"}
    ensures j.fields[key] == EncodeAdvisory(DecodeAdvisory(j, isUrl)).fields[key]
  {
    var f := j.fields;
    var d := DecodeAdvisory(j, isUrl);
    if key == "affected_versions" {
      var av := f[key].items;
      assert av == EncodeAll(d.affectedVersions, EncodeRange).items;
    } else if key == "fixes_pending" {
      var fp := f[key].items;
      assert fp == EncodeAll(d.fixesPending, EncodeMinor).items;
    }
  }

  // ------------------------------------------------------------ as written

  /** A `fixed_in` item as the data pipeline writes it, with `commit`, lacks
      the `commits` the schema asks for and is rejected. */
  lemma PipelineFixedInRejected(version: Json, commit: string)
    ensures !FixedInOk(JObject(map["version" := version, "commit" := JString(commit)]))
  {
  }

  /** An issue as the data pipeline writes it, without `issue_number`, is
      rejected. */
  lemma PipelineIssueRejected(kind: string, url: string, isUrl: string -> bool)
    ensures !IssueOk(JObject(map["type" := JString(kind), "url" := JString(url)]), isUrl)
  {
  }

  /** An overview entry without `latest_patch` or `ranges_by_status`, as the
      data pipeline writes it, is rejected. */
  lemma PipelineOverviewEntryRejected(f: map<string, Json>)
    requires "latest_patch" !in f || "ranges_by_status" !in f
    ensures !VersionOverviewOk(JObject(f))
  {
  }

  /** An accepted overview entry lists ranges under each of the five
      statuses. */
  lemma StatusKeysPresent(j: Json)
    requires VersionOverviewOk(j)
    ensures var r := j.fields["ranges_by_status"];
      r.JObject? && Statuses <= r.fields.Keys
      && forall s :: s in Statuses ==> ArrayOf(r.fields[s], StatusRangeOk)
  {
    var r := j.fields["ranges_by_status"];
    assert RangesByStatusOk(r);
    forall s | s in Statuses ensures s in r.fields && ArrayOf(r.fields[s], StatusRangeOk) {
      assert s == "SAFE" || s == "LOW" || s == "MEDIUM" || s == "HIGH" || s == "CRITICAL";
    }
  }
}
