/** Turning one OSV advisory record (as decoded from its JSON file) into an
    `Advisory`: the CVE alias, the single GIT range with its introduced and
    fixed commits, the issue link, and the required text fields. */
module AdvisoryParse {
  import opened Wrappers
  import opened Json
  import opened Text
  import opened PyJson
  import opened Util
  import opened Models

  // ------------------------------------------------------------ get_issue

  const GitHubNeedle: string := "github.com/python/cpython/issues/"
  const BpoNeedle: string := "bugs.python.org/issue"

  /** `ref["type"].lower() == "report" or ref["type"].lower() == "web"`. */
  function IsReport(reference: Json): Result<bool, Exc>
  {
    var kind :- Item(reference, "type");
    var lower :- Lower(kind);
    Ok(lower == "report" || lower == "web")
  }

  /** The comprehension keeping the report and web references, in order. */
  function Reports(refs: seq<Json>): (r: Result<seq<Json>, Exc>)
    ensures r.Ok? <==> forall k :: 0 <= k < |refs| ==> IsReport(refs[k]).Ok?
    ensures r.Ok? ==> forall x :: x in r.value <==> x in refs && IsReport(x) == Ok(true)
    decreases |refs|
  {
    if |refs| == 0 then Ok([])
    else
      var head :- IsReport(refs[0]);
      var rest :- Reports(refs[1..]);
      assert forall x :: x in refs ==> x == refs[0] || x in refs[1..];
      assert forall k :: 0 < k < |refs| ==> refs[k] == refs[1..][k - 1];
      Ok(if head then [refs[0]] + rest else rest)
  }

  /** `needle in report["url"]`. */
  function UrlContains(report: Json, needle: string): Result<bool, Exc>
  {
    var url :- Item(report, "url");
    In(needle, url)
  }

  /** The first loop that returns: the url of the first report whose url
      contains the needle. */
  function FindUrl(reports: seq<Json>, needle: string): Result<Option<Json>, Exc>
    decreases |reports|
  {
    if |reports| == 0 then Ok(None)
    else
      var url :- Item(reports[0], "url");
      var hit :- In(needle, url);
      if hit then Ok(Some(url)) else FindUrl(reports[1..], needle)
  }

  /** `get_issue`: the first GitHub issue link among the report and web
      references, else the first bugs.python.org link, else `None`. */
  function GetIssue(data: Json): Result<Option<Issue>, Exc>
  {
    var references :- Get(data, "references", JNull);
    if !PyTruthy(references) then Ok(None)
    else
      var refs :- Iter(references);
      var reports :- Reports(refs);
      IssueOfReports(reports)
  }

  /** The issue the report references name: the first GitHub one, else the
      first bpo one. */
  function IssueOfReports(reports: seq<Json>): Result<Option<Issue>, Exc>
  {
    var github :- FindUrl(reports, GitHubNeedle);
    if github.Some? then Ok(Some(Issue(GitHub, github.value)))
    else
      var bpo :- FindUrl(reports, BpoNeedle);
      if bpo.Some? then Ok(Some(Issue(Bpo, bpo.value))) else Ok(None)
  }

  /** What `FindUrl` returns: the url of the first report matching the
      needle, every earlier report having been checked without a match; or
      `None` when no report matches. */
  lemma {:induction false} FindUrlFirst(reports: seq<Json>, needle: string)
    requires FindUrl(reports, needle).Ok?
    ensures FindUrl(reports, needle).value.None? <==>
      forall k :: 0 <= k < |reports| ==> UrlContains(reports[k], needle) == Ok(false)
    ensures FindUrl(reports, needle).value.Some? ==>
      exists k :: 0 <= k < |reports| && UrlContains(reports[k], needle) == Ok(true)
        && FindUrl(reports, needle).value.value == reports[k].fields["url"]
        && forall j :: 0 <= j < k ==> UrlContains(reports[j], needle) == Ok(false)
    decreases |reports|
  {
    if |reports| > 0 && UrlContains(reports[0], needle) == Ok(false) {
      var rest := reports[1..];
      FindUrlFirst(rest, needle);
      assert forall k :: 0 < k < |reports| ==> reports[k] == rest[k - 1];
      if FindUrl(reports, needle).value.Some? {
        var k :| 0 <= k < |rest| && UrlContains(rest[k], needle) == Ok(true)
          && FindUrl(rest, needle).value.value == rest[k].fields["url"]
          && forall j :: 0 <= j < k ==> UrlContains(rest[j], needle) == Ok(false);
        assert UrlContains(reports[k + 1], needle) == Ok(true);
        assert forall j :: 0 <= j < k + 1 ==> UrlContains(reports[j], needle) == Ok(false) by {
          forall j | 0 <= j < k + 1 ensures UrlContains(reports[j], needle) == Ok(false) {
            if j > 0 {
              assert reports[j] == rest[j - 1];
            }
          }
        }
      }
    }
  }

  /** Once every report can be checked, a GitHub link anywhere in the list
      wins over any bugs.python.org link, wherever it sits. */
  lemma GitHubWins(data: Json, k: nat)
    requires GetIssue(data).Ok?
    requires data.JObject? && "references" in data.fields && PyTruthy(data.fields["references"])
    requires Iter(data.fields["references"]).Ok?
    requires Reports(Iter(data.fields["references"]).value).Ok?
    requires var reports := Reports(Iter(data.fields["references"]).value).value;
      k < |reports| && UrlContains(reports[k], GitHubNeedle) == Ok(true)
    ensures GetIssue(data).value.Some? && GetIssue(data).value.value.kind == GitHub
  {
    var reports := Reports(Iter(data.fields["references"]).value).value;
    FindUrlFirst(reports, GitHubNeedle);
  }

  /** A bugs.python.org link is reported only when no report links to a
      GitHub issue. */
  lemma BpoOnlyWithoutGitHub(data: Json)
    requires GetIssue(data).Ok? && GetIssue(data).value.Some? && GetIssue(data).value.value.kind == Bpo
    ensures data.JObject? && "references" in data.fields
    ensures var reports := Reports(Iter(data.fields["references"]).value).value;
      forall k :: 0 <= k < |reports| ==> UrlContains(reports[k], GitHubNeedle) == Ok(false)
  {
    var reports := Reports(Iter(data.fields["references"]).value).value;
    FindUrlFirst(reports, GitHubNeedle);
  }

  /** Missing, `null` or empty references: no issue. */
  lemma NoReferencesNoIssue(f: map<string, Json>)
    requires "references" !in f || f["references"] in {JNull, JArray([])}
    ensures GetIssue(JObject(f)) == Ok(None)
  {
  }

  /** References of other types are ignored: the issue depends only on the
      report and web references. */
  lemma OnlyReportsMatter(data: Json, data2: Json)
    requires data.JObject? && data2.JObject?
    requires "references" in data.fields && "references" in data2.fields
    requires PyTruthy(data.fields["references"]) && PyTruthy(data2.fields["references"])
    requires Iter(data.fields["references"]).Ok? && Iter(data2.fields["references"]).Ok?
    requires Reports(Iter(data.fields["references"]).value) == Reports(Iter(data2.fields["references"]).value)
    ensures GetIssue(data) == GetIssue(data2)
  {
  }

  // ------------------------------------------------------- parse_advisory

  /** The CVE id: the first alias, which must start with "CVE-", or `None`
      when there are no aliases. */
  function CveAlias(data: Json): Result<Option<string>, Exc>
  {
    var aliases :- Get(data, "aliases", JNull);
    if !PyTruthy(aliases) then Ok(None)
    else
      var all :- Item(data, "aliases");
      var first :- Index(all, 0);
      var isCve :- PyStartsWith(first, "CVE-");
      if !isCve then Err(AssertionError) else Ok(Some(first.s))
  }

  /** The events of the only GIT range of the only affected package. */
  function GitEvents(data: Json): Result<seq<Json>, Exc>
  {
    var affected :- Item(data, "affected");
    var count :- Len(affected);
    if count != 1 then Err(AssertionError)
    else
      var package :- Index(affected, 0);
      var ranges :- Item(package, "ranges");
      var rangeCount :- Len(ranges);
      if rangeCount != 1 then Err(AssertionError)
      else
        var range :- Index(ranges, 0);
        var kind :- Item(range, "type");
        if kind != JString("GIT") then Err(AssertionError)
        else
          var events :- Item(range, "events");
          Iter(events)
  }

  /** A commit id as found in an event. Python's `set.add` accepts any
      hashable value here (a number, a boolean, null); the model takes string
      ids only and reads every other value as a `TypeError`. */
  function CommitId(j: Json): Result<string, Exc>
  {
    match j
    case JString(s) => Ok(s)
    case _ => Err(TypeError)
  }

  /** The commit an event introduces; "0" (the start of history) stands for
      the repository's first commit. */
  function IntroducedBy(event: Json): Result<Option<string>, Exc>
  {
    var has :- In("introduced", event);
    if !has then Ok(None)
    else
      var raw :- Item(event, "introduced");
      var c :- CommitId(raw);
      Ok(Some(if c == "0" then FirstCommit else c))
  }

  function FixedBy(event: Json): Result<Option<string>, Exc>
  {
    var has :- In("fixed", event);
    if !has then Ok(None)
    else
      var raw :- Item(event, "fixed");
      var c :- CommitId(raw);
      Ok(Some(c))
  }

  function OptionSet(o: Option<string>): set<string>
  {
    if o.Some? then {o.value} else {}
  }

  /** The introduced and fixed commit sets after the given events. */
  function EventCommits(events: seq<Json>): Result<(set<string>, set<string>), Exc>
    decreases |events|
  {
    if |events| == 0 then Ok(({}, {}))
    else
      var before :- EventCommits(events[..|events| - 1]);
      var intro :- IntroducedBy(events[|events| - 1]);
      var fixed :- FixedBy(events[|events| - 1]);
      Ok((before.0 + OptionSet(intro), before.1 + OptionSet(fixed)))
  }

  lemma {:induction false} EventCommitsErrPersists(events: seq<Json>, i: nat)
    requires i <= |events| && EventCommits(events[..i]).Err?
    ensures EventCommits(events) == EventCommits(events[..i])
    decreases |events| - i
  {
    if i < |events| {
      var n := |events|;
      assert events[..n - 1][..i] == events[..i];
      EventCommitsErrPersists(events[..n - 1], i);
    } else {
      assert events[..i] == events;
    }
  }

  /** The loop over the events, adding to the two sets. */
  method CollectCommits(events: seq<Json>) returns (r: Result<(set<string>, set<string>), Exc>)
    ensures r == EventCommits(events)
  {
    var introduced: set<string> := {};
    var fixed: set<string> := {};
    var i := 0;
    while i < |events|
      invariant 0 <= i <= |events|
      invariant EventCommits(events[..i]) == Ok((introduced, fixed))
    {
      assert events[..i + 1][..i] == events[..i] && events[..i + 1][i] == events[i];
      var intro := IntroducedBy(events[i]);
      if intro.Err? {
        EventCommitsErrPersists(events, i + 1);
        return Err(intro.error);
      }
      introduced := introduced + OptionSet(intro.value);
      var fix := FixedBy(events[i]);
      if fix.Err? {
        EventCommitsErrPersists(events, i + 1);
        return Err(fix.error);
      }
      fixed := fixed + OptionSet(fix.value);
      i := i + 1;
    }
    assert events[..i] == events;
    r := Ok((introduced, fixed));
  }

  /** `data[key]`, which must be truthy. */
  function Required(data: Json, key: string): Result<Json, Exc>
  {
    var v :- Item(data, key);
    if PyTruthy(v) then Ok(v) else Err(AssertionError)
  }

  /** `datetime.fromisoformat` on a field, the parser itself given as
      `isoInstant`: TypeError on a non-string, ValueError when it fails. */
  function Timestamp(j: Json, isoInstant: string -> Option<Instant>): Result<Instant, Exc>
  {
    match j
    case JString(s) => if isoInstant(s).Some? then Ok(isoInstant(s).value) else Err(ValueError)
    case _ => Err(TypeError)
  }

  /** The record built after the checks: every derived field empty. */
  function Record(data: Json, cve: Option<string>, commits: (set<string>, set<string>), issue: Option<Issue>,
                  isoInstant: string -> Option<Instant>): Result<Advisory, Exc>
  {
    var id :- Required(data, "id");
    var published :- Required(data, "published");
    var modified :- Required(data, "modified");
    var details :- Required(data, "details");
    var publishedAt :- Timestamp(published, isoInstant);
    var modifiedAt :- Timestamp(modified, isoInstant);
    Ok(Advisory(id, cve, publishedAt, modifiedAt, None, issue, details,
                commits.0, commits.1, {}, {}, [], [], []))
  }

  function ParseAdvisorySpec(data: Json, isoInstant: string -> Option<Instant>): Result<Advisory, Exc>
  {
    var cve :- CveAlias(data);
    var events :- GitEvents(data);
    var commits :- EventCommits(events);
    var issue :- GetIssue(data);
    Record(data, cve, commits, issue, isoInstant)
  }

  /** `parse_advisory`. */
  method ParseAdvisory(data: Json, isoInstant: string -> Option<Instant>) returns (r: Result<Advisory, Exc>)
    ensures r == ParseAdvisorySpec(data, isoInstant)
  {
    var cve :- CveAlias(data);
    var events :- GitEvents(data);
    var commits :- CollectCommits(events);
    var issue :- GetIssue(data);
    r := Record(data, cve, commits, issue, isoInstant);
  }

  // ------------------------------------------------------------ properties

  /** The introduced commits are what the events introduce, "0" read as the
      first commit; the fixed commits are what they fix. */
  lemma EventCommitsCharacterized(events: seq<Json>, c: string)
    requires EventCommits(events).Ok?
    ensures c in EventCommits(events).value.0 <==>
      exists k :: 0 <= k < |events| && IntroducedBy(events[k]) == Ok(Some(c))
    ensures c in EventCommits(events).value.1 <==>
      exists k :: 0 <= k < |events| && FixedBy(events[k]) == Ok(Some(c))
  {
    IntroducedCommits(events, c);
    FixedCommits(events, c);
  }

  lemma {:induction false} IntroducedCommits(events: seq<Json>, c: string)
    requires EventCommits(events).Ok?
    ensures c in EventCommits(events).value.0 <==>
      exists k :: 0 <= k < |events| && IntroducedBy(events[k]) == Ok(Some(c))
    decreases |events|
  {
    if |events| > 0 {
      var n := |events|;
      var init := events[..n - 1];
      IntroducedCommits(init, c);
      if exists k :: 0 <= k < n && IntroducedBy(events[k]) == Ok(Some(c)) {
        var k :| 0 <= k < n && IntroducedBy(events[k]) == Ok(Some(c));
        if k < n - 1 {
          assert init[k] == events[k];
        }
      }
      if exists k :: 0 <= k < n - 1 && IntroducedBy(init[k]) == Ok(Some(c)) {
        var k :| 0 <= k < n - 1 && IntroducedBy(init[k]) == Ok(Some(c));
        assert init[k] == events[k];
      }
    }
  }

  lemma {:induction false} FixedCommits(events: seq<Json>, c: string)
    requires EventCommits(events).Ok?
    ensures c in EventCommits(events).value.1 <==>
      exists k :: 0 <= k < |events| && FixedBy(events[k]) == Ok(Some(c))
    decreases |events|
  {
    if |events| > 0 {
      var n := |events|;
      var init := events[..n - 1];
      FixedCommits(init, c);
      if exists k :: 0 <= k < n && FixedBy(events[k]) == Ok(Some(c)) {
        var k :| 0 <= k < n && FixedBy(events[k]) == Ok(Some(c));
        if k < n - 1 {
          assert init[k] == events[k];
        }
      }
      if exists k :: 0 <= k < n - 1 && FixedBy(init[k]) == Ok(Some(c)) {
        var k :| 0 <= k < n - 1 && FixedBy(init[k]) == Ok(Some(c));
        assert init[k] == events[k];
      }
    }
  }

  /** An event introducing "0" introduces the first commit. */
  lemma IntroducedZero(f: map<string, Json>)
    requires "introduced" in f && f["introduced"] == JString("0")
    ensures IntroducedBy(JObject(f)) == Ok(Some(FirstCommit))
  {
  }

  /** A parsed advisory carries the first alias as its CVE id, the record's
      required fields, and nothing derived yet. */
  lemma ParsedAdvisoryShape(data: Json, isoInstant: string -> Option<Instant>)
    requires ParseAdvisorySpec(data, isoInstant).Ok?
    ensures var a := ParseAdvisorySpec(data, isoInstant).value;
      data.JObject? && "id" in data.fields && a.id == data.fields["id"] && PyTruthy(a.id)
      && "details" in data.fields && a.details == data.fields["details"] && PyTruthy(a.details)
      && a.severity.None? && a.affectedVersions == {} && a.affectedEolVersions == {}
      && a.fixedIn == [] && a.fixedButNotReleased == [] && a.fixesPending == []
      && (a.cve.Some? ==>
            ("aliases" in data.fields && data.fields["aliases"].JArray?
             && |data.fields["aliases"].items| > 0 && data.fields["aliases"].items[0] == JString(a.cve.value)
             && StartsWith(a.cve.value, "CVE-")))
      && (a.cve.None? ==> "aliases" !in data.fields || !PyTruthy(data.fields["aliases"]))
  {
    CveAliasShape(data);
    var cve := CveAlias(data).value;
    var commits := EventCommits(GitEvents(data).value).value;
    RecordShape(data, cve, commits, GetIssue(data).value, isoInstant);
  }

  /** A CVE id comes from the first alias and starts with "CVE-"; there is
      none only when the aliases are missing or empty. */
  lemma CveAliasShape(data: Json)
    requires CveAlias(data).Ok?
    ensures var cve := CveAlias(data).value;
      (cve.Some? ==>
         (data.JObject? && "aliases" in data.fields && data.fields["aliases"].JArray?
          && |data.fields["aliases"].items| > 0 && data.fields["aliases"].items[0] == JString(cve.value)
          && StartsWith(cve.value, "CVE-")))
      && (cve.None? ==> !data.JObject? || "aliases" !in data.fields || !PyTruthy(data.fields["aliases"]))
  {
  }

  /** A record carries the required fields and nothing derived yet. */
  lemma RecordShape(data: Json, cve: Option<string>, commits: (set<string>, set<string>), issue: Option<Issue>,
                    isoInstant: string -> Option<Instant>)
    requires Record(data, cve, commits, issue, isoInstant).Ok?
    ensures var a := Record(data, cve, commits, issue, isoInstant).value;
      data.JObject? && "id" in data.fields && a.id == data.fields["id"] && PyTruthy(a.id)
      && "details" in data.fields && a.details == data.fields["details"] && PyTruthy(a.details)
      && a.cve == cve && a.severity.None? && a.affectedVersions == {} && a.affectedEolVersions == {}
      && a.fixedIn == [] && a.fixedButNotReleased == [] && a.fixesPending == []
  {
  }

  /** Without aliases there is no CVE id. */
  lemma NoAliasesNoCve(f: map<string, Json>)
    requires "aliases" !in f || f["aliases"] == JArray([])
    ensures CveAlias(JObject(f)) == Ok(None)
  {
  }

  /** An alias not starting with "CVE-" is refused. */
  lemma NonCveAliasRaises(f: map<string, Json>, alias: string)
    requires "aliases" in f && f["aliases"] == JArray([JString(alias)])
    requires !StartsWith(alias, "CVE-")
    ensures CveAlias(JObject(f)) == Err(AssertionError)
  {
  }
}
