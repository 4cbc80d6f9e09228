/** `get_version_overview`: for every minor that still has a supported
    release, how many advisories touch it, the last publication among them,
    its affected and safe patch versions (compressed into ranges), whether
    every one of its releases is affected, and the highest severity per
    patch version. */
module VersionOverview {
  import opened Wrappers
  import opened Json
  import opened VersionTypes
  import opened PyJson
  import opened Models
  import opened Versions

  /** The per-minor entry once its version sets are compressed. */
  datatype MinorOverview = MinorOverview(
    version: Minor,
    isAffected: bool,
    allVersionsAffected: bool,
    severityByPatchVersion: map<string, Severity>,
    totalAdvisories: nat,
    lastPublished: Instant,
    affectedVersions: seq<VersionRange>,
    safeVersions: seq<VersionRange>)

  /** An advisory touches a minor when it affects one of its versions. */
  predicate Touches(a: Advisory, m: Minor)
  {
    exists v :: v in a.affectedVersions && MinorOf(v) == m
  }

  function VersionsOfMinor(vs: set<Version>, m: Minor): (r: set<Version>)
    ensures forall v :: v in r <==> v in vs && MinorOf(v) == m
  {
    set v | v in vs && MinorOf(v) == m
  }

  /** The release versions of minor `m` among the tags. */
  function TagVersionsOf(tags: set<Tag>, m: Minor): (r: set<Version>)
    ensures forall v :: v in r <==> MinorOf(v) == m && exists t :: t in tags && t.version == v
  {
    set t | t in tags && MinorOf(t.version) == m :: t.version
  }

  /** The minors with a release not yet at end of life: the keys of the
      overview. */
  function ActiveMinors(tags: set<Tag>, asOf: Instant): set<Minor>
  {
    set t | t in tags && !IsVersionEol(t.version, asOf) :: MinorOf(t.version)
  }

  lemma LatestKeys(tags: set<Tag>, asOf: Instant, latest: map<Minor, Tag>)
    requires IsLatestActive(tags, asOf, latest)
    ensures latest.Keys == ActiveMinors(tags, asOf)
  {
    forall m | m in latest ensures m in ActiveMinors(tags, asOf) {
      assert latest[m] in tags && MinorOf(latest[m].version) == m;
    }
  }

  // ------------------------------------------------------ the first loop

  /** `is_affected`, `total_advisories` and `last_published` after one
      advisory touching the minor. */
  function Mark(o: MinorVersionOverview, published: Instant): MinorVersionOverview
  {
    o.(isAffected := true,
       totalAdvisories := o.totalAdvisories + 1,
       lastPublished := if published > o.lastPublished then published else o.lastPublished)
  }

  /** What one advisory adds to the entry of a minor. */
  function Absorb(o: MinorVersionOverview, a: Advisory): MinorVersionOverview
  {
    if Touches(a, o.version) then
      var marked := Mark(o, a.published);
      marked.(affectedVersions := marked.affectedVersions + VersionsOfMinor(a.affectedVersions, o.version))
    else o
  }

  /** The entry of minor `m` after the given advisories. */
  function Collected(advisories: seq<Advisory>, m: Minor): (o: MinorVersionOverview)
    ensures o.version == m && o.safeVersions == {} && !o.allVersionsAffected
    ensures o.isAffected <==> o.totalAdvisories > 0
    ensures forall v :: v in o.affectedVersions ==> MinorOf(v) == m
    decreases |advisories|
  {
    if |advisories| == 0 then NewMinorVersionOverview(m)
    else Absorb(Collected(advisories[..|advisories| - 1], m), advisories[|advisories| - 1])
  }

  function TouchingIndices(advisories: seq<Advisory>, m: Minor): set<nat>
  {
    set i | 0 <= i < |advisories| && Touches(advisories[i], m)
  }

  /** Each advisory touching the minor is counted once. */
  lemma {:induction false} CollectedCount(advisories: seq<Advisory>, m: Minor)
    ensures Collected(advisories, m).totalAdvisories == |TouchingIndices(advisories, m)|
    decreases |advisories|
  {
    if |advisories| > 0 {
      var n := |advisories|;
      var init := advisories[..n - 1];
      CollectedCount(init, m);
      var before := TouchingIndices(init, m);
      var after := TouchingIndices(advisories, m);
      if Touches(advisories[n - 1], m) {
        assert after == before + {n - 1};
        assert n - 1 !in before;
        assert |after| == |before| + 1;
      } else {
        assert after == before;
      }
    }
  }

  /** A minor is affected exactly when some advisory touches it. */
  lemma {:induction false} CollectedIsAffected(advisories: seq<Advisory>, m: Minor)
    ensures Collected(advisories, m).isAffected <==> exists i :: 0 <= i < |advisories| && Touches(advisories[i], m)
    decreases |advisories|
  {
    if |advisories| > 0 {
      var n := |advisories|;
      var init := advisories[..n - 1];
      CollectedIsAffected(init, m);
      if exists i :: 0 <= i < n - 1 && Touches(init[i], m) {
        var i :| 0 <= i < n - 1 && Touches(init[i], m);
        assert advisories[i] == init[i];
      }
      if exists i :: 0 <= i < n && Touches(advisories[i], m) {
        var i :| 0 <= i < n && Touches(advisories[i], m);
        if i < n - 1 {
          assert advisories[..n - 1][i] == advisories[i];
        }
      }
    }
  }

  /** The affected versions of a minor are those of its minor in any
      advisory. */
  lemma {:induction false} CollectedAffected(advisories: seq<Advisory>, m: Minor, v: Version)
    ensures v in Collected(advisories, m).affectedVersions <==>
      MinorOf(v) == m && exists i :: 0 <= i < |advisories| && v in advisories[i].affectedVersions
    decreases |advisories|
  {
    if |advisories| > 0 {
      var n := |advisories|;
      var init := advisories[..n - 1];
      CollectedAffected(init, m, v);
      if exists i :: 0 <= i < n - 1 && v in init[i].affectedVersions {
        var i :| 0 <= i < n - 1 && v in init[i].affectedVersions;
        assert advisories[i] == init[i];
      }
      if exists i :: 0 <= i < n && v in advisories[i].affectedVersions {
        var i :| 0 <= i < n && v in advisories[i].affectedVersions;
        if i < n - 1 {
          assert advisories[..n - 1][i] == advisories[i];
        }
      }
    }
  }

  /** The last publication is the latest among the touching advisories
      (`datetime.min` when there is none). */
  lemma {:induction false} CollectedLastPublished(advisories: seq<Advisory>, m: Minor)
    ensures forall i :: 0 <= i < |advisories| && Touches(advisories[i], m) ==>
      advisories[i].published <= Collected(advisories, m).lastPublished
    ensures Collected(advisories, m).lastPublished == MinInstant
      || exists i :: 0 <= i < |advisories| && Touches(advisories[i], m)
           && advisories[i].published == Collected(advisories, m).lastPublished
    decreases |advisories|
  {
    if |advisories| > 0 {
      var n := |advisories|;
      var init := advisories[..n - 1];
      CollectedLastPublished(init, m);
      forall i | 0 <= i < n - 1 ensures advisories[i] == init[i] {
      }
    }
  }

  /** The loop over the minors an advisory touches. */
  method MarkMinors(affected: map<Minor, MinorVersionOverview>, a: Advisory)
    returns (updated: map<Minor, MinorVersionOverview>)
    ensures updated.Keys == affected.Keys
    ensures forall m :: m in affected ==>
      updated[m] == if Touches(a, m) then Mark(affected[m], a.published) else affected[m]
  {
    updated := affected;
    var minors := set v | v in a.affectedVersions :: MinorOf(v);
    var todo := minors;
    while todo != {}
      invariant todo <= minors && updated.Keys == affected.Keys
      invariant forall m :: m in affected ==>
        updated[m] == if m in minors - todo then Mark(affected[m], a.published) else affected[m]
      decreases |todo|
    {
      var minor :| minor in todo;
      if minor in updated {
        updated := updated[minor := Mark(updated[minor], a.published)];
      }
      todo := todo - {minor};
    }
    assert minors - todo == minors;
    forall m | m in affected ensures m in minors <==> Touches(a, m) {
      if Touches(a, m) {
        var v :| v in a.affectedVersions && MinorOf(v) == m;
        assert MinorOf(v) in minors;
      }
    }
  }

  /** An entry with more affected versions. */
  function WithVersions(o: MinorVersionOverview, vs: set<Version>): MinorVersionOverview
  {
    o.(affectedVersions := o.affectedVersions + vs)
  }

  lemma VersionsOfMinorAdd(done: set<Version>, version: Version, m: Minor)
    ensures VersionsOfMinor(done + {version}, m)
      == VersionsOfMinor(done, m) + (if MinorOf(version) == m then {version} else {})
  {
  }

  /** Adding a version to the entry of its minor extends that entry's
      versions by it and leaves the others alone. */
  lemma AddVersionStep(affected: map<Minor, MinorVersionOverview>, updated: map<Minor, MinorVersionOverview>,
                       done: set<Version>, version: Version)
    requires updated.Keys == affected.Keys && MinorOf(version) in updated
    requires forall m :: m in affected ==> updated[m] == WithVersions(affected[m], VersionsOfMinor(done, m))
    ensures forall m :: m in affected ==>
      updated[MinorOf(version) := WithVersions(updated[MinorOf(version)], {version})][m]
        == WithVersions(affected[m], VersionsOfMinor(done + {version}, m))
  {
    var minor := MinorOf(version);
    var next := updated[minor := WithVersions(updated[minor], {version})];
    forall m | m in affected ensures next[m] == WithVersions(affected[m], VersionsOfMinor(done + {version}, m)) {
      VersionsOfMinorAdd(done, version, m);
      if m == minor {
        assert VersionsOfMinor(done, m) + {version} == VersionsOfMinor(done + {version}, m);
        assert affected[m].affectedVersions + VersionsOfMinor(done, m) + {version}
            == affected[m].affectedVersions + VersionsOfMinor(done + {version}, m);
      }
    }
  }

  /** A version whose minor has no entry changes nothing. */
  lemma SkipVersionStep(affected: map<Minor, MinorVersionOverview>, updated: map<Minor, MinorVersionOverview>,
                        done: set<Version>, version: Version)
    requires updated.Keys == affected.Keys && MinorOf(version) !in updated
    requires forall m :: m in affected ==> updated[m] == WithVersions(affected[m], VersionsOfMinor(done, m))
    ensures forall m :: m in affected ==> updated[m] == WithVersions(affected[m], VersionsOfMinor(done + {version}, m))
  {
    forall m | m in affected ensures VersionsOfMinor(done + {version}, m) == VersionsOfMinor(done, m) {
      VersionsOfMinorAdd(done, version, m);
    }
  }

  /** The loop over an advisory's versions. */
  method AddVersions(affected: map<Minor, MinorVersionOverview>, a: Advisory)
    returns (updated: map<Minor, MinorVersionOverview>)
    ensures updated.Keys == affected.Keys
    ensures forall m :: m in affected ==> updated[m] == WithVersions(affected[m], VersionsOfMinor(a.affectedVersions, m))
  {
    updated := affected;
    var versions := a.affectedVersions;
    ghost var done: set<Version> := {};
    while versions != {}
      invariant versions <= a.affectedVersions && done <= a.affectedVersions
      invariant forall v :: v in a.affectedVersions ==> (v in done <==> v !in versions)
      invariant updated.Keys == affected.Keys
      invariant forall m :: m in affected ==> updated[m] == WithVersions(affected[m], VersionsOfMinor(done, m))
      decreases |versions|
    {
      var version :| version in versions;
      var minor := MinorOf(version);
      if minor in updated {
        AddVersionStep(affected, updated, done, version);
        updated := updated[minor := updated[minor].(affectedVersions := updated[minor].affectedVersions + {version})];
      } else {
        SkipVersionStep(affected, updated, done, version);
      }
      done := done + {version};
      versions := versions - {version};
    }
    assert done == a.affectedVersions;
  }

  /** One advisory's contribution to every entry (the two inner loops over
      its minors and its versions). */
  method AddAdvisory(affected: map<Minor, MinorVersionOverview>, a: Advisory)
    returns (updated: map<Minor, MinorVersionOverview>)
    requires forall m :: m in affected ==> affected[m].version == m
    ensures updated.Keys == affected.Keys
    ensures forall m :: m in affected ==> updated[m] == Absorb(affected[m], a)
  {
    var marked := MarkMinors(affected, a);
    updated := AddVersions(marked, a);
    forall m | m in affected && !Touches(a, m) ensures VersionsOfMinor(a.affectedVersions, m) == {} {
    }
  }

  /** The loop over the advisories. */
  method CollectAll(advisories: seq<Advisory>, keys: set<Minor>) returns (affected: map<Minor, MinorVersionOverview>)
    ensures affected.Keys == keys
    ensures forall m :: m in keys ==> affected[m] == Collected(advisories, m)
  {
    affected := map m | m in keys :: NewMinorVersionOverview(m);
    for i := 0 to |advisories|
      invariant affected.Keys == keys
      invariant forall m :: m in keys ==> affected[m] == Collected(advisories[..i], m)
    {
      affected := AddAdvisory(affected, advisories[i]);
      assert advisories[..i + 1][..i] == advisories[..i];
    }
    assert advisories[..|advisories|] == advisories;
  }

  // ------------------------------------------------------ severity per patch

  /** The severity kept for version `v` after the given advisories: the first
      one seen, replaced by any later one whose score is strictly greater;
      a comparison Python cannot make fails. */
  function Best(advisories: seq<Advisory>, v: Version): Result<Option<Severity>, Exc>
    decreases |advisories|
  {
    if |advisories| == 0 then Ok(None)
    else
      var existing :- Best(advisories[..|advisories| - 1], v);
      var a := advisories[|advisories| - 1];
      if v in a.affectedVersions && a.severity.Some? then
        if existing.None? then Ok(a.severity)
        else
          var greater :- Greater(a.severity.value.score, existing.value.score);
          Ok(if greater then a.severity else existing)
      else Ok(existing)
  }

  lemma {:induction false} BestErrPersists(advisories: seq<Advisory>, i: nat, v: Version)
    requires i <= |advisories| && Best(advisories[..i], v).Err?
    ensures Best(advisories, v).Err?
    decreases |advisories| - i
  {
    if i < |advisories| {
      var n := |advisories|;
      assert advisories[..n - 1][..i] == advisories[..i];
      BestErrPersists(advisories[..n - 1], i, v);
    } else {
      assert advisories[..i] == advisories;
    }
  }

  lemma {:induction false} BestFailsWithTypeError(advisories: seq<Advisory>, v: Version)
    requires Best(advisories, v).Err?
    ensures Best(advisories, v).error == TypeError
    decreases |advisories|
  {
    if |advisories| > 0 && Best(advisories[..|advisories| - 1], v).Err? {
      BestFailsWithTypeError(advisories[..|advisories| - 1], v);
    }
  }

  /** The kept severity belongs to an advisory affecting `v`, and no
      advisory affecting `v` has a strictly greater score. */
  lemma {:induction false} BestIsHighest(advisories: seq<Advisory>, v: Version, s: Severity)
    requires Best(advisories, v) == Ok(Some(s))
    ensures exists i :: 0 <= i < |advisories| && v in advisories[i].affectedVersions && advisories[i].severity == Some(s)
    ensures forall i :: 0 <= i < |advisories| && v in advisories[i].affectedVersions && advisories[i].severity.Some? ==>
      Greater(advisories[i].severity.value.score, s.score) != Ok(true)
    decreases |advisories|
  {
    var n := |advisories|;
    var init := advisories[..n - 1];
    var a := advisories[n - 1];
    forall i | 0 <= i < n - 1 ensures advisories[i] == init[i] {
    }
    var existing := Best(init, v).value;
    if existing.Some? {
      BestIsHighest(init, v, existing.value);
    } else {
      BestNone(init, v);
    }
    if v in a.affectedVersions && a.severity.Some? {
      GreaterIrreflexive(a.severity.value.score);
      if existing.Some? && s == a.severity.value {
        forall i | 0 <= i < n - 1 && v in advisories[i].affectedVersions && advisories[i].severity.Some?
          ensures Greater(advisories[i].severity.value.score, s.score) != Ok(true)
        {
          if Greater(advisories[i].severity.value.score, s.score) == Ok(true) {
            GreaterTransitive(advisories[i].severity.value.score, s.score, existing.value.score);
          }
        }
      }
    }
  }

  /** No severity is kept exactly when no advisory affecting `v` has one. */
  lemma {:induction false} BestNone(advisories: seq<Advisory>, v: Version)
    requires Best(advisories, v).Ok?
    ensures Best(advisories, v).value.None? <==>
      forall i :: 0 <= i < |advisories| && v in advisories[i].affectedVersions ==> advisories[i].severity.None?
    decreases |advisories|
  {
    if |advisories| > 0 {
      var n := |advisories|;
      BestNone(advisories[..n - 1], v);
      forall i | 0 <= i < n - 1 ensures advisories[i] == advisories[..n - 1][i] {
      }
    }
  }

  /** An advisory not affecting `v` (or without severity) changes nothing. */
  lemma BestSkips(advisories: seq<Advisory>, i: nat, v: Version)
    requires i < |advisories| && !(v in advisories[i].affectedVersions && advisories[i].severity.Some?)
    ensures Best(advisories[..i + 1], v) == Best(advisories[..i], v)
  {
    assert advisories[..i + 1][..i] == advisories[..i];
  }

  /** The versions of minor `k` that some advisory affects. */
  function Candidates(advisories: seq<Advisory>, k: Minor): (r: set<Version>)
    ensures forall v :: v in r <==> MinorOf(v) == k && exists i :: 0 <= i < |advisories| && v in advisories[i].affectedVersions
  {
    set i, v | 0 <= i < |advisories| && v in advisories[i].affectedVersions && MinorOf(v) == k :: v
  }

  /** The severity per patch version of minor `k`. */
  function SeveritySpec(advisories: seq<Advisory>, k: Minor): Result<map<Version, Severity>, Exc>
  {
    var candidates := Candidates(advisories, k);
    if forall v :: v in candidates ==> Best(advisories, v).Ok? then
      Ok(map v | v in candidates && Best(advisories, v).value.Some? :: Best(advisories, v).value.value)
    else Err(TypeError)
  }

  function Lookup(m: map<Version, Severity>, v: Version): Option<Severity>
  {
    if v in m then Some(m[v]) else None
  }

  /** The inner loop of the severity computation: one advisory's versions. */
  method AbsorbSeverity(advisories: seq<Advisory>, i: nat, k: Minor, byPatch: map<Version, Severity>)
    returns (r: Result<map<Version, Severity>, Exc>)
    requires i < |advisories|
    requires forall v :: v in byPatch ==> MinorOf(v) == k
    requires forall v :: MinorOf(v) == k ==> Best(advisories[..i], v) == Ok(Lookup(byPatch, v))
    ensures r.Ok? ==> forall v :: v in r.value ==> MinorOf(v) == k
    ensures r.Ok? ==> forall v :: MinorOf(v) == k ==> Best(advisories[..i + 1], v) == Ok(Lookup(r.value, v))
    ensures r.Err? ==> r.error == TypeError && exists v :: MinorOf(v) == k && Best(advisories[..i + 1], v).Err?
  {
    var a := advisories[i];
    assert advisories[..i + 1][..i] == advisories[..i] && advisories[..i + 1][i] == a;
    var current := byPatch;
    var todo := a.affectedVersions;
    while todo != {}
      invariant todo <= a.affectedVersions
      invariant forall v :: v in current ==> MinorOf(v) == k
      invariant forall v :: MinorOf(v) == k && v !in a.affectedVersions - todo ==>
        Best(advisories[..i], v) == Ok(Lookup(current, v))
      invariant forall v :: MinorOf(v) == k && v in a.affectedVersions - todo ==>
        Best(advisories[..i + 1], v) == Ok(Lookup(current, v))
      decreases |todo|
    {
      var version :| version in todo;
      if MinorOf(version) == k && a.severity.Some? {
        if version !in current {
          current := current[version := a.severity.value];
        } else {
          var greater := Greater(a.severity.value.score, current[version].score);
          if greater.Err? {
            return Err(TypeError);
          }
          if greater.value {
            current := current[version := a.severity.value];
          }
        }
      }
      todo := todo - {version};
    }
    forall v | MinorOf(v) == k && v !in a.affectedVersions
      ensures Best(advisories[..i + 1], v) == Ok(Lookup(current, v))
    {
      BestSkips(advisories, i, v);
    }
    if a.severity.None? {
      forall v | MinorOf(v) == k ensures Best(advisories[..i + 1], v) == Ok(Lookup(current, v)) {
        BestSkips(advisories, i, v);
      }
    }
    r := Ok(current);
  }

  /** The severity loops for minor `k`. */
  method SeverityByPatch(advisories: seq<Advisory>, k: Minor) returns (r: Result<map<Version, Severity>, Exc>)
    ensures r == SeveritySpec(advisories, k)
  {
    var byPatch: map<Version, Severity> := map[];
    for i := 0 to |advisories|
      invariant forall v :: v in byPatch ==> MinorOf(v) == k
      invariant forall v :: MinorOf(v) == k ==> Best(advisories[..i], v) == Ok(Lookup(byPatch, v))
    {
      var next := AbsorbSeverity(advisories, i, k, byPatch);
      if next.Err? {
        var v :| MinorOf(v) == k && Best(advisories[..i + 1], v).Err?;
        BestErrPersists(advisories, i + 1, v);
        BestNoneAtStart(advisories, v, i + 1);
        return Err(TypeError);
      }
      byPatch := next.value;
    }
    assert advisories[..|advisories|] == advisories;
    SeverityComplete(advisories, k, byPatch);
    r := Ok(byPatch);
  }

  lemma SeverityComplete(advisories: seq<Advisory>, k: Minor, byPatch: map<Version, Severity>)
    requires forall v :: v in byPatch ==> MinorOf(v) == k
    requires forall v :: MinorOf(v) == k ==> Best(advisories, v) == Ok(Lookup(byPatch, v))
    ensures SeveritySpec(advisories, k) == Ok(byPatch)
  {
    var candidates := Candidates(advisories, k);
    forall v | v in byPatch ensures v in candidates {
      BestIsHighest(advisories, v, byPatch[v]);
    }
    assert forall v :: v in candidates ==> Best(advisories, v).Ok?;
    var spec := map v | v in candidates && Best(advisories, v).value.Some? :: Best(advisories, v).value.value;
    assert spec.Keys == byPatch.Keys;
    assert spec == byPatch;
  }

  /** A version no advisory affects keeps no severity; so a failure can only
      come from a candidate. */
  lemma BestNoneAtStart(advisories: seq<Advisory>, v: Version, i: nat)
    requires i <= |advisories| && Best(advisories[..i], v).Err?
    ensures exists j :: 0 <= j < |advisories| && v in advisories[j].affectedVersions
  {
    if forall j :: 0 <= j < |advisories| ==> v !in advisories[j].affectedVersions {
      NeverAffectedNone(advisories[..i], v);
    }
  }

  lemma {:induction false} NeverAffectedNone(advisories: seq<Advisory>, v: Version)
    requires forall j :: 0 <= j < |advisories| ==> v !in advisories[j].affectedVersions
    ensures Best(advisories, v) == Ok(None)
    decreases |advisories|
  {
    if |advisories| > 0 {
      var n := |advisories|;
      var init := advisories[..n - 1];
      forall j | 0 <= j < n - 1 ensures v !in init[j].affectedVersions {
        assert init[j] == advisories[j];
      }
      NeverAffectedNone(init, v);
    }
  }

  // ------------------------------------------------------ the entries

  lemma VersionStringsInjective()
    ensures forall a: Version, b: Version :: VersionString(a) == VersionString(b) ==> a == b
  {
    forall a: Version, b: Version | VersionString(a) == VersionString(b) ensures a == b {
      VersionStringInjective(a, b);
    }
  }

  lemma MinorStringsInjective()
    ensures forall a: Minor, b: Minor :: MinorString(a) == MinorString(b) ==> a == b
  {
    forall a: Minor, b: Minor | MinorString(a) == MinorString(b) ensures a == b {
      MinorStringInjective(a, b);
    }
  }

  /** The severities keyed by `"major.minor.patch"`. */
  function ByVersionString(sev: map<Version, Severity>): (r: map<string, Severity>)
    ensures forall v :: VersionString(v) in r <==> v in sev
    ensures forall v :: v in sev ==> r[VersionString(v)] == sev[v]
    ensures forall key :: key in r ==> exists v :: v in sev && VersionString(v) == key
  {
    VersionStringsInjective();
    map v | v in sev :: VersionString(v) := sev[v]
  }

  /** The entries keyed by `"major.minor"`. */
  function ByMinorString(entries: map<Minor, MinorOverview>): (r: map<string, MinorOverview>)
    ensures forall m :: MinorString(m) in r <==> m in entries
    ensures forall m :: m in entries ==> r[MinorString(m)] == entries[m]
    ensures forall key :: key in r ==> exists m :: m in entries && MinorString(m) == key
  {
    MinorStringsInjective();
    map m | m in entries :: MinorString(m) := entries[m]
  }

  /** The entry of minor `k` once the advisories are absorbed and its safe
      versions are set. */
  function Prepared(advisories: seq<Advisory>, tags: set<Tag>, k: Minor): MinorVersionOverview
  {
    var c := Collected(advisories, k);
    c.(safeVersions := TagVersionsOf(tags, k) - c.affectedVersions)
  }

  /** The entry of minor `k` finished from its prepared state `p`. */
  function Finished(advisories: seq<Advisory>, tags: set<Tag>, k: Minor, p: MinorVersionOverview): Result<MinorOverview, Exc>
  {
    var sev :- SeveritySpec(advisories, k);
    Ok(MinorOverview(k, p.isAffected, p.isAffected && TagVersionsOf(tags, k) == p.affectedVersions,
                     ByVersionString(sev), p.totalAdvisories, p.lastPublished,
                     Compressed(p.affectedVersions), Compressed(p.safeVersions)))
  }

  /** The finished entry of minor `k`. */
  function EntrySpec(advisories: seq<Advisory>, tags: set<Tag>, k: Minor): Result<MinorOverview, Exc>
  {
    Finished(advisories, tags, k, Prepared(advisories, tags, k))
  }

  /** `get_version_overview`. */
  function OverviewSpec(advisories: seq<Advisory>, tags: set<Tag>, asOf: Instant): Result<map<string, MinorOverview>, Exc>
  {
    var entries :- AllOk(ActiveMinors(tags, asOf), m => EntrySpec(advisories, tags, m));
    Ok(ByMinorString(entries))
  }

  /** The values of `f` over `keys` when they all succeed; a `TypeError`
      otherwise, the only failure an entry can have. */
  function AllOk<K, V>(keys: set<K>, f: K -> Result<V, Exc>): Result<map<K, V>, Exc>
  {
    if forall m :: m in keys ==> f(m).Ok? then Ok(map m | m in keys :: f(m).value) else Err(TypeError)
  }

  /** The loop setting every entry's safe versions. */
  method SetSafe(affected: map<Minor, MinorVersionOverview>, latest: map<Minor, Tag>, tags: set<Tag>)
    returns (updated: map<Minor, MinorVersionOverview>)
    requires latest.Keys == affected.Keys
    ensures updated.Keys == affected.Keys
    ensures forall m :: m in affected ==>
      updated[m] == affected[m].(safeVersions := TagVersionsOf(tags, m) - affected[m].affectedVersions)
  {
    updated := affected;
    var todo := latest.Keys;
    while todo != {}
      invariant todo <= latest.Keys && updated.Keys == affected.Keys
      invariant forall m :: m in affected && m !in todo ==>
        updated[m] == affected[m].(safeVersions := TagVersionsOf(tags, m) - affected[m].affectedVersions)
      invariant forall m :: m in todo ==> updated[m] == affected[m]
      decreases |todo|
    {
      var v :| v in todo;
      var allPatchVersions := set t | t in tags && MinorOf(t.version) == v :: t.version;
      updated := updated[v := updated[v].(safeVersions := allPatchVersions - updated[v].affectedVersions)];
      todo := todo - {v};
    }
  }

  /** The body of the loop over the entries: all-affected flag, compression
      and the severity per patch version. */
  method FinishEntry(advisories: seq<Advisory>, tags: set<Tag>, k: Minor, value: MinorVersionOverview)
    returns (r: Result<MinorOverview, Exc>)
    ensures r == Finished(advisories, tags, k, value)
  {
    var versionsInMinor := set t | t in tags && MinorOf(t.version) == k :: t.version;
    var allAffected := value.isAffected && versionsInMinor == value.affectedVersions;
    var affectedRanges := CompressPatchVersionsIntoRanges(value.affectedVersions);
    var safeRanges := CompressPatchVersionsIntoRanges(value.safeVersions);
    var severityByPatch := SeverityByPatch(advisories, k);
    if severityByPatch.Err? {
      return Err(severityByPatch.error);
    }
    r := Ok(MinorOverview(k, value.isAffected, allAffected, ByVersionString(severityByPatch.value),
                          value.totalAdvisories, value.lastPublished, affectedRanges, safeRanges));
  }

  /** The first two loops: the entries of the active minors with their
      advisories absorbed and their safe versions set. */
  method PrepareEntries(advisories: seq<Advisory>, tags: set<Tag>, asOf: Instant)
    returns (affected: map<Minor, MinorVersionOverview>)
    ensures affected.Keys == ActiveMinors(tags, asOf)
    ensures forall m :: m in affected ==> affected[m] == Prepared(advisories, tags, m)
  {
    var latest := GetLatestActivePatchVersions(tags, asOf);
    LatestKeys(tags, asOf, latest);
    affected := CollectAll(advisories, latest.Keys);
    affected := SetSafe(affected, latest, tags);
  }

  /** The loop over the entries; the entries are visited in an unspecified
      order, which cannot change the result. */
  method FinishEntries(advisories: seq<Advisory>, tags: set<Tag>, affected: map<Minor, MinorVersionOverview>)
    returns (r: Result<map<Minor, MinorOverview>, Exc>, ghost failed: Minor)
    ensures r.Ok? ==> (r.value.Keys == affected.Keys
                       && forall m :: m in affected ==> Finished(advisories, tags, m, affected[m]) == Ok(r.value[m]))
    ensures r.Err? ==> r.error == TypeError && failed in affected && Finished(advisories, tags, failed, affected[failed]).Err?
  {
    failed := (0, 0);
    var entries: map<Minor, MinorOverview> := map[];
    var todo := affected.Keys;
    while todo != {}
      invariant todo <= affected.Keys
      invariant entries.Keys == affected.Keys - todo
      invariant forall m :: m in entries ==> Finished(advisories, tags, m, affected[m]) == Ok(entries[m])
      decreases |todo|
    {
      var k :| k in todo;
      var entry := FinishEntry(advisories, tags, k, affected[k]);
      if entry.Err? {
        return Err(TypeError), k;
      }
      entries := entries[k := entry.value];
      todo := todo - {k};
    }
    r := Ok(entries);
  }

  /** Finishing the prepared entries gives the specified ones. */
  lemma FinishedPrepared(advisories: seq<Advisory>, tags: set<Tag>, affected: map<Minor, MinorVersionOverview>,
                         entries: map<Minor, MinorOverview>)
    requires entries.Keys == affected.Keys
    requires forall m :: m in affected ==> affected[m] == Prepared(advisories, tags, m)
    requires forall m :: m in affected ==> Finished(advisories, tags, m, affected[m]) == Ok(entries[m])
    ensures forall m :: m in affected ==> EntrySpec(advisories, tags, m) == Ok(entries[m])
  {
  }

  lemma OverviewOfEntries(advisories: seq<Advisory>, tags: set<Tag>, asOf: Instant, entries: map<Minor, MinorOverview>)
    requires entries.Keys == ActiveMinors(tags, asOf)
    requires forall m :: m in entries ==> EntrySpec(advisories, tags, m) == Ok(entries[m])
    ensures OverviewSpec(advisories, tags, asOf) == Ok(ByMinorString(entries))
  {
    EntryMap(ActiveMinors(tags, asOf), m => EntrySpec(advisories, tags, m), entries);
  }

  /** Entries that all succeeded are read back as one map. */
  lemma EntryMap<K, V>(keys: set<K>, f: K -> Result<V, Exc>, entries: map<K, V>)
    requires entries.Keys == keys
    requires forall m :: m in keys ==> f(m) == Ok(entries[m])
    ensures AllOk(keys, f) == Ok(entries)
  {
    var spec := map m | m in keys :: f(m).value;
    assert spec.Keys == entries.Keys;
    assert spec == entries;
  }

  lemma OverviewOfFailure(advisories: seq<Advisory>, tags: set<Tag>, asOf: Instant, m: Minor)
    requires m in ActiveMinors(tags, asOf) && EntrySpec(advisories, tags, m).Err?
    ensures OverviewSpec(advisories, tags, asOf) == Err(TypeError)
  {
  }

  /** `get_version_overview`. */
  method GetVersionOverview(advisories: seq<Advisory>, tags: set<Tag>, asOf: Instant)
    returns (r: Result<map<string, MinorOverview>, Exc>)
    ensures r == OverviewSpec(advisories, tags, asOf)
  {
    var affected := PrepareEntries(advisories, tags, asOf);
    var entries, failed := FinishEntries(advisories, tags, affected);
    if entries.Err? {
      OverviewOfFailure(advisories, tags, asOf, failed);
      return Err(TypeError);
    }
    FinishedPrepared(advisories, tags, affected, entries.value);
    OverviewOfEntries(advisories, tags, asOf, entries.value);
    r := Ok(ByMinorString(entries.value));
  }

  // ------------------------------------------------------ properties

  /** The versions of minor `m` that some advisory affects. */
  function AffectedOf(advisories: seq<Advisory>, m: Minor): set<Version>
  {
    Candidates(advisories, m)
  }

  /** The overview has one entry per active minor, keyed `"major.minor"`. */
  lemma OverviewKeys(advisories: seq<Advisory>, tags: set<Tag>, asOf: Instant, r: map<string, MinorOverview>)
    requires OverviewSpec(advisories, tags, asOf) == Ok(r)
    ensures forall m :: MinorString(m) in r <==> m in ActiveMinors(tags, asOf)
    ensures forall key :: key in r ==> exists m :: m in ActiveMinors(tags, asOf) && MinorString(m) == key
    ensures forall m :: m in ActiveMinors(tags, asOf) ==> EntrySpec(advisories, tags, m) == Ok(r[MinorString(m)])
  {
  }

  /** The severity computation of a minor fails exactly when the kept
      severity of one of its affected versions does. */
  lemma SeverityFails(advisories: seq<Advisory>, k: Minor)
    ensures SeveritySpec(advisories, k).Err? <==>
      exists v :: v in AffectedOf(advisories, k) && Best(advisories, v).Err?
  {
    if SeveritySpec(advisories, k).Err? {
      var v :| v in Candidates(advisories, k) && !Best(advisories, v).Ok?;
      assert v in AffectedOf(advisories, k) && Best(advisories, v).Err?;
    }
  }

  lemma EntryFails(advisories: seq<Advisory>, tags: set<Tag>, k: Minor)
    ensures EntrySpec(advisories, tags, k).Err? <==> SeveritySpec(advisories, k).Err?
  {
  }

  /** The overview fails exactly when, for some affected version of an active
      minor, two severity scores cannot be compared; the failure is a
      `TypeError`. */
  lemma OverviewFails(advisories: seq<Advisory>, tags: set<Tag>, asOf: Instant)
    ensures OverviewSpec(advisories, tags, asOf).Err? <==>
      exists m :: m in ActiveMinors(tags, asOf)
                  && exists v :: v in AffectedOf(advisories, m) && Best(advisories, v).Err?
    ensures OverviewSpec(advisories, tags, asOf).Err? ==> OverviewSpec(advisories, tags, asOf).error == TypeError
  {
    forall m | m in ActiveMinors(tags, asOf)
      ensures EntrySpec(advisories, tags, m).Err? <==> exists v :: v in AffectedOf(advisories, m) && Best(advisories, v).Err?
    {
      EntryFails(advisories, tags, m);
      SeverityFails(advisories, m);
    }
  }

  /** Counting, the affected flag and the last publication of an entry. */
  lemma EntryCounts(advisories: seq<Advisory>, tags: set<Tag>, m: Minor, e: MinorOverview)
    requires EntrySpec(advisories, tags, m) == Ok(e)
    ensures e.version == m
    ensures e.totalAdvisories == |TouchingIndices(advisories, m)|
    ensures e.isAffected <==> exists i :: 0 <= i < |advisories| && Touches(advisories[i], m)
    ensures forall i :: 0 <= i < |advisories| && Touches(advisories[i], m) ==> advisories[i].published <= e.lastPublished
    ensures e.lastPublished == MinInstant
      || exists i :: 0 <= i < |advisories| && Touches(advisories[i], m) && advisories[i].published == e.lastPublished
  {
    CollectedCount(advisories, m);
    CollectedIsAffected(advisories, m);
    CollectedLastPublished(advisories, m);
  }

  /** The affected ranges stand for exactly the affected versions of the
      minor, the safe ranges for its released versions no advisory affects,
      and every version is counted as affected only when it is. */
  lemma EntryVersions(advisories: seq<Advisory>, tags: set<Tag>, m: Minor, e: MinorOverview)
    requires EntrySpec(advisories, tags, m) == Ok(e)
    ensures ExpandAll(e.affectedVersions) == AffectedOf(advisories, m)
    ensures ExpandAll(e.safeVersions) == TagVersionsOf(tags, m) - AffectedOf(advisories, m)
    ensures e.allVersionsAffected <==> e.isAffected && TagVersionsOf(tags, m) == AffectedOf(advisories, m)
    ensures e.allVersionsAffected ==> e.safeVersions == []
  {
    var c := Collected(advisories, m);
    forall v ensures v in c.affectedVersions <==> v in AffectedOf(advisories, m) {
      CollectedAffected(advisories, m, v);
    }
    assert c.affectedVersions == AffectedOf(advisories, m);
    CompressedWithinMinorExpands(c.affectedVersions, m);
    var safe := TagVersionsOf(tags, m) - c.affectedVersions;
    CompressedWithinMinorExpands(safe, m);
    if e.allVersionsAffected {
      assert safe == {};
      CompressedEmptyAndSingleton((0, 0, 0));
    }
  }

  /** The severity per patch version: a version of the minor has one
      exactly when an advisory with a severity affects it, and the one kept
      belongs to such an advisory and is not beaten by a strictly greater
      score. */
  lemma EntrySeverity(advisories: seq<Advisory>, tags: set<Tag>, m: Minor, e: MinorOverview, v: Version)
    requires EntrySpec(advisories, tags, m) == Ok(e) && MinorOf(v) == m
    ensures VersionString(v) in e.severityByPatchVersion <==>
      exists i :: 0 <= i < |advisories| && v in advisories[i].affectedVersions && advisories[i].severity.Some?
    ensures VersionString(v) in e.severityByPatchVersion ==>
      var s := e.severityByPatchVersion[VersionString(v)];
      (exists i :: 0 <= i < |advisories| && v in advisories[i].affectedVersions && advisories[i].severity == Some(s))
      && forall i :: 0 <= i < |advisories| && v in advisories[i].affectedVersions && advisories[i].severity.Some? ==>
           Greater(advisories[i].severity.value.score, s.score) != Ok(true)
  {
    var sev := SeveritySpec(advisories, m).value;
    if v in Candidates(advisories, m) {
      BestNone(advisories, v);
      if v in sev {
        BestIsHighest(advisories, v, sev[v]);
      }
    } else {
      assert v !in sev;
    }
  }

  /** Every key of the severity map is the string of a version of the
      minor. */
  lemma EntrySeverityKeys(advisories: seq<Advisory>, tags: set<Tag>, m: Minor, e: MinorOverview)
    requires EntrySpec(advisories, tags, m) == Ok(e)
    ensures forall key :: key in e.severityByPatchVersion ==>
      exists v :: v in AffectedOf(advisories, m) && VersionString(v) == key
  {
  }
}
