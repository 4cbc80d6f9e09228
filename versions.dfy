/** `pythoncve/versions.py`: end-of-life dates, the 2.x/3.x tag filter, the
    latest active patch release of each minor, and the compression of a set
    of versions into ranges of consecutive patch releases. */
module Versions {
  import opened VersionTypes
  import opened Models
  import Sorting

  // ---------------------------------------------------------------- end of life

  /** `EOL_DATES`: the end-of-life instant of each retired minor (midnight UTC
      of the listed day). */
  const EolDates: map<Minor, Instant> := map[
    (2, 0) := 993168000,    // 2001-06-22
    (2, 1) := 1018310400,   // 2002-04-09
    (2, 2) := 1054252800,   // 2003-05-30
    (2, 3) := 1205193600,   // 2008-03-11
    (2, 4) := 1229644800,   // 2008-12-19
    (2, 5) := 1306368000,   // 2011-05-26
    (2, 6) := 1383004800,   // 2013-10-29
    (2, 7) := 1577836800,   // 2020-01-01
    (3, 0) := 1246060800,   // 2009-06-27
    (3, 1) := 1333929600,   // 2012-04-09
    (3, 2) := 1455926400,   // 2016-02-20
    (3, 3) := 1506643200,   // 2017-09-29
    (3, 4) := 1552867200,   // 2019-03-18
    (3, 5) := 1601424000,   // 2020-09-30
    (3, 6) := 1640217600,   // 2021-12-23
    (3, 7) := 1687824000,   // 2023-06-27
    (3, 8) := 1728259200,   // 2024-10-07
    (3, 9) := 1761868800    // 2025-10-31
  ]

  /** `is_version_eol(version, as_of)`, with the reference instant always
      given by the caller. */
  predicate IsVersionEol(v: Version, asOf: Instant)
  {
    MinorOf(v) in EolDates && asOf >= EolDates[MinorOf(v)]
  }

  /** The minors the table retires are 2.0 to 2.7 and 3.0 to 3.9: no other
      version is ever end of life, nothing is before 2001-06-22, and from
      2025-10-31 on exactly those minors are. */
  lemma EolRetiredMinors(v: Version, asOf: Instant)
    ensures IsVersionEol(v, asOf) ==> (v.0 == 2 && v.1 <= 7) || (v.0 == 3 && v.1 <= 9)
    ensures asOf < 993168000 ==> !IsVersionEol(v, asOf)
    ensures asOf >= 1761868800 ==> (IsVersionEol(v, asOf) <==> (v.0 == 2 && v.1 <= 7) || (v.0 == 3 && v.1 <= 9))
  {
    LastEolDate();
    FirstEolDate();
  }

  /** No listed date is earlier than 2001-06-22. */
  lemma FirstEolDate()
    ensures forall m :: m in EolDates ==> 993168000 <= EolDates[m]
  {
    forall m | m in EolDates ensures 993168000 <= EolDates[m] {
      assert m in EolDates.Keys;
    }
  }

  /** Once end of life, always end of life; and the patch does not matter. */
  lemma EolMonotone(v: Version, w: Version, t: Instant, u: Instant)
    requires IsVersionEol(v, t) && t <= u && MinorOf(w) == MinorOf(v)
    ensures IsVersionEol(w, u)
  {
  }

  /** 2025-12-24T00:00:00Z */
  const TestDate: Instant := 1766534400

  /** Every minor with a date is end of life on 2025-12-24; 3.10 and 4.0 are
      not. */
  lemma EolExamples()
    ensures forall m :: m in EolDates ==> IsVersionEol((m.0, m.1, 0), TestDate)
    ensures !IsVersionEol((3, 10, 0), TestDate) && !IsVersionEol((4, 0, 0), TestDate)
  {
    LastEolDate();
    UndatedMinors();
  }

  /** 3.10 and 4.0 have no end-of-life date. */
  lemma UndatedMinors()
    ensures (3, 10) !in EolDates && (4, 0) !in EolDates
  {
  }

  /** No listed date is later than 2025-10-31. */
  lemma LastEolDate()
    ensures forall m :: m in EolDates ==> EolDates[m] <= 1761868800
  {
    forall m | m in EolDates ensures EolDates[m] <= 1761868800 {
      assert m in EolDates.Keys;
    }
  }

  // ---------------------------------------------------------------- 2.x and 3.x

  /** `get_cpython_2x_or_3x_versions` */
  function Get2xOr3xVersions(tags: set<Tag>): (r: set<Tag>)
    ensures r <= tags
    ensures forall t :: t in tags ==> (t in r <==> 2 <= t.version.0 <= 3)
  {
    set t | t in tags && 2 <= t.version.0 <= 3
  }

  lemma Get2xOr3xExample()
    ensures var a := Tag("a1", "u1", (3, 6, 15), 0);
            var b := Tag("b2", "v2", (1, 1, 1), 0);
            var c := Tag("c3", "x3", (4, 0, 0), 0);
            var d := Tag("d4", "y4", (2, 7, 2), 0);
            Get2xOr3xVersions({a, b, c, d}) == {a, d}
  {
  }

  // ---------------------------------------------------------------- latest active patch

  /** `latest` maps every minor that has a tag not yet end of life to one of
      its tags with the largest patch number, and nothing else. */
  predicate IsLatestActive(tags: set<Tag>, asOf: Instant, latest: map<Minor, Tag>)
  {
    (forall m :: m in latest ==>
       latest[m] in tags && MinorOf(latest[m].version) == m && !IsVersionEol(latest[m].version, asOf))
    && (forall t :: t in tags && !IsVersionEol(t.version, asOf) ==>
          MinorOf(t.version) in latest && t.version.2 <= latest[MinorOf(t.version)].version.2)
  }

  /** `get_latest_active_patch_versions`; the loop visits the tags in an
      unspecified order, as Python's iteration over a set does. */
  method GetLatestActivePatchVersions(tags: set<Tag>, asOf: Instant) returns (latest: map<Minor, Tag>)
    ensures IsLatestActive(tags, asOf, latest)
  {
    latest := map[];
    var todo := tags;
    while todo != {}
      invariant todo <= tags
      invariant IsLatestActive(tags - todo, asOf, latest)
      decreases |todo|
    {
      var tag :| tag in todo;
      if !IsVersionEol(tag.version, asOf) {
        var minor := MinorOf(tag.version);
        if minor !in latest || tag.version.2 > latest[minor].version.2 {
          latest := latest[minor := tag];
        }
      }
      todo := todo - {tag};
    }
    assert tags - todo == tags;
  }

  /** End-of-life minors never appear. */
  lemma LatestOmitsEolMinors(tags: set<Tag>, asOf: Instant, latest: map<Minor, Tag>, m: Minor)
    requires IsLatestActive(tags, asOf, latest)
    requires m in EolDates && asOf >= EolDates[m]
    ensures m !in latest
  {
  }

  /** The test's tags: 3.6 is end of life, so only 4.0 remains and its
      latest tag is 4.0.2. */
  lemma LatestActiveExample(latest: map<Minor, Tag>, asOf: Instant)
    requires asOf >= EolDates[(3, 6)]
    requires IsLatestActive({Tag("a1", "u1", (3, 6, 5), 0), Tag("b2", "v2", (3, 6, 15), 0),
                             Tag("c3", "x3", (4, 0, 1), 0), Tag("d4", "y4", (4, 0, 2), 0)}, asOf, latest)
    ensures latest == map[(4, 0) := Tag("d4", "y4", (4, 0, 2), 0)]
  {
    var tags := {Tag("a1", "u1", (3, 6, 5), 0), Tag("b2", "v2", (3, 6, 15), 0),
                 Tag("c3", "x3", (4, 0, 1), 0), Tag("d4", "y4", (4, 0, 2), 0)};
    var d := Tag("d4", "y4", (4, 0, 2), 0);
    assert d in tags && !IsVersionEol(d.version, asOf);
    assert (4, 0) in latest;
    forall m | m in latest ensures m == (4, 0) {
      assert latest[m] in tags;
    }
    assert latest.Keys == {(4, 0)};
    assert latest[(4, 0)] in tags;
  }

  // ---------------------------------------------------------------- runs

  function Last<T>(s: seq<T>): T
    requires |s| > 0
  {
    s[|s| - 1]
  }

  function Flatten<T>(ss: seq<seq<T>>): seq<T>
  {
    if |ss| == 0 then [] else Flatten(ss[..|ss| - 1]) + ss[|ss| - 1]
  }

  /** The as-written join test of the compression loop: the next version's
      patch is one more than the previous one's, whatever the minors. */
  predicate PatchFollows(a: Version, b: Version)
  {
    b.2 == a.2 + 1
  }

  /** The evidently intended join test: the next patch of the same minor. */
  predicate NextPatch(a: Version, b: Version)
  {
    MinorOf(a) == MinorOf(b) && b.2 == a.2 + 1
  }

  /** Cuts `xs` into maximal runs: each element joins the run of its
      predecessor exactly when `adj(predecessor, element)`. */
  function Runs(xs: seq<Version>, adj: (Version, Version) -> bool): (rs: seq<seq<Version>>)
    ensures forall k :: 0 <= k < |rs| ==> |rs[k]| > 0
    ensures |rs| == 0 <==> |xs| == 0
    decreases |xs|
  {
    if |xs| == 0 then []
    else
      var init := Runs(xs[..|xs| - 1], adj);
      var x := xs[|xs| - 1];
      if |init| > 0 && adj(Last(Last(init)), x) then
        ExtendKeepsNonEmpty(init, x);
        init[..|init| - 1] + [Last(init) + [x]]
      else
        OpenKeepsNonEmpty(init, x);
        init + [[x]]
  }

  /** Extending the last run keeps every run non-empty. */
  lemma ExtendKeepsNonEmpty<T>(init: seq<seq<T>>, x: T)
    requires |init| > 0 && forall k :: 0 <= k < |init| ==> |init[k]| > 0
    ensures var rs := init[..|init| - 1] + [Last(init) + [x]];
      |rs| == |init| && forall k :: 0 <= k < |rs| ==> |rs[k]| > 0
  {
    var rs := init[..|init| - 1] + [Last(init) + [x]];
    forall k | 0 <= k < |rs| ensures |rs[k]| > 0 {
      if k < |init| - 1 { assert rs[k] == init[k]; }
    }
  }

  /** Opening a new run keeps every run non-empty. */
  lemma OpenKeepsNonEmpty<T>(init: seq<seq<T>>, x: T)
    requires forall k :: 0 <= k < |init| ==> |init[k]| > 0
    ensures var rs := init + [[x]];
      |rs| > 0 && forall k :: 0 <= k < |rs| ==> |rs[k]| > 0
  {
    var rs := init + [[x]];
    forall k | 0 <= k < |rs| ensures |rs[k]| > 0 {
      if k < |init| { assert rs[k] == init[k]; }
    }
  }

  /** Appending to the last run or opening a new one keeps the flattening
      equal to the input followed by the new element. */
  lemma FlattenExtend(init: seq<seq<Version>>, x: Version)
    requires |init| > 0
    ensures Flatten(init[..|init| - 1] + [Last(init) + [x]]) == Flatten(init) + [x]
  {
    var m := |init|;
    var rs := init[..m - 1] + [Last(init) + [x]];
    assert rs[..m - 1] == init[..m - 1];
    assert Flatten(init) == Flatten(init[..m - 1]) + init[m - 1];
  }

  lemma FlattenNew(init: seq<seq<Version>>, x: Version)
    ensures Flatten(init + [[x]]) == Flatten(init) + [x]
  {
    assert (init + [[x]])[..|init|] == init;
  }

  lemma {:induction false} RunsFlatten(xs: seq<Version>, adj: (Version, Version) -> bool)
    ensures Flatten(Runs(xs, adj)) == xs
    decreases |xs|
  {
    if |xs| > 0 {
      var n := |xs|;
      var front, x := xs[..n - 1], xs[n - 1];
      assert xs == front + [x];
      RunsFlatten(front, adj);
      RunsSnoc(front, x, adj);
      var init := Runs(front, adj);
      if |init| > 0 && adj(Last(Last(init)), x) {
        FlattenExtend(init, x);
      } else {
        FlattenNew(init, x);
      }
    }
  }

  /** Inside every run each element is adjacent to its predecessor. */
  predicate AllAdjacent(rs: seq<seq<Version>>, adj: (Version, Version) -> bool)
  {
    forall k, i :: 0 <= k < |rs| && 0 < i < |rs[k]| ==> adj(rs[k][i - 1], rs[k][i])
  }

  lemma AdjacentExtend(init: seq<seq<Version>>, x: Version, adj: (Version, Version) -> bool)
    requires |init| > 0 && |Last(init)| > 0 && AllAdjacent(init, adj) && adj(Last(Last(init)), x)
    ensures AllAdjacent(init[..|init| - 1] + [Last(init) + [x]], adj)
  {
    var m := |init|;
    var rs := init[..m - 1] + [Last(init) + [x]];
    forall k, i | 0 <= k < |rs| && 0 < i < |rs[k]| ensures adj(rs[k][i - 1], rs[k][i]) {
      if k < m - 1 {
        assert rs[k] == init[k];
      } else if i < |init[m - 1]| {
        assert rs[k][i - 1] == init[m - 1][i - 1] && rs[k][i] == init[m - 1][i];
      } else {
        assert rs[k][i - 1] == Last(Last(init)) && rs[k][i] == x;
      }
    }
  }

  lemma AdjacentNew(init: seq<seq<Version>>, x: Version, adj: (Version, Version) -> bool)
    requires AllAdjacent(init, adj)
    ensures AllAdjacent(init + [[x]], adj)
  {
    var rs := init + [[x]];
    forall k, i | 0 <= k < |rs| && 0 < i < |rs[k]| ensures adj(rs[k][i - 1], rs[k][i]) {
      assert k < |init| && rs[k] == init[k];
    }
  }

  /** Inside a run every element is adjacent to its predecessor. */
  lemma {:induction false} RunsAdjacent(xs: seq<Version>, adj: (Version, Version) -> bool)
    ensures AllAdjacent(Runs(xs, adj), adj)
    decreases |xs|
  {
    if |xs| > 0 {
      var n := |xs|;
      var init := Runs(xs[..n - 1], adj);
      var x := xs[n - 1];
      RunsAdjacent(xs[..n - 1], adj);
      if |init| > 0 && adj(Last(Last(init)), x) {
        AdjacentExtend(init, x, adj);
      } else {
        AdjacentNew(init, x, adj);
      }
    }
  }

  /** No run could have been continued by the first element of the next. */
  predicate Separated(rs: seq<seq<Version>>, adj: (Version, Version) -> bool)
  {
    forall k :: 0 < k < |rs| && |rs[k - 1]| > 0 && |rs[k]| > 0 ==> !adj(Last(rs[k - 1]), rs[k][0])
  }

  lemma SeparatedExtend(init: seq<seq<Version>>, x: Version, adj: (Version, Version) -> bool)
    requires |init| > 0 && |Last(init)| > 0
    requires Separated(init, adj)
    ensures Separated(init[..|init| - 1] + [Last(init) + [x]], adj)
  {
    var m := |init|;
    var rs := init[..m - 1] + [Last(init) + [x]];
    forall k | 0 < k < |rs| && |rs[k - 1]| > 0 && |rs[k]| > 0 ensures !adj(Last(rs[k - 1]), rs[k][0]) {
      assert rs[k - 1] == init[k - 1];
      assert rs[k][0] == init[k][0];
    }
  }

  lemma SeparatedNew(init: seq<seq<Version>>, x: Version, adj: (Version, Version) -> bool)
    requires Separated(init, adj)
    requires |init| > 0 && |Last(init)| > 0 ==> !adj(Last(Last(init)), x)
    ensures Separated(init + [[x]], adj)
  {
    var rs := init + [[x]];
    forall k | 0 < k < |rs| && |rs[k - 1]| > 0 && |rs[k]| > 0 ensures !adj(Last(rs[k - 1]), rs[k][0]) {
      assert rs[k - 1] == init[k - 1];
      if k < |init| {
        assert rs[k] == init[k];
      }
    }
  }

  /** Runs are maximal: the first element of a run is not adjacent to the
      last element of the run before it. */
  lemma {:induction false} RunsMaximal(xs: seq<Version>, adj: (Version, Version) -> bool)
    ensures Separated(Runs(xs, adj), adj)
    decreases |xs|
  {
    if |xs| > 0 {
      var n := |xs|;
      var init := Runs(xs[..n - 1], adj);
      var x := xs[n - 1];
      RunsMaximal(xs[..n - 1], adj);
      if |init| > 0 && adj(Last(Last(init)), x) {
        SeparatedExtend(init, x, adj);
      } else {
        SeparatedNew(init, x, adj);
      }
    }
  }

  /** The last run ends with the last element. */
  lemma RunsEndWithLast(xs: seq<Version>, adj: (Version, Version) -> bool)
    requires |xs| > 0
    ensures Last(Last(Runs(xs, adj))) == Last(xs)
  {
  }

  /** Two join tests that agree on every pair of the input give the same runs. */
  lemma {:induction false} RunsAgree(xs: seq<Version>, adj1: (Version, Version) -> bool, adj2: (Version, Version) -> bool)
    requires forall a, b :: a in xs && b in xs ==> adj1(a, b) == adj2(a, b)
    ensures Runs(xs, adj1) == Runs(xs, adj2)
    decreases |xs|
  {
    if |xs| > 0 {
      var n := |xs|;
      var init := xs[..n - 1];
      forall a, b | a in init && b in init ensures adj1(a, b) == adj2(a, b) {
        assert a in xs && b in xs;
      }
      RunsAgree(init, adj1, adj2);
      if n > 1 {
        RunsEndWithLast(init, adj1);
        assert Last(init) in xs;
      }
    }
  }

  // ---------------------------------------------------------------- ranges

  /** `(start,)` when the run has one version, `(start, end)` otherwise. */
  function CloseRange(start: Version, end: Version): VersionRange
  {
    if start == end then Single(start) else Pair(start, end)
  }

  function RangesOf(rs: seq<seq<Version>>): (r: seq<VersionRange>)
    requires forall k :: 0 <= k < |rs| ==> |rs[k]| > 0
    ensures |r| == |rs|
  {
    seq(|rs|, k requires 0 <= k < |rs| => CloseRange(rs[k][0], Last(rs[k])))
  }

  /** What `compress_patch_versions_into_ranges` returns, as written. */
  function Compressed(versions: set<Version>): seq<VersionRange>
  {
    RangesOf(Runs(EncodeVersions(versions), PatchFollows))
  }

  /** The evidently intended compression: runs never cross a minor. */
  function CompressedByMinor(versions: set<Version>): seq<VersionRange>
  {
    RangesOf(Runs(EncodeVersions(versions), NextPatch))
  }

  /** Appending one version either extends the last run or opens a new one. */
  lemma RunsSnoc(xs: seq<Version>, x: Version, adj: (Version, Version) -> bool)
    ensures var rs := Runs(xs, adj);
      Runs(xs + [x], adj) ==
        if |rs| > 0 && adj(Last(Last(rs)), x) then rs[..|rs| - 1] + [Last(rs) + [x]] else rs + [[x]]
  {
    assert (xs + [x])[..|xs|] == xs;
  }

  /** One step of the compression loop, on the runs of the prefix walked so far. */
  lemma CompressStep(s: seq<Version>, i: nat, closed: seq<seq<Version>>, current: seq<Version>)
    requires 0 < i < |s| && |current| > 0 && Runs(s[..i], PatchFollows) == closed + [current]
    ensures s[i].2 == Last(current).2 + 1 ==> Runs(s[..i + 1], PatchFollows) == closed + [current + [s[i]]]
    ensures s[i].2 != Last(current).2 + 1 ==> Runs(s[..i + 1], PatchFollows) == closed + [current] + [[s[i]]]
  {
    assert s[..i + 1] == s[..i] + [s[i]];
    RunsSnoc(s[..i], s[i], PatchFollows);
    assert (closed + [current])[..|closed|] == closed;
  }

  /** The runs after one more step of the compression loop, with what that
      step does to the closed runs and the current one. */
  lemma CompressAdvance(s: seq<Version>, i: nat, closed: seq<seq<Version>>, current: seq<Version>)
    returns (closed': seq<seq<Version>>, current': seq<Version>)
    requires 0 < i < |s| && |current| > 0 && Runs(s[..i], PatchFollows) == closed + [current]
    requires forall k :: 0 <= k < |closed| ==> |closed[k]| > 0
    ensures Runs(s[..i + 1], PatchFollows) == closed' + [current']
    ensures forall k :: 0 <= k < |closed'| ==> |closed'[k]| > 0
    ensures s[i].2 == Last(current).2 + 1 ==> closed' == closed && current' == current + [s[i]]
    ensures s[i].2 != Last(current).2 + 1 ==>
      (closed' == closed + [current] && current' == [s[i]]
       && RangesOf(closed') == RangesOf(closed) + [CloseRange(current[0], Last(current))])
  {
    CompressStep(s, i, closed, current);
    if s[i].2 == Last(current).2 + 1 {
      closed', current' := closed, current + [s[i]];
    } else {
      RangesOfSnoc(closed, current);
      closed', current' := closed + [current], [s[i]];
    }
  }

  /** Closing the current run appends its range. */
  lemma RangesOfSnoc(rs: seq<seq<Version>>, r: seq<Version>)
    requires forall k :: 0 <= k < |rs| ==> |rs[k]| > 0
    requires |r| > 0
    ensures forall k :: 0 <= k < |rs + [r]| ==> |(rs + [r])[k]| > 0
    ensures RangesOf(rs + [r]) == RangesOf(rs) + [CloseRange(r[0], Last(r))]
  {
  }

  /** `compress_patch_versions_into_ranges`: sorts the set, then walks it
      once. */
  method CompressPatchVersionsIntoRanges(versions: set<Version>) returns (ranges: seq<VersionRange>)
    ensures ranges == Compressed(versions)
  {
    if versions == {} {
      return [];
    }
    var sortedVersions := EncodeVersions(versions);
    ranges := CompressSortedVersions(sortedVersions);
  }

  /** The loop of `compress_patch_versions_into_ranges` over the sorted
      versions: the current range is extended while the patch goes up by one,
      and closed otherwise. */
  method CompressSortedVersions(sortedVersions: seq<Version>) returns (ranges: seq<VersionRange>)
    requires |sortedVersions| > 0
    ensures ranges == RangesOf(Runs(sortedVersions, PatchFollows))
  {
    ranges := [];
    var start := sortedVersions[0];
    var end := sortedVersions[0];
    ghost var closed: seq<seq<Version>> := [];
    ghost var current: seq<Version> := [start];
    RunsSnoc([], start, PatchFollows);
    assert sortedVersions[..1] == [] + [start];
    var i := 1;
    while i < |sortedVersions|
      invariant 1 <= i <= |sortedVersions|
      invariant forall k :: 0 <= k < |closed| ==> |closed[k]| > 0
      invariant |current| > 0 && start == current[0] && end == Last(current)
      invariant Runs(sortedVersions[..i], PatchFollows) == closed + [current]
      invariant ranges == RangesOf(closed)
    {
      var version := sortedVersions[i];
      ghost var closed', current' := CompressAdvance(sortedVersions, i, closed, current);
      if version.2 == end.2 + 1 {
        end := version;
      } else {
        if start == end {
          ranges := ranges + [Single(start)];
        } else {
          ranges := ranges + [Pair(start, end)];
        }
        start := version;
        end := version;
      }
      closed, current := closed', current';
      i := i + 1;
    }
    assert sortedVersions[..i] == sortedVersions;
    if start == end {
      ranges := ranges + [Single(start)];
    } else {
      ranges := ranges + [Pair(start, end)];
    }
    RangesOfSnoc(closed, current);
  }

  // ---------------------------------------------------------------- expansion

  /** The versions major.minor.lo .. major.minor.hi. */
  function PatchSpan(major: nat, minor: nat, lo: nat, hi: nat): set<Version>
  {
    set p: nat | lo <= p <= hi :: (major, minor, p)
  }

  /** The versions a range stands for inside one minor, as the front end reads
      a range: the start's major and minor with every patch from the start's
      to the end's. */
  function Expand(r: VersionRange): set<Version>
  {
    PatchSpan(r.First().0, r.First().1, r.First().2, r.Last().2)
  }

  function ExpandAll(rs: seq<VersionRange>): set<Version>
  {
    if |rs| == 0 then {} else ExpandAll(rs[..|rs| - 1]) + Expand(Last(rs))
  }

  lemma {:induction false} RunSpan(run: seq<Version>)
    requires |run| > 0
    requires forall i :: 0 < i < |run| ==> NextPatch(run[i - 1], run[i])
    ensures Sorting.Elements(run) == Expand(CloseRange(run[0], Last(run)))
    ensures MinorOf(Last(run)) == MinorOf(run[0]) && run[0].2 <= Last(run).2
    decreases |run|
  {
    var a := run[0];
    if |run| == 1 {
      assert Sorting.Elements(run) == {a};
      forall w | w in PatchSpan(a.0, a.1, a.2, a.2) ensures w == a { }
      assert a in PatchSpan(a.0, a.1, a.2, a.2);
    } else {
      var init := run[..|run| - 1];
      var x := Last(run);
      RunSpan(init);
      assert NextPatch(Last(init), x);
      assert Sorting.Elements(run) == Sorting.Elements(init) + {x};
      var lo, hi := a.2, Last(init).2;
      assert Expand(CloseRange(init[0], Last(init))) == PatchSpan(a.0, a.1, lo, hi);
      assert PatchSpan(a.0, a.1, lo, hi + 1) == PatchSpan(a.0, a.1, lo, hi) + {x};
      assert x != a;
    }
  }

  lemma {:induction false} ExpandRuns(rs: seq<seq<Version>>)
    requires forall k :: 0 <= k < |rs| ==> |rs[k]| > 0
    requires forall k, i :: 0 <= k < |rs| && 0 < i < |rs[k]| ==> NextPatch(rs[k][i - 1], rs[k][i])
    ensures ExpandAll(RangesOf(rs)) == Sorting.Elements(Flatten(rs))
    decreases |rs|
  {
    if |rs| > 0 {
      var n := |rs|;
      ExpandRuns(rs[..n - 1]);
      assert RangesOf(rs)[..n - 1] == RangesOf(rs[..n - 1]);
      RunSpan(rs[n - 1]);
      assert Sorting.Elements(Flatten(rs)) == Sorting.Elements(Flatten(rs[..n - 1])) + Sorting.Elements(rs[n - 1]);
    }
  }

  /** With the intended join test, expanding the ranges gives back exactly
      the compressed set, whatever minors it mixes. */
  lemma CompressedByMinorExpands(versions: set<Version>)
    ensures ExpandAll(CompressedByMinor(versions)) == versions
  {
    var xs := EncodeVersions(versions);
    var rs := Runs(xs, NextPatch);
    RunsAdjacent(xs, NextPatch);
    forall k, i | 0 <= k < |rs| && 0 < i < |rs[k]| ensures NextPatch(rs[k][i - 1], rs[k][i]) {
      assert NextPatch(rs[k][i - 1], rs[k][i]) == (NextPatch)(rs[k][i - 1], rs[k][i]);
    }
    ExpandRuns(rs);
    RunsFlatten(xs, NextPatch);
  }

  /** Within one minor the as-written compression is the intended one, so the
      expansion of its ranges is exactly the input set. */
  lemma CompressedWithinMinorExpands(versions: set<Version>, m: Minor)
    requires forall v :: v in versions ==> MinorOf(v) == m
    ensures Compressed(versions) == CompressedByMinor(versions)
    ensures ExpandAll(Compressed(versions)) == versions
  {
    var xs := EncodeVersions(versions);
    RunsAgree(xs, PatchFollows, NextPatch);
    CompressedByMinorExpands(versions);
  }

  // ---------------------------------------------------------------- order

  predicate Ascending(xs: seq<Version>)
  {
    forall i, j :: 0 <= i < j < |xs| ==> VersionLt(xs[i], xs[j])
  }

  lemma {:induction false} FlattenMember(rs: seq<seq<Version>>, k: nat, i: nat)
    requires k < |rs| && i < |rs[k]|
    ensures rs[k][i] in Flatten(rs)
    decreases |rs|
  {
    if k < |rs| - 1 {
      FlattenMember(rs[..|rs| - 1], k, i);
    }
  }

  lemma AscendingSplit(a: seq<Version>, b: seq<Version>)
    requires Ascending(a + b)
    ensures Ascending(a) && Ascending(b)
    ensures forall x, y :: x in a && y in b ==> VersionLt(x, y)
  {
    forall i, j | 0 <= i < j < |a| ensures VersionLt(a[i], a[j]) {
      assert a[i] == (a + b)[i] && a[j] == (a + b)[j];
    }
    forall i, j | 0 <= i < j < |b| ensures VersionLt(b[i], b[j]) {
      assert b[i] == (a + b)[|a| + i] && b[j] == (a + b)[|a| + j];
    }
    forall x, y | x in a && y in b ensures VersionLt(x, y) {
      var i :| 0 <= i < |a| && a[i] == x;
      var j :| 0 <= j < |b| && b[j] == y;
      assert (a + b)[i] == x && (a + b)[|a| + j] == y;
    }
  }

  /** The runs of an ascending list are ascending and follow one another. */
  lemma {:induction false} RunsOrdered(rs: seq<seq<Version>>)
    requires forall k :: 0 <= k < |rs| ==> |rs[k]| > 0
    requires Ascending(Flatten(rs))
    ensures forall k :: 0 <= k < |rs| ==> Ascending(rs[k])
    ensures forall k, l :: 0 <= k < l < |rs| ==> VersionLt(Last(rs[k]), rs[l][0])
    decreases |rs|
  {
    if |rs| > 0 {
      var n := |rs|;
      var init := rs[..n - 1];
      AscendingSplit(Flatten(init), rs[n - 1]);
      RunsOrdered(init);
      forall k, l | 0 <= k < l < |rs| ensures VersionLt(Last(rs[k]), rs[l][0]) {
        if l == n - 1 {
          FlattenMember(init, k, |rs[k]| - 1);
          assert init[k] == rs[k];
        } else {
          assert init[k] == rs[k] && init[l] == rs[l];
        }
      }
    }
  }

  /** The ranges come out in ascending order, each range runs upwards, and a
      range is a one-element `(v,)` exactly when its start equals its end. */
  lemma CompressedOrdered(versions: set<Version>)
    ensures forall k :: 0 <= k < |Compressed(versions)| ==>
      VersionLe(Compressed(versions)[k].First(), Compressed(versions)[k].Last())
      && (Compressed(versions)[k].Single? <==> Compressed(versions)[k].First() == Compressed(versions)[k].Last())
    ensures forall k, l :: 0 <= k < l < |Compressed(versions)| ==>
      VersionLt(Compressed(versions)[k].Last(), Compressed(versions)[l].First())
  {
    var xs := EncodeVersions(versions);
    var rs := Runs(xs, PatchFollows);
    RunsFlatten(xs, PatchFollows);
    assert Ascending(xs);
    RunsOrdered(rs);
    RangesOrdered(rs);
  }

  /** Closing ascending runs that follow one another gives ascending ranges. */
  lemma RangesOrdered(rs: seq<seq<Version>>)
    requires forall k :: 0 <= k < |rs| ==> |rs[k]| > 0
    requires forall k :: 0 <= k < |rs| ==> Ascending(rs[k])
    requires forall k, l :: 0 <= k < l < |rs| ==> VersionLt(Last(rs[k]), rs[l][0])
    ensures forall k :: 0 <= k < |RangesOf(rs)| ==>
      VersionLe(RangesOf(rs)[k].First(), RangesOf(rs)[k].Last())
      && (RangesOf(rs)[k].Single? <==> RangesOf(rs)[k].First() == RangesOf(rs)[k].Last())
    ensures forall k, l :: 0 <= k < l < |RangesOf(rs)| ==>
      VersionLt(RangesOf(rs)[k].Last(), RangesOf(rs)[l].First())
  {
    forall k | 0 <= k < |rs| ensures VersionLe(rs[k][0], Last(rs[k])) {
      assert |rs[k]| == 1 || VersionLt(rs[k][0], rs[k][|rs[k]| - 1]);
    }
  }

  /** The empty set gives no ranges; a single version gives `[(v,)]`. */
  lemma CompressedEmptyAndSingleton(v: Version)
    ensures Compressed({}) == []
    ensures Compressed({v}) == [Single(v)]
  {
    EncodeVersionsCanonical({v}, [v]);
    assert Runs([v], PatchFollows) == [[v]];
  }

  // ---------------------------------------------------------------- finding

  /** The runs of the two-element witness under either join test. */
  lemma WitnessRuns(adj: (Version, Version) -> bool)
    ensures Runs([(3, 11, 0), (3, 12, 1)], adj) ==
      if adj((3, 11, 0), (3, 12, 1)) then [[(3, 11, 0), (3, 12, 1)]] else [[(3, 11, 0)], [(3, 12, 1)]]
  {
    TwoRuns((3, 11, 0), (3, 12, 1), adj);
  }

  /** Two versions form one run when they are adjacent and two runs otherwise. */
  lemma TwoRuns(a: Version, b: Version, adj: (Version, Version) -> bool)
    ensures Runs([a, b], adj) == if adj(a, b) then [[a, b]] else [[a], [b]]
  {
    RunsSnoc([], a, adj);
    assert [] + [a] == [a];
    assert Runs([a], adj) == [[a]];
    RunsSnoc([a], b, adj);
    assert [a] + [b] == [a, b];
  }

  lemma WitnessEncoded()
    ensures EncodeVersions({(3, 11, 0), (3, 12, 1)}) == [(3, 11, 0), (3, 12, 1)]
  {
    EncodeVersionsCanonical({(3, 11, 0), (3, 12, 1)}, [(3, 11, 0), (3, 12, 1)]);
  }

  /** As written, a run continues across minors: 3.11.0 and 3.12.1 become the
      single range (3.11.0, 3.12.1), which stands for 3.11.0 and 3.11.1
      instead; the intended compression keeps them apart. */
  lemma CompressMergesAcrossMinors()
    ensures Compressed({(3, 11, 0), (3, 12, 1)}) == [Pair((3, 11, 0), (3, 12, 1))]
    ensures ExpandAll(Compressed({(3, 11, 0), (3, 12, 1)})) == {(3, 11, 0), (3, 11, 1)}
    ensures CompressedByMinor({(3, 11, 0), (3, 12, 1)}) == [Single((3, 11, 0)), Single((3, 12, 1))]
  {
    WitnessEncoded();
    CompressedWitness();
    CompressedByMinorWitness();
    MergedRangeExpands();
  }

  lemma CompressedWitness()
    ensures Compressed({(3, 11, 0), (3, 12, 1)}) == [Pair((3, 11, 0), (3, 12, 1))]
  {
    WitnessEncoded();
    WitnessRuns(PatchFollows);
    assert PatchFollows((3, 11, 0), (3, 12, 1));
  }

  lemma CompressedByMinorWitness()
    ensures CompressedByMinor({(3, 11, 0), (3, 12, 1)}) == [Single((3, 11, 0)), Single((3, 12, 1))]
  {
    WitnessEncoded();
    WitnessRuns(NextPatch);
    assert !NextPatch((3, 11, 0), (3, 12, 1));
  }

  lemma MergedRangeExpands()
    ensures ExpandAll([Pair((3, 11, 0), (3, 12, 1))]) == {(3, 11, 0), (3, 11, 1)}
  {
    var span := PatchSpan(3, 11, 0, 1);
    forall w | w in span ensures w == (3, 11, 0) || w == (3, 11, 1) { }
    assert (3, 11, 0) in span && (3, 11, 1) in span;
    assert [Pair((3, 11, 0), (3, 12, 1))][..0] == [];
  }
}
