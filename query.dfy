/** `src/App.tsx`: the list of advisories the page shows for a version
    filter, a search term and a sort order (`filteredAdvisories`), the
    starting state read from the URL, and the "affects" label of a range.
    Version components are JavaScript numbers; `new Date(s)` is the
    parameter `time`, which reads a timestamp as an integer. */
module Query {
  import opened Wrappers
  import opened Text
  import opened VersionTypes
  import opened Schema
  import Sorting
  import Versions

  // ------------------------------------------------------------ filtering

  /** `xs.filter(p)` */
  function Filter<T(!new)>(xs: seq<T>, p: T -> bool): (r: seq<T>)
    ensures |r| <= |xs|
    ensures forall x :: x in r <==> x in xs && p(x)
    decreases |xs|
  {
    if |xs| == 0 then []
    else Filter(xs[..|xs| - 1], p) + (if p(xs[|xs| - 1]) then [xs[|xs| - 1]] else [])
  }

  /** Filtering keeps the input order: the filter of a concatenation is the
      concatenation of the filters. */
  lemma {:induction false} FilterAppend<T(!new)>(xs: seq<T>, ys: seq<T>, p: T -> bool)
    ensures Filter(xs + ys, p) == Filter(xs, p) + Filter(ys, p)
    decreases |ys|
  {
    if |ys| == 0 {
      assert xs + ys == xs;
    } else {
      var n := |ys| - 1;
      assert (xs + ys)[..|xs + ys| - 1] == xs + ys[..n];
      assert (xs + ys)[|xs + ys| - 1] == ys[n];
      var tail := if p(ys[n]) then [ys[n]] else [];
      assert Filter(xs + ys, p) == Filter(xs + ys[..n], p) + tail;
      assert Filter(ys, p) == Filter(ys[..n], p) + tail;
      FilterAppend(xs, ys[..n], p);
    }
  }

  /** A filter that keeps everything is the identity. */
  lemma {:induction false} FilterAll<T(!new)>(xs: seq<T>, p: T -> bool)
    requires forall i :: 0 <= i < |xs| ==> p(xs[i])
    ensures Filter(xs, p) == xs
    decreases |xs|
  {
    if |xs| > 0 {
      var n := |xs| - 1;
      var front := xs[..n];
      forall i | 0 <= i < |front| ensures p(front[i]) {
        assert front[i] == xs[i];
      }
      FilterAll(front, p);
      assert p(xs[n]);
      assert front + [xs[n]] == xs;
    }
  }

  // ------------------------------------------------------------ parseInt

  /** `parseInt(s, 10)`: leading white space, an optional sign, then the
      longest run of decimal digits; `None` is `NaN` (no digit at all). */
  function ParseInt(s: string): (r: Option<int>)
    ensures r.None? <==> LeadingDigits(Unsigned(TrimStartWith(s, IsJsSpace))) == ""
  {
    var t := TrimStartWith(s, IsJsSpace);
    var d := LeadingDigits(Unsigned(t));
    if d == "" then None
    else
      var n: int := DigitsValue(d);
      if |t| > 0 && t[0] == '-' then Some(-n) else Some(n)
  }

  /** The text after an optional sign. */
  function Unsigned(t: string): string
  {
    if |t| > 0 && (t[0] == '-' || t[0] == '+') then t[1..] else t
  }

  lemma {:induction false} LeadingDigitsOfDigits(s: string)
    requires AllDigits(s)
    ensures LeadingDigits(s) == s
    decreases |s|
  {
    if |s| > 0 {
      LeadingDigitsOfDigits(s[1..]);
      assert [s[0]] + s[1..] == s;
    }
  }

  /** `parseInt` reads a string of digits as its decimal value. */
  lemma ParseIntDigits(s: string)
    requires IsDecimal(s)
    ensures ParseInt(s) == Some(DigitsValue(s))
  {
    assert IsDigit(s[0]) && !IsJsSpace(s[0]);
    assert TrimStartWith(s, IsJsSpace) == s;
    assert Unsigned(s) == s;
    LeadingDigitsOfDigits(s);
  }

  /** `parseInt` reads back the decimal rendering of a natural. */
  lemma ParseIntOfDecimal(n: nat)
    ensures ParseInt(NatToString(n)) == Some(n)
  {
    ParseIntDigits(NatToString(n));
    NatToStringValue(n);
  }

  /** `parseInt` stops at the first character that is not a digit. */
  lemma ParseIntStopsAtNonDigit(n: nat, rest: string)
    requires |rest| > 0 && !IsDigit(rest[0])
    ensures ParseInt(NatToString(n) + rest) == Some(n)
  {
    var s := NatToString(n);
    NatToStringValue(n);
    ParseIntPrefix(s, rest);
  }

  lemma ParseIntPrefix(s: string, rest: string)
    requires IsDecimal(s) && |rest| > 0 && !IsDigit(rest[0])
    ensures ParseInt(s + rest) == Some(DigitsValue(s))
  {
    var t := s + rest;
    assert t[0] == s[0] && IsDigit(t[0]) && !IsJsSpace(t[0]);
    assert TrimStartWith(t, IsJsSpace) == t;
    assert Unsigned(t) == t;
    LeadingDigitsPrefix(s, rest);
  }

  lemma {:induction false} LeadingDigitsPrefix(s: string, rest: string)
    requires AllDigits(s) && |rest| > 0 && !IsDigit(rest[0])
    ensures LeadingDigits(s + rest) == s
    decreases |s|
  {
    if |s| > 0 {
      assert (s + rest)[1..] == s[1..] + rest;
      LeadingDigitsPrefix(s[1..], rest);
      assert [s[0]] + s[1..] == s;
    } else {
      assert s + rest == rest;
    }
  }

  // ------------------------------------------------------------ the version filter

  /** Filtering keeps a list free of duplicates. */
  lemma {:induction false} FilterNoDuplicates<T(!new)>(xs: seq<T>, p: T -> bool)
    requires Sorting.NoDuplicates(xs)
    ensures Sorting.NoDuplicates(Filter(xs, p))
    decreases |xs|
  {
    if |xs| > 0 {
      var n := |xs| - 1;
      FilterNoDuplicates(xs[..n], p);
      assert xs[n] !in xs[..n];
    }
  }

  /** The callback of `.filter(s => s !== "")`. */
  predicate NonEmptySegment(s: string)
  {
    s != ""
  }

  /** `selectedVersion.split(".").filter(s => s !== "").map(n => parseInt(n, 10))` */
  function FilterParts(selected: string): (parts: seq<Option<int>>)
  {
    var segments := Filter(Split(selected, '.'), NonEmptySegment);
    seq(|segments|, i requires 0 <= i < |segments| => ParseInt(segments[i]))
  }

  /** `isValidVersion`: one to three parts, none of them `NaN`. */
  predicate IsValidFilter(parts: seq<Option<int>>)
  {
    0 < |parts| <= 3 && forall i :: 0 <= i < |parts| ==> parts[i].Some?
  }

  function Values(parts: seq<Option<int>>): (r: seq<int>)
    requires forall i :: 0 <= i < |parts| ==> parts[i].Some?
    ensures |r| == |parts| && forall i :: 0 <= i < |parts| ==> r[i] == parts[i].value
  {
    seq(|parts|, i requires 0 <= i < |parts| => parts[i].value)
  }

  function Component(v: TsVersion, i: int): real
    requires 0 <= i < 3
  {
    if i == 0 then v.0 else if i == 1 then v.1 else v.2
  }

  /** `matchesVersionPrefix(prefixParts, version)`: the version starts with
      the parts, component by component. */
  predicate PrefixMatch(prefix: seq<int>, v: TsVersion)
    requires |prefix| <= 3
  {
    forall i :: 0 <= i < |prefix| ==> Component(v, i) == prefix[i] as real
  }

  /** `matchesVersionPrefix` as the loop it is written as (lines 120-127):
      the first component that differs returns `false`. */
  method MatchesVersionPrefix(prefix: seq<int>, v: TsVersion) returns (b: bool)
    requires |prefix| <= 3
    ensures b <==> PrefixMatch(prefix, v)
  {
    var i := 0;
    while i < |prefix|
      invariant 0 <= i <= |prefix|
      invariant forall j :: 0 <= j < i ==> Component(v, j) == prefix[j] as real
    {
      if Component(v, i) != prefix[i] as real {
        return false;
      }
      i := i + 1;
    }
    return true;
  }

  /** Whether one `affected_versions` entry matches the parts (lines
      132-146): a single version by prefix; a pair by the prefix of its start
      when there are at most two parts, and otherwise by the major and minor
      of its start and a patch between the start's and the end's. */
  predicate RangeMatches(parts: seq<int>, r: AffectedRange)
    requires 0 < |parts| <= 3
  {
    match r
    case One(v) => PrefixMatch(parts, v)
    case Two(s, e) =>
      if |parts| <= 2 then PrefixMatch(parts, s)
      else PrefixMatch(parts[..2], s) && parts[2] as real >= s.2 && parts[2] as real <= e.2
  }

  predicate AffectsVersion(parts: seq<int>, a: Advisory)
    requires 0 < |parts| <= 3
  {
    exists r :: r in a.affectedVersions && RangeMatches(parts, r)
  }

  function VersionFilter(parts: seq<int>, advisories: seq<Advisory>): (r: seq<Advisory>)
    requires 0 < |parts| <= 3
    ensures forall a :: a in r <==> a in advisories && AffectsVersion(parts, a)
  {
    Filter(advisories, a => AffectsVersion(parts, a))
  }

  // ------------------------------------------------------------ search

  /** The search test (lines 152-158): the lower-cased term occurs in the
      lower-cased id, CVE (a missing one read as "") or details. */
  predicate SearchMatches(term: string, a: Advisory)
  {
    var t := ToLower(term);
    Contains(ToLower(a.id), t) || Contains(ToLower(a.cve.GetOr("")), t) || Contains(ToLower(a.details), t)
  }

  /** The search stage: skipped for an empty term. */
  function Search(term: string, advisories: seq<Advisory>): (r: seq<Advisory>)
    ensures term != "" ==> forall a :: a in r <==> a in advisories && SearchMatches(term, a)
    ensures term == "" ==> r == advisories
  {
    if term != "" then Filter(advisories, a => SearchMatches(term, a)) else advisories
  }

  /** Skipping the search for an empty term is the same as searching for it:
      the empty string occurs everywhere. */
  lemma EmptySearchKeepsAll(advisories: seq<Advisory>)
    ensures Filter(advisories, a => SearchMatches("", a)) == advisories
  {
    forall i | 0 <= i < |advisories| ensures SearchMatches("", advisories[i]) {
      assert StartsWith(ToLower(advisories[i].id), ToLower(""));
    }
    FilterAll(advisories, a => SearchMatches("", a));
  }

  // ------------------------------------------------------------ sorting

  const SortOptions: seq<string> := ["published_date_newest", "published_date_oldest",
    "modified_date_newest", "modified_date_oldest", "severity_highest", "severity_lowest"]

  /** The lower-cased names of `severityOrder`, from the highest rank down. */
  const SeverityNames: seq<string> := ["critical", "high", "medium", "low"]

  /** `severityOrder[a.severity?.name?.toLowerCase()] ?? -1`: a name ranks
      4 down to 1 by its place in `SeverityNames`, and a missing severity or
      any other name gets -1. */
  function SeverityRank(a: Advisory): (rank: int)
    ensures -1 <= rank <= 4 && rank != 0
    ensures rank == -1 <==> a.severity.None? || ToLower(a.severity.value.name) !in SeverityNames
    ensures rank > 0 ==> a.severity.Some? && SeverityNames[4 - rank] == ToLower(a.severity.value.name)
  {
    match a.severity
    case None => -1
    case Some(s) =>
      var n := ToLower(s.name);
      if n == "critical" then 4 else if n == "high" then 3
      else if n == "medium" then 2 else if n == "low" then 1 else -1
  }

  /** The ranks of the four names the schema allows, in order. */
  lemma SeverityRanks(a: Advisory)
    ensures a.severity.Some? && a.severity.value.name == "CRITICAL" ==> SeverityRank(a) == 4
    ensures a.severity.Some? && a.severity.value.name == "HIGH" ==> SeverityRank(a) == 3
    ensures a.severity.Some? && a.severity.value.name == "MEDIUM" ==> SeverityRank(a) == 2
    ensures a.severity.Some? && a.severity.value.name == "LOW" ==> SeverityRank(a) == 1
    ensures a.severity.None? ==> SeverityRank(a) == -1
  {
    if a.severity.Some? {
      var n := a.severity.value.name;
      if n == "CRITICAL" { assert ToLower(n) == "critical"; }
      if n == "HIGH" { assert ToLower(n) == "high"; }
      if n == "MEDIUM" { assert ToLower(n) == "medium"; }
      if n == "LOW" { assert ToLower(n) == "low"; }
    }
  }

  /** When `a` stays in front of `b` under the comparator of lines 164-185:
      a stable sort keeps `a` first unless the comparator is positive. An
      unknown sort option compares everything as equal. */
  function Before(sortBy: string, time: string -> int): (Advisory, Advisory) -> bool
  {
    (a: Advisory, b: Advisory) =>
      if sortBy == "published_date_newest" then time(b.published) - time(a.published) <= 0
      else if sortBy == "published_date_oldest" then time(a.published) - time(b.published) <= 0
      else if sortBy == "modified_date_newest" then time(b.modified) - time(a.modified) <= 0
      else if sortBy == "modified_date_oldest" then time(a.modified) - time(b.modified) <= 0
      else if sortBy == "severity_highest" then SeverityRank(b) - SeverityRank(a) <= 0
      else if sortBy == "severity_lowest" then SeverityRank(a) - SeverityRank(b) <= 0
      else true
  }

  lemma BeforeTotalPreorder(sortBy: string, time: string -> int)
    ensures Sorting.TotalPreorder(Before(sortBy, time))
  {
  }

  /** `[...filtered].sort(...)`: `Array.prototype.sort` is stable. */
  function SortAdvisories(sortBy: string, time: string -> int, xs: seq<Advisory>): (r: seq<Advisory>)
    ensures multiset(r) == multiset(xs)
  {
    Sorting.SortBy(xs, Before(sortBy, time))
  }

  /** The sorted list is a permutation of its input, ordered by the chosen
      key: newest or oldest first by date, highest or lowest first by
      severity rank. */
  lemma SortOrdered(sortBy: string, time: string -> int, xs: seq<Advisory>)
    ensures multiset(SortAdvisories(sortBy, time, xs)) == multiset(xs)
    ensures var r := SortAdvisories(sortBy, time, xs);
      forall i, j :: 0 <= i < j < |r| ==>
        (sortBy == "published_date_newest" ==> time(r[i].published) >= time(r[j].published))
        && (sortBy == "published_date_oldest" ==> time(r[i].published) <= time(r[j].published))
        && (sortBy == "modified_date_newest" ==> time(r[i].modified) >= time(r[j].modified))
        && (sortBy == "modified_date_oldest" ==> time(r[i].modified) <= time(r[j].modified))
        && (sortBy == "severity_highest" ==> SeverityRank(r[i]) >= SeverityRank(r[j]))
        && (sortBy == "severity_lowest" ==> SeverityRank(r[i]) <= SeverityRank(r[j]))
  {
    BeforeTotalPreorder(sortBy, time);
    Sorting.SortBySorted(xs, Before(sortBy, time));
    var r := SortAdvisories(sortBy, time, xs);
    forall i, j | 0 <= i < j < |r| ensures Before(sortBy, time)(r[i], r[j]) {
    }
  }

  /** An unknown sort option leaves the order unchanged. */
  lemma UnknownSortKeepsOrder(sortBy: string, time: string -> int, xs: seq<Advisory>)
    requires sortBy !in SortOptions
    ensures SortAdvisories(sortBy, time, xs) == xs
  {
    Sorting.SortByAllTies(xs, Before(sortBy, time));
  }

  // ------------------------------------------------------------ the pipeline

  /** `filteredAdvisories` (lines 102-188). */
  function FilteredAdvisories(advisories: seq<Advisory>, selected: string, searchTerm: string,
                              sortBy: string, time: string -> int): seq<Advisory>
  {
    var parts := FilterParts(selected);
    if !IsValidFilter(parts) && selected != "all" && selected != "" then []
    else
      var byVersion := if IsValidFilter(parts) then VersionFilter(Values(parts), advisories) else advisories;
      SortAdvisories(sortBy, time, Search(searchTerm, byVersion))
  }

  /** The hook body as written: `filtered` is reassigned stage by stage
      (lines 103, 131 and 153) and an invalid filter returns early. */
  method FilterAdvisories(advisories: seq<Advisory>, selected: string, searchTerm: string,
                          sortBy: string, time: string -> int) returns (sorted: seq<Advisory>)
    ensures sorted == FilteredAdvisories(advisories, selected, searchTerm, sortBy, time)
  {
    var filtered := advisories;
    var parts := FilterParts(selected);
    var isValidVersion := 0 < |parts| <= 3 && forall i :: 0 <= i < |parts| ==> parts[i].Some?;
    if !isValidVersion && selected != "all" && selected != "" {
      return [];
    }
    if isValidVersion {
      filtered := VersionFilter(Values(parts), filtered);
    }
    if searchTerm != "" {
      filtered := Filter(filtered, a => SearchMatches(searchTerm, a));
    }
    sorted := SortAdvisories(sortBy, time, filtered);
  }

  /** A filter without a "." has at most one part: the whole string. */
  lemma FilterPartsNoDot(selected: string)
    requires '.' !in selected
    ensures FilterParts(selected) == if selected == "" then [] else [ParseInt(selected)]
  {
    SplitNoSeparator(selected, '.');
    var one := [selected];
    assert one[..0] == [];
  }

  /** "all" is not a valid version filter: its one part is `NaN`. */
  lemma AllIsNotAVersion()
    ensures !IsValidFilter(FilterParts("all"))
  {
    WordIsNotAVersion("all");
  }

  /** A filter without a "." that starts with a letter is `NaN`, which no
      version matches. */
  lemma WordIsNotAVersion(s: string)
    requires '.' !in s && |s| > 0 && 'a' <= s[0] <= 'z'
    ensures !IsValidFilter(FilterParts(s))
  {
    FilterPartsNoDot(s);
    ParseIntNoDigit(s);
    var parts := FilterParts(s);
    assert parts[0].None?;
  }

  /** Nor is the empty string: it has no parts. */
  lemma EmptyIsNotAVersion()
    ensures FilterParts("") == []
  {
    FilterPartsNoDot("");
  }

  /** `parseInt` of a string that starts with a letter is `NaN`. */
  lemma ParseIntNoDigit(s: string)
    requires |s| > 0 && !IsJsSpace(s[0]) && !IsDigit(s[0]) && s[0] != '-' && s[0] != '+'
    ensures ParseInt(s) == None
  {
    assert TrimStartWith(s, IsJsSpace) == s;
    assert Unsigned(s) == s;
  }

  /** "all" and "" apply no version filter: the result is the searched and
      sorted list of all advisories. */
  lemma AllShowsEverything(advisories: seq<Advisory>, selected: string, searchTerm: string,
                           sortBy: string, time: string -> int)
    requires selected == "all" || selected == ""
    ensures FilteredAdvisories(advisories, selected, searchTerm, sortBy, time)
      == SortAdvisories(sortBy, time, Search(searchTerm, advisories))
  {
    AllIsNotAVersion();
    EmptyIsNotAVersion();
  }

  /** Any other string that is not a valid version gives an empty list. */
  lemma InvalidFilterShowsNothing(advisories: seq<Advisory>, selected: string, searchTerm: string,
                                  sortBy: string, time: string -> int)
    requires !IsValidFilter(FilterParts(selected)) && selected != "all" && selected != ""
    ensures FilteredAdvisories(advisories, selected, searchTerm, sortBy, time) == []
  {
  }

  /** With a valid filter, an advisory is listed exactly when one of its
      ranges matches and the search matches, as often as it occurs in the
      input. */
  lemma ValidFilterMembership(advisories: seq<Advisory>, selected: string, searchTerm: string,
                              sortBy: string, time: string -> int, a: Advisory)
    requires IsValidFilter(FilterParts(selected))
    ensures var r := FilteredAdvisories(advisories, selected, searchTerm, sortBy, time);
      a in r <==> a in advisories && AffectsVersion(Values(FilterParts(selected)), a)
                  && (searchTerm != "" ==> SearchMatches(searchTerm, a))
    ensures var r := FilteredAdvisories(advisories, selected, searchTerm, sortBy, time);
      multiset(r)[a] ==
        if AffectsVersion(Values(FilterParts(selected)), a) && (searchTerm != "" ==> SearchMatches(searchTerm, a))
        then multiset(advisories)[a] else 0
  {
    var parts := Values(FilterParts(selected));
    var byVersion := VersionFilter(parts, advisories);
    var searched := Search(searchTerm, byVersion);
    assert a in SortAdvisories(sortBy, time, searched) <==> a in multiset(searched);
    FilterCount(advisories, x => AffectsVersion(parts, x), a);
    if searchTerm != "" {
      FilterCount(byVersion, x => SearchMatches(searchTerm, x), a);
    }
  }

  /** Filtering keeps every element that passes as often as it occurs, and
      drops every other one. */
  lemma {:induction false} FilterCount<T(!new)>(xs: seq<T>, p: T -> bool, x: T)
    ensures multiset(Filter(xs, p))[x] == if p(x) then multiset(xs)[x] else 0
    decreases |xs|
  {
    if |xs| > 0 {
      var n := |xs| - 1;
      FilterCount(xs[..n], p, x);
      assert xs == xs[..n] + [xs[n]];
    }
  }

  /** A three-part match of a range implies the match of its first two
      parts. */
  lemma ThreePartsImplyTwo(parts: seq<int>, r: AffectedRange)
    requires |parts| == 3 && RangeMatches(parts, r)
    ensures RangeMatches(parts[..2], r)
  {
  }

  /** With at most two parts, a pair is matched by its start alone. */
  lemma ShortFilterIgnoresEnd(parts: seq<int>, s: TsVersion, e: TsVersion, e': TsVersion)
    requires 0 < |parts| <= 2
    ensures RangeMatches(parts, Two(s, e)) == RangeMatches(parts, Two(s, e')) == PrefixMatch(parts, s)
  {
  }

  /** The front-end record of a pipeline range. */
  function ToTsVersion(v: Version): TsVersion
  {
    (v.0 as real, v.1 as real, v.2 as real)
  }

  function ToTsRange(r: VersionRange): AffectedRange
  {
    match r
    case Single(v) => One(ToTsVersion(v))
    case Pair(s, e) => Two(ToTsVersion(s), ToTsVersion(e))
  }

  /** For a range of the pipeline, a three-part filter matches exactly the
      versions the range stands for, and a two-part filter exactly the minor
      of its start. */
  lemma FilterMatchesExpansion(r: VersionRange, v: Version)
    ensures RangeMatches([v.0, v.1, v.2], ToTsRange(r)) <==> v in Versions.Expand(r)
    ensures RangeMatches([v.0, v.1], ToTsRange(r)) <==> MinorOf(v) == MinorOf(r.First())
  {
    var p := [v.0 as int, v.1 as int, v.2 as int];
    assert p[..2] == [v.0, v.1];
    var f := r.First();
    if v in Versions.Expand(r) {
      assert v.0 == f.0 && v.1 == f.1 && f.2 <= v.2 <= r.Last().2;
    }
    if RangeMatches(p, ToTsRange(r)) {
      assert Component(ToTsVersion(f), 0) == v.0 as real;
      assert Component(ToTsVersion(f), 1) == v.1 as real;
      assert f.2 <= v.2 <= r.Last().2 by {
        if r.Single? {
          assert Component(ToTsVersion(f), 2) == v.2 as real;
        }
      }
      assert v == (f.0, f.1, v.2);
      assert v in Versions.PatchSpan(f.0, f.1, f.2, r.Last().2);
    }
    if RangeMatches([v.0, v.1], ToTsRange(r)) {
      assert Component(ToTsVersion(r.First()), 0) == v.0 as real;
      assert Component(ToTsVersion(r.First()), 1) == v.1 as real;
    }
  }

  /** A minor chosen from the list, such as "3.12", is a valid two-part
      filter. */
  lemma MinorFilterParses(major: nat, minor: nat)
    ensures FilterParts(NatToString(major) + "." + NatToString(minor)) == [Some(major as int), Some(minor as int)]
  {
    var a := NatToString(major);
    var b := NatToString(minor);
    SplitDecimals(a, b);
    FilterAll([a, b], NonEmptySegment);
    ParseIntOfDecimal(major);
    ParseIntOfDecimal(minor);
  }

  lemma SplitDecimals(a: string, b: string)
    requires IsDecimal(a) && IsDecimal(b)
    ensures Split(a + "." + b, '.') == [a, b]
  {
    DecimalHasNoDot(a);
    DecimalHasNoDot(b);
    SplitJoin([a, b], '.');
    assert Join([a, b], ".") == a + "." + b;
  }

  lemma DecimalHasNoDot(s: string)
    requires IsDecimal(s)
    ensures '.' !in s
  {
    forall i | 0 <= i < |s| ensures s[i] != '.' {
      assert IsDigit(s[i]);
    }
  }

  // ------------------------------------------------------------ page state

  /** `["all", ...overview.versions.map(v => v.version.join("."))]`, with
      `fmt` the number-to-string conversion of JavaScript. */
  function PythonVersions(versions: seq<TsMinor>, fmt: real -> string): (r: seq<string>)
    ensures |r| == |versions| + 1 && r[0] == "all"
    ensures forall i :: 0 <= i < |versions| ==> r[i + 1] == fmt(versions[i].0) + "." + fmt(versions[i].1)
  {
    ["all"] + seq(|versions|, i requires 0 <= i < |versions| => fmt(versions[i].0) + "." + fmt(versions[i].1))
  }

  /** The starting version filter (lines 27-35): the URL's `version` when it
      is one of the choices, "all" otherwise. */
  function InitialVersion(url: Option<string>, pythonVersions: seq<string>): (v: string)
    ensures v == "all" || v in pythonVersions
    ensures url.Some? && url.value in pythonVersions ==> v == url.value
    ensures !(url.Some? && url.value in pythonVersions) ==> v == "all"
  {
    if url.Some? && url.value in pythonVersions then url.value else "all"
  }

  /** The starting text of the version box (lines 54-61). */
  function InitialInputValue(url: Option<string>, pythonVersions: seq<string>): string
  {
    if url.Some? && url.value in pythonVersions then (if url.value == "all" then "All Versions" else url.value)
    else "All Versions"
  }

  /** The box shows "All Versions" exactly for the "all" filter and the
      filter itself otherwise. */
  lemma InitialStateAgrees(url: Option<string>, pythonVersions: seq<string>)
    ensures InitialInputValue(url, pythonVersions)
      == if InitialVersion(url, pythonVersions) == "all" then "All Versions" else InitialVersion(url, pythonVersions)
  {
  }

  /** The starting sort order (lines 44-51). */
  function InitialSortBy(url: Option<string>): (s: string)
    ensures s in SortOptions
    ensures url.Some? && url.value in SortOptions ==> s == url.value
    ensures !(url.Some? && url.value in SortOptions) ==> s == "published_date_newest"
  {
    if url.Some? && url.value in SortOptions then url.value else "published_date_newest"
  }

  /** `range[0].join(".")` or `range.at(-1).join(".")` */
  function VersionLabel(v: TsVersion, fmt: real -> string): string
  {
    fmt(v.0) + "." + fmt(v.1) + "." + fmt(v.2)
  }

  /** The "affects" label of a range (lines 645-649): one version, or
      "start – end" when the two ends render differently. */
  function AffectsLabel(r: AffectedRange, fmt: real -> string): string
  {
    var start := VersionLabel(r.First(), fmt);
    var end := VersionLabel(r.Last(), fmt);
    if start == end then start else start + " \U{2013} " + end
  }

  /** With a rendering of numbers that is one-to-one and never writes a
      ".", a one-version entry and a pair with equal ends show the version
      alone, and a pair with different ends shows both. */
  lemma AffectsLabelCases(r: AffectedRange, fmt: real -> string)
    requires forall x: real, y: real :: fmt(x) == fmt(y) ==> x == y
    requires forall x: real :: '.' !in fmt(x)
    ensures r.First() == r.Last() ==> AffectsLabel(r, fmt) == VersionLabel(r.First(), fmt)
    ensures r.First() != r.Last() ==>
      AffectsLabel(r, fmt) == VersionLabel(r.First(), fmt) + " \U{2013} " + VersionLabel(r.Last(), fmt)
  {
    LabelInjective(r.First(), r.Last(), fmt);
  }

  /** Two versions render alike exactly when they are equal. */
  lemma LabelInjective(v: TsVersion, w: TsVersion, fmt: real -> string)
    requires forall x: real, y: real :: fmt(x) == fmt(y) ==> x == y
    requires forall x: real :: '.' !in fmt(x)
    ensures VersionLabel(v, fmt) == VersionLabel(w, fmt) <==> v == w
  {
    if VersionLabel(v, fmt) == VersionLabel(w, fmt) {
      LabelParts(v, fmt);
      LabelParts(w, fmt);
      var pv, pw := [fmt(v.0), fmt(v.1), fmt(v.2)], [fmt(w.0), fmt(w.1), fmt(w.2)];
      assert pv == pw;
      assert pv[0] == pw[0] && pv[1] == pw[1] && pv[2] == pw[2];
      assert v.0 == w.0 && v.1 == w.1 && v.2 == w.2;
    }
  }

  /** The three numbers of a label, read back by splitting it on ".". */
  lemma LabelParts(v: TsVersion, fmt: real -> string)
    requires forall x: real :: '.' !in fmt(x)
    ensures Split(VersionLabel(v, fmt), '.') == [fmt(v.0), fmt(v.1), fmt(v.2)]
  {
    var parts := [fmt(v.0), fmt(v.1), fmt(v.2)];
    forall k | 0 <= k < |parts| ensures '.' !in parts[k] {
      assert parts[k] == fmt(Component(v, k));
    }
    assert Join(parts[1..], ".") == fmt(v.1) + "." + fmt(v.2);
    assert Join(parts, ".") == VersionLabel(v, fmt);
    SplitJoin(parts, '.');
  }
}
