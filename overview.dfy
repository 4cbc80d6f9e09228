/** `src/Overview.tsx`: the presentation rules of the version overview. The
    severity breakdown of a minor lists the statuses whose range list is not
    empty, most severe first; a range is labelled by its start alone or by
    "start – end"; a row is marked end-of-life when its "major.minor" is in
    `eolVersions` (`src/config.ts`). The rendering itself and the
    expand/collapse state of the rows are not modelled. */
module OverviewView {
  import opened Wrappers
  import opened Text
  import opened Schema
  import opened Query
  import Sorting

  /** One entry of a `ranges_by_status` list: a start and a nullable end. */
  datatype StatusRange = StatusRange(start: TsVersion, end: Option<TsVersion>)

  /** One `[status, ranges]` pair of `Object.entries(rangesByStatus)`. */
  type Bucket = (string, seq<StatusRange>)

  /** The statuses, most severe first (the `order` object of lines 159-165). */
  const StatusOrder: seq<string> := ["CRITICAL", "HIGH", "MEDIUM", "LOW", "SAFE"]

  /** `order[status]`. A key outside the five has no entry in `order` and
      would make the comparator `NaN`; such keys do not occur (the breakdown
      lemmas require the keys to be statuses), and 5 only makes the function
      total. */
  function Rank(status: string): (r: int)
    ensures status in Statuses ==> 0 <= r < |StatusOrder| && StatusOrder[r] == status
  {
    if status == "CRITICAL" then 0
    else if status == "HIGH" then 1
    else if status == "MEDIUM" then 2
    else if status == "LOW" then 3
    else if status == "SAFE" then 4
    else 5
  }

  /** The comparator `order[a[0]] - order[b[0]]`, as "may stay in front". */
  function ByRank(): (Bucket, Bucket) -> bool
  {
    (a: Bucket, b: Bucket) => Rank(a.0) - Rank(b.0) <= 0
  }

  /** `Object.entries(rangesByStatus).filter(([_, info]) => info.length > 0).sort(...)`
      (lines 156-167 and 407-418). */
  function Breakdown(entries: seq<Bucket>): seq<Bucket>
  {
    Sorting.SortBy(Filter(entries, HasRanges()), ByRank())
  }

  /** `([_, info]) => info.length > 0` */
  function HasRanges(): Bucket -> bool
  {
    (e: Bucket) => |e.1| > 0
  }

  /** `entries` is `Object.entries(m)`: each key with its value, once, in an
      order the model leaves open. */
  predicate Enumerates(entries: seq<Bucket>, m: map<string, seq<StatusRange>>)
  {
    Sorting.NoDuplicates(entries)
    && (forall i :: 0 <= i < |entries| ==> entries[i].0 in m && m[entries[i].0] == entries[i].1)
    && (forall k :: k in m ==> (k, m[k]) in entries)
  }

  /** The reference breakdown: the statuses of `order`, in that order, that
      have a non-empty list in `m`. */
  function InOrder(order: seq<string>, m: map<string, seq<StatusRange>>): (r: seq<Bucket>)
    ensures forall e :: e in r <==> e.0 in order && e.0 in m && m[e.0] == e.1 && |e.1| > 0
  {
    if |order| == 0 then []
    else
      var s := order[0];
      (if s in m && |m[s]| > 0 then [(s, m[s])] else []) + InOrder(order[1..], m)
  }

  /** The breakdown does not depend on the order in which the object's
      entries come: it is always the non-empty statuses from CRITICAL down to
      SAFE, each with its own ranges. */
  lemma BreakdownCanonical(entries: seq<Bucket>, m: map<string, seq<StatusRange>>)
    requires Enumerates(entries, m) && m.Keys <= Statuses
    ensures Breakdown(entries) == InOrder(StatusOrder, m)
  {
    var f := Filter(entries, HasRanges());
    var r := Breakdown(entries);
    var x := InOrder(StatusOrder, m);
    assert Sorting.TotalPreorder(ByRank());
    Sorting.SortBySorted(f, ByRank());
    InOrderSorted(StatusOrder, m);
    SameBuckets(entries, m);
    assert multiset(r) == multiset(x);
    RankSorted(r);
    RankSorted(x);
    forall e | e in r ensures e.0 in Statuses && e.0 in m && m[e.0] == e.1 {
      assert e in multiset(f);
    }
    RankInjective(r, m);
    Sorting.SortedByKeyUnique(r, x, BucketRank);
  }

  /** Buckets taken from one map are told apart by the rank of their status. */
  lemma RankInjective(xs: seq<Bucket>, m: map<string, seq<StatusRange>>)
    requires forall e :: e in xs ==> e.0 in Statuses && e.0 in m && m[e.0] == e.1
    ensures Sorting.KeyInjective(xs, BucketRank)
  {
    forall i, j | 0 <= i < |xs| && 0 <= j < |xs| && BucketRank(xs[i]) == BucketRank(xs[j])
      ensures xs[i] == xs[j]
    {
      var a, b := xs[i], xs[j];
      assert a in xs && b in xs;
      assert StatusOrder[Rank(a.0)] == a.0 && StatusOrder[Rank(b.0)] == b.0;
    }
  }

  function BucketRank(e: Bucket): int
  {
    Rank(e.0)
  }

  lemma RankSorted(xs: seq<Bucket>)
    requires Sorting.SortedBy(xs, ByRank())
    ensures Sorting.SortedByKey(xs, BucketRank)
  {
    forall i, j | 0 <= i < j < |xs| ensures BucketRank(xs[i]) <= BucketRank(xs[j]) {
      assert ByRank()(xs[i], xs[j]);
    }
  }

  /** The non-empty entries are the buckets of the reference breakdown. */
  lemma SameBuckets(entries: seq<Bucket>, m: map<string, seq<StatusRange>>)
    requires Enumerates(entries, m) && m.Keys <= Statuses
    ensures multiset(Filter(entries, HasRanges())) == multiset(InOrder(StatusOrder, m))
    ensures forall e :: e in Filter(entries, HasRanges()) ==> e.0 in Statuses && m[e.0] == e.1
  {
    var f := Filter(entries, HasRanges());
    var x := InOrder(StatusOrder, m);
    FilterNoDuplicates(entries, HasRanges());
    InOrderSorted(StatusOrder, m);
    forall e ensures e in f <==> e in x {
      assert e.0 in Statuses <==> e.0 in StatusOrder;
      if e in entries {
        var i :| 0 <= i < |entries| && entries[i] == e;
      }
      if e.0 in m && m[e.0] == e.1 {
        assert (e.0, m[e.0]) in entries;
      }
    }
    Sorting.NoDuplicatesMultiset(f);
    Sorting.NoDuplicatesMultiset(x);
    assert Sorting.Elements(f) == Sorting.Elements(x);
  }

  /** The reference breakdown is ordered by rank and lists each status once. */
  lemma {:induction false} InOrderSorted(order: seq<string>, m: map<string, seq<StatusRange>>)
    requires forall i, j :: 0 <= i < j < |order| ==> Rank(order[i]) < Rank(order[j])
    ensures Sorting.SortedBy(InOrder(order, m), ByRank())
    ensures Sorting.NoDuplicates(InOrder(order, m))
    decreases |order|
  {
    if |order| > 0 {
      var rest := InOrder(order[1..], m);
      InOrderSorted(order[1..], m);
      forall e | e in rest ensures Rank(order[0]) < Rank(e.0) {
        var k :| 0 <= k < |order[1..]| && order[1..][k] == e.0;
        assert order[k + 1] == e.0;
      }
    }
  }

  // ------------------------------------------------------------ range labels

  /** The label of a breakdown range (lines 194-199 and 235-240): the start
      joined with "." when the end is null, else "a.b.c – d.e.f". */
  function RangeLabel(r: StatusRange, fmt: real -> string): string
  {
    match r.end
    case None => VersionLabel(r.start, fmt)
    case Some(e) => VersionLabel(r.start, fmt) + " \U{2013} " + VersionLabel(e, fmt)
  }

  /** With a rendering of numbers that is one-to-one and writes neither "."
      nor an en dash, two ranges get the same label exactly when they are
      the same range: the label of a range with an end always holds a dash,
      one without never does, and both halves are read back. */
  lemma RangeLabelInjective(r: StatusRange, q: StatusRange, fmt: real -> string)
    requires forall x: real, y: real :: fmt(x) == fmt(y) ==> x == y
    requires forall x: real :: '.' !in fmt(x) && '\U{2013}' !in fmt(x)
    ensures RangeLabel(r, fmt) == RangeLabel(q, fmt) <==> r == q
  {
    if RangeLabel(r, fmt) == RangeLabel(q, fmt) {
      LabelWithoutDash(r.start, fmt);
      LabelWithoutDash(q.start, fmt);
      if r.end.Some? {
        LabelWithoutDash(r.end.value, fmt);
        DashedSplit(VersionLabel(r.start, fmt), VersionLabel(r.end.value, fmt));
      }
      if q.end.Some? {
        LabelWithoutDash(q.end.value, fmt);
        DashedSplit(VersionLabel(q.start, fmt), VersionLabel(q.end.value, fmt));
      }
      if r.end.None? && q.end.Some? {
        SplitNoSeparator(RangeLabel(r, fmt), '\U{2013}');
      }
      if r.end.Some? && q.end.None? {
        SplitNoSeparator(RangeLabel(q, fmt), '\U{2013}');
      }
      if r.end.Some? && q.end.Some? {
        var a, b := VersionLabel(r.start, fmt), VersionLabel(q.start, fmt);
        assert a + " " == b + " ";
        assert a == (a + " ")[..|a|] && b == (b + " ")[..|b|];
        var c, d := VersionLabel(r.end.value, fmt), VersionLabel(q.end.value, fmt);
        assert " " + c == " " + d;
        assert c == (" " + c)[1..] && d == (" " + d)[1..];
        LabelInjective(r.end.value, q.end.value, fmt);
      }
      LabelInjective(r.start, q.start, fmt);
    }
  }

  /** A version label holds no en dash. */
  lemma LabelWithoutDash(v: TsVersion, fmt: real -> string)
    requires forall x: real :: '\U{2013}' !in fmt(x)
    ensures '\U{2013}' !in VersionLabel(v, fmt)
  {
    var x, y, z := v.0, v.1, v.2;
    var a, b, c := fmt(x), fmt(y), fmt(z);
    assert '\U{2013}' !in a && '\U{2013}' !in b && '\U{2013}' !in c;
    var s := VersionLabel(v, fmt);
    assert s == a + "." + b + "." + c;
    forall i | 0 <= i < |s| ensures s[i] != '\U{2013}' {
      if i < |a| { assert s[i] == a[i]; }
      else if i < |a| + 1 + |b| && i > |a| { assert s[i] == b[i - |a| - 1]; }
      else if i > |a| + 1 + |b| { assert s[i] == c[i - |a| - |b| - 2]; }
    }
  }

  /** A dashed label splits on the dash into its two halves. */
  lemma DashedSplit(a: string, b: string)
    requires '\U{2013}' !in a && '\U{2013}' !in b
    ensures Split(a + " \U{2013} " + b, '\U{2013}') == [a + " ", " " + b]
  {
    assert a + " \U{2013} " + b == (a + " ") + ['\U{2013}'] + (" " + b);
    SplitAtSeparator(a + " ", '\U{2013}', " " + b);
    SplitNoSeparator(" " + b, '\U{2013}');
  }

  // ------------------------------------------------------------ end of life

  /** `eolVersions` (`src/config.ts`, line 12). */
  const EolVersions: seq<string> := ["3.9"]

  /** `eolVersions.includes(version.join("."))` (lines 35-36). */
  predicate IsEol(v: TsMinor, fmt: real -> string)
  {
    fmt(v.0) + "." + fmt(v.1) in EolVersions
  }

  /** With a one-to-one rendering that writes 3 as "3" and 9 as "9" and
      never a ".", exactly the row of Python 3.9 is end-of-life. */
  lemma EolExactly(v: TsMinor, fmt: real -> string)
    requires forall x: real, y: real :: fmt(x) == fmt(y) ==> x == y
    requires forall x: real :: '.' !in fmt(x)
    requires fmt(3.0) == "3" && fmt(9.0) == "9"
    ensures IsEol(v, fmt) <==> v == (3.0, 9.0)
  {
    var x, y := v.0, v.1;
    assert fmt(3.0) + "." + fmt(9.0) == "3.9";
    if IsEol(v, fmt) {
      var a, b := fmt(x), fmt(y);
      assert '.' !in a && '.' !in b;
      SplitJoin([a, b], '.');
      assert Join([a, b], ".") == a + "." + b;
      SplitJoin(["3", "9"], '.');
      assert Join(["3", "9"], ".") == "3.9";
      assert [a, b] == ["3", "9"];
      assert fmt(x) == fmt(3.0) && fmt(y) == fmt(9.0);
      assert x == 3.0 && y == 9.0;
    }
  }
}
