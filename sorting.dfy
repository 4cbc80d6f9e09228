/** Orderings and sorting shared by the model: a stable insertion sort (the
    behaviour of JavaScript's `Array.prototype.sort` and Python's `list.sort`,
    both stable) and the sorted list of a finite set (Python's `sorted(s)`). */
module Sorting {

  ghost predicate Total<T(!new)>(le: (T, T) -> bool)
  {
    forall a, b :: le(a, b) || le(b, a)
  }

  ghost predicate Transitive<T(!new)>(le: (T, T) -> bool)
  {
    forall a, b, c :: le(a, b) && le(b, c) ==> le(a, c)
  }

  ghost predicate Antisymmetric<T(!new)>(le: (T, T) -> bool)
  {
    forall a, b :: le(a, b) && le(b, a) ==> a == b
  }

  /** A total preorder: what a comparator with ties describes. */
  ghost predicate TotalPreorder<T(!new)>(le: (T, T) -> bool)
  {
    Total(le) && Transitive(le)
  }

  ghost predicate TotalOrder<T(!new)>(le: (T, T) -> bool)
  {
    TotalPreorder(le) && Antisymmetric(le)
  }

  predicate SortedBy<T>(xs: seq<T>, le: (T, T) -> bool)
  {
    forall i, j :: 0 <= i < j < |xs| ==> le(xs[i], xs[j])
  }

  predicate NoDuplicates<T(==)>(xs: seq<T>)
  {
    forall i, j :: 0 <= i < j < |xs| ==> xs[i] != xs[j]
  }

  /** Inserts `x` before the first element it is not after. */
  function Insert<T>(x: T, ys: seq<T>, le: (T, T) -> bool): (r: seq<T>)
    ensures multiset(r) == multiset{x} + multiset(ys)
    decreases |ys|
  {
    if |ys| == 0 then [x]
    else if le(x, ys[0]) then [x] + ys
    else
      assert ys == [ys[0]] + ys[1..];
      [ys[0]] + Insert(x, ys[1..], le)
  }

  /** Stable insertion sort: equal elements keep their input order. */
  function SortBy<T>(xs: seq<T>, le: (T, T) -> bool): (r: seq<T>)
    ensures multiset(r) == multiset(xs)
    decreases |xs|
  {
    if |xs| == 0 then []
    else
      assert xs == [xs[0]] + xs[1..];
      Insert(xs[0], SortBy(xs[1..], le), le)
  }

  lemma {:induction false} InsertSorted<T(!new)>(x: T, ys: seq<T>, le: (T, T) -> bool)
    requires TotalPreorder(le) && SortedBy(ys, le)
    ensures SortedBy(Insert(x, ys, le), le)
    decreases |ys|
  {
    if |ys| > 0 && !le(x, ys[0]) {
      InsertSorted(x, ys[1..], le);
      var tail := Insert(x, ys[1..], le);
      var r := [ys[0]] + tail;
      assert le(ys[0], x);
      forall j | 0 <= j < |tail| ensures le(ys[0], tail[j]) {
        assert tail[j] in multiset(tail);
        assert tail[j] == x || tail[j] in multiset(ys[1..]);
        if tail[j] != x {
          var k :| 0 <= k < |ys[1..]| && ys[1..][k] == tail[j];
          assert ys[k + 1] == tail[j];
        }
      }
      forall i, j | 0 <= i < j < |r| ensures le(r[i], r[j]) {
        if i > 0 { assert r[i] == tail[i - 1] && r[j] == tail[j - 1]; }
        else { assert r[j] == tail[j - 1]; }
      }
    }
  }

  lemma {:induction false} SortBySorted<T(!new)>(xs: seq<T>, le: (T, T) -> bool)
    requires TotalPreorder(le)
    ensures SortedBy(SortBy(xs, le), le)
    decreases |xs|
  {
    if |xs| > 0 {
      SortBySorted(xs[1..], le);
      InsertSorted(xs[0], SortBy(xs[1..], le), le);
    }
  }

  /** When every element ties with every later one, the stable sort keeps the
      order it was given (a comparator that always answers 0 sorts nothing). */
  lemma {:induction false} SortByAllTies<T>(xs: seq<T>, le: (T, T) -> bool)
    requires forall i, j :: 0 <= i < j < |xs| ==> le(xs[i], xs[j])
    ensures SortBy(xs, le) == xs
    decreases |xs|
  {
    if |xs| > 0 {
      assert forall i, j :: 0 <= i < j < |xs[1..]| ==> le(xs[1..][i], xs[1..][j]) by {
        forall i, j | 0 <= i < j < |xs[1..]| ensures le(xs[1..][i], xs[1..][j]) {
          assert xs[1..][i] == xs[i + 1] && xs[1..][j] == xs[j + 1];
        }
      }
      SortByAllTies(xs[1..], le);
      if |xs| > 1 {
        assert le(xs[0], xs[1]);
      }
      assert [xs[0]] + xs[1..] == xs;
    }
  }

  lemma {:induction false} MinExists<T(!new)>(s: set<T>, le: (T, T) -> bool)
    requires s != {} && TotalOrder(le)
    ensures exists m :: m in s && forall y :: y in s ==> le(m, y)
    decreases |s|
  {
    var x :| x in s;
    if s == {x} {
      assert le(x, x);
      assert forall y :: y in s ==> le(x, y);
    } else {
      MinExists(s - {x}, le);
      var m :| m in s - {x} && forall y :: y in s - {x} ==> le(m, y);
      if le(x, m) {
        forall y | y in s ensures le(x, y) {
          if y != x { assert le(m, y); }
        }
      } else {
        assert le(m, x);
        forall y | y in s ensures le(m, y) {
        }
      }
    }
  }

  /** The elements of a finite set in ascending order, without duplicates
      (Python's `sorted(s)` on a set). */
  function SortedSet<T(==,!new)>(s: set<T>, le: (T, T) -> bool): (r: seq<T>)
    requires TotalOrder(le)
    ensures |r| == |s|
    ensures forall x :: x in r <==> x in s
    ensures SortedBy(r, le) && NoDuplicates(r)
    decreases |s|
  {
    if s == {} then []
    else
      MinExists(s, le);
      var m :| m in s && forall y :: y in s ==> le(m, y);
      var rest := SortedSet(s - {m}, le);
      SortedSetCons(s, m, rest, le);
      [m] + rest
  }

  /** The least element of `s` followed by the sorted rest sorts `s`. */
  lemma SortedSetCons<T>(s: set<T>, m: T, rest: seq<T>, le: (T, T) -> bool)
    requires m in s && forall y :: y in s ==> le(m, y)
    requires |rest| == |s - {m}| && (forall x :: x in rest <==> x in s - {m})
    requires SortedBy(rest, le) && NoDuplicates(rest)
    ensures |[m] + rest| == |s| && (forall x :: x in [m] + rest <==> x in s)
    ensures SortedBy([m] + rest, le) && NoDuplicates([m] + rest)
  {
    var r := [m] + rest;
    forall i, j | 0 <= i < j < |r| ensures le(r[i], r[j]) && r[i] != r[j] {
      assert r[j] == rest[j - 1] && r[j] in s - {m};
      if i > 0 { assert r[i] == rest[i - 1]; }
    }
  }

  /** A sorted list without duplicates is determined by its elements. */
  lemma {:induction false} SortedUnique<T(!new)>(a: seq<T>, b: seq<T>, le: (T, T) -> bool)
    requires TotalOrder(le)
    requires SortedBy(a, le) && NoDuplicates(a) && SortedBy(b, le) && NoDuplicates(b)
    requires forall x :: x in a <==> x in b
    ensures a == b
    decreases |a|
  {
    assert |b| > 0 ==> b[0] in a;
    if |a| > 0 {
      assert a[0] in b;
      SameHead(a, b, le);
      SameTails(a, b);
      SortedUnique(a[1..], b[1..], le);
      assert a == [a[0]] + a[1..] && b == [b[0]] + b[1..];
    }
  }

  /** Two sorted lists with the same elements start alike. */
  lemma SameHead<T(!new)>(a: seq<T>, b: seq<T>, le: (T, T) -> bool)
    requires TotalOrder(le) && SortedBy(a, le) && SortedBy(b, le)
    requires |a| > 0 && |b| > 0 && (forall x :: x in a <==> x in b)
    ensures a[0] == b[0]
  {
    assert a[0] in b && b[0] in a;
    var i :| 0 <= i < |b| && b[i] == a[0];
    var j :| 0 <= j < |a| && a[j] == b[0];
    assert i == 0 || le(b[0], b[i]);
    assert j == 0 || le(a[0], a[j]);
    assert le(b[0], a[0]) && le(a[0], b[0]);
  }

  /** Lists without duplicates that have the same elements and the same head
      have tails with the same elements. */
  lemma SameTails<T>(a: seq<T>, b: seq<T>)
    requires NoDuplicates(a) && NoDuplicates(b)
    requires |a| > 0 && |b| > 0 && a[0] == b[0] && (forall x :: x in a <==> x in b)
    ensures forall x :: x in a[1..] <==> x in b[1..]
  {
    forall x ensures x in a[1..] <==> x in b[1..] {
      if x in a[1..] {
        var k :| 1 <= k < |a| && a[k] == x;
        assert x != a[0];
        assert x in b;
      }
      if x in b[1..] {
        var k :| 1 <= k < |b| && b[k] == x;
        assert x != b[0];
        assert x in a;
      }
    }
  }

  // ------------------------------------------------------------ element sets, lists ordered by a key

  /** The set of a list's elements. */
  function Elements<T>(xs: seq<T>): set<T>
  {
    set x | x in xs
  }

  /** A list without duplicates has the multiset of its set of elements. */
  lemma {:induction false} NoDuplicatesMultiset<T>(xs: seq<T>)
    requires NoDuplicates(xs)
    ensures multiset(xs) == multiset(Elements(xs))
    ensures forall x :: x in xs <==> x in Elements(xs)
    decreases |xs|
  {
    if |xs| > 0 {
      var n := |xs| - 1;
      var front := xs[..n];
      NoDuplicatesMultiset(front);
      assert xs == front + [xs[n]];
      assert Elements(xs) == Elements(front) + {xs[n]};
      assert xs[n] !in Elements(front);
    }
    forall x ensures x in xs <==> x in Elements(xs) {
      if x in xs {
        var i :| 0 <= i < |xs| && xs[i] == x;
      }
    }
  }

  predicate SortedByKey<T>(xs: seq<T>, key: T -> int)
  {
    forall i, j :: 0 <= i < j < |xs| ==> key(xs[i]) <= key(xs[j])
  }

  /** Elements of `xs` with the same key are equal. */
  ghost predicate KeyInjective<T>(xs: seq<T>, key: T -> int)
  {
    forall i, j :: 0 <= i < |xs| && 0 <= j < |xs| && key(xs[i]) == key(xs[j]) ==> xs[i] == xs[j]
  }

  /** Two lists ordered by a key that tells their elements apart, with the
      same elements, are the same list. */
  lemma {:induction false} SortedByKeyUnique<T>(a: seq<T>, b: seq<T>, key: T -> int)
    requires multiset(a) == multiset(b)
    requires SortedByKey(a, key) && SortedByKey(b, key)
    requires KeyInjective(a, key)
    ensures a == b
    decreases |a|
  {
    if |a| == 0 {
      assert |multiset(b)| == |b|;
    } else {
      SameFirst(a, b, key);
      SortedByKeyTail(a, key);
      SortedByKeyTail(b, key);
      SortedByKeyUnique(a[1..], b[1..], key);
      SameHeadAndTail(a, b);
    }
  }

  /** Two non-empty lists with the same first element and the same tail are equal. */
  lemma SameHeadAndTail<T>(a: seq<T>, b: seq<T>)
    requires |a| > 0 && |b| > 0 && a[0] == b[0] && a[1..] == b[1..]
    ensures a == b
  {
    assert a == [a[0]] + a[1..] && b == [b[0]] + b[1..];
  }

  /** Under the same conditions both lists start with the same element. */
  lemma SameFirst<T>(a: seq<T>, b: seq<T>, key: T -> int)
    requires multiset(a) == multiset(b) && |a| > 0
    requires SortedByKey(a, key) && SortedByKey(b, key)
    requires KeyInjective(a, key)
    ensures |b| > 0 && a[0] == b[0]
  {
    var x := a[0];
    assert x in multiset(b);
    var k :| 0 <= k < |b| && b[k] == x;
    var y := b[0];
    assert y in multiset(a);
    var l :| 0 <= l < |a| && a[l] == y;
    assert key(x) <= key(y) by {
      if l > 0 { assert key(a[0]) <= key(a[l]); }
    }
    assert key(y) <= key(x) by {
      if k > 0 { assert key(b[0]) <= key(b[k]); }
    }
  }

  /** The tail of an ordered list is ordered, and holds the other elements. */
  lemma SortedByKeyTail<T>(a: seq<T>, key: T -> int)
    requires |a| > 0 && SortedByKey(a, key)
    ensures SortedByKey(a[1..], key) && (KeyInjective(a, key) ==> KeyInjective(a[1..], key))
    ensures multiset(a[1..]) == multiset(a) - multiset{a[0]}
  {
    assert a == [a[0]] + a[1..];
    forall i, j | 0 <= i < j < |a[1..]| ensures key(a[1..][i]) <= key(a[1..][j]) {
      assert a[1..][i] == a[i + 1] && a[1..][j] == a[j + 1];
    }
    if KeyInjective(a, key) {
      forall i, j | 0 <= i < |a[1..]| && 0 <= j < |a[1..]| && key(a[1..][i]) == key(a[1..][j])
        ensures a[1..][i] == a[1..][j]
      {
        assert a[1..][i] == a[i + 1] && a[1..][j] == a[j + 1];
      }
    }
  }
}
