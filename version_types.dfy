/** Version tuples shared by the Python pipeline and the TypeScript front end:
    a Version is (major, minor, patch), a Minor is (major, minor), both
    compared lexicographically as Python compares tuples. */
module VersionTypes {
  import opened Text
  import Sorting

  type Version = (nat, nat, nat)
  type Minor = (nat, nat)

  /** `version[:2]` */
  function MinorOf(v: Version): Minor
  {
    (v.0, v.1)
  }

  predicate VersionLe(a: Version, b: Version)
  {
    a.0 < b.0 || (a.0 == b.0 && (a.1 < b.1 || (a.1 == b.1 && a.2 <= b.2)))
  }

  predicate VersionLt(a: Version, b: Version)
  {
    VersionLe(a, b) && a != b
  }

  predicate MinorLe(a: Minor, b: Minor)
  {
    a.0 < b.0 || (a.0 == b.0 && a.1 <= b.1)
  }

  lemma VersionOrder()
    ensures Sorting.TotalOrder(VersionLe)
  {
  }

  lemma MinorOrder()
    ensures Sorting.TotalOrder(MinorLe)
  {
  }

  /** A range of versions as the pipeline writes it: a 1-tuple `(v,)` or a
      2-tuple `(start, end)`, both ends inclusive. */
  datatype VersionRange = Single(v: Version) | Pair(start: Version, end: Version)
  {
    function First(): Version
    {
      match this
      case Single(v) => v
      case Pair(s, _) => s
    }

    function Last(): Version
    {
      match this
      case Single(v) => v
      case Pair(_, e) => e
    }
  }

  /** `version.join(".")`, `f"{v[0]}.{v[1]}.{v[2]}"` */
  function VersionString(v: Version): string
  {
    Join([NatToString(v.0), NatToString(v.1), NatToString(v.2)], ".")
  }

  /** `version.join(".")` on a minor, `f"{k[0]}.{k[1]}"` */
  function MinorString(m: Minor): string
  {
    Join([NatToString(m.0), NatToString(m.1)], ".")
  }

  lemma NatStringHasNoDot(n: nat)
    ensures '.' !in NatToString(n)
  {
    var s := NatToString(n);
    forall i | 0 <= i < |s| ensures s[i] != '.' {
      assert IsDigit(s[i]);
    }
  }

  /** Distinct versions render as distinct strings. */
  lemma VersionStringInjective(a: Version, b: Version)
    requires VersionString(a) == VersionString(b)
    ensures a == b
  {
    NatStringHasNoDot(a.0); NatStringHasNoDot(a.1); NatStringHasNoDot(a.2);
    NatStringHasNoDot(b.0); NatStringHasNoDot(b.1); NatStringHasNoDot(b.2);
    SplitJoin([NatToString(a.0), NatToString(a.1), NatToString(a.2)], '.');
    SplitJoin([NatToString(b.0), NatToString(b.1), NatToString(b.2)], '.');
    NatToStringInjective(a.0, b.0);
    NatToStringInjective(a.1, b.1);
    NatToStringInjective(a.2, b.2);
  }

  lemma MinorStringInjective(a: Minor, b: Minor)
    requires MinorString(a) == MinorString(b)
    ensures a == b
  {
    NatStringHasNoDot(a.0); NatStringHasNoDot(a.1);
    NatStringHasNoDot(b.0); NatStringHasNoDot(b.1);
    SplitJoin([NatToString(a.0), NatToString(a.1)], '.');
    SplitJoin([NatToString(b.0), NatToString(b.1)], '.');
    NatToStringInjective(a.0, b.0);
    NatToStringInjective(a.1, b.1);
  }
}
