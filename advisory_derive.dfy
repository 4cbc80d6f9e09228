/** The per-advisory derivation of the data pipeline: which release tags an
    advisory affects, its first fixed release per fix, the fixes merged but
    not released, the minors still waiting for a fix, the split into
    end-of-life and supported versions, and the final order by id.

    The git ancestry is an input: `descendants` maps a commit to the tag
    versions that contain it, `branchAncestors` to the branches that
    contain it (both behave as `defaultdict(set)`), and `tagDates` maps a
    tag version to its creation instant. */
module AdvisoryDerive {
  import opened Wrappers
  import opened Json
  import opened Text
  import opened VersionTypes
  import opened PyJson
  import opened Models
  import opened Versions
  import Sorting
  import Cve
  import AdvisoryParse

  function Descendants(descendants: map<string, set<Version>>, c: string): set<Version>
  {
    if c in descendants then descendants[c] else {}
  }

  function BranchesOf(branchAncestors: map<string, set<Branch>>, c: string): set<Branch>
  {
    if c in branchAncestors then branchAncestors[c] else {}
  }

  /** Every tag version descending from one of the commits is dated. */
  predicate AllDated(commits: set<string>, descendants: map<string, set<Version>>, tagDates: map<Version, Instant>)
  {
    forall c, v :: c in commits && v in Descendants(descendants, c) ==> v in tagDates
  }

  /** The tags created before publication that descend from an introducing
      commit; KeyError when one of them has no date. */
  function IntroducedTags(commits: set<string>, descendants: map<string, set<Version>>,
                          tagDates: map<Version, Instant>, published: Instant): (r: Result<set<Version>, Exc>)
    ensures r.Ok? <==> AllDated(commits, descendants, tagDates)
    ensures r.Ok? ==> forall v :: v in r.value <==>
      v in tagDates && tagDates[v] < published && exists c :: c in commits && v in Descendants(descendants, c)
  {
    if AllDated(commits, descendants, tagDates) then
      Ok(set c, v | c in commits && v in Descendants(descendants, c) && tagDates[v] < published :: v)
    else Err(KeyError)
  }

  /** `{tag for tag in _tags if tag_dates[tag] < published}` for one commit. */
  function DatedBefore(vs: set<Version>, tagDates: map<Version, Instant>, published: Instant): Result<set<Version>, Exc>
  {
    if forall v :: v in vs ==> v in tagDates then Ok(set v | v in vs && tagDates[v] < published)
    else Err(KeyError)
  }

  /** Everything that descends from a fixing commit. */
  function FixedDescendants(commits: set<string>, descendants: map<string, set<Version>>): (r: set<Version>)
    ensures forall v :: v in r <==> exists c :: c in commits && v in Descendants(descendants, c)
  {
    set c, v | c in commits && v in Descendants(descendants, c) :: v
  }

  /** What one fixing commit contributes. */
  datatype FixOutcome = Released(fixedIn: FixedIn) | Unreleased(fix: UnreleasedFix) | OnMain

  lemma SingletonMembers<T>(s: set<T>)
    requires |s| == 1
    ensures forall x, y :: x in s && y in s ==> x == y
  {
    var z :| z in s;
    assert |s - {z}| == 0;
    assert s - {z} == {};
    assert s == {z};
  }

  /** The element of a one-element set (`sorted(br)[0]`). */
  function TheOnly(s: set<Branch>): (b: Branch)
    requires |s| == 1
    ensures s == {b}
  {
    SingletonMembers(s);
    var b :| b in s;
    b
  }

  /** A fixing commit reached by tags gives its smallest tag as first fixed
      release; otherwise it must be on exactly one branch, and unless that
      branch is main it is a fix not yet released. */
  function FixOf(c: string, descendants: map<string, set<Version>>, branchAncestors: map<string, set<Branch>>): Result<FixOutcome, Exc>
  {
    var desc := Descendants(descendants, c);
    if desc != {} then Ok(Released(FixedIn(EncodeVersions(desc)[0], c)))
    else
      var br := BranchesOf(branchAncestors, c);
      if br == {} || |br| != 1 then Err(AssertionError)
      else
        var only := TheOnly(br);
        if only.IsMain() then Ok(OnMain)
        else Ok(Unreleased(UnreleasedFix(only.version.minor, c)))
  }

  /** The two lists after visiting the fixing commits in the given order. */
  function Fixes(order: seq<string>, descendants: map<string, set<Version>>, branchAncestors: map<string, set<Branch>>)
    : Result<(seq<FixedIn>, seq<UnreleasedFix>), Exc>
    decreases |order|
  {
    if |order| == 0 then Ok(([], []))
    else
      var before :- Fixes(order[..|order| - 1], descendants, branchAncestors);
      var outcome :- FixOf(order[|order| - 1], descendants, branchAncestors);
      match outcome
      case Released(f) => Ok((before.0 + [f], before.1))
      case Unreleased(u) => Ok((before.0, before.1 + [u]))
      case OnMain => Ok(before)
  }

  lemma FixedDescendantsStep(introduced: set<Version>, done: set<string>, c: string, descendants: map<string, set<Version>>)
    ensures introduced - FixedDescendants(done, descendants) - Descendants(descendants, c)
              == introduced - FixedDescendants(done + {c}, descendants)
  {
    assert FixedDescendants(done + {c}, descendants) == FixedDescendants(done, descendants) + Descendants(descendants, c);
  }

  /** `order` lists the elements of `s`, each once: an iteration order. */
  ghost predicate Enumerates(order: seq<string>, s: set<string>)
  {
    Sorting.NoDuplicates(order) && forall c :: c in order <==> c in s
  }

  predicate FixedInLe(a: FixedIn, b: FixedIn)
  {
    VersionLe(a.version, b.version)
  }

  function MinorsOf(vs: set<Version>): set<Minor>
  {
    set v | v in vs :: MinorOf(v)
  }

  /** The minors affected, without a released fix, and not end-of-life when
      the advisory was published. */
  function PendingMinors(affected: set<Version>, fixedIn: seq<FixedIn>, published: Instant): set<Minor>
  {
    var fixedMinors := set f | f in fixedIn :: MinorOf(f.version);
    set m | m in MinorsOf(affected) && m !in fixedMinors && !IsVersionEol((m.0, m.1, 0), published)
  }

  function EncodeMinors(s: set<Minor>): (r: seq<Minor>)
    ensures |r| == |s| && (forall m :: m in r <==> m in s)
    ensures Sorting.SortedBy(r, MinorLe) && Sorting.NoDuplicates(r)
  {
    MinorOrder();
    Sorting.SortedSet(s, MinorLe)
  }

  /** The affected set before the end-of-life split: the CVE record's
      versions when it lists any, else the advisory's own plus `remaining`. */
  function AffectedSet(a: Advisory, apiVersions: set<Version>, remaining: set<Version>): set<Version>
  {
    if apiVersions != {} then apiVersions else a.affectedVersions + remaining
  }

  /** The versions whose minor had reached end of life at `published`. */
  function EolPart(affected: set<Version>, published: Instant): (eol: set<Version>)
    ensures eol <= affected
    ensures forall v :: v in affected ==> (v in eol <==> IsVersionEol((v.0, v.1, 0), published))
  {
    set v | v in affected && IsVersionEol((v.0, v.1, 0), published)
  }

  /** The steps after the two loops: the affected set (the CVE record's, when
      it lists any), pending minors, the end-of-life split, and the sort of
      the first fixed releases. */
  function Finish(a: Advisory, severity: Option<Severity>, apiVersions: set<Version>,
                  remaining: set<Version>, fixedIn: seq<FixedIn>, unreleased: seq<UnreleasedFix>): Advisory
  {
    var affected := AffectedSet(a, apiVersions, remaining);
    var eol := EolPart(affected, a.published);
    a.(severity := severity,
       affectedVersions := affected - eol,
       affectedEolVersions := eol,
       fixedIn := Sorting.SortBy(fixedIn, FixedInLe),
       fixedButNotReleased := unreleased,
       fixesPending := EncodeMinors(PendingMinors(affected, fixedIn, a.published)))
  }

  /** The derivation of one advisory when its fixing commits are visited in
      `order`. */
  function DeriveSpec(a: Advisory, severity: Option<Severity>, apiVersions: set<Version>,
                      descendants: map<string, set<Version>>, branchAncestors: map<string, set<Branch>>,
                      tagDates: map<Version, Instant>, order: seq<string>): Result<Advisory, Exc>
  {
    var introduced :- IntroducedTags(a.introducedCommits, descendants, tagDates, a.published);
    var fixes :- Fixes(order, descendants, branchAncestors);
    Ok(Finish(a, severity, apiVersions, introduced - FixedDescendants(a.fixedCommits, descendants), fixes.0, fixes.1))
  }

  // ------------------------------------------------------ the two loops

  lemma IntroducedStep(done: set<string>, c: string, descendants: map<string, set<Version>>,
                       tagDates: map<Version, Instant>, published: Instant)
    requires IntroducedTags(done, descendants, tagDates, published).Ok?
    ensures DatedBefore(Descendants(descendants, c), tagDates, published).Ok? ==>
      IntroducedTags(done + {c}, descendants, tagDates, published) ==
        Ok(IntroducedTags(done, descendants, tagDates, published).value + DatedBefore(Descendants(descendants, c), tagDates, published).value)
    ensures DatedBefore(Descendants(descendants, c), tagDates, published).Err? ==>
      IntroducedTags(done + {c}, descendants, tagDates, published).Err?
  {
    var dated := DatedBefore(Descendants(descendants, c), tagDates, published);
    if dated.Ok? {
      var before := IntroducedTags(done, descendants, tagDates, published).value;
      assert AllDated(done + {c}, descendants, tagDates);
      var after := IntroducedTags(done + {c}, descendants, tagDates, published);
      forall v ensures v in after.value <==> v in before + dated.value {
        if v in after.value {
          var d :| d in done + {c} && v in Descendants(descendants, d);
          if d != c { assert v in before; }
        }
        if v in before {
          var d :| d in done && v in Descendants(descendants, d);
          assert d in done + {c};
        }
      }
      assert after.value == before + dated.value;
    } else {
      var v :| v in Descendants(descendants, c) && v !in tagDates;
      assert !AllDated(done + {c}, descendants, tagDates);
    }
  }

  lemma IntroducedErrGrows(s: set<string>, t: set<string>, descendants: map<string, set<Version>>,
                           tagDates: map<Version, Instant>, published: Instant)
    requires s <= t && IntroducedTags(s, descendants, tagDates, published).Err?
    ensures IntroducedTags(t, descendants, tagDates, published) == Err(KeyError)
  {
  }

  lemma {:induction false} FixesErrPersists(order: seq<string>, i: nat, descendants: map<string, set<Version>>,
                                            branchAncestors: map<string, set<Branch>>)
    requires i <= |order| && Fixes(order[..i], descendants, branchAncestors).Err?
    ensures Fixes(order, descendants, branchAncestors) == Fixes(order[..i], descendants, branchAncestors)
    decreases |order| - i
  {
    if i < |order| {
      var n := |order|;
      assert order[..n - 1][..i] == order[..i];
      FixesErrPersists(order[..n - 1], i, descendants, branchAncestors);
    } else {
      assert order[..i] == order;
    }
  }

  /** `done` and `todo` are disjoint and together make `all`. */
  predicate Splits(done: set<string>, todo: set<string>, all: set<string>)
  {
    done + todo == all && done !! todo
  }

  lemma SplitsStep(done: set<string>, todo: set<string>, all: set<string>, c: string)
    requires Splits(done, todo, all) && c in todo
    ensures Splits(done + {c}, todo - {c}, all)
  {
  }

  /** Extending an enumeration of `done` by `c` and then by an enumeration of
      the rest enumerates the whole set. */
  lemma CompleteOrder(order: seq<string>, c: string, done: set<string>, todo: set<string>, all: set<string>)
    requires Enumerates(order, done) && c in todo && Splits(done, todo, all)
    ensures Enumerates(order + [c] + EncodeCommits(todo - {c}), all)
  {
    EnumeratesStep(order, c, done);
    EnumeratesConcat(order + [c], done + {c}, EncodeCommits(todo - {c}), todo - {c});
    assert done + {c} + (todo - {c}) == all;
  }

  /** Enumerations of disjoint sets concatenate to an enumeration of their
      union. */
  lemma EnumeratesConcat(a: seq<string>, sa: set<string>, b: seq<string>, sb: set<string>)
    requires Enumerates(a, sa) && Enumerates(b, sb) && sa !! sb
    ensures Enumerates(a + b, sa + sb)
  {
    var o := a + b;
    forall i, j | 0 <= i < j < |o| ensures o[i] != o[j] {
      if j < |a| {
      } else if i < |a| {
        assert o[i] in sa && o[j] == b[j - |a|] && o[j] in sb;
      } else {
        assert o[i] == b[i - |a|] && o[j] == b[j - |a|];
      }
    }
  }

  lemma EnumeratesStep(order: seq<string>, c: string, done: set<string>)
    requires Enumerates(order, done) && c !in done
    ensures Enumerates(order + [c], done + {c})
  {
  }

  /** Visiting one more commit after `order`. */
  lemma FixesStep(order: seq<string>, c: string, descendants: map<string, set<Version>>,
                  branchAncestors: map<string, set<Branch>>)
    requires Fixes(order, descendants, branchAncestors).Ok? && FixOf(c, descendants, branchAncestors).Ok?
    ensures var acc := Fixes(order, descendants, branchAncestors).value;
      Fixes(order + [c], descendants, branchAncestors) ==
        match FixOf(c, descendants, branchAncestors).value
        case Released(f) => Ok((acc.0 + [f], acc.1))
        case Unreleased(u) => Ok((acc.0, acc.1 + [u]))
        case OnMain => Ok(acc)
  {
    var next := order + [c];
    assert next[..|next| - 1] == order && next[|next| - 1] == c;
  }

  /** A fixing commit that fails ends the loop: completed by the
      unvisited commits in any order, the visiting order fails alike. */
  lemma FailedFixOrder(order: seq<string>, c: string, done: set<string>, todo: set<string>, all: set<string>,
                       descendants: map<string, set<Version>>, branchAncestors: map<string, set<Branch>>)
    requires Enumerates(order, done) && c in todo && Splits(done, todo, all)
    requires Fixes(order, descendants, branchAncestors).Ok? && FixOf(c, descendants, branchAncestors).Err?
    ensures Enumerates(order + [c] + EncodeCommits(todo - {c}), all)
    ensures Fixes(order + [c] + EncodeCommits(todo - {c}), descendants, branchAncestors)
              == Err(FixOf(c, descendants, branchAncestors).error)
  {
    CompleteOrder(order, c, done, todo, all);
    var next := order + [c];
    var full := next + EncodeCommits(todo - {c});
    assert Fixes(next, descendants, branchAncestors) == Err(FixOf(c, descendants, branchAncestors).error) by {
      FixesFailAt(order, c, descendants, branchAncestors);
    }
    assert full[..|next|] == next;
    FixesErrPersists(full, |next|, descendants, branchAncestors);
  }

  /** A commit whose outcome is an error makes the walk fail with that error. */
  lemma FixesFailAt(order: seq<string>, c: string, descendants: map<string, set<Version>>,
                    branchAncestors: map<string, set<Branch>>)
    requires Fixes(order, descendants, branchAncestors).Ok? && FixOf(c, descendants, branchAncestors).Err?
    ensures Fixes(order + [c], descendants, branchAncestors) == Err(FixOf(c, descendants, branchAncestors).error)
  {
    var next := order + [c];
    assert next[..|next| - 1] == order && next[|next| - 1] == c;
  }

  /** The first loop: the dated tags descending from the introducing commits. */
  method CollectIntroduced(commits: set<string>, descendants: map<string, set<Version>>,
                           tagDates: map<Version, Instant>, published: Instant) returns (r: Result<set<Version>, Exc>)
    ensures r == IntroducedTags(commits, descendants, tagDates, published)
  {
    var introduced: set<Version> := {};
    var todo := commits;
    assert commits - todo == {};
    assert IntroducedTags({}, descendants, tagDates, published).value == {};
    while todo != {}
      invariant todo <= commits
      invariant IntroducedTags(commits - todo, descendants, tagDates, published) == Ok(introduced)
      decreases |todo|
    {
      var c :| c in todo;
      var done := commits - todo;
      IntroducedStep(done, c, descendants, tagDates, published);
      assert done + {c} == commits - (todo - {c});
      var dated := DatedBefore(Descendants(descendants, c), tagDates, published);
      if dated.Err? {
        IntroducedErrGrows(done + {c}, commits, descendants, tagDates, published);
        return Err(KeyError);
      }
      introduced := introduced + dated.value;
      todo := todo - {c};
    }
    assert commits - todo == commits;
    r := Ok(introduced);
  }

  /** The second loop: the fixing commits, visited in an unspecified order
      `order`, give the two lists of `Fixes` and remove what they reach from
      `introduced`. */
  method CollectFixes(commits: set<string>, descendants: map<string, set<Version>>,
                      branchAncestors: map<string, set<Branch>>, introduced: set<Version>)
    returns (r: Result<(seq<FixedIn>, seq<UnreleasedFix>, set<Version>), Exc>, ghost order: seq<string>)
    ensures Enumerates(order, commits)
    ensures r.Err? ==> Fixes(order, descendants, branchAncestors) == Err(r.error)
    ensures r.Ok? ==> Fixes(order, descendants, branchAncestors) == Ok((r.value.0, r.value.1))
    ensures r.Ok? ==> r.value.2 == introduced - FixedDescendants(commits, descendants)
  {
    var remaining := introduced;
    var fixedIn: seq<FixedIn> := [];
    var unreleased: seq<UnreleasedFix> := [];
    order := [];
    var todo := commits;
    ghost var done: set<string> := {};
    while todo != {}
      invariant Splits(done, todo, commits)
      invariant Enumerates(order, done)
      invariant Fixes(order, descendants, branchAncestors) == Ok((fixedIn, unreleased))
      invariant remaining == introduced - FixedDescendants(done, descendants)
      decreases |todo|
    {
      var c :| c in todo;
      var desc := Descendants(descendants, c);
      remaining := remaining - desc;
      ghost var next := order + [c];
      EnumeratesStep(order, c, done);
      var outcome := FixOf(c, descendants, branchAncestors);
      if outcome.Err? {
        FailedFixOrder(order, c, done, todo, commits, descendants, branchAncestors);
        return Err(outcome.error), next + EncodeCommits(todo - {c});
      }
      FixesStep(order, c, descendants, branchAncestors);
      match outcome.value {
        case Released(f) => fixedIn := fixedIn + [f];
        case Unreleased(u) => unreleased := unreleased + [u];
        case OnMain =>
      }
      FixedDescendantsStep(introduced, done, c, descendants);
      SplitsStep(done, todo, commits, c);
      order := next;
      done := done + {c};
      todo := todo - {c};
    }
    assert done == commits;
    r := Ok((fixedIn, unreleased, remaining));
  }

  /** The derivation of `parse_advisories` for one advisory (the body of its
      main loop), the CVE record's severity and affected versions given. The
      fixing commits are visited in an unspecified order, as Python iterates
      a set; the result is the specification's for that order. */
  method DeriveAdvisory(a: Advisory, severity: Option<Severity>, apiVersions: set<Version>,
                        descendants: map<string, set<Version>>, branchAncestors: map<string, set<Branch>>,
                        tagDates: map<Version, Instant>) returns (r: Result<Advisory, Exc>)
    ensures exists order ::
              Enumerates(order, a.fixedCommits) &&
              r == DeriveSpec(a, severity, apiVersions, descendants, branchAncestors, tagDates, order)
  {
    var introduced := CollectIntroduced(a.introducedCommits, descendants, tagDates, a.published);
    if introduced.Err? {
      ghost var order := EncodeCommits(a.fixedCommits);
      assert Enumerates(order, a.fixedCommits);
      return Err(introduced.error);
    }
    var fixes;
    ghost var order;
    fixes, order := CollectFixes(a.fixedCommits, descendants, branchAncestors, introduced.value);
    if fixes.Err? {
      return Err(fixes.error);
    }
    r := Ok(Finish(a, severity, apiVersions, fixes.value.2, fixes.value.0, fixes.value.1));
  }

  // ------------------------------------------------- what a fix contributes

  /** Every released fix names a visited commit and the smallest tag that
      contains it, and every visited commit reached by a tag has one. */
  lemma {:induction false} FixesReleased(order: seq<string>, descendants: map<string, set<Version>>,
                                         branchAncestors: map<string, set<Branch>>)
    requires Fixes(order, descendants, branchAncestors).Ok?
    ensures forall f :: f in Fixes(order, descendants, branchAncestors).value.0 ==>
      f.commit in order && f.version in Descendants(descendants, f.commit)
      && forall w :: w in Descendants(descendants, f.commit) ==> VersionLe(f.version, w)
    ensures forall c :: c in order && Descendants(descendants, c) != {} ==>
      FixedIn(EncodeVersions(Descendants(descendants, c))[0], c) in Fixes(order, descendants, branchAncestors).value.0
    decreases |order|
  {
    if |order| > 0 {
      var init := order[..|order| - 1];
      var c := order[|order| - 1];
      assert order == init + [c];
      FixesReleased(init, descendants, branchAncestors);
      var desc := Descendants(descendants, c);
      if desc != {} {
        var e := EncodeVersions(desc);
        assert e[0] in desc;
        forall w | w in desc ensures VersionLe(e[0], w) {
          var k :| 0 <= k < |e| && e[k] == w;
          if k > 0 { assert VersionLe(e[0], e[k]); }
        }
      }
    }
  }

  /** Every unreleased fix names a visited commit that no tag contains and
      whose only branch is the named non-main minor, and every such commit has
      one. */
  lemma {:induction false} FixesUnreleased(order: seq<string>, descendants: map<string, set<Version>>,
                                           branchAncestors: map<string, set<Branch>>)
    requires Fixes(order, descendants, branchAncestors).Ok?
    ensures forall u :: u in Fixes(order, descendants, branchAncestors).value.1 ==>
      u.commit in order && Descendants(descendants, u.commit) == {}
      && exists br :: BranchesOf(branchAncestors, u.commit) == {br} && br.version == MinorBranch(u.branch)
    ensures forall c, m ::
      (c in order && Descendants(descendants, c) == {}
       && (exists br :: BranchesOf(branchAncestors, c) == {br} && br.version == MinorBranch(m)))
      ==> UnreleasedFix(m, c) in Fixes(order, descendants, branchAncestors).value.1
    decreases |order|
  {
    if |order| > 0 {
      var init := order[..|order| - 1];
      var c := order[|order| - 1];
      assert order == init + [c];
      FixesUnreleased(init, descendants, branchAncestors);
      forall m | Descendants(descendants, c) == {}
        && (exists br :: BranchesOf(branchAncestors, c) == {br} && br.version == MinorBranch(m))
        ensures UnreleasedFix(m, c) in Fixes(order, descendants, branchAncestors).value.1
      {
        var br :| BranchesOf(branchAncestors, c) == {br} && br.version == MinorBranch(m);
        assert |BranchesOf(branchAncestors, c)| == 1;
        assert TheOnly(BranchesOf(branchAncestors, c)) == br;
      }
    }
  }

  /** The loop over the fixing commits fails exactly when one of them is
      reached neither by a tag nor by exactly one branch. */
  lemma {:induction false} FixesOk(order: seq<string>, descendants: map<string, set<Version>>,
                                   branchAncestors: map<string, set<Branch>>)
    ensures Fixes(order, descendants, branchAncestors).Ok? <==>
      forall c :: c in order ==> Descendants(descendants, c) != {} || |BranchesOf(branchAncestors, c)| == 1
    ensures Fixes(order, descendants, branchAncestors).Err? ==> Fixes(order, descendants, branchAncestors).error == AssertionError
    decreases |order|
  {
    if |order| > 0 {
      var init := order[..|order| - 1];
      assert order == init + [order[|order| - 1]];
      FixesOk(init, descendants, branchAncestors);
    }
  }

  // ------------------------------------------- properties of the derivation

  /** The pieces of a successful derivation `r`: the affected set before the
      split, and the two lists of the loop over the fixing commits. */
  lemma DeriveParts(a: Advisory, severity: Option<Severity>, apiVersions: set<Version>,
                    descendants: map<string, set<Version>>, branchAncestors: map<string, set<Branch>>,
                    tagDates: map<Version, Instant>, order: seq<string>, r: Advisory)
    returns (pre: set<Version>, fixedIn: seq<FixedIn>, unreleased: seq<UnreleasedFix>)
    requires DeriveSpec(a, severity, apiVersions, descendants, branchAncestors, tagDates, order) == Ok(r)
    ensures IntroducedTags(a.introducedCommits, descendants, tagDates, a.published).Ok?
    ensures pre == AffectedSet(a, apiVersions,
      IntroducedTags(a.introducedCommits, descendants, tagDates, a.published).value - FixedDescendants(a.fixedCommits, descendants))
    ensures Fixes(order, descendants, branchAncestors) == Ok((fixedIn, unreleased))
    ensures r.affectedVersions + r.affectedEolVersions == pre
    ensures r.affectedEolVersions == EolPart(pre, a.published) && r.affectedVersions == pre - EolPart(pre, a.published)
    ensures r.severity == severity
    ensures r.fixedIn == Sorting.SortBy(fixedIn, FixedInLe)
    ensures r.fixedButNotReleased == unreleased
    ensures r.fixesPending == EncodeMinors(PendingMinors(pre, fixedIn, a.published))
  {
    var introduced := IntroducedTags(a.introducedCommits, descendants, tagDates, a.published).value;
    pre := AffectedSet(a, apiVersions, introduced - FixedDescendants(a.fixedCommits, descendants));
    var fixes := Fixes(order, descendants, branchAncestors).value;
    fixedIn, unreleased := fixes.0, fixes.1;
    var remaining := introduced - FixedDescendants(a.fixedCommits, descendants);
    assert r == Finish(a, severity, apiVersions, remaining, fixedIn, unreleased);
    FinishFields(a, severity, apiVersions, remaining, fixedIn, unreleased, r);
  }

  /** The fields `Finish` sets, with the end-of-life part split off the
      affected set. */
  lemma FinishFields(a: Advisory, severity: Option<Severity>, apiVersions: set<Version>,
                     remaining: set<Version>, fixedIn: seq<FixedIn>, unreleased: seq<UnreleasedFix>, r: Advisory)
    requires r == Finish(a, severity, apiVersions, remaining, fixedIn, unreleased)
    ensures var pre := AffectedSet(a, apiVersions, remaining);
      r.affectedVersions + r.affectedEolVersions == pre
      && r.affectedEolVersions == EolPart(pre, a.published) && r.affectedVersions == pre - EolPart(pre, a.published)
      && r.fixesPending == EncodeMinors(PendingMinors(pre, fixedIn, a.published))
    ensures r.severity == severity
    ensures r.fixedIn == Sorting.SortBy(fixedIn, FixedInLe)
    ensures r.fixedButNotReleased == unreleased
  {
  }

  /** Without versions from the CVE record, an advisory affects the tags
      created before publication that descend from an introducing commit and
      from no fixing commit (before the end-of-life split). */
  lemma AffectedFromAncestry(a: Advisory, severity: Option<Severity>, descendants: map<string, set<Version>>,
                             branchAncestors: map<string, set<Branch>>, tagDates: map<Version, Instant>,
                             order: seq<string>, r: Advisory, v: Version)
    requires a.affectedVersions == {}
    requires DeriveSpec(a, severity, {}, descendants, branchAncestors, tagDates, order) == Ok(r)
    ensures v in r.affectedVersions + r.affectedEolVersions
      <==> (v in tagDates && tagDates[v] < a.published
            && (exists c :: c in a.introducedCommits && v in Descendants(descendants, c))
            && !(exists c :: c in a.fixedCommits && v in Descendants(descendants, c)))
  {
    var introduced := IntroducedTags(a.introducedCommits, descendants, tagDates, a.published).value;
    var pre, fixedIn, unreleased := DeriveParts(a, severity, {}, descendants, branchAncestors, tagDates, order, r);
    RemainingMembers(a.introducedCommits, a.fixedCommits, descendants, tagDates, a.published, v);
  }

  /** What the two loops leave of the introduced tags. */
  lemma RemainingMembers(introducedCommits: set<string>, fixedCommits: set<string>, descendants: map<string, set<Version>>,
                         tagDates: map<Version, Instant>, published: Instant, v: Version)
    requires IntroducedTags(introducedCommits, descendants, tagDates, published).Ok?
    ensures v in IntroducedTags(introducedCommits, descendants, tagDates, published).value - FixedDescendants(fixedCommits, descendants)
      <==> (v in tagDates && tagDates[v] < published
            && (exists c :: c in introducedCommits && v in Descendants(descendants, c))
            && !(exists c :: c in fixedCommits && v in Descendants(descendants, c)))
  {
  }

  /** Versions listed by the CVE record replace the ones found by ancestry. */
  lemma ApiVersionsOverride(a: Advisory, severity: Option<Severity>, apiVersions: set<Version>,
                            descendants: map<string, set<Version>>, branchAncestors: map<string, set<Branch>>,
                            tagDates: map<Version, Instant>, order: seq<string>, r: Advisory)
    requires apiVersions != {}
    requires DeriveSpec(a, severity, apiVersions, descendants, branchAncestors, tagDates, order) == Ok(r)
    ensures r.affectedVersions
              + r.affectedEolVersions
            == apiVersions
    ensures r.severity == severity
  {
    var pre, fixedIn, unreleased := DeriveParts(a, severity, apiVersions, descendants, branchAncestors, tagDates, order, r);
  }

  /** The end-of-life split: the two sets are disjoint, the end-of-life one
      holds exactly the versions whose minor had reached end of life when
      the advisory was published. */
  lemma EolSplit(a: Advisory, severity: Option<Severity>, apiVersions: set<Version>,
                 descendants: map<string, set<Version>>, branchAncestors: map<string, set<Branch>>,
                 tagDates: map<Version, Instant>, order: seq<string>, r: Advisory)
    requires DeriveSpec(a, severity, apiVersions, descendants, branchAncestors, tagDates, order) == Ok(r)
    ensures r.affectedVersions
         !! r.affectedEolVersions
    ensures forall v ::
      v in r.affectedEolVersions
      ==> IsVersionEol((v.0, v.1, 0), a.published)
    ensures forall v ::
      v in r.affectedVersions
      ==> !IsVersionEol((v.0, v.1, 0), a.published)
  {
    var pre, fixedIn, unreleased := DeriveParts(a, severity, apiVersions, descendants, branchAncestors, tagDates, order, r);
  }

  lemma FixedInOrder()
    ensures Sorting.TotalPreorder(FixedInLe)
  {
    VersionOrder();
  }

  /** The first fixed releases end sorted by version; each is the smallest
      tag containing its fixing commit, and each fixing commit reached by a
      tag has one. */
  lemma FixedInSorted(a: Advisory, severity: Option<Severity>, apiVersions: set<Version>,
                      descendants: map<string, set<Version>>, branchAncestors: map<string, set<Branch>>,
                      tagDates: map<Version, Instant>, order: seq<string>, r: Advisory)
    requires Enumerates(order, a.fixedCommits)
    requires DeriveSpec(a, severity, apiVersions, descendants, branchAncestors, tagDates, order) == Ok(r)
    ensures
      Sorting.SortedBy(r.fixedIn, FixedInLe)
      && (forall f :: f in r.fixedIn ==>
            f.commit in a.fixedCommits && f.version in Descendants(descendants, f.commit)
            && forall w :: w in Descendants(descendants, f.commit) ==> VersionLe(f.version, w))
      && (forall c :: c in a.fixedCommits && Descendants(descendants, c) != {} ==>
            FixedIn(EncodeVersions(Descendants(descendants, c))[0], c) in r.fixedIn)
  {
    var pre, fixedIn, unreleased := DeriveParts(a, severity, apiVersions, descendants, branchAncestors, tagDates, order, r);
    FixedInOrder();
    Sorting.SortBySorted(fixedIn, FixedInLe);
    FixesReleased(order, descendants, branchAncestors);
    SortedSameElements(fixedIn);
  }

  lemma SortedSameElements(fixedIn: seq<FixedIn>)
    ensures forall f :: f in Sorting.SortBy(fixedIn, FixedInLe) <==> f in fixedIn
  {
    var sorted := Sorting.SortBy(fixedIn, FixedInLe);
    forall f ensures f in sorted <==> f in fixedIn {
      assert f in sorted <==> f in multiset(sorted);
      assert f in fixedIn <==> f in multiset(fixedIn);
    }
  }

  /** The fixes merged but not released are those of the fixing commits that
      no tag contains and whose only branch is not main. */
  lemma UnreleasedFixes(a: Advisory, severity: Option<Severity>, apiVersions: set<Version>,
                        descendants: map<string, set<Version>>, branchAncestors: map<string, set<Branch>>,
                        tagDates: map<Version, Instant>, order: seq<string>, r: Advisory)
    requires Enumerates(order, a.fixedCommits)
    requires DeriveSpec(a, severity, apiVersions, descendants, branchAncestors, tagDates, order) == Ok(r)
    ensures
      (forall u :: u in r.fixedButNotReleased ==>
         u.commit in a.fixedCommits && Descendants(descendants, u.commit) == {}
         && exists br :: BranchesOf(branchAncestors, u.commit) == {br} && br.version == MinorBranch(u.branch))
      && (forall c, m :: c in a.fixedCommits && Descendants(descendants, c) == {}
           && (exists br :: BranchesOf(branchAncestors, c) == {br} && br.version == MinorBranch(m))
           ==> UnreleasedFix(m, c) in r.fixedButNotReleased)
  {
    var pre, fixedIn, unreleased := DeriveParts(a, severity, apiVersions, descendants, branchAncestors, tagDates, order, r);
    FixesUnreleased(order, descendants, branchAncestors);
  }

  /** The derivation fails only on an undated tag or on a fixing commit that
      neither a tag nor exactly one branch reaches. */
  lemma DeriveOk(a: Advisory, severity: Option<Severity>, apiVersions: set<Version>,
                 descendants: map<string, set<Version>>, branchAncestors: map<string, set<Branch>>,
                 tagDates: map<Version, Instant>, order: seq<string>)
    requires Enumerates(order, a.fixedCommits)
    ensures DeriveSpec(a, severity, apiVersions, descendants, branchAncestors, tagDates, order).Ok? <==>
      AllDated(a.introducedCommits, descendants, tagDates)
      && forall c :: c in a.fixedCommits ==> Descendants(descendants, c) != {} || |BranchesOf(branchAncestors, c)| == 1
  {
    FixesOk(order, descendants, branchAncestors);
  }

  /** A minor is pending when it is affected, has no released fix and had
      not reached end of life at publication; the list is sorted and has no
      duplicates. */
  lemma PendingCharacterized(a: Advisory, severity: Option<Severity>, apiVersions: set<Version>,
                             descendants: map<string, set<Version>>, branchAncestors: map<string, set<Branch>>,
                             tagDates: map<Version, Instant>, order: seq<string>, r: Advisory, m: Minor)
    requires DeriveSpec(a, severity, apiVersions, descendants, branchAncestors, tagDates, order) == Ok(r)
    ensures
      Sorting.SortedBy(r.fixesPending, MinorLe) && Sorting.NoDuplicates(r.fixesPending)
      && (m in r.fixesPending <==>
            (exists v :: v in r.affectedVersions + r.affectedEolVersions && MinorOf(v) == m)
            && (forall f :: f in r.fixedIn ==> MinorOf(f.version) != m)
            && !IsVersionEol((m.0, m.1, 0), a.published))
  {
    var pre, fixedIn, unreleased := DeriveParts(a, severity, apiVersions, descendants, branchAncestors, tagDates, order, r);
    SortedSameElements(fixedIn);
    PendingMembers(pre, fixedIn, a.published, m);
  }

  lemma PendingMembers(affected: set<Version>, fixedIn: seq<FixedIn>, published: Instant, m: Minor)
    ensures m in PendingMinors(affected, fixedIn, published) <==>
      (exists v :: v in affected && MinorOf(v) == m)
      && (forall f :: f in fixedIn ==> MinorOf(f.version) != m)
      && !IsVersionEol((m.0, m.1, 0), published)
  {
  }

  /** A released fix is exactly a visited commit reached by a tag, paired
      with the smallest such tag. */
  lemma ReleasedElements(order: seq<string>, descendants: map<string, set<Version>>,
                         branchAncestors: map<string, set<Branch>>, f: FixedIn)
    requires Fixes(order, descendants, branchAncestors).Ok?
    ensures f in Fixes(order, descendants, branchAncestors).value.0 <==>
      f.commit in order && Descendants(descendants, f.commit) != {}
      && f.version == EncodeVersions(Descendants(descendants, f.commit))[0]
  {
    FixesReleased(order, descendants, branchAncestors);
    if f in Fixes(order, descendants, branchAncestors).value.0 {
      var desc := Descendants(descendants, f.commit);
      var e := EncodeVersions(desc);
      assert e[0] in desc;
      forall w | w in desc ensures VersionLe(e[0], w) {
        var k :| 0 <= k < |e| && e[k] == w;
        if k > 0 { assert VersionLe(e[0], e[k]); }
      }
      VersionOrder();
      assert VersionLe(f.version, e[0]) && VersionLe(e[0], f.version);
    }
  }

  /** The order in which Python happens to visit the fixing commits changes
      neither the affected sets, nor the pending minors, nor which fixes are
      listed (only the order of fixes that tie). */
  lemma DeriveOrderIrrelevant(a: Advisory, severity: Option<Severity>, apiVersions: set<Version>,
                              descendants: map<string, set<Version>>, branchAncestors: map<string, set<Branch>>,
                              tagDates: map<Version, Instant>, order1: seq<string>, order2: seq<string>,
                              r1: Advisory, r2: Advisory)
    requires Enumerates(order1, a.fixedCommits) && Enumerates(order2, a.fixedCommits)
    requires DeriveSpec(a, severity, apiVersions, descendants, branchAncestors, tagDates, order1) == Ok(r1)
    requires DeriveSpec(a, severity, apiVersions, descendants, branchAncestors, tagDates, order2) == Ok(r2)
    ensures r1.affectedVersions == r2.affectedVersions && r1.affectedEolVersions == r2.affectedEolVersions
    ensures r1.fixesPending == r2.fixesPending
    ensures forall f :: f in r1.fixedIn <==> f in r2.fixedIn
    ensures forall u :: u in r1.fixedButNotReleased <==> u in r2.fixedButNotReleased
  {
    var pre1, fixedIn1, unreleased1 := DeriveParts(a, severity, apiVersions, descendants, branchAncestors, tagDates, order1, r1);
    var pre2, fixedIn2, unreleased2 := DeriveParts(a, severity, apiVersions, descendants, branchAncestors, tagDates, order2, r2);
    FixesSameElements(order1, order2, descendants, branchAncestors);
    SortedSameElements(fixedIn1);
    SortedSameElements(fixedIn2);
    PendingSameFixes(pre1, fixedIn1, fixedIn2, a.published);
  }

  /** Two visiting orders of the same commits list the same fixes. */
  lemma FixesSameElements(order1: seq<string>, order2: seq<string>, descendants: map<string, set<Version>>,
                          branchAncestors: map<string, set<Branch>>)
    requires forall c :: c in order1 <==> c in order2
    requires Fixes(order1, descendants, branchAncestors).Ok? && Fixes(order2, descendants, branchAncestors).Ok?
    ensures forall f :: f in Fixes(order1, descendants, branchAncestors).value.0 <==> f in Fixes(order2, descendants, branchAncestors).value.0
    ensures forall u :: u in Fixes(order1, descendants, branchAncestors).value.1 <==> u in Fixes(order2, descendants, branchAncestors).value.1
  {
    forall f ensures f in Fixes(order1, descendants, branchAncestors).value.0 <==> f in Fixes(order2, descendants, branchAncestors).value.0 {
      ReleasedElements(order1, descendants, branchAncestors, f);
      ReleasedElements(order2, descendants, branchAncestors, f);
    }
    FixesUnreleased(order1, descendants, branchAncestors);
    FixesUnreleased(order2, descendants, branchAncestors);
  }

  /** The pending minors depend only on which fixes are listed. */
  lemma PendingSameFixes(affected: set<Version>, fixedIn1: seq<FixedIn>, fixedIn2: seq<FixedIn>, published: Instant)
    requires forall f :: f in fixedIn1 <==> f in fixedIn2
    ensures PendingMinors(affected, fixedIn1, published) == PendingMinors(affected, fixedIn2, published)
  {
    assert (set f | f in fixedIn1 :: MinorOf(f.version)) == (set f | f in fixedIn2 :: MinorOf(f.version));
  }

  // ------------------------------------------------------------- the order

  /** `sort_key`: the year and number of an id such as `PSF-2024-3`. An id
      that is not a string has no `split` (AttributeError); fewer than three
      parts give IndexError, a non-integer part ValueError. */
  function IdKey(a: Advisory): Result<(int, int), Exc>
  {
    if !a.id.JString? then Err(AttributeError)
    else
      var parts := Split(a.id.s, '-');
      if |parts| < 2 then Err(IndexError)
      else
        var year :- PyInt(parts[1]);
        if |parts| < 3 then Err(IndexError)
        else
          var num :- PyInt(parts[2]);
          Ok((year, num))
  }

  /** An id `p-y-n` with `p` free of dashes has key `(y, n)`. */
  lemma IdKeyOfParts(a: Advisory, prefix: string, year: nat, num: nat)
    requires '-' !in prefix
    requires a.id == JString(prefix + "-" + NatToString(year) + "-" + NatToString(num))
    ensures IdKey(a) == Ok((year, num))
  {
    NatStringHasNoDash(year);
    NatStringHasNoDash(num);
    var parts := [prefix, NatToString(year), NatToString(num)];
    assert parts[1..] == [NatToString(year), NatToString(num)];
    assert parts[1..][1..] == [NatToString(num)];
    assert Join(parts[1..][1..], "-") == NatToString(num);
    assert Join(parts[1..], "-") == NatToString(year) + "-" + NatToString(num);
    assert Join(parts, "-") == prefix + "-" + NatToString(year) + "-" + NatToString(num);
    SplitJoin(parts, '-');
    PyIntOfNatString(year);
    PyIntOfNatString(num);
  }

  lemma NatStringHasNoDash(n: nat)
    ensures '-' !in NatToString(n)
  {
    var s := NatToString(n);
    forall i | 0 <= i < |s| ensures s[i] != '-' {
      assert IsDigit(s[i]);
    }
  }

  /** An id with no second part cannot be ordered. */
  lemma IdKeyNeedsYear(a: Advisory, prefix: string)
    requires '-' !in prefix && a.id == JString(prefix)
    ensures IdKey(a) == Err(IndexError)
  {
    SplitNoSeparator(prefix, '-');
  }

  predicate KeyLe(x: ((int, int), Advisory), y: ((int, int), Advisory))
  {
    x.0.0 < y.0.0 || (x.0.0 == y.0.0 && x.0.1 <= y.0.1)
  }

  lemma KeyOrder()
    ensures Sorting.TotalPreorder(KeyLe)
  {
  }

  /** Each element paired with its key, in list order; the first failure wins, as
      `list.sort` computes every key before comparing. */
  function Keyed<T, K>(xs: seq<T>, key: T -> Result<K, Exc>): (r: Result<seq<(K, T)>, Exc>)
    ensures r.Ok? <==> forall i :: 0 <= i < |xs| ==> key(xs[i]).Ok?
    ensures r.Ok? ==> |r.value| == |xs|
    ensures r.Ok? ==> forall i :: 0 <= i < |xs| ==> r.value[i] == (key(xs[i]).value, xs[i])
    decreases |xs|
  {
    if |xs| == 0 then Ok([])
    else
      var k :- key(xs[0]);
      var rest :- Keyed(xs[1..], key);
      Ok([(k, xs[0])] + rest)
  }

  function Unkeyed<K, V>(xs: seq<(K, V)>): (r: seq<V>)
    ensures |r| == |xs| && forall i :: 0 <= i < |xs| ==> r[i] == xs[i].1
  {
    if |xs| == 0 then [] else [xs[0].1] + Unkeyed(xs[1..])
  }

  /** `advisories.sort(key=sort_key)`: a stable sort by (year, number). */
  function SortAdvisories(advisories: seq<Advisory>): Result<seq<Advisory>, Exc>
  {
    var keyed :- Keyed(advisories, IdKey);
    Ok(Unkeyed(Sorting.SortBy(keyed, KeyLe)))
  }

  lemma UnkeyedAppend<K, V>(a: seq<(K, V)>, b: seq<(K, V)>)
    ensures Unkeyed(a + b) == Unkeyed(a) + Unkeyed(b)
  {
    var l, r := Unkeyed(a + b), Unkeyed(a) + Unkeyed(b);
    forall i | 0 <= i < |a + b| ensures l[i] == r[i] {
      if i < |a| {
        assert (a + b)[i] == a[i];
      } else {
        assert (a + b)[i] == b[i - |a|];
      }
    }
  }

  /** Removing the first element of one of two permutations of each other,
      and the same element from the other, leaves permutations. */
  lemma MultisetRemove<T>(xs: seq<T>, ys: seq<T>, k: nat)
    requires multiset(xs) == multiset(ys) && |xs| > 0 && k < |ys| && ys[k] == xs[0]
    ensures multiset(xs[1..]) == multiset(ys[..k] + ys[k + 1..])
  {
    var x := xs[0];
    var rest := ys[..k] + ys[k + 1..];
    assert ys == ys[..k] + [x] + ys[k + 1..];
    assert xs == [x] + xs[1..];
    assert multiset(ys) == multiset(rest) + multiset{x};
    assert multiset(xs) == multiset(xs[1..]) + multiset{x};
    forall e
      ensures multiset(xs[1..])[e] == multiset(rest)[e]
    {
      assert multiset(xs)[e] == multiset(xs[1..])[e] + multiset{x}[e];
      assert multiset(ys)[e] == multiset(rest)[e] + multiset{x}[e];
    }
  }

  /** Dropping the keys of two permutations of each other leaves two
      permutations of each other. */
  lemma {:induction false} UnkeyedPermutes<K, V>(xs: seq<(K, V)>, ys: seq<(K, V)>)
    requires multiset(xs) == multiset(ys)
    ensures multiset(Unkeyed(xs)) == multiset(Unkeyed(ys))
    decreases |xs|
  {
    if |xs| == 0 {
      assert |multiset(ys)| == 0;
    } else {
      var x := xs[0];
      assert x in multiset(ys);
      var k :| 0 <= k < |ys| && ys[k] == x;
      MultisetRemove(xs, ys, k);
      UnkeyedPermutes(xs[1..], ys[..k] + ys[k + 1..]);
      UnkeyedRemove(ys, k);
      assert multiset(Unkeyed(xs)) == multiset{x.1} + multiset(Unkeyed(xs[1..]));
    }
  }

  lemma UnkeyedSplit<K, V>(ys: seq<(K, V)>, k: nat)
    requires k < |ys|
    ensures Unkeyed(ys) == Unkeyed(ys[..k]) + [ys[k].1] + Unkeyed(ys[k + 1..])
  {
    var l, r := Unkeyed(ys), Unkeyed(ys[..k]) + [ys[k].1] + Unkeyed(ys[k + 1..]);
    forall i | 0 <= i < |ys| ensures l[i] == r[i] {
      if i < k {
        assert ys[..k][i] == ys[i];
      } else if i > k {
        assert ys[k + 1..][i - k - 1] == ys[i];
      }
    }
  }

  /** Taking one element out of a keyed list takes its value out of the
      unkeyed one. */
  lemma UnkeyedRemove<K, V>(ys: seq<(K, V)>, k: nat)
    requires k < |ys|
    ensures multiset(Unkeyed(ys)) == multiset(Unkeyed(ys[..k] + ys[k + 1..])) + multiset{ys[k].1}
  {
    var before, after := ys[..k], ys[k + 1..];
    var b, c := Unkeyed(before), Unkeyed(after);
    UnkeyedSplit(ys, k);
    UnkeyedAppend(before, after);
    assert multiset(b + [ys[k].1] + c) == multiset(b) + multiset{ys[k].1} + multiset(c);
    assert multiset(b + c) == multiset(b) + multiset(c);
  }

  /** Every element of the sorted keyed list carries its advisory's key. */
  lemma SortedKeyed(advisories: seq<Advisory>)
    requires Keyed(advisories, IdKey).Ok?
    ensures forall i :: 0 <= i < |Sorting.SortBy(Keyed(advisories, IdKey).value, KeyLe)| ==>
      IdKey(Sorting.SortBy(Keyed(advisories, IdKey).value, KeyLe)[i].1).Ok?
      && Sorting.SortBy(Keyed(advisories, IdKey).value, KeyLe)[i]
           == (IdKey(Sorting.SortBy(Keyed(advisories, IdKey).value, KeyLe)[i].1).value, Sorting.SortBy(Keyed(advisories, IdKey).value, KeyLe)[i].1)
  {
    var keyed := Keyed(advisories, IdKey).value;
    var sorted := Sorting.SortBy(keyed, KeyLe);
    forall i | 0 <= i < |sorted| ensures IdKey(sorted[i].1).Ok? && sorted[i] == (IdKey(sorted[i].1).value, sorted[i].1) {
      assert sorted[i] in multiset(keyed);
      var k :| 0 <= k < |keyed| && keyed[k] == sorted[i];
    }
  }

  /** Sorting orders the advisories by key. */
  lemma SortAdvisoriesOrdered(advisories: seq<Advisory>)
    requires SortAdvisories(advisories).Ok?
    ensures forall i :: 0 <= i < |SortAdvisories(advisories).value| ==> IdKey(SortAdvisories(advisories).value[i]).Ok?
    ensures forall i, j :: 0 <= i < j < |SortAdvisories(advisories).value| ==>
      KeyLe((IdKey(SortAdvisories(advisories).value[i]).value, SortAdvisories(advisories).value[i]),
            (IdKey(SortAdvisories(advisories).value[j]).value, SortAdvisories(advisories).value[j]))
  {
    var keyed := Keyed(advisories, IdKey).value;
    var sorted := Sorting.SortBy(keyed, KeyLe);
    KeyOrder();
    Sorting.SortBySorted(keyed, KeyLe);
    SortedKeyed(advisories);
    assert SortAdvisories(advisories).value == Unkeyed(sorted);
  }

  /** Sorting keeps every advisory, each as often as before. */
  lemma SortAdvisoriesPermutes(advisories: seq<Advisory>)
    requires SortAdvisories(advisories).Ok?
    ensures multiset(SortAdvisories(advisories).value) == multiset(advisories)
  {
    var keyed := Keyed(advisories, IdKey).value;
    var sorted := Sorting.SortBy(keyed, KeyLe);
    UnkeyedPermutes(sorted, keyed);
    assert Unkeyed(keyed) == advisories;
  }

  // ---------------------------------------------------- the whole pipeline

  /** The CVE record's severity and affected versions for an advisory, both
      absent without a CVE id or when the fetched record is empty. A CVE id
      missing from `cveRecords` stands for a failed fetch (AssertionError). */
  function CveInputs(a: Advisory, cveRecords: map<string, Json>, tags: set<Tag>): Result<(Option<Severity>, set<Version>), Exc>
  {
    if a.cve.None? || a.cve.value == "" then Ok((None, {}))
    else if a.cve.value !in cveRecords then Err(AssertionError)
    else
      var data := cveRecords[a.cve.value];
      if !PyTruthy(data) then Ok((None, {}))
      else
        var severity :- Cve.GetSeverity(data);
        var apiVersions :- Cve.AffectedVersionsSpec(data, tags);
        Ok((severity, apiVersions))
  }

  /** `advisory` is what the main loop makes of the parsed advisory
      `parsed`, for some iteration order of its fixing commits. */
  ghost predicate Derives(parsed: Advisory, cveRecords: map<string, Json>, tags: set<Tag>,
                          descendants: map<string, set<Version>>, branchAncestors: map<string, set<Branch>>,
                          tagDates: map<Version, Instant>, advisory: Advisory)
  {
    exists severity: Option<Severity>, apiVersions: set<Version>, order: seq<string> ::
      CveInputs(parsed, cveRecords, tags) == Ok((severity, apiVersions))
      && Enumerates(order, parsed.fixedCommits)
      && DeriveSpec(parsed, severity, apiVersions, descendants, branchAncestors, tagDates, order) == Ok(advisory)
  }

  /** The main loop fails on the parsed advisory `parsed` with `e`, for
      some iteration order of its fixing commits: reading its CVE record
      raises `e`, or the derivation does. */
  ghost predicate DerivationFails(parsed: Advisory, cveRecords: map<string, Json>, tags: set<Tag>,
                                  descendants: map<string, set<Version>>, branchAncestors: map<string, set<Branch>>,
                                  tagDates: map<Version, Instant>, e: Exc)
  {
    CveInputs(parsed, cveRecords, tags) == Err(e)
    || exists severity: Option<Severity>, apiVersions: set<Version>, order: seq<string> ::
         CveInputs(parsed, cveRecords, tags) == Ok((severity, apiVersions))
         && Enumerates(order, parsed.fixedCommits)
         && DeriveSpec(parsed, severity, apiVersions, descendants, branchAncestors, tagDates, order) == Err(e)
  }

  /** The main loop derives some advisory from `parsed`. */
  ghost predicate Derivable(parsed: Advisory, cveRecords: map<string, Json>, tags: set<Tag>,
                            descendants: map<string, set<Version>>, branchAncestors: map<string, set<Branch>>,
                            tagDates: map<Version, Instant>)
  {
    exists advisory :: Derives(parsed, cveRecords, tags, descendants, branchAncestors, tagDates, advisory)
  }

  /** Whether an advisory derives does not depend on the iteration order:
      one that derives for some order fails for none. */
  lemma DerivesExcludesFailure(parsed: Advisory, cveRecords: map<string, Json>, tags: set<Tag>,
                               descendants: map<string, set<Version>>, branchAncestors: map<string, set<Branch>>,
                               tagDates: map<Version, Instant>, advisory: Advisory, e: Exc)
    requires Derives(parsed, cveRecords, tags, descendants, branchAncestors, tagDates, advisory)
    ensures !DerivationFails(parsed, cveRecords, tags, descendants, branchAncestors, tagDates, e)
  {
    var severity, apiVersions, order :|
      CveInputs(parsed, cveRecords, tags) == Ok((severity, apiVersions))
      && Enumerates(order, parsed.fixedCommits)
      && DeriveSpec(parsed, severity, apiVersions, descendants, branchAncestors, tagDates, order) == Ok(advisory);
    DeriveOk(parsed, severity, apiVersions, descendants, branchAncestors, tagDates, order);
    forall order2 | Enumerates(order2, parsed.fixedCommits)
      ensures DeriveSpec(parsed, severity, apiVersions, descendants, branchAncestors, tagDates, order2).Ok?
    {
      DeriveOk(parsed, severity, apiVersions, descendants, branchAncestors, tagDates, order2);
    }
  }

  /** Fetching the CVE record of an advisory and reading its severity and
      affected versions (the start of the main loop's body). */
  method FetchCveInputs(a: Advisory, cveRecords: map<string, Json>, tags: set<Tag>)
    returns (r: Result<(Option<Severity>, set<Version>), Exc>)
    ensures r == CveInputs(a, cveRecords, tags)
  {
    if a.cve.None? || a.cve.value == "" {
      return Ok((None, {}));
    }
    if a.cve.value !in cveRecords {
      return Err(AssertionError);
    }
    var data := cveRecords[a.cve.value];
    if !PyTruthy(data) {
      return Ok((None, {}));
    }
    var severity :- Cve.GetSeverity(data);
    var apiVersions :- Cve.GetAffectedVersions(data, tags);
    r := Ok((severity, apiVersions));
  }

  /** The first loop of `parse_advisories`: every raw record parsed, in
      order; the first failure propagates. */
  method ParseAll(raws: seq<Json>, isoInstant: string -> Option<Instant>) returns (r: Result<seq<Advisory>, Exc>)
    ensures r.Ok? ==> |r.value| == |raws|
    ensures r.Ok? ==> forall k :: 0 <= k < |raws| ==> AdvisoryParse.ParseAdvisorySpec(raws[k], isoInstant) == Ok(r.value[k])
    ensures r.Err? ==> exists k :: 0 <= k < |raws| && AdvisoryParse.ParseAdvisorySpec(raws[k], isoInstant) == Err(r.error)
                                   && forall j :: 0 <= j < k ==> AdvisoryParse.ParseAdvisorySpec(raws[j], isoInstant).Ok?
  {
    var parsed: seq<Advisory> := [];
    for i := 0 to |raws|
      invariant |parsed| == i
      invariant forall k :: 0 <= k < i ==> AdvisoryParse.ParseAdvisorySpec(raws[k], isoInstant) == Ok(parsed[k])
    {
      var advisory := AdvisoryParse.ParseAdvisory(raws[i], isoInstant);
      if advisory.Err? {
        return Err(advisory.error);
      }
      parsed := parsed + [advisory.value];
    }
    r := Ok(parsed);
  }

  /** One iteration of the main loop of `parse_advisories`. */
  method ProcessAdvisory(parsed: Advisory, cveRecords: map<string, Json>, tags: set<Tag>,
                         descendants: map<string, set<Version>>, branchAncestors: map<string, set<Branch>>,
                         tagDates: map<Version, Instant>) returns (r: Result<Advisory, Exc>)
    ensures r.Ok? ==> Derives(parsed, cveRecords, tags, descendants, branchAncestors, tagDates, r.value)
    ensures r.Err? ==> DerivationFails(parsed, cveRecords, tags, descendants, branchAncestors, tagDates, r.error)
  {
    var inputs :- FetchCveInputs(parsed, cveRecords, tags);
    r := DeriveAdvisory(parsed, inputs.0, inputs.1, descendants, branchAncestors, tagDates);
    if r.Ok? {
      DerivesStep(parsed, cveRecords, tags, descendants, branchAncestors, tagDates, inputs.0, inputs.1, r.value);
    } else {
      ghost var order :| Enumerates(order, parsed.fixedCommits)
        && r == DeriveSpec(parsed, inputs.0, inputs.1, descendants, branchAncestors, tagDates, order);
      assert CveInputs(parsed, cveRecords, tags) == Ok((inputs.0, inputs.1));
    }
  }

  /** Every advisory of `derived` is derived from the one at the same place
      in `parsed`. */
  ghost predicate AllDerived(parsed: seq<Advisory>, cveRecords: map<string, Json>, tags: set<Tag>,
                             descendants: map<string, set<Version>>, branchAncestors: map<string, set<Branch>>,
                             tagDates: map<Version, Instant>, derived: seq<Advisory>)
  {
    |derived| == |parsed|
    && forall k :: 0 <= k < |parsed| ==>
         Derives(parsed[k], cveRecords, tags, descendants, branchAncestors, tagDates, derived[k])
  }

  lemma AllDerivedSnoc(parsed: seq<Advisory>, i: nat, cveRecords: map<string, Json>, tags: set<Tag>,
                       descendants: map<string, set<Version>>, branchAncestors: map<string, set<Branch>>,
                       tagDates: map<Version, Instant>, derived: seq<Advisory>, next: Advisory)
    requires i < |parsed|
    requires AllDerived(parsed[..i], cveRecords, tags, descendants, branchAncestors, tagDates, derived)
    requires Derives(parsed[i], cveRecords, tags, descendants, branchAncestors, tagDates, next)
    ensures AllDerived(parsed[..i + 1], cveRecords, tags, descendants, branchAncestors, tagDates, derived + [next])
  {
    var after := derived + [next];
    forall k | 0 <= k < i + 1
      ensures Derives(parsed[..i + 1][k], cveRecords, tags, descendants, branchAncestors, tagDates, after[k])
    {
      if k < i {
        assert parsed[..i + 1][k] == parsed[..i][k] && after[k] == derived[k];
      } else {
        assert parsed[..i + 1][k] == parsed[i] && after[k] == next;
      }
    }
  }

  /** The main loop of `parse_advisories`: every parsed advisory derived,
      in order; the first failure propagates. */
  method DeriveAll(parsed: seq<Advisory>, cveRecords: map<string, Json>, tags: set<Tag>,
                   descendants: map<string, set<Version>>, branchAncestors: map<string, set<Branch>>,
                   tagDates: map<Version, Instant>) returns (r: Result<seq<Advisory>, Exc>)
    ensures r.Ok? ==> AllDerived(parsed, cveRecords, tags, descendants, branchAncestors, tagDates, r.value)
    ensures r.Err? ==> exists k :: (0 <= k < |parsed|
      && DerivationFails(parsed[k], cveRecords, tags, descendants, branchAncestors, tagDates, r.error)
      && forall j :: 0 <= j < k ==> Derivable(parsed[j], cveRecords, tags, descendants, branchAncestors, tagDates))
  {
    var derived: seq<Advisory> := [];
    for i := 0 to |parsed|
      invariant AllDerived(parsed[..i], cveRecords, tags, descendants, branchAncestors, tagDates, derived)
    {
      var result := ProcessAdvisory(parsed[i], cveRecords, tags, descendants, branchAncestors, tagDates);
      if result.Err? {
        forall j | 0 <= j < i
          ensures Derivable(parsed[j], cveRecords, tags, descendants, branchAncestors, tagDates)
        {
          assert parsed[..i][j] == parsed[j];
          assert Derives(parsed[j], cveRecords, tags, descendants, branchAncestors, tagDates, derived[j]);
        }
        r := Err(result.error);
        assert DerivationFails(parsed[i], cveRecords, tags, descendants, branchAncestors, tagDates, r.error);
        return;
      }
      AllDerivedSnoc(parsed, i, cveRecords, tags, descendants, branchAncestors, tagDates, derived, result.value);
      derived := derived + [result.value];
    }
    assert parsed[..|parsed|] == parsed;
    r := Ok(derived);
  }

  lemma DerivesStep(parsed: Advisory, cveRecords: map<string, Json>, tags: set<Tag>,
                    descendants: map<string, set<Version>>, branchAncestors: map<string, set<Branch>>,
                    tagDates: map<Version, Instant>, severity: Option<Severity>, apiVersions: set<Version>,
                    advisory: Advisory)
    requires CveInputs(parsed, cveRecords, tags) == Ok((severity, apiVersions))
    requires exists order ::
      Enumerates(order, parsed.fixedCommits) &&
      Ok(advisory) == DeriveSpec(parsed, severity, apiVersions, descendants, branchAncestors, tagDates, order)
    ensures Derives(parsed, cveRecords, tags, descendants, branchAncestors, tagDates, advisory)
  {
    var order :| Enumerates(order, parsed.fixedCommits)
      && Ok(advisory) == DeriveSpec(parsed, severity, apiVersions, descendants, branchAncestors, tagDates, order);
  }

  /** `parse_advisories`: parse every raw record, derive each advisory from
      the ancestry maps and its CVE record, then sort by id. */
  method ParseAdvisories(raws: seq<Json>, isoInstant: string -> Option<Instant>, cveRecords: map<string, Json>,
                         tags: set<Tag>, descendants: map<string, set<Version>>,
                         branchAncestors: map<string, set<Branch>>, tagDates: map<Version, Instant>)
    returns (r: Result<seq<Advisory>, Exc>)
    ensures r.Ok? ==> exists parsed: seq<Advisory>, derived: seq<Advisory> ::
      |parsed| == |raws|
      && (forall i :: 0 <= i < |raws| ==> AdvisoryParse.ParseAdvisorySpec(raws[i], isoInstant) == Ok(parsed[i]))
      && AllDerived(parsed, cveRecords, tags, descendants, branchAncestors, tagDates, derived)
      && SortAdvisories(derived) == Ok(r.value)
  {
    var parsed :- ParseAll(raws, isoInstant);
    var derived :- DeriveAll(parsed, cveRecords, tags, descendants, branchAncestors, tagDates);
    r := SortAdvisories(derived);
  }
}
