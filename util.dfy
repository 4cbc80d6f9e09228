/** `pythoncve/util.py`: the first CPython commit and the strict parser of
    CPython release tag names. */
module Util {
  import opened Wrappers
  import opened Text
  import opened VersionTypes

  /** The first commit of the CPython repository; an advisory's introduced
      event "0" stands for it. */
  const FirstCommit: string := "7f777ed95a19224294949e1b4ce56bbffcb1fe9f"

  /** What the three digit groups of a tag name must cover: the name without
      one optional leading "v" and without one optional final line feed (the
      pattern's `$` also matches just before a final "\n"). */
  function VersionBody(tag: string): string
  {
    var t := if |tag| > 0 && tag[0] == 'v' then tag[1..] else tag;
    if |t| > 0 && t[|t| - 1] == '\n' then t[..|t| - 1] else t
  }

  /** `re.match(r"v?(\d+)\.(\d+)\.(\d+)$", tag_name)` followed by `int` on
      each group; None when the name does not match. */
  function ParseCpythonVersion(tag: string): Option<Version>
  {
    var parts := Split(VersionBody(tag), '.');
    if |parts| == 3 && IsDecimal(parts[0]) && IsDecimal(parts[1]) && IsDecimal(parts[2]) then
      Some((DigitsValue(parts[0]), DigitsValue(parts[1]), DigitsValue(parts[2])))
    else
      None
  }

  /** A name the parser accepts consists of an optional "v", digits and
      exactly two dots between non-empty groups, and an optional final line
      feed; so it starts with "v" or a digit. */
  lemma ParseAcceptsOnlyDigitsAndDots(tag: string)
    requires ParseCpythonVersion(tag).Some?
    ensures forall i :: 0 <= i < |VersionBody(tag)| ==>
      IsDigit(VersionBody(tag)[i]) || VersionBody(tag)[i] == '.'
    ensures multiset(VersionBody(tag))['.'] == 2
    ensures |tag| > 0 && (tag[0] == 'v' || IsDigit(tag[0]))
  {
    var body := VersionBody(tag);
    var parts := Split(body, '.');
    forall k | 0 <= k < |parts| ensures AllDigits(parts[k]) {
      assert k == 0 || k == 1 || k == 2;
    }
    SplitDigitsOnly(body, '.');
    SplitCount(body, '.');
    SplitFirstPrefix(body, '.');
    assert IsDigit(body[0]);
    if tag[0] != 'v' {
      assert body[0] == tag[0];
    }
  }

  /** A character that is neither a digit nor a dot anywhere after the
      optional "v" (other than a final line feed) makes the name unparseable:
      "v3.9.7rc1" and "v4.0.0-alpha" are rejected. */
  lemma ParseRejectsForeignChar(tag: string, i: nat)
    requires i < |VersionBody(tag)|
    requires !IsDigit(VersionBody(tag)[i]) && VersionBody(tag)[i] != '.'
    ensures ParseCpythonVersion(tag) == None
  {
    if ParseCpythonVersion(tag).Some? {
      ParseAcceptsOnlyDigitsAndDots(tag);
    }
  }

  /** The match is anchored at the start: a name that starts with neither "v"
      nor a digit is rejected ("release-3.10.0"). */
  lemma ParseRejectsForeignPrefix(tag: string)
    requires |tag| == 0 || (tag[0] != 'v' && !IsDigit(tag[0]))
    ensures ParseCpythonVersion(tag) == None
  {
    if ParseCpythonVersion(tag).Some? {
      ParseAcceptsOnlyDigitsAndDots(tag);
    }
  }

  /** Fewer or more than three numeric groups are rejected ("v3.9"). */
  lemma ParseRequiresThreeGroups(tag: string)
    requires multiset(VersionBody(tag))['.'] != 2
    ensures ParseCpythonVersion(tag) == None
  {
    if ParseCpythonVersion(tag).Some? {
      ParseAcceptsOnlyDigitsAndDots(tag);
    }
  }

  /** Every version's rendering parses back to it, with or without "v". */
  lemma ParseVersionString(v: Version)
    ensures ParseCpythonVersion(VersionString(v)) == Some(v)
    ensures ParseCpythonVersion("v" + VersionString(v)) == Some(v)
  {
    var parts := [NatToString(v.0), NatToString(v.1), NatToString(v.2)];
    NatStringHasNoDot(v.0); NatStringHasNoDot(v.1); NatStringHasNoDot(v.2);
    SplitJoin(parts, '.');
    NatToStringValue(v.0); NatToStringValue(v.1); NatToStringValue(v.2);
    var s := VersionString(v);
    var tail := Join(parts[1..], ".");
    assert parts[1..][1..] == [parts[2]];
    assert Join(parts[1..][1..], ".") == parts[2];
    assert tail == parts[1] + "." + parts[2];
    assert s == parts[0] + "." + tail;
    assert s[|s| - 1] == parts[2][|parts[2]| - 1];
    assert s[0] == parts[0][0];
    assert VersionBody(s) == s;
    assert ("v" + s)[1..] == s;
    assert VersionBody("v" + s) == s;
  }

  /** The leading "v" is optional: it does not change the result. */
  lemma ParseOptionalV(s: string)
    requires |s| == 0 || s[0] != 'v'
    ensures ParseCpythonVersion("v" + s) == ParseCpythonVersion(s)
  {
    assert ("v" + s)[1..] == s;
    assert VersionBody("v" + s) == VersionBody(s);
  }

  /** Tag names of the test table that parse. */
  lemma ParseExampleV100()
    ensures ParseCpythonVersion("v1.0.0") == Some((1, 0, 0))
  {
    ParseVersionString((1, 0, 0));
    assert NatToString(1) == "1" && NatToString(0) == "0";
    assert VersionString((1, 0, 0)) == "1.0.0";
  }

  lemma ParseExampleZero()
    ensures ParseCpythonVersion("0.0.0") == Some((0, 0, 0))
  {
    ParseVersionString((0, 0, 0));
    assert NatToString(0) == "0";
    assert VersionString((0, 0, 0)) == "0.0.0";
  }

  lemma ParseExampleV3102()
    ensures ParseCpythonVersion("3.10.2") == Some((3, 10, 2))
  {
    ParseVersionString((3, 10, 2));
    assert NatToString(10) == "10";
    assert VersionString((3, 10, 2)) == "3.10.2";
  }

  /** Tag names of the test table that are rejected. */
  lemma ParseExampleTwoGroups()
    ensures ParseCpythonVersion("v3.9") == None
  {
    assert VersionBody("v3.9") == "3.9";
    assert "3.9" == ['3'] + ['.'] + ['9'];
    assert multiset("3.9")['.'] == 1;
    ParseRequiresThreeGroups("v3.9");
  }

  lemma ParseExampleSuffix()
    ensures ParseCpythonVersion("v3.9.7rc1") == None
  {
    assert VersionBody("v3.9.7rc1") == "3.9.7rc1";
    ParseRejectsForeignChar("v3.9.7rc1", 5);
  }

  lemma ParseExamplePrefix()
    ensures ParseCpythonVersion("release-3.10.0") == None
  {
    ParseRejectsForeignPrefix("release-3.10.0");
  }
}
