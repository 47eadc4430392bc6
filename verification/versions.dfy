/** Version strings (src/lib/utils/versions.ts): the numeric comparison of
    dotted versions, the `from...to` range in a URL, and the message for
    versions the registry does not know. */
module Versions {
  import opened Types
  import opened Strings

  // ---------------------------------------------------------------------
  // parseInt
  // ---------------------------------------------------------------------

  predicate IsDigit(ch: char)
  {
    '0' <= ch <= '9'
  }

  /** The longest prefix of `s` made of decimal digits. */
  function LeadingDigits(s: string): (r: string)
    ensures |r| <= |s| && r == s[..|r|]
    ensures forall i :: 0 <= i < |r| ==> IsDigit(r[i])
    ensures |r| < |s| ==> !IsDigit(s[|r|])
  {
    if s == [] || !IsDigit(s[0]) then []
    else
      var rest := LeadingDigits(s[1..]);
      assert s[1..][..|rest|] == s[1..|rest| + 1];
      [s[0]] + rest
  }

  function DigitValue(ch: char): nat
  {
    if IsDigit(ch) then ch as int - '0' as int else 0
  }

  /** The value of a string of decimal digits. */
  function DecimalValue(digits: string): nat
  {
    if digits == [] then 0
    else DecimalValue(digits[..|digits| - 1]) * 10 + DigitValue(digits[|digits| - 1])
  }

  /** `parseInt(p, 10) || 0`: leading white space skipped, an optional
      sign, then the longest run of digits; no digits gives `NaN`, which
      `|| 0` turns into 0 (as it does `-0`). */
  function ParseIntOrZero(p: string): int
  {
    var t := TrimStart(p);
    var negative := t != [] && t[0] == '-';
    var body := if t != [] && (t[0] == '-' || t[0] == '+') then t[1..] else t;
    var digits := LeadingDigits(body);
    if digits == [] then 0
    else if negative then -(DecimalValue(digits) as int)
    else DecimalValue(digits)
  }

  /** A run of digits followed by anything that is not a digit parses as
      the run's value: what follows the number is ignored. */
  lemma {:induction false} ParseDigitsThenText(digits: string, rest: string)
    requires digits != [] && forall i :: 0 <= i < |digits| ==> IsDigit(digits[i])
    requires rest == [] || !IsDigit(rest[0])
    ensures ParseIntOrZero(digits + rest) == DecimalValue(digits)
  {
    var s := digits + rest;
    assert !IsSpace(s[0]) && s[0] != '-' && s[0] != '+' by {
      assert s[0] == digits[0];
    }
    assert TrimStart(s) == s;
    DigitsPrefix(digits, rest);
  }

  lemma {:induction false} DigitsPrefix(digits: string, rest: string)
    requires forall i :: 0 <= i < |digits| ==> IsDigit(digits[i])
    requires rest == [] || !IsDigit(rest[0])
    ensures LeadingDigits(digits + rest) == digits
  {
    if digits != [] {
      DigitsPrefix(digits[1..], rest);
      assert (digits + rest)[1..] == digits[1..] + rest;
    } else {
      assert digits + rest == rest;
    }
  }

  // ---------------------------------------------------------------------
  // compareVersions
  // ---------------------------------------------------------------------

  /** The numbers of a version's '.'-separated parts. */
  function Parts(v: string): (r: seq<int>)
    ensures |r| == |Split(v, '.')|
    ensures forall i :: 0 <= i < |r| ==> r[i] == ParseIntOrZero(Split(v, '.')[i])
  {
    var pieces := Split(v, '.');
    seq(|pieces|, i requires 0 <= i < |pieces| => ParseIntOrZero(pieces[i]))
  }

  /** `parts[i] || 0`: a missing part counts as 0. */
  function PartAt(parts: seq<int>, i: nat): int
  {
    if i < |parts| then parts[i] else 0
  }

  function Max(a: nat, b: nat): nat
  {
    if a < b then b else a
  }

  /** The comparison from index `i` on: the first non-zero difference of
      the parts, 0 when there is none. */
  function CompareFrom(pa: seq<int>, pb: seq<int>, i: nat): int
    decreases Max(|pa|, |pb|) - i
  {
    if i >= Max(|pa|, |pb|) then 0
    else if PartAt(pa, i) != PartAt(pb, i) then PartAt(pa, i) - PartAt(pb, i)
    else CompareFrom(pa, pb, i + 1)
  }

  /** What `compareVersions(a, b)` returns. */
  function VersionCompare(a: string, b: string): int
  {
    CompareFrom(Parts(a), Parts(b), 0)
  }

  /** `compareVersions`: scans the parts of both versions left to right
      and returns the first difference. */
  method CompareVersions(a: string, b: string) returns (r: int)
    ensures r == VersionCompare(a, b)
  {
    var partsA := Parts(a);
    var partsB := Parts(b);
    for i := 0 to Max(|partsA|, |partsB|)
      invariant CompareFrom(partsA, partsB, 0) == CompareFrom(partsA, partsB, i)
    {
      var numA := PartAt(partsA, i);
      var numB := PartAt(partsB, i);
      if numA != numB {
        return numA - numB;
      }
    }
    return 0;
  }

  /** The comparison is 0 exactly when the parts agree everywhere, missing
      ones counting as 0; otherwise it is the difference at the first index
      where they disagree. */
  lemma {:induction false} CompareFromMeaning(pa: seq<int>, pb: seq<int>, i: nat)
    ensures CompareFrom(pa, pb, i) == 0 <==> forall j :: i <= j ==> PartAt(pa, j) == PartAt(pb, j)
    ensures CompareFrom(pa, pb, i) != 0 ==>
      exists j :: i <= j < Max(|pa|, |pb|) && PartAt(pa, j) != PartAt(pb, j) &&
        CompareFrom(pa, pb, i) == PartAt(pa, j) - PartAt(pb, j) &&
        forall k :: i <= k < j ==> PartAt(pa, k) == PartAt(pb, k)
    decreases Max(|pa|, |pb|) - i
  {
    if i < Max(|pa|, |pb|) {
      CompareFromMeaning(pa, pb, i + 1);
      if PartAt(pa, i) == PartAt(pb, i) && CompareFrom(pa, pb, i) != 0 {
        var j :| i + 1 <= j < Max(|pa|, |pb|) && PartAt(pa, j) != PartAt(pb, j) &&
          CompareFrom(pa, pb, i + 1) == PartAt(pa, j) - PartAt(pb, j) &&
          forall k :: i + 1 <= k < j ==> PartAt(pa, k) == PartAt(pb, k);
        assert forall k :: i <= k < j ==> PartAt(pa, k) == PartAt(pb, k);
      }
      if CompareFrom(pa, pb, i) != 0 {
        assert PartAt(pa, i) != PartAt(pb, i) || CompareFrom(pa, pb, i + 1) != 0;
      }
    }
  }

  /** A version compares equal to itself. */
  lemma CompareReflexive(a: string)
    ensures VersionCompare(a, a) == 0
  {
    CompareFromMeaning(Parts(a), Parts(a), 0);
  }

  lemma {:induction false} CompareFromAntisymmetric(pa: seq<int>, pb: seq<int>, i: nat)
    ensures CompareFrom(pa, pb, i) == -CompareFrom(pb, pa, i)
    decreases Max(|pa|, |pb|) - i
  {
    if i < Max(|pa|, |pb|) {
      CompareFromAntisymmetric(pa, pb, i + 1);
    }
  }

  /** Swapping the versions negates the comparison. */
  lemma CompareAntisymmetric(a: string, b: string)
    ensures VersionCompare(a, b) == -VersionCompare(b, a)
  {
    CompareFromAntisymmetric(Parts(a), Parts(b), 0);
  }

  lemma {:induction false} CompareFromTransitive(pa: seq<int>, pb: seq<int>, pc: seq<int>, i: nat)
    requires CompareFrom(pa, pb, i) < 0 && CompareFrom(pb, pc, i) < 0
    ensures CompareFrom(pa, pc, i) < 0
    decreases Max(Max(|pa|, |pb|), |pc|) - i
  {
    if PartAt(pa, i) == PartAt(pb, i) && PartAt(pb, i) == PartAt(pc, i) {
      CompareFromTransitive(pa, pb, pc, i + 1);
    }
  }

  /** The order the comparison defines is transitive. */
  lemma CompareTransitive(a: string, b: string, c: string)
    requires VersionCompare(a, b) < 0 && VersionCompare(b, c) < 0
    ensures VersionCompare(a, c) < 0
  {
    CompareFromTransitive(Parts(a), Parts(b), Parts(c), 0);
  }

  /** Appending a zero part does not change a version's place:
      `"1.2"` and `"1.2.0"` compare equal. */
  lemma TrailingZeroIgnored(a: string)
    ensures VersionCompare(a, a + ".0") == 0
  {
    assert a + ".0" == a + ['.'] + "0";
    SplitAround(a, "0", '.');
    SplitNoSeparator("0", '.');
    ParseDigitsThenText("0", "");
    assert "0" + "" == "0";
    var pa, pb := Parts(a), Parts(a + ".0");
    assert pb == pa + [0];
    forall j | 0 <= j ensures PartAt(pa, j) == PartAt(pb, j) {
    }
    CompareFromMeaning(pa, pb, 0);
  }

  lemma OneTwoEqualsOneTwoZero()
    ensures VersionCompare("1.2", "1.2.0") == 0
  {
    TrailingZeroIgnored("1.2");
    assert "1.2" + ".0" == "1.2.0";
  }

  /** A version of three parts without dots inside them splits into
      those parts. */
  lemma {:induction false} ThreeParts(x: string, y: string, z: string)
    requires '.' !in x && '.' !in y && '.' !in z
    ensures Parts(x + "." + y + "." + z) == [ParseIntOrZero(x), ParseIntOrZero(y), ParseIntOrZero(z)]
  {
    assert x + "." + y + "." + z == x + ['.'] + (y + ['.'] + z);
    SplitAround(x, y + ['.'] + z, '.');
    SplitAround(y, z, '.');
    SplitNoSeparator(x, '.');
    SplitNoSeparator(y, '.');
    SplitNoSeparator(z, '.');
  }

  lemma ParsesSingleDigit(d: char, rest: string)
    requires IsDigit(d) && (rest == [] || !IsDigit(rest[0]))
    ensures ParseIntOrZero([d] + rest) == DigitValue(d)
  {
    ParseDigitsThenText([d], rest);
    assert [d][..0] == [];
  }

  lemma PartsOfLiterals()
    ensures "1" + "." + "0" + "." + "0-beta" == "1.0.0-beta"
    ensures "1" + "." + "0" + "." + "0" == "1.0.0"
    ensures ['1'] + "" == "1" && ['0'] + "" == "0" && ['0'] + "-beta" == "0-beta"
  {
  }

  lemma PreReleaseParts()
    ensures Parts("1.0.0-beta") == [1, 0, 0]
  {
    ThreeParts("1", "0", "0-beta");
    PartsOfLiterals();
    ParsesSingleDigit('1', "");
    ParsesSingleDigit('0', "");
    ParsesSingleDigit('0', "-beta");
  }

  lemma ReleaseParts()
    ensures Parts("1.0.0") == [1, 0, 0]
  {
    ThreeParts("1", "0", "0");
    PartsOfLiterals();
    ParsesSingleDigit('1', "");
    ParsesSingleDigit('0', "");
  }

  /** A pre-release suffix after the digits is ignored:
      `"1.0.0-beta"` and `"1.0.0"` compare equal. */
  lemma PreReleaseIgnored()
    ensures VersionCompare("1.0.0-beta", "1.0.0") == 0
  {
    PreReleaseParts();
    ReleaseParts();
    CompareReflexive("1.0.0");
  }

  // ---------------------------------------------------------------------
  // parseVersionRange
  // ---------------------------------------------------------------------

  datatype VersionRange = VersionRange(fromVersion: string, toVersion: string)

  /** `s` has three dots at index `k`. */
  predicate DotsAt(s: string, k: int)
  {
    0 <= k && k + 3 <= |s| && s[k..k + 3] == "..."
  }

  /** Tries the split points `k, k + 1, ...` in turn, as the lazy group of
      `^(.+?)\.\.\.(.+)$` does: the index of the first `...` at or after
      `k` with at least one character after it, -1 when there is none. */
  function FirstDots(s: string, k: nat): (j: int)
    requires k >= 1
    ensures j == -1 || (k <= j && j + 3 < |s| && DotsAt(s, j))
    ensures j == -1 ==> forall m :: k <= m && m + 3 < |s| ==> !DotsAt(s, m)
    ensures j != -1 ==> forall m :: k <= m < j ==> !DotsAt(s, m)
    decreases |s| - k
  {
    if k + 3 >= |s| then -1
    else if DotsAt(s, k) then k
    else FirstDots(s, k + 1)
  }

  /** `parseVersionRange`: the regular expression's `.` matches anything
      but a line terminator, so a line break anywhere rules out a match. */
  function ParseVersionRange(versionPart: string): (r: Option<VersionRange>)
    ensures r.None? <==>
      (exists i :: 0 <= i < |versionPart| && IsLineTerminator(versionPart[i])) ||
      !(exists k :: 1 <= k && k + 3 < |versionPart| && DotsAt(versionPart, k))
    ensures r.Some? ==>
      r.value.fromVersion + "..." + r.value.toVersion == versionPart &&
      r.value.fromVersion != [] && r.value.toVersion != [] &&
      forall k :: 1 <= k < |r.value.fromVersion| ==> !DotsAt(versionPart, k)
  {
    if exists i :: 0 <= i < |versionPart| && IsLineTerminator(versionPart[i]) then None
    else
      var j := FirstDots(versionPart, 1);
      if j < 0 then None
      else
        assert versionPart[..j] + "..." + versionPart[j + 3..] == versionPart by {
          assert versionPart[j..j + 3] == "...";
          assert versionPart == versionPart[..j] + versionPart[j..j + 3] + versionPart[j + 3..];
        }
        Some(VersionRange(versionPart[..j], versionPart[j + 3..]))
  }

  /** Two characters that are not both dots start no `...`. */
  lemma NotDotsAt(s: string, m: int)
    requires 0 <= m && m + 1 < |s| && (s[m] != '.' || s[m + 1] != '.')
    ensures !DotsAt(s, m)
  {
    if m + 3 <= |s| {
      assert s[m..m + 3][0] == s[m] && s[m..m + 3][1] == s[m + 1];
    }
  }

  /** The lazy group stops at the first `...`: `"1....2"` is `"1"` to
      `".2"`. */
  lemma LazyFromVersion()
    ensures ParseVersionRange("1....2") == Some(VersionRange("1", ".2"))
  {
    var s := "1....2";
    assert DotsAt(s, 1);
    assert s[..1] == "1" && s[4..] == ".2";
    assert forall i :: 0 <= i < |s| ==> !IsLineTerminator(s[i]);
  }

  /** A range written as `from...to` reads back as `from` and `to` when
      `from` has no two dots in a row and does not end with one, and
      neither side spans lines. */
  lemma {:induction false} RangeRoundTrip(fromVersion: string, toVersion: string)
    requires fromVersion != [] && toVersion != []
    requires forall i :: 0 <= i < |fromVersion| - 1 ==> !(fromVersion[i] == '.' && fromVersion[i + 1] == '.')
    requires fromVersion[|fromVersion| - 1] != '.'
    requires forall i :: 0 <= i < |fromVersion| ==> !IsLineTerminator(fromVersion[i])
    requires forall i :: 0 <= i < |toVersion| ==> !IsLineTerminator(toVersion[i])
    ensures ParseVersionRange(fromVersion + "..." + toVersion) == Some(VersionRange(fromVersion, toVersion))
  {
    var s := fromVersion + "..." + toVersion;
    var n := |fromVersion|;
    assert DotsAt(s, n);
    forall i | 0 <= i < |s| ensures !IsLineTerminator(s[i]) {
      if i < n {
        assert s[i] == fromVersion[i];
      } else if i >= n + 3 {
        assert s[i] == toVersion[i - n - 3];
      }
    }
    forall m | 1 <= m < n ensures !DotsAt(s, m) {
      if m < n - 1 {
        assert s[m] == fromVersion[m] && s[m + 1] == fromVersion[m + 1];
      } else {
        assert s[m] == fromVersion[n - 1];
      }
      NotDotsAt(s, m);
    }
    var j := FirstDots(s, 1);
    assert j == n;
    assert s[..n] == fromVersion && s[n + 3..] == toVersion;
  }

  // ---------------------------------------------------------------------
  // formatInvalidVersionError
  // ---------------------------------------------------------------------

  /** `ps.join(sep)`. */
  function JoinWith(ps: seq<string>, sep: string): string
  {
    if |ps| == 0 then ""
    else if |ps| == 1 then ps[0]
    else ps[0] + sep + JoinWith(ps[1..], sep)
  }

  /** `formatInvalidVersionError`: the invalid versions, from first,
      after a singular or plural label. */
  function FormatInvalidVersionError(fromVersion: string, toVersion: string, fromValid: bool, toValid: bool): string
  {
    var invalid := (if !fromValid then [fromVersion] else []) + (if !toValid then [toVersion] else []);
    "Invalid version" + (if |invalid| > 1 then "s" else "") + ": " + JoinWith(invalid, ", ")
  }

  /** The message in each of the four cases: the plural only when both
      versions are invalid, the from-version first, and an empty list when
      both are valid. */
  lemma InvalidVersionMessages(fromVersion: string, toVersion: string)
    ensures FormatInvalidVersionError(fromVersion, toVersion, true, true) == "Invalid version: "
    ensures FormatInvalidVersionError(fromVersion, toVersion, false, true) == "Invalid version: " + fromVersion
    ensures FormatInvalidVersionError(fromVersion, toVersion, true, false) == "Invalid version: " + toVersion
    ensures FormatInvalidVersionError(fromVersion, toVersion, false, false) ==
      "Invalid versions: " + fromVersion + ", " + toVersion
  {
    assert [fromVersion] + [toVersion] == [fromVersion, toVersion];
    assert JoinWith([fromVersion, toVersion], ", ") == fromVersion + ", " + toVersion by {
      assert [fromVersion, toVersion][1..] == [toVersion];
    }
    assert [] + [toVersion] == [toVersion];
    assert [fromVersion] + [] == [fromVersion];
  }
}
