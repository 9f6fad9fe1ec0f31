/**
 Reading the leading `major.minor` pair out of a tool's version banner.
 */
module VersionBanner {
  import opened Wrappers

  const U32_LIMIT := 0x1_0000_0000

  predicate IsDigit(c: char) {
    '0' <= c <= '9'
  }

  predicate AllDigits(s: string) {
    forall i :: 0 <= i < |s| ==> IsDigit(s[i])
  }

  /** The number a digit string denotes. */
  function Decimal(s: string): nat
    requires AllDigits(s)
  {
    if s == "" then 0 else 10 * Decimal(s[..|s| - 1]) + (s[|s| - 1] as int - '0' as int)
  }

  /** `str::parse::<u32>` on a non-empty digit string. */
  function ParseU32(s: string): Option<nat>
    requires AllDigits(s) && s != ""
  {
    if Decimal(s) < U32_LIMIT then Some(Decimal(s)) else None
  }

  /** `[a, b)` is a maximal run of digits in `s`. */
  predicate IsRun(s: string, a: int, b: int) {
    && 0 <= a < b <= |s|
    && (forall i :: a <= i < b ==> IsDigit(s[i]))
    && (a > 0 ==> !IsDigit(s[a - 1]))
    && (b < |s| ==> !IsDigit(s[b]))
  }

  /** At `a` starts a digit run, closed by a dot at `b`, and a digit run from there to `c`. */
  predicate IsVersionAt(s: string, a: int, b: int, c: int) {
    IsRun(s, a, b) && b < |s| && s[b] == '.' && IsRun(s, b + 1, c)
  }

  ghost predicate NoVersionBefore(s: string, n: int) {
    forall a, b, c :: a < n ==> !IsVersionAt(s, a, b, c)
  }

  /** `(a, b, c)` is the leftmost version in `s`. */
  ghost predicate IsFirstVersion(s: string, a: int, b: int, c: int) {
    IsVersionAt(s, a, b, c) && NoVersionBefore(s, a)
  }

  /** There is at most one leftmost version. */
  lemma FirstVersionUnique(s: string, a: int, b: int, c: int, a': int, b': int, c': int)
    requires IsFirstVersion(s, a, b, c) && IsFirstVersion(s, a', b', c')
    ensures a == a' && b == b' && c == c'
  {
  }

  /** The two numbers of the leftmost version, when there is one and both fit. */
  ghost predicate IsAnswer(raw: string, version: Option<(nat, nat)>) {
    && (forall a, b, c :: IsFirstVersion(raw, a, b, c) ==>
          && AllDigits(raw[a..b]) && AllDigits(raw[b + 1..c])
          && version == (if Decimal(raw[a..b]) < U32_LIMIT && Decimal(raw[b + 1..c]) < U32_LIMIT
                         then Some((Decimal(raw[a..b]), Decimal(raw[b + 1..c]))) else None))
    && (NoVersionBefore(raw, |raw|) ==> version.None?)
  }

  /**
   The scan stays in bounds, ends, and returns the leftmost version's two
   numbers when both fit in 32 bits, and nothing otherwise.
   */
  method ParseVersion(raw: string) returns (version: Option<(nat, nat)>)
    ensures IsAnswer(raw, version)
    ensures version.Some? ==> version.value.0 < U32_LIMIT && version.value.1 < U32_LIMIT
  {
    hide Decimal;
    var i := 0;
    while i < |raw|
      invariant 0 <= i <= |raw|
      invariant NoVersionBefore(raw, i)
      invariant 0 < i < |raw| && IsDigit(raw[i]) ==> !IsDigit(raw[i - 1])
      decreases |raw| - i
    {
      if !IsDigit(raw[i]) {
        i := i + 1;
        continue;
      }
      var majorStart := i;
      while i < |raw| && IsDigit(raw[i])
        invariant majorStart <= i <= |raw|
        invariant forall k :: majorStart <= k < i ==> IsDigit(raw[k])
      {
        i := i + 1;
      }
      var majorEnd := i;
      assert IsRun(raw, majorStart, majorEnd);
      if i >= |raw| || raw[i] != '.' {
        continue;
      }
      i := i + 1;
      var minorStart := i;
      while i < |raw| && IsDigit(raw[i])
        invariant minorStart <= i <= |raw|
        invariant forall k :: minorStart <= k < i ==> IsDigit(raw[k])
      {
        i := i + 1;
      }
      if minorStart == i {
        continue;
      }
      assert IsRun(raw, minorStart, i);
      assert IsFirstVersion(raw, majorStart, majorEnd, i);
      var major := ParseU32(raw[majorStart..majorEnd]);
      var minor := ParseU32(raw[minorStart..i]);
      forall a, b, c | IsFirstVersion(raw, a, b, c) ensures a == majorStart && b == majorEnd && c == i {
        FirstVersionUnique(raw, a, b, c, majorStart, majorEnd, i);
      }
      assert !NoVersionBefore(raw, |raw|);
      if major.None? || minor.None? {
        return None;
      }
      return Some((major.value, minor.value));
    }
    return None;
  }

  // ----- Printed versions ----------------------------------------------------------------

  /** A number in decimal. */
  function Printed(n: nat): (s: string)
    ensures s != "" && AllDigits(s)
  {
    if n < 10 then [('0' as int + n) as char] else Printed(n / 10) + [('0' as int + n % 10) as char]
  }

  lemma {:induction false} PrintedReadsBack(n: nat)
    ensures Decimal(Printed(n)) == n
  {
    var s := Printed(n);
    if n < 10 {
      assert s[..0] == "";
    } else {
      PrintedReadsBack(n / 10);
      assert s[..|s| - 1] == Printed(n / 10);
    }
  }

  /** `before`, a version, and text behind it that does not go on with a digit. */
  function Banner(before: string, major: nat, minor: nat, behind: string): string {
    before + (Printed(major) + ("." + (Printed(minor) + behind)))
  }

  lemma BannerVersion(before: string, major: nat, minor: nat, behind: string)
    requires forall i :: 0 <= i < |before| ==> !('0' <= before[i] <= '9')
    requires behind == "" || !('0' <= behind[0] <= '9')
    ensures var a := |before|;
            var b := a + |Printed(major)|;
            var c := b + 1 + |Printed(minor)|;
            var raw := Banner(before, major, minor, behind);
            && IsFirstVersion(raw, a, b, c) && raw[a..b] == Printed(major) && raw[b + 1..c] == Printed(minor)
  {
    hide Printed;
    BannerRuns(before, Printed(major), Printed(minor), behind);
  }

  lemma BannerRuns(before: string, x: string, y: string, behind: string)
    requires forall i :: 0 <= i < |before| ==> !('0' <= before[i] <= '9')
    requires behind == "" || !('0' <= behind[0] <= '9')
    requires x != "" && y != "" && AllDigits(x) && AllDigits(y)
    ensures var a := |before|;
            var b := a + |x|;
            var c := b + 1 + |y|;
            var raw := before + (x + ("." + (y + behind)));
            && IsFirstVersion(raw, a, b, c) && raw[a..b] == x && raw[b + 1..c] == y
  {
    var a := |before|;
    var b := a + |x|;
    var c := b + 1 + |y|;
    var raw := before + (x + ("." + (y + behind)));
    assert forall i :: 0 <= i < a ==> raw[i] == before[i];
    assert forall i :: a <= i < b ==> raw[i] == x[i - a];
    assert raw[b] == '.';
    assert forall i :: b < i < c ==> raw[i] == y[i - b - 1];
    assert c < |raw| ==> raw[c] == behind[0];
    assert IsRun(raw, a, b);
    assert IsRun(raw, b + 1, c);
    assert raw[a..b] == x && raw[b + 1..c] == y;
    forall a', b', c' | a' < a ensures !IsVersionAt(raw, a', b', c') {
      assert 0 <= a' ==> !IsDigit(raw[a']);
    }
  }

  /** The first version of a banner reads back as the numbers printed there, if both fit in 32 bits, and as nothing otherwise. */
  lemma BannerReadsBack(before: string, major: nat, minor: nat, behind: string, version: Option<(nat, nat)>)
    requires forall i :: 0 <= i < |before| ==> !('0' <= before[i] <= '9')
    requires behind == "" || !('0' <= behind[0] <= '9')
    requires IsAnswer(Banner(before, major, minor, behind), version)
    ensures version == if major <= 4294967295 && minor <= 4294967295 then Some((major, minor)) else None
  {
    hide Printed, Decimal, Banner;
    BannerVersion(before, major, minor, behind);
    PrintedReadsBack(major);
    PrintedReadsBack(minor);
  }
}
