/** The few Python string builtins the core relies on, over ASCII text:
    `str.find`, `str.rfind`, `str.startswith`, `int()` on a decimal string,
    `"%d" % n` and the slice `s[:-n]`. */
module PyStr {

  predicate IsDigit(c: char) {
    '0' <= c <= '9'
  }

  predicate AllDigits(s: string) {
    forall k :: 0 <= k < |s| ==> IsDigit(s[k])
  }

  function DigitValue(c: char): (d: nat)
    requires IsDigit(c)
    ensures d < 10
  {
    c as int - '0' as int
  }

  function DigitChar(d: nat): (c: char)
    requires d < 10
    ensures IsDigit(c) && DigitValue(c) == d
  {
    ('0' as int + d) as char
  }

  /** `int(s)` for a non-empty string of decimal digits; leading zeros are
      accepted and do not change the value. */
  function ParseDecimal(s: string): (n: nat)
    requires |s| > 0 && AllDigits(s)
    decreases |s|
  {
    if |s| == 1 then DigitValue(s[0])
    else 10 * ParseDecimal(s[..|s| - 1]) + DigitValue(s[|s| - 1])
  }

  /** A run of zeros reads as 0. */
  lemma {:induction false} ZerosParse(z: string)
    requires |z| > 0 && forall k :: 0 <= k < |z| ==> z[k] == '0'
    ensures AllDigits(z) && ParseDecimal(z) == 0
    decreases |z|
  {
    if |z| > 1 {
      ZerosParse(z[..|z| - 1]);
    }
  }

  /** `int()` ignores leading zeros: zeros in front of a digit string do not
      change its value. */
  lemma {:induction false} LeadingZeros(z: string, s: string)
    requires |s| > 0 && AllDigits(s)
    requires forall k :: 0 <= k < |z| ==> z[k] == '0'
    ensures AllDigits(z + s) && ParseDecimal(z + s) == ParseDecimal(s)
    decreases |s|
  {
    var t := z + s;
    assert AllDigits(t) by {
      forall k | 0 <= k < |t| ensures IsDigit(t[k]) {
        if k < |z| { assert t[k] == z[k]; } else { assert t[k] == s[k - |z|]; }
      }
    }
    if z != [] {
      assert t[|t| - 1] == s[|s| - 1];
      if |s| == 1 {
        assert t[..|t| - 1] == z;
        ZerosParse(z);
      } else {
        assert t[..|t| - 1] == z + s[..|s| - 1];
        LeadingZeros(z, s[..|s| - 1]);
      }
    } else {
      assert t == s;
    }
  }

  /** `"%d" % n` for a non-negative n: the shortest decimal spelling. */
  function FormatDecimal(n: nat): (s: string)
    ensures |s| > 0 && AllDigits(s)
    ensures ParseDecimal(s) == n
    ensures s[0] == '0' ==> n == 0
  {
    if n < 10 then [DigitChar(n)]
    else
      var s := FormatDecimal(n / 10) + [DigitChar(n % 10)];
      assert s[..|s| - 1] == FormatDecimal(n / 10);
      s
  }

  /** `"%d" % i` for any integer: a minus sign before the digits of |i|. */
  function FormatInt(i: int): string {
    if i < 0 then "-" + FormatDecimal(-i) else FormatDecimal(i)
  }

  /** Every character `%d` prints is a digit or the minus sign, and the first
      one is a digit exactly when the value is non-negative. */
  lemma FormatIntChars(i: int)
    ensures |FormatInt(i)| > 0
    ensures forall k :: 0 <= k < |FormatInt(i)| ==> FormatInt(i)[k] == '-' || IsDigit(FormatInt(i)[k])
    ensures IsDigit(FormatInt(i)[0]) <==> i >= 0
  {
  }

  /** `s.find(c)`: the first index holding c, or -1. */
  function Find(s: string, c: char): (k: int)
    ensures -1 <= k < |s|
    ensures k == -1 <==> c !in s
    ensures 0 <= k ==> s[k] == c && forall j :: 0 <= j < k ==> s[j] != c
  {
    if s == [] then -1
    else if s[0] == c then 0
    else
      var k := Find(s[1..], c);
      if k == -1 then -1
      else k + 1
  }

  /** `s.rfind(c)`: the last index holding c, or -1. */
  function RFind(s: string, c: char): (k: int)
    ensures -1 <= k < |s|
    ensures k == -1 <==> c !in s
    ensures 0 <= k ==> s[k] == c && forall j :: k < j < |s| ==> s[j] != c
  {
    if s == [] then -1
    else if s[|s| - 1] == c then |s| - 1
    else
      var t := s[..|s| - 1];
      assert s == t + [s[|s| - 1]];
      RFind(t, c)
  }

  /** The last c in s is at k when s[k] is c and no c follows it (k is -1
      when s holds no c). */
  lemma RFindIs(s: string, c: char, k: int)
    requires -1 <= k < |s|
    requires 0 <= k ==> s[k] == c
    requires forall j :: k < j < |s| ==> s[j] != c
    ensures RFind(s, c) == k
  {
  }

  /** `s.startswith(p)` */
  predicate StartsWith(s: string, p: string) {
    |p| <= |s| && s[..|p|] == p
  }

  /** `s[:-n]` for n > 0: s without its last n characters, empty when s is
      shorter than that. */
  function DropLast(s: string, n: nat): (t: string)
    requires n > 0
    ensures |s| >= n ==> t + s[|s| - n..] == s
    ensures |s| < n ==> t == []
  {
    if |s| >= n then s[..|s| - n] else []
  }
}
