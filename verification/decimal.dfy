/** Decimal rendering of integers, as `operator<<` and
    `std::setw`/`std::setfill` produce it. */
module Decimal {

  predicate IsDigit(c: char) {
    '0' <= c <= '9'
  }

  predicate AllDigits(s: string) {
    forall i :: 0 <= i < |s| ==> IsDigit(s[i])
  }

  function DigitChar(d: nat): (c: char)
    requires d < 10
    ensures IsDigit(c) && (c - '0') as nat == d
  {
    (d + '0' as int) as char
  }

  /** The number a string of decimal digits denotes (leading zeros allowed). */
  function Value(s: string): nat
    requires AllDigits(s)
  {
    if |s| == 0 then 0 else 10 * Value(s[..|s| - 1]) + (s[|s| - 1] - '0') as nat
  }

  /** Shortest decimal form of a natural number: no leading zero except for 0 itself. */
  function NatToString(n: nat): (s: string)
    ensures 1 <= |s| && AllDigits(s)
    ensures Value(s) == n
    ensures |s| > 1 ==> s[0] != '0'
    decreases n
  {
    if n < 10 then [DigitChar(n)]
    else
      var front := NatToString(n / 10);
      assert (front + [DigitChar(n % 10)])[..|front|] == front;
      front + [DigitChar(n % 10)]
  }

  /** `operator<<` on a signed integer: a minus sign, then the magnitude. */
  function IntToString(x: int): (s: string)
    ensures x >= 0 ==> s == NatToString(x)
    ensures x < 0 ==> s == "-" + NatToString(-x)
    ensures 1 <= |s| && (|s| > 1 ==> s[0] != '0')
    ensures forall i :: 0 <= i < |s| ==> s[i] != '.'
  {
    if x < 0 then "-" + NatToString(-x) else NatToString(x)
  }

  function Repeat(c: char, k: nat): (s: string)
    ensures |s| == k && forall i :: 0 <= i < k ==> s[i] == c
  {
    if k == 0 then [] else [c] + Repeat(c, k - 1)
  }

  /** `std::setw(width)` with `std::setfill(fill)` and the default right
      adjustment: the fill goes in front of the whole field, sign included. */
  function PadLeft(s: string, width: nat, fill: char): (r: string)
    ensures |r| == if |s| >= width then |s| else width
    ensures r[|r| - |s|..] == s
    ensures forall i :: 0 <= i < |r| - |s| ==> r[i] == fill
  {
    if |s| >= width then s else Repeat(fill, width - |s|) + s
  }

  function Pow10(k: nat): (p: nat)
    ensures p >= 1
  {
    if k == 0 then 1 else 10 * Pow10(k - 1)
  }

  /** A leading zero does not change the value of a digit string. */
  lemma {:induction false} LeadingZero(s: string)
    requires AllDigits(s)
    ensures AllDigits("0" + s) && Value("0" + s) == Value(s)
  {
    if |s| > 0 {
      var t := "0" + s;
      assert t[..|t| - 1] == "0" + s[..|s| - 1];
      LeadingZero(s[..|s| - 1]);
    }
  }

  /** Zero padding keeps a digit string a digit string with the same value. */
  lemma {:induction false} ZeroPadValue(s: string, width: nat)
    requires AllDigits(s)
    ensures AllDigits(PadLeft(s, width, '0'))
    ensures Value(PadLeft(s, width, '0')) == Value(s)
    decreases width - |s|
  {
    if |s| < width {
      ZeroPadValue("0" + s, width);
      LeadingZero(s);
      assert PadLeft("0" + s, width, '0') == PadLeft(s, width, '0');
    }
  }

  /** A number below 10^k has at most k digits. */
  lemma {:induction false} NatToStringLength(n: nat, k: nat)
    requires 1 <= k && n < Pow10(k)
    ensures |NatToString(n)| <= k
    decreases k
  {
    if n >= 10 {
      assert k >= 2;
      NatToStringLength(n / 10, k - 1);
    }
  }

  /** Distinct numbers render as distinct strings. */
  lemma NatToStringInjective(m: nat, n: nat)
    requires NatToString(m) == NatToString(n)
    ensures m == n
  {
  }

  /** Distinct integers render as distinct strings, sign included. */
  lemma IntToStringInjective(x: int, y: int)
    requires IntToString(x) == IntToString(y)
    ensures x == y
  {
    var s := IntToString(x);
    assert x < 0 <==> s[0] == '-';
    assert y < 0 <==> s[0] == '-';
    if x < 0 && y < 0 {
      assert s[1..] == NatToString(-x) && s[1..] == NatToString(-y);
      NatToStringInjective(-x, -y);
    } else if x >= 0 && y >= 0 {
      NatToStringInjective(x, y);
    }
  }

  /** Padding loses nothing when the padded strings do not themselves start
      with the fill character (a single character excepted). */
  lemma PadLeftInjective(s1: string, s2: string, width: nat, fill: char)
    requires 1 <= |s1| && (|s1| > 1 ==> s1[0] != fill)
    requires 1 <= |s2| && (|s2| > 1 ==> s2[0] != fill)
    requires PadLeft(s1, width, fill) == PadLeft(s2, width, fill)
    ensures s1 == s2
  {
    var r := PadLeft(s1, width, fill);
    assert r[|r| - |s1|] == s1[0];
    assert r[|r| - |s2|] == s2[0];
  }
}
