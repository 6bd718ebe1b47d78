/**
 Octet strings, and numbers written in them in decimal.
 */
module Octets {

  type Octet = b: nat | b < 256
  type ByteString = seq<Octet>

  const CRLF: ByteString := [13, 10]

  predicate IsDigit(b: Octet) {
    48 <= b <= 57
  }

  predicate IsSpace(b: Octet) {
    b == 32 || 9 <= b <= 13
  }

  function Digits(n: nat): (ds: ByteString)
    ensures |ds| > 0 && (forall i :: 0 <= i < |ds| ==> IsDigit(ds[i]))
    ensures n > 0 ==> ds[0] > 48
  {
    if n < 10 then [48 + n] else Digits(n / 10) + [48 + n % 10]
  }

  /** ll2string. */
  function Decimal(n: int): ByteString {
    if n < 0 then [45] + Digits(-n) else Digits(n)
  }

  function Pow10(k: nat): nat {
    if k == 0 then 1 else 10 * Pow10(k - 1)
  }

  lemma {:induction false} DigitsLength(n: nat, k: nat)
    requires k > 0 && n < Pow10(k)
    ensures |Digits(n)| <= k
  {
    assert Pow10(1) == 10 * Pow10(0);
    if n >= 10 {
      DigitsLength(n / 10, k - 1);
    }
  }

  /** The value of the digits at the start of s, after acc. */
  function ScanDigits(s: ByteString, acc: nat): (r: nat)
    ensures r >= acc
  {
    if s != [] && IsDigit(s[0]) then ScanDigits(s[1..], 10 * acc + (s[0] - 48)) else acc
  }

  function SkipSpaces(s: ByteString): ByteString {
    if s != [] && IsSpace(s[0]) then SkipSpaces(s[1..]) else s
  }

  function Clamp(x: int, lo: int, hi: int): int {
    if x < lo then lo else if x > hi then hi else x
  }

  /** strtol in base 10, with the limits of the result type. */
  function ParseInt(s: ByteString, lo: int, hi: int): int {
    var t := SkipSpaces(s);
    if t != [] && t[0] == 45 then Clamp(0 - ScanDigits(t[1..], 0), lo, hi)
    else if t != [] && t[0] == 43 then Clamp(ScanDigits(t[1..], 0), lo, hi)
    else Clamp(ScanDigits(t, 0), lo, hi)
  }

  lemma {:induction false} ScanConcat(a: ByteString, b: ByteString, acc: nat)
    requires forall i :: 0 <= i < |a| ==> IsDigit(a[i])
    ensures ScanDigits(a + b, acc) == ScanDigits(b, ScanDigits(a, acc))
  {
    if a == [] {
      assert a + b == b;
    } else {
      assert (a + b)[1..] == a[1..] + b && (a + b)[0] == a[0];
      ScanConcat(a[1..], b, 10 * acc + (a[0] - 48));
    }
  }

  lemma {:induction false} ScanDigitsOf(n: nat)
    ensures ScanDigits(Digits(n), 0) == n
  {
    if n < 10 {
      assert ScanDigits([48 + n], 0) == ScanDigits([48 + n][1..], n);
    } else {
      var d: ByteString := [48 + n % 10];
      ScanDigitsOf(n / 10);
      ScanConcat(Digits(n / 10), d, 0);
      assert ScanDigits(d, n / 10) == ScanDigits(d[1..], 10 * (n / 10) + n % 10);
    }
  }

  lemma ScanPrinted(m: nat, t: ByteString)
    requires t == [] || !IsDigit(t[0])
    ensures ScanDigits(Digits(m) + t, 0) == m
  {
    ScanDigitsOf(m);
    ScanConcat(Digits(m), t, 0);
    assert ScanDigits(t, m) == m;
  }

  lemma NoSpaces(s: ByteString)
    requires s != [] && !IsSpace(s[0])
    ensures SkipSpaces(s) == s
  {
  }

  /** Printing a number and parsing it back, whatever other than a digit follows. */
  lemma ParseDecimal(n: int, t: ByteString, lo: int, hi: int)
    requires lo <= n <= hi && (t == [] || !IsDigit(t[0]))
    ensures ParseInt(Decimal(n) + t, lo, hi) == n
  {
    hide Digits, ScanDigits, SkipSpaces;
    var s := Decimal(n) + t;
    assert s[0] == Decimal(n)[0];
    NoSpaces(s);
    if n < 0 {
      ScanPrinted(-n, t);
      assert s[1..] == Digits(-n) + t;
    } else {
      ScanPrinted(n, t);
    }
  }

  /** A number outside the range of the result type gives the end of the range. */
  lemma ParseOutside(n: int, t: ByteString, lo: int, hi: int)
    requires lo <= 0 <= hi && (t == [] || !IsDigit(t[0]))
    ensures n > hi ==> ParseInt(Decimal(n) + t, lo, hi) == hi
    ensures n < lo ==> ParseInt(Decimal(n) + t, lo, hi) == lo
  {
    hide Digits, ScanDigits, SkipSpaces;
    var s := Decimal(n) + t;
    assert s[0] == Decimal(n)[0];
    NoSpaces(s);
    if n < 0 {
      ScanPrinted(-n, t);
      assert s[1..] == Digits(-n) + t;
    } else {
      ScanPrinted(n, t);
    }
  }

  /** Cutting a printed number short leaves a number that is not negative, and positive if it was. */
  lemma ParseCut(n: nat, t: ByteString, k: nat, lo: int, hi: int)
    requires k <= |Digits(n) + t| && lo <= 1 <= hi
    ensures var r := ParseInt((Digits(n) + t)[..k], lo, hi); r >= 0 && (n > 0 && k > 0 ==> r >= 1)
  {
    var s := (Digits(n) + t)[..k];
    if k > 0 {
      assert s[0] == Digits(n)[0];
      assert ScanDigits(s, 0) == ScanDigits(s[1..], s[0] - 48);
    }
  }
}
