/**
 * Decimal digit strings: how JavaScript prints a non-negative integer, and the
 * value that `+s` / `Number(s)` gives a string of ASCII digits.
 */
module Text {

  import opened Js

  predicate IsDigit(c: char)
  {
    '0' <= c <= '9'
  }

  predicate IsDigits(s: string)
  {
    forall i :: 0 <= i < |s| ==> IsDigit(s[i])
  }

  function DigitValue(c: char): nat
    requires IsDigit(c)
  {
    c as int - '0' as int
  }

  function DigitChar(d: nat): (c: char)
    requires d < 10
    ensures IsDigit(c) && DigitValue(c) == d
  {
    ('0' as int + d) as char
  }

  function Pow10(k: nat): (p: nat)
    ensures p >= 1
  {
    if k == 0 then 1 else 10 * Pow10(k - 1)
  }

  /** The number a digit string denotes; leading zeros are allowed. */
  function Value(s: string): nat
    requires IsDigits(s)
  {
    if s == [] then 0 else 10 * Value(s[..|s| - 1]) + DigitValue(s[|s| - 1])
  }

  /** `String(n)` for a non-negative integer n: no leading zeros, "0" for zero. */
  function Decimal(n: nat): (s: string)
    ensures IsDigits(s) && 1 <= |s|
    ensures Value(s) == n
    ensures s[0] == '0' <==> n == 0
    ensures n == 0 ==> s == "0"
    decreases n
  {
    var last := [DigitChar(n % 10)];
    if n < 10 then last
    else
      var init := Decimal(n / 10);
      assert (init + last)[..|init + last| - 1] == init;
      init + last
  }

  function Zeros(k: nat): (s: string)
    ensures |s| == k && IsDigits(s)
    ensures forall i :: 0 <= i < k ==> s[i] == '0'
  {
    seq(k, _ => '0')
  }

  /** A digit string's value is below ten to the power of its length. */
  lemma {:induction false} ValueBound(s: string)
    requires IsDigits(s)
    ensures Value(s) < Pow10(|s|)
  {
    if s != [] {
      ValueBound(s[..|s| - 1]);
    }
  }

  /** Reading a concatenation shifts the left part by the right part's width. */
  lemma {:induction false} ValueAppend(a: string, b: string)
    requires IsDigits(a) && IsDigits(b)
    ensures IsDigits(a + b)
    ensures Value(a + b) == Value(a) * Pow10(|b|) + Value(b)
    decreases |b|
  {
    if b == [] {
      assert a + b == a;
    } else {
      var b' := b[..|b| - 1];
      var c := b[|b| - 1];
      var ab := a + b;
      assert ab[..|ab| - 1] == a + b' && ab[|ab| - 1] == c;
      ValueAppend(a, b');
      assert Value(ab) == 10 * Value(a + b') + DigitValue(c);
      assert Value(b) == 10 * Value(b') + DigitValue(c);
      ShiftDigit(Value(a), Pow10(|b'|), Value(b'), DigitValue(c));
    }
  }

  lemma ShiftDigit(va: int, p: int, vb: int, d: int)
    ensures 10 * (va * p + vb) + d == va * (10 * p) + (10 * vb + d)
  {
  }

  /** Leading zeros do not change a digit string's value. */
  lemma ValueZerosPrefix(k: nat, s: string)
    requires IsDigits(s)
    ensures IsDigits(Zeros(k) + s) && Value(Zeros(k) + s) == Value(s)
  {
    ZerosValue(k);
    ValueAppend(Zeros(k), s);
  }

  lemma {:induction false} ZerosValue(k: nat)
    ensures Value(Zeros(k)) == 0
  {
    if k > 0 {
      assert Zeros(k)[..k - 1] == Zeros(k - 1);
      ZerosValue(k - 1);
    }
  }

  /** A number below 10^k prints in at most k digits. */
  lemma {:induction false} DecimalLength(n: nat, k: nat)
    requires 1 <= k && n < Pow10(k)
    ensures |Decimal(n)| <= k
    decreases n
  {
    if n >= 10 {
      assert |Decimal(n)| == |Decimal(n / 10)| + 1;
      assert k != 1 by {
        assert Pow10(1) == 10;
      }
      assert n / 10 < Pow10(k - 1);
      DecimalLength(n / 10, k - 1);
    }
  }

  /** A number of at least 10^(k-1) prints in at least k digits. */
  lemma DecimalLengthAtLeast(n: nat, k: nat)
    requires k >= 1 && n >= Pow10(k - 1)
    ensures |Decimal(n)| >= k
  {
    if |Decimal(n)| < k {
      ValueBound(Decimal(n));
      PowMono(|Decimal(n)|, k - 1);
    }
  }

  lemma {:induction false} PowMono(i: nat, j: nat)
    requires i <= j
    ensures Pow10(i) <= Pow10(j)
    decreases j
  {
    if i < j {
      PowMono(i, j - 1);
    }
  }

  /** Digit strings with no leading zero are exactly the printed forms of their values. */
  lemma {:induction false} DecimalOfValue(s: string)
    requires IsDigits(s) && 1 <= |s| && (s[0] == '0' ==> |s| == 1)
    ensures Decimal(Value(s)) == s
    decreases |s|
  {
    if |s| > 1 {
      var init := s[..|s| - 1];
      assert init[0] == s[0];
      DecimalOfValue(init);
      var v := Value(s);
      assert Value(init) >= 1;
      assert v / 10 == Value(init) && v % 10 == DigitValue(s[|s| - 1]);
      assert s == init + [s[|s| - 1]];
    }
  }

  /** The decimal form of n, widened with leading zeros to at least w characters. */
  function Fixed(n: nat, w: nat): (s: string)
    ensures IsDigits(s) && Value(s) == n
    ensures |s| == Max(w, |Decimal(n)|)
    ensures 1 <= w && n < Pow10(w) ==> |s| == w
  {
    var d := Decimal(n);
    DecimalShort(n, w);
    ValueZerosPrefix(if |d| < w then w - |d| else 0, d);
    if |d| < w then Zeros(w - |d|) + d else Zeros(0) + d
  }

  lemma DecimalShort(n: nat, w: nat)
    ensures 1 <= w && n < Pow10(w) ==> |Decimal(n)| <= w
  {
    if n < Pow10(w) && w >= 1 {
      DecimalLength(n, w);
    }
  }

  /** A digit string of width w reads back to the same string through Fixed. */
  lemma FixedOfValue(s: string, w: nat)
    requires IsDigits(s) && |s| == w && w >= 1
    ensures Fixed(Value(s), w) == s
  {
    var k := LeadingZeros(s);
    var rest := s[k..];
    if k == |s| {
      assert s == Zeros(|s|);
      ZerosValue(|s|);
      assert Zeros(w - 1) + Decimal(0) == s;
    } else {
      assert s == Zeros(k) + rest;
      ValueZerosPrefix(k, rest);
      DecimalOfValue(rest);
    }
  }

  /** Number of leading '0' characters of s. */
  function LeadingZeros(s: string): (k: nat)
    ensures k <= |s|
    ensures forall i :: 0 <= i < k ==> s[i] == '0'
    ensures k < |s| ==> s[k] != '0'
  {
    if s == [] || s[0] != '0' then 0 else 1 + LeadingZeros(s[1..])
  }

  /** `String(n)` for any integer. */
  function IntToString(n: int): string
  {
    if n < 0 then "-" + Decimal(-n) else Decimal(n)
  }
}
