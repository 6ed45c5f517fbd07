/**
 * lib/utils.mjs: the helpers the lib/civil snapshot imports. `typeCheck`
 * compares an object's `Symbol.toStringTag`; `pad`, `signedpad` and
 * `number` coerce their argument with unary `+`; `getInstantInfo` reads the
 * wall clock of an instant from a formatter that `createFormatter` picks by
 * the zone argument: a broken one for "SYSTEM", a fixed-offset one when the
 * argument contains a signed hour, and `Intl.DateTimeFormat` otherwise.
 * The Intl formatter is a parameter of the model (a `Zoned.ZoneOracle`).
 */
module Utils {
  import opened Js
  import Text
  import Shared
  import EcmaTime
  import Zoned

  // ---------------------------------------------------------------------------
  // JavaScript values and unary plus

  /** The arguments these helpers are handed: strings, booleans, numbers, `undefined` and `null`. */
  datatype Value = Str(s: string) | Bool(b: bool) | NumberValue(n: Num) | Undefined | Null

  /**
   * StrWhiteSpaceChar (section 7.1.4.1.1 of ECMA-262): the WhiteSpace code
   * points (tab, vertical tab, form feed, space, no-break space, the byte
   * order mark and the other space separators of Unicode category Zs) and
   * the LineTerminator ones (line feed, carriage return, U+2028, U+2029).
   */
  predicate IsStrWhiteSpace(c: char)
  {
    c == '\t' || c == '\n' || c == '\U{B}' || c == '\U{C}' || c == '\r' || c == ' ' || c == '\U{A0}'
    || c == '\U{1680}' || '\U{2000}' <= c <= '\U{200A}' || c == '\U{2028}' || c == '\U{2029}'
    || c == '\U{202F}' || c == '\U{205F}' || c == '\U{3000}' || c == '\U{FEFF}'
  }

  predicate IsStrWhiteSpaces(w: string)
  {
    forall i :: 0 <= i < |w| ==> IsStrWhiteSpace(w[i])
  }

  /** s without the white space it starts with. */
  function TrimStart(s: string): (r: string)
    ensures |r| <= |s|
  {
    if s != "" && IsStrWhiteSpace(s[0]) then TrimStart(s[1..]) else s
  }

  /** s without the white space it ends with. */
  function TrimEnd(s: string): (r: string)
    ensures |r| <= |s|
  {
    if s != "" && IsStrWhiteSpace(s[|s| - 1]) then TrimEnd(s[..|s| - 1]) else s
  }

  /** The text StringToNumber reads: s without the white space at either end. */
  function Trim(s: string): string
  {
    TrimEnd(TrimStart(s))
  }

  /** Trimming the end keeps a first character that is not white space. */
  lemma {:induction false} TrimEndKeepsFirst(s: string)
    requires s != "" && !IsStrWhiteSpace(s[0])
    ensures TrimEnd(s) != "" && TrimEnd(s)[0] == s[0]
  {
    if IsStrWhiteSpace(s[|s| - 1]) {
      TrimEndKeepsFirst(s[..|s| - 1]);
    }
  }

  /** Trimming keeps a first character that is not white space. */
  lemma TrimKeepsFirst(s: string)
    requires s != "" && !IsStrWhiteSpace(s[0])
    ensures Trim(s) != "" && Trim(s)[0] == s[0]
  {
    TrimEndKeepsFirst(s);
  }

  /** White space before a string that does not start with any is dropped. */
  lemma {:induction false} TrimStartSpaces(w: string, x: string)
    requires IsStrWhiteSpaces(w) && (x == "" || !IsStrWhiteSpace(x[0]))
    ensures TrimStart(w + x) == x
  {
    if w == "" {
      assert w + x == x;
    } else {
      assert (w + x)[1..] == w[1..] + x;
      TrimStartSpaces(w[1..], x);
    }
  }

  /** White space after a string that does not end with any is dropped. */
  lemma {:induction false} TrimEndSpaces(x: string, w: string)
    requires IsStrWhiteSpaces(w) && (x == "" || !IsStrWhiteSpace(x[|x| - 1]))
    ensures TrimEnd(x + w) == x
  {
    if w == "" {
      assert x + w == x;
    } else {
      assert (x + w)[..|x + w| - 1] == x + w[..|w| - 1];
      TrimEndSpaces(x, w[..|w| - 1]);
    }
  }

  /** Trim gives back a string that neither starts nor ends with white space, whatever white space surrounds it. */
  lemma TrimPadded(w1: string, x: string, w2: string)
    requires IsStrWhiteSpaces(w1) && IsStrWhiteSpaces(w2)
    requires x == "" || (!IsStrWhiteSpace(x[0]) && !IsStrWhiteSpace(x[|x| - 1]))
    ensures Trim(w1 + x + w2) == x
  {
    assert w1 + x + w2 == w1 + (x + w2);
    if x == "" {
      assert x + w2 == w2;
      assert w1 + w2 == (w1 + w2) + "";
      assert IsStrWhiteSpaces(w1 + w2);
      TrimStartSpaces(w1 + w2, "");
    } else {
      TrimStartSpaces(w1, x + w2);
      TrimEndSpaces(x, w2);
    }
  }

  /**
   * What a StringNumericLiteral denotes, as far as `Num` can say: an
   * integer, a value that is not one (a fraction or an infinity), or no
   * literal at all.
   */
  datatype Literal = Integral(v: int) | NonIntegral | NotLiteral

  /** The number of decimal digits s starts with. */
  function DigitRun(s: string): (k: nat)
    ensures k <= |s|
  {
    if s != "" && Text.IsDigit(s[0]) then 1 + DigitRun(s[1..]) else 0
  }

  /** DigitRun(s) digits open s, and the character after them is not one. */
  lemma {:induction false} DigitRunShape(s: string)
    ensures Text.IsDigits(s[..DigitRun(s)])
    ensures DigitRun(s) < |s| ==> !Text.IsDigit(s[DigitRun(s)])
  {
    if s != "" && Text.IsDigit(s[0]) {
      var k := DigitRun(s);
      DigitRunShape(s[1..]);
      assert forall i :: 1 <= i < k ==> s[..k][i] == s[1..][..k - 1][i - 1];
    }
  }

  /** The base a NonDecimalIntegerLiteral's prefix letter names (0x, 0o, 0b, either case), and 0 for any other letter. */
  function RadixOf(c: char): (b: nat)
    ensures b == 0 || b == 2 || b == 8 || b == 16
  {
    if c == 'x' || c == 'X' then 16 else if c == 'o' || c == 'O' then 8 else if c == 'b' || c == 'B' then 2 else 0
  }

  /** The value of a hexadecimal digit, and 16 for a character that is not one. */
  function HexDigitValue(c: char): (d: nat)
    ensures d <= 16
    ensures Text.IsDigit(c) ==> d == Text.DigitValue(c)
    ensures d < 10 ==> Text.IsDigit(c)
  {
    if '0' <= c <= '9' then c as int - '0' as int
    else if 'a' <= c <= 'f' then c as int - 'a' as int + 10
    else if 'A' <= c <= 'F' then c as int - 'A' as int + 10
    else 16
  }

  predicate IsRadixDigits(s: string, b: nat)
  {
    forall i :: 0 <= i < |s| ==> HexDigitValue(s[i]) < b
  }

  /** The number the digits s denote in base b (read as hexadecimal digits, whatever b is). */
  function RadixValue(s: string, b: nat): nat
  {
    if s == [] then 0 else b * RadixValue(s[..|s| - 1], b) + HexDigitValue(s[|s| - 1])
  }

  /** In base ten, the digits of a non-decimal literal read as decimal digits do. */
  lemma {:induction false} RadixTen(s: string)
    requires Text.IsDigits(s)
    ensures IsRadixDigits(s, 10) && RadixValue(s, 10) == Text.Value(s)
  {
    if s != [] {
      RadixTen(s[..|s| - 1]);
    }
  }

  /** The ExponentPart a decimal literal ends with: 0 for an empty tail, None for a tail that is not one. */
  function ExponentOf(tail: string): (e: Option<int>)
    ensures tail == "" ==> e == Some(0)
    ensures tail != "" && tail[0] != 'e' && tail[0] != 'E' ==> e.None?
  {
    if tail == "" then Some(0)
    else if tail[0] != 'e' && tail[0] != 'E' then None
    else
      var x := tail[1..];
      var digits := if x != "" && (x[0] == '-' || x[0] == '+') then x[1..] else x;
      if digits != "" && Text.IsDigits(digits) then
        Some(if x[0] == '-' then -(Text.Value(digits) as int) else Text.Value(digits))
      else None
  }

  /** m times ten to the power e: an integer unless e is negative and 10^-e does not divide m. */
  function Scaled(m: nat, e: int): (l: Literal)
    ensures !l.NotLiteral?
    decreases if e < 0 then -e else e
  {
    if e == 0 then Integral(m)
    else if e > 0 then Scaled(10 * m, e - 1)
    else if m % 10 == 0 then Scaled(m / 10, e + 1)
    else NonIntegral
  }

  /** A non-negative exponent multiplies by that power of ten. */
  lemma {:induction false} ScaledUp(m: nat, e: nat)
    ensures Scaled(m, e) == Integral(m * Text.Pow10(e))
    decreases e
  {
    if e > 0 {
      ScaledUp(10 * m, e - 1);
      assert 10 * m * Text.Pow10(e - 1) == m * Text.Pow10(e);
    }
  }

  /** A negative exponent divides exactly a multiple of that power of ten. */
  lemma {:induction false} ScaledDown(q: nat, k: nat)
    ensures Scaled(q * Text.Pow10(k), -(k as int)) == Integral(q)
  {
    if k > 0 {
      var m := q * Text.Pow10(k);
      assert m == 10 * (q * Text.Pow10(k - 1));
      assert m % 10 == 0 && m / 10 == q * Text.Pow10(k - 1);
      ScaledDown(q, k - 1);
    }
  }


  /**
   * StrUnsignedDecimalLiteral: "Infinity", or decimal digits with an
   * optional fraction after a '.', at least one digit in all, and an
   * optional exponent.
   */
  function UnsignedDecimal(u: string): (l: Literal)
    ensures u != "" && !Text.IsDigit(u[0]) && u[0] != '.' && u[0] != 'I' ==> l.NotLiteral?
  {
    if u == "Infinity" then NonIntegral
    else
      var i := DigitRun(u);
      var dot := if i < |u| && u[i] == '.' then 1 else 0;
      var f := DigitRun(u[i + dot..]);
      if i + f == 0 then NotLiteral
      else match ExponentOf(u[i + dot + f..])
        case None => NotLiteral
        case Some(e) => Scaled(RadixValue(u[..i] + u[i + dot..][..f], 10), e - f)
  }

  /** StringNumericLiteral (section 7.1.4.1 of ECMA-262) of a string with no white space at either end. */
  function LiteralOf(t: string): (l: Literal)
  {
    if t == "" then Integral(0)
    else if |t| > 2 && t[0] == '0' && RadixOf(t[1]) != 0 && IsRadixDigits(t[2..], RadixOf(t[1])) then
      Integral(RadixValue(t[2..], RadixOf(t[1])))
    else
      var signed := t[0] == '-' || t[0] == '+';
      var l := UnsignedDecimal(if signed then t[1..] else t);
      if t[0] == '-' && l.Integral? then Integral(-l.v) else l
  }

  /**
   * `+s` for a string (section 7.1.4.1.1 of ECMA-262, StringToNumber): the
   * StringNumericLiteral between the white space at either end (the empty
   * text is 0), and NaN when there is none. A literal whose value is not an
   * integer is NaN here too: Num holds only integers.
   */
  function StringToNumber(s: string): (r: Num)
    ensures Text.IsDigits(s) ==> r == Fin(Text.Value(s))
    ensures |s| >= 2 && s[0] == '-' && Text.IsDigits(s[1..]) ==> r == Fin(-(Text.Value(s[1..]) as int))
    ensures s != "" && !IsStrWhiteSpace(s[0]) && !Text.IsDigit(s[0]) && s[0] != '+' && s[0] != '-' && s[0] != '.' && s[0] != 'I' ==> r == NaN
  {
    DigitsLiteral(s);
    SignedDigitsLiteral(s);
    NoLiteral(s);
    match LiteralOf(Trim(s))
      case Integral(v) => Fin(v)
      case _ => NaN
  }

  /** Decimal digits alone are the unsigned literal of their value. */
  lemma UnsignedDigits(d: string)
    requires Text.IsDigits(d) && d != ""
    ensures UnsignedDecimal(d) == Integral(Text.Value(d))
  {
    assert d != "Infinity" by { assert Text.IsDigit(d[0]); }
    DigitRunShape(d);
    assert DigitRun(d) == |d|;
    assert d[|d|..] == "";
    assert d[..|d|] + ""[..0] == d;
    RadixTen(d);
    ScaledUp(Text.Value(d), 0);
  }

  /** A string that starts with a decimal digit other than a 0x, 0o or 0b prefix is an unsigned decimal literal or none. */
  lemma LiteralOfDecimal(t: string)
    requires t != "" && Text.IsDigit(t[0]) && (|t| > 1 ==> RadixOf(t[1]) == 0)
    ensures LiteralOf(t) == UnsignedDecimal(t)
  {
  }

  /** A string that neither starts nor ends with white space is its own trimmed text. */
  lemma TrimUnpadded(s: string)
    requires s == "" || (!IsStrWhiteSpace(s[0]) && !IsStrWhiteSpace(s[|s| - 1]))
    ensures Trim(s) == s
  {
    TrimPadded("", s, "");
    assert "" + s + "" == s;
  }

  /** A digit string is its own trimmed text and denotes its value. */
  lemma DigitsLiteral(s: string)
    ensures Text.IsDigits(s) ==> LiteralOf(Trim(s)) == Integral(Text.Value(s))
  {
    if Text.IsDigits(s) && s != "" {
      assert Text.IsDigit(s[0]) && Text.IsDigit(s[|s| - 1]);
      TrimUnpadded(s);
      LiteralOfDecimal(s);
      UnsignedDigits(s);
    }
  }

  /** A '-' before decimal digits is its own trimmed text and denotes the negated value. */
  lemma SignedDigitsLiteral(s: string)
    ensures |s| >= 2 && s[0] == '-' && Text.IsDigits(s[1..]) ==> LiteralOf(Trim(s)) == Integral(-(Text.Value(s[1..]) as int))
  {
    if |s| >= 2 && s[0] == '-' && Text.IsDigits(s[1..]) {
      assert Text.IsDigit(s[1..][|s| - 2]);
      TrimUnpadded(s);
      UnsignedDigits(s[1..]);
    }
  }

  /** A string whose first character can start neither white space nor a literal denotes no literal. */
  lemma NoLiteral(s: string)
    ensures s != "" && !IsStrWhiteSpace(s[0]) && !Text.IsDigit(s[0]) && s[0] != '+' && s[0] != '-' && s[0] != '.' && s[0] != 'I' ==> LiteralOf(Trim(s)).NotLiteral?
  {
    if s != "" && !IsStrWhiteSpace(s[0]) {
      TrimKeepsFirst(s);
    }
  }

  /** Unary `+` (section 7.1.4 of ECMA-262, ToNumber): false is 0, true is 1, null is 0, undefined is NaN. */
  function ToNumber(v: Value): (r: Num)
    ensures v.NumberValue? ==> r == v.n
    ensures v.Bool? ==> r == Fin(if v.b then 1 else 0)
    ensures v.Null? ==> r == Fin(0)
    ensures v.Undefined? ==> r == NaN
  {
    match v
      case Str(s) => StringToNumber(s)
      case Bool(b) => Fin(if b then 1 else 0)
      case NumberValue(n) => n
      case Undefined => NaN
      case Null => Fin(0)
  }

  /** A string printed from an integer reads back as that integer: `+String(n) === n`. */
  lemma StringToNumberOfText(n: int)
    ensures StringToNumber(Text.IntToString(n)) == Fin(n)
  {
    if n < 0 {
      SignedDigits('-', Text.Decimal(-n));
    }
  }

  /** A '-' or '+' before decimal digits reads as the digits' value with that sign. */
  lemma SignedDigits(sign: char, d: string)
    requires sign == '-' || sign == '+'
    requires Text.IsDigits(d) && d != ""
    ensures StringToNumber([sign] + d) == Fin(if sign == '-' then -(Text.Value(d) as int) else Text.Value(d))
  {
    SignedDigitsText(sign, d, [sign] + d);
  }

  lemma SignedDigitsText(sign: char, d: string, t: string)
    requires sign == '-' || sign == '+'
    requires Text.IsDigits(d) && d != "" && t == [sign] + d
    ensures Trim(t) == t
    ensures LiteralOf(t) == Integral(if sign == '-' then -(Text.Value(d) as int) else Text.Value(d))
  {
    assert Text.IsDigit(d[0]) && t[|t| - 1] == d[|d| - 1];
    TrimUnpadded(t);
    UnsignedDigits(d);
    assert t[1..] == d;
    SignLiteral(t, Text.Value(d));
  }

  /** A sign before an unsigned literal of value v makes it v or -v. */
  lemma SignLiteral(t: string, v: nat)
    requires |t| >= 2 && (t[0] == '-' || t[0] == '+') && UnsignedDecimal(t[1..]) == Integral(v)
    ensures LiteralOf(t) == Integral(if t[0] == '-' then -(v as int) else v)
  {
  }

  /** White space around a string changes nothing about the number it reads as. */
  lemma StringToNumberPadded(w1: string, x: string, w2: string)
    requires IsStrWhiteSpaces(w1) && IsStrWhiteSpaces(w2)
    requires x == "" || (!IsStrWhiteSpace(x[0]) && !IsStrWhiteSpace(x[|x| - 1]))
    ensures StringToNumber(w1 + x + w2) == StringToNumber(x)
  {
    TrimPadded(w1, x, w2);
    TrimUnpadded(x);
  }


  /**
   * 0x, 0o and 0b (either case) before digits of that base read as their
   * value in that base, and no sign may precede them.
   */
  lemma StringToNumberRadix(t: string)
    requires |t| > 2 && t[0] == '0' && RadixOf(t[1]) != 0 && IsRadixDigits(t[2..], RadixOf(t[1]))
    ensures StringToNumber(t) == Fin(RadixValue(t[2..], RadixOf(t[1])))
    ensures StringToNumber("-" + t) == NaN && StringToNumber("+" + t) == NaN
  {
    RadixText(t);
    SignedRadix('-', t);
    SignedRadix('+', t);
  }

  lemma SignedRadix(sign: char, t: string)
    requires sign == '-' || sign == '+'
    requires |t| > 2 && t[0] == '0' && RadixOf(t[1]) != 0 && IsRadixDigits(t[2..], RadixOf(t[1]))
    ensures StringToNumber([sign] + t) == NaN
  {
    var u := [sign] + t;
    assert u[1] == '0' && u[2] == t[1] && u[3..] == t[2..];
    SignedRadixText(u);
  }

  lemma RadixText(t: string)
    requires |t| > 2 && t[0] == '0' && RadixOf(t[1]) != 0 && IsRadixDigits(t[2..], RadixOf(t[1]))
    ensures Trim(t) == t && StringToNumber(t) == Fin(RadixValue(t[2..], RadixOf(t[1])))
  {
    assert HexDigitValue(t[2..][|t| - 3]) < 16;
    TrimUnpadded(t);
  }

  lemma SignedRadixText(t: string)
    requires |t| > 3 && (t[0] == '-' || t[0] == '+') && t[1] == '0' && RadixOf(t[2]) != 0
    requires IsRadixDigits(t[3..], RadixOf(t[2]))
    ensures Trim(t) == t && LiteralOf(t).NotLiteral? && StringToNumber(t) == NaN
  {
    assert HexDigitValue(t[3..][|t| - 4]) < 16;
    TrimUnpadded(t);
    SignedRadixLiteral(t);
  }

  /** A sign before 0x, 0o or 0b makes no literal. */
  lemma SignedRadixLiteral(t: string)
    requires |t| >= 3 && (t[0] == '-' || t[0] == '+') && t[1] == '0' && RadixOf(t[2]) != 0
    ensures LiteralOf(t).NotLiteral?
  {
    var u := t[1..];
    assert u[0] == '0' && u[1] == t[2];
    assert DigitRun(u) == 1;
    assert u[1..][0] == t[2];
  }

  /** Digits, 'e' and exponent digits denote the digits' value times ten to the exponent. */
  lemma ExponentLiteral(t: string, i: nat)
    requires 0 < i < |t| - 1 && t[i] == 'e'
    requires Text.IsDigits(t[..i]) && Text.IsDigits(t[i + 1..])
    ensures LiteralOf(t) == Integral(Text.Value(t[..i]) * Text.Pow10(Text.Value(t[i + 1..])))
  {
    assert t[..i][0] == t[0];
    assert i > 1 ==> t[..i][1] == t[1];
    LiteralOfDecimal(t);
    ExponentUnsigned(t, i);
    ScaledUp(Text.Value(t[..i]), Text.Value(t[i + 1..]));
  }

  lemma ExponentUnsigned(t: string, i: nat)
    requires 0 < i < |t| - 1 && t[i] == 'e'
    requires Text.IsDigits(t[..i]) && Text.IsDigits(t[i + 1..])
    ensures UnsignedDecimal(t) == Scaled(Text.Value(t[..i]), Text.Value(t[i + 1..]))
  {
    assert t[..i][0] == t[0];
    DigitRunShape(t);
    assert DigitRun(t) == i;
    var tail := t[i..];
    assert tail[1..] == t[i + 1..];
    assert DigitRun(tail) == 0;
    assert t[..i] + tail[..0] == t[..i];
    RadixTen(t[..i]);
  }


  /** Decimal digits, 'e' and a decimal exponent k read as the digits' value times 10^k. */
  lemma StringToNumberExponent(m: nat, k: nat)
    ensures StringToNumber(Text.Decimal(m) + "e" + Text.Decimal(k)) == Fin(m * Text.Pow10(k))
  {
    ExponentText(m, k, Text.Decimal(m) + "e" + Text.Decimal(k));
  }

  lemma ExponentText(m: nat, k: nat, t: string)
    requires t == Text.Decimal(m) + "e" + Text.Decimal(k)
    ensures Trim(t) == t && LiteralOf(t) == Integral(m * Text.Pow10(k))
  {
    var d := Text.Decimal(m);
    var x := Text.Decimal(k);
    assert t[0] == d[0] && t[|t| - 1] == x[|x| - 1];
    TrimUnpadded(t);
    assert t[..|d|] == d && t[|d| + 1..] == x;
    ExponentLiteral(t, |d|);
  }

  /** Digits, '.' and zeros denote the digits' value. */
  lemma FractionLiteral(t: string, i: nat)
    requires 0 < i < |t| && t[i] == '.'
    requires Text.IsDigits(t[..i]) && Text.IsDigits(t[i + 1..]) && Text.Value(t[i + 1..]) == 0
    ensures LiteralOf(t) == Integral(Text.Value(t[..i]))
  {
    assert t[..i][0] == t[0];
    assert i > 1 ==> t[..i][1] == t[1];
    LiteralOfDecimal(t);
    FractionUnsigned(t, i);
    ZeroFractionScaled(t[..i], t[i + 1..]);
  }

  /** Digits d followed by zero-valued digits z, scaled down by |z| places, are d's value. */
  lemma ZeroFractionScaled(d: string, z: string)
    requires Text.IsDigits(d) && Text.IsDigits(z) && Text.Value(z) == 0
    ensures Scaled(RadixValue(d + z, 10), -|z|) == Integral(Text.Value(d))
  {
    Text.ValueAppend(d, z);
    RadixTen(d + z);
    ScaledDown(Text.Value(d), |z|);
  }

  lemma FractionUnsigned(t: string, i: nat)
    requires 0 < i < |t| && t[i] == '.'
    requires Text.IsDigits(t[..i]) && Text.IsDigits(t[i + 1..])
    ensures UnsignedDecimal(t) == Scaled(RadixValue(t[..i] + t[i + 1..], 10), -|t[i + 1..]|)
  {
    assert t[..i][0] == t[0];
    DigitRunShape(t);
    assert DigitRun(t) == i;
    var z := t[i + 1..];
    var f := |z|;
    DigitRunShape(z);
    assert DigitRun(z) == f;
    assert z[..f] == z && t[i + 1 + f..] == "";
  }


  /** Decimal digits followed by '.' and any number of zeros read as the digits' value. */
  lemma StringToNumberFraction(m: nat, k: nat)
    ensures StringToNumber(Text.Decimal(m) + "." + Text.Zeros(k)) == Fin(m)
  {
    FractionText(m, k, Text.Decimal(m) + "." + Text.Zeros(k));
  }

  lemma FractionText(m: nat, k: nat, t: string)
    requires t == Text.Decimal(m) + "." + Text.Zeros(k)
    ensures Trim(t) == t && LiteralOf(t) == Integral(m)
  {
    var d := Text.Decimal(m);
    assert t[0] == d[0];
    assert t[|t| - 1] == '.' || t[|t| - 1] == '0';
    TrimUnpadded(t);
    assert t[..|d|] == d && t[|d| + 1..] == Text.Zeros(k);
    Text.ZerosValue(k);
    FractionLiteral(t, |d|);
  }

  /** White space around decimal digits: ' 13' and '13 ' read as 13. */
  lemma PaddedExamples()
    ensures StringToNumber(" 13") == Fin(13) && StringToNumber("13 ") == Fin(13)
  {
    assert Text.Value("13") == 13 by {
      assert "13"[..1] == "1";
    }
    StringToNumberPadded(" ", "13", "");
    assert " " + "13" + "" == " 13";
    StringToNumberPadded("", "13", " ");
    assert "" + "13" + " " == "13 ";
  }

  /** An exponent: '1e3' reads as 1000. */
  lemma ExponentExample()
    ensures StringToNumber("1e3") == Fin(1000)
  {
    StringToNumberExponent(1, 3);
    assert Text.Decimal(1) + "e" + Text.Decimal(3) == "1e3";
  }

  /** A zero fraction: '13.0' reads as 13. */
  lemma FractionExample()
    ensures StringToNumber("13.0") == Fin(13)
  {
    StringToNumberFraction(13, 1);
    assert Text.Decimal(13) == "13";
    assert Text.Decimal(13) + "." + Text.Zeros(1) == "13.0";
  }

  /** '0x10' reads as 16 and '-0x10' is NaN. */
  lemma HexExample()
    ensures StringToNumber("0x10") == Fin(16) && StringToNumber("-0x10") == NaN
  {
    HexDigits();
    StringToNumberRadix("0x10");
    assert "-" + "0x10" == "-0x10";
  }

  lemma HexDigits()
    ensures |"0x10"| > 2 && "0x10"[0] == '0' && RadixOf("0x10"[1]) == 16
    ensures IsRadixDigits("0x10"[2..], 16) && RadixValue("0x10"[2..], 16) == 16
  {
    assert "0x10"[1] == 'x' && RadixOf('x') == 16;
    assert "0x10"[2..] == "10" && "10"[..1] == "1";
    assert RadixValue("10", 16) == 16;
  }

  /** '0o17' reads as 15. */
  lemma OctalExample()
    ensures StringToNumber("0o17") == Fin(15)
  {
    assert "0o17"[1] == 'o' && RadixOf('o') == 8;
    assert "0o17"[2..] == "17" && "17"[..1] == "1";
    assert RadixValue("17", 8) == 15;
    StringToNumberRadix("0o17");
  }

  /** '0b1' reads as 1. */
  lemma BinaryExample()
    ensures StringToNumber("0b1") == Fin(1)
  {
    assert "0b1"[1] == 'b' && RadixOf('b') == 2;
    assert "0b1"[2..] == "1";
    assert RadixValue("1", 2) == 1;
    StringToNumberRadix("0b1");
  }

  // ---------------------------------------------------------------------------
  // number

  /** `number(num)`: a TypeError when `+num` is NaN, otherwise `+num`. */
  function Number(v: Value): (r: Result<int>)
    ensures r.Throw? <==> ToNumber(v).NaN?
    ensures r.Throw? ==> r.exc == TypeError
    ensures r.Ok? ==> r.value == ToNumber(v).v
  {
    var n := ToNumber(v);
    if n.NaN? then Throw(TypeError) else Ok(n.v)
  }

  /** `number(String(n))` gives n back, for every integer n. */
  lemma NumberOfText(n: int)
    ensures Number(Str(Text.IntToString(n))) == Ok(n)
  {
    StringToNumberOfText(n);
  }

  /** The number examples of the polyfill's tests. */
  lemma NumberExamples()
    ensures Number(Str("13")) == Ok(13) && Number(Str("135")) == Ok(135)
    ensures Number(NumberValue(Fin(13))) == Ok(13) && Number(NumberValue(Fin(-5))) == Ok(-5)
    ensures Number(Str("-5")) == Ok(-5)
    ensures Number(Bool(false)) == Ok(0) && Number(Bool(true)) == Ok(1)
    ensures Number(Str("false")) == Throw(TypeError) && Number(Str("true")) == Throw(TypeError)
  {
    NumberDigitExamples();
    NumberOfNonNumeric("false");
    NumberOfNonNumeric("true");
  }

  lemma NumberDigitExamples()
    ensures Number(Str("13")) == Ok(13) && Number(Str("135")) == Ok(135) && Number(Str("-5")) == Ok(-5)
  {
    assert Text.Value("13") == 13 by {
      assert "13"[..1] == "1";
    }
    assert Text.Value("135") == 135 by {
      assert "135"[..2] == "13" && "13"[..1] == "1";
    }
    NumberOfDigits("13");
    NumberOfDigits("135");
    assert Text.Value("-5"[1..]) == 5 by {
      assert "-5"[1..] == "5";
    }
    NumberOfNegative("-5");
  }

  /** `number` of a digit string is its value. */
  lemma NumberOfDigits(s: string)
    requires Text.IsDigits(s)
    ensures Number(Str(s)) == Ok(Text.Value(s))
  {
  }

  /** `number` of '-' and a digit string is the negated value. */
  lemma NumberOfNegative(s: string)
    requires |s| >= 2 && s[0] == '-' && Text.IsDigits(s[1..])
    ensures Number(Str(s)) == Ok(-(Text.Value(s[1..]) as int))
  {
  }

  /** `number` throws for a string that starts with no white space, digit, sign, '.' or 'I'. */
  lemma NumberOfNonNumeric(s: string)
    requires s != "" && !IsStrWhiteSpace(s[0]) && !Text.IsDigit(s[0]) && s[0] != '+' && s[0] != '-' && s[0] != '.' && s[0] != 'I'
    ensures Number(Str(s)) == Throw(TypeError)
  {
  }

  // ---------------------------------------------------------------------------
  // pad / signedpad on coerced arguments

  /**
   * `pad(num, cnt)`: the magnitude of `+num` in decimal, zero-filled on the
   * left to cnt characters ("NaN" zero-filled when `+num` is NaN).
   */
  function Pad(v: Value, cnt: nat): (r: string)
    ensures ToNumber(v).Fin? ==> Text.IsDigits(r) && Text.Value(r) == Abs(ToNumber(v).v)
    ensures ToNumber(v).Fin? ==> |r| == Max(cnt, |Text.Decimal(Abs(ToNumber(v).v))|)
  {
    Shared.PadNum(ToNumber(v), cnt)
  }

  /** `signedpad(num, cnt)`: '-' when `+num` is negative, then `pad`. */
  function SignedPad(v: Value, cnt: nat): (r: string)
    ensures Less(ToNumber(v), Fin(0)) ==> r == "-" + Pad(v, cnt)
    ensures !Less(ToNumber(v), Fin(0)) ==> r == Pad(v, cnt)
  {
    (if Less(ToNumber(v), Fin(0)) then "-" else "") + Pad(v, cnt)
  }

  /**
   * signedpad followed by `number` gives back the integer, whatever its
   * sign: the text is a sign and the magnitude's digits.
   */
  lemma NumberOfSignedPad(n: int, cnt: nat)
    ensures Number(Str(SignedPad(NumberValue(Fin(n)), cnt))) == Ok(n)
  {
    var p := Shared.Pad(n, cnt);
    PadOfNumber(n, cnt);
    if n < 0 {
      assert p != "" by { assert Text.Value(p) != 0; }
      var t := "-" + p;
      assert t[1..] == p;
      NumberOfNegative(t);
    } else {
      NumberOfDigits(p);
    }
  }

  /** pad and signedpad of a string of digits are those of its value. */
  lemma PadOfDigits(s: string, v: nat, cnt: nat)
    requires s != "" && Text.IsDigits(s) && Text.Value(s) == v
    ensures Pad(Str(s), cnt) == Shared.Pad(v, cnt) && SignedPad(Str(s), cnt) == Shared.Pad(v, cnt)
  {
  }

  /** pad and signedpad of a string of digits are the text pad prints for its value. */
  lemma PadsOfDigits(s: string, v: nat, cnt: nat, r: string)
    requires s != "" && Text.IsDigits(s) && Text.Value(s) == v && Shared.Pad(v, cnt) == r
    ensures Pad(Str(s), cnt) == r && SignedPad(Str(s), cnt) == r
  {
    PadOfDigits(s, v, cnt);
  }

  lemma DigitValues()
    ensures Text.Value("13") == 13 && Text.Value("1343") == 1343 && Text.Value("012") == 12
  {
    assert "13"[..1] == "1";
    assert "1343"[..3] == "134" && "134"[..2] == "13";
    assert "012"[..2] == "01" && "01"[..1] == "0";
  }

  lemma PaddedValues()
    ensures Shared.Pad(13, 3) == "013" && Shared.Pad(1343, 3) == "1343"
    ensures Shared.Pad(12, 5) == "00012" && Shared.Pad(12, 3) == "012"
  {
    assert Text.Decimal(13) == "13";
    assert Text.Decimal(12) == "12";
    assert Text.Decimal(1343) == "1343";
  }

  lemma PadsOf13()
    ensures Pad(Str("13"), 3) == "013" && SignedPad(Str("13"), 3) == "013"
  {
    DigitValues();
    PaddedValues();
    PadsOfDigits("13", 13, 3, "013");
  }

  lemma PadsOf1343()
    ensures Pad(Str("1343"), 3) == "1343" && SignedPad(Str("1343"), 3) == "1343"
  {
    DigitValues();
    PaddedValues();
    PadsOfDigits("1343", 1343, 3, "1343");
  }

  lemma PadsOf012()
    ensures Pad(Str("012"), 5) == "00012" && SignedPad(Str("012"), 5) == "00012"
  {
    DigitValues();
    PaddedValues();
    PadsOfDigits("012", 12, 5, "00012");
  }

  /** The pad examples of the polyfill's tests on strings. */
  lemma PadExamples()
    ensures Pad(Str("13"), 3) == "013" && Pad(Str("1343"), 3) == "1343" && Pad(Str("012"), 5) == "00012"
  {
    PadsOf13();
    PadsOf1343();
    PadsOf012();
  }

  /** The signedpad examples of the polyfill's tests on strings: no sign for non-negative values. */
  lemma SignedPadExamples()
    ensures SignedPad(Str("13"), 3) == "013" && SignedPad(Str("1343"), 3) == "1343"
    ensures SignedPad(Str("012"), 5) == "00012"
  {
    PadsOf13();
    PadsOf1343();
    PadsOf012();
  }

  /** The examples on numbers: pad drops the sign of -12 and signedpad keeps it. */
  lemma PadNumberExamples()
    ensures Pad(NumberValue(Fin(12)), 3) == "012" && Pad(NumberValue(Fin(-12)), 3) == "012"
    ensures SignedPad(NumberValue(Fin(12)), 3) == "012" && SignedPad(NumberValue(Fin(-12)), 3) == "-012"
  {
    PadOfNumber(12, 3);
    PadOfNumber(-12, 3);
    PaddedValues();
    Shared.PadExamples();
  }

  /** pad and signedpad of a number are those of its integer. */
  lemma PadOfNumber(n: int, cnt: nat)
    ensures Pad(NumberValue(Fin(n)), cnt) == Shared.Pad(n, cnt)
    ensures SignedPad(NumberValue(Fin(n)), cnt) == Shared.SignedPad(n, cnt)
  {
  }

  // ---------------------------------------------------------------------------
  // typeCheck

  /** What typeCheck reads: a falsy value, or an object with its `Symbol.toStringTag` (None when it has none). */
  datatype Operand = Falsy | Object(tag: Option<string>)

  /** `typeCheck(object, name)`: a TypeError unless the argument is truthy and tagged name. */
  function TypeCheck(arg: Operand, name: string): (r: Result<()>)
    ensures r.Ok? <==> arg == Object(Some(name))
    ensures r.Throw? ==> r.exc == TypeError
  {
    if arg.Falsy? || arg.tag != Some(name) then Throw(TypeError) else Ok(())
  }

  /** A tag check tells the classes apart: an instance passes for its own tag only. */
  lemma TypeCheckDistinguishes(tag: string, name: string)
    requires tag != name
    ensures TypeCheck(Object(Some(tag)), tag).Ok? && TypeCheck(Object(Some(tag)), name).Throw?
  {
  }

  // ---------------------------------------------------------------------------
  // createFormatter: /([+-])(\d{1,2})(?::?(\d{2}))?/

  /** The captures of `/([+-])(\d{1,2})(?::?(\d{2}))?/`: the sign, one or two hour digits, and two minute digits when present. */
  datatype ZoneGroups = ZoneGroups(sign: char, hours: string, minutes: Option<string>)

  /** Well-formed captures: all digits, one or two for the hours and two for the minutes. */
  predicate WellFormed(g: ZoneGroups)
  {
    Shared.IsSign(g.sign) && 1 <= |g.hours| <= 2 && Text.IsDigits(g.hours)
    && (g.minutes.Some? ==> |g.minutes.value| == 2 && Text.IsDigits(g.minutes.value))
  }

  /**
   * `(?::?(\d{2}))?` at j: ':?' is tried with the colon first, so a colon and
   * two digits, else two digits, else the optional group matches nothing.
   */
  function MinutesAt(s: string, j: nat): (r: Option<string>)
    requires j <= |s|
    ensures r.Some? ==> |r.value| == 2 && Text.IsDigits(r.value)
    ensures j + 3 <= |s| && s[j] == ':' && Text.IsDigits(s[j + 1..j + 3]) ==> r == Some(s[j + 1..j + 3])
  {
    if j + 3 <= |s| && s[j] == ':' && Text.IsDigit(s[j + 1]) && Text.IsDigit(s[j + 2]) then Some(s[j + 1..j + 3])
    else if j + 2 <= |s| && Text.IsDigit(s[j]) && Text.IsDigit(s[j + 1]) then Some(s[j..j + 2])
    else None
  }

  /**
   * The match starting at i: a sign, then `\d{1,2}` taking two digits when
   * there are two (no backtracking is ever needed, since what follows is
   * optional), then the optional minutes.
   */
  function GroupsAt(s: string, i: nat): (r: Option<ZoneGroups>)
    requires i <= |s|
    ensures r.Some? <==> i + 2 <= |s| && Shared.IsSign(s[i]) && Text.IsDigit(s[i + 1])
    ensures r.Some? ==> WellFormed(r.value) && r.value.sign == s[i]
  {
    if i + 2 <= |s| && Shared.IsSign(s[i]) && Text.IsDigit(s[i + 1]) then
      var n := if i + 3 <= |s| && Text.IsDigit(s[i + 2]) then 2 else 1;
      Some(ZoneGroups(s[i], s[i + 1..i + 1 + n], MinutesAt(s, i + 1 + n)))
    else None
  }

  /** The unanchored `exec` from position i: the leftmost position at or after i where the pattern matches. */
  function ExecFrom(s: string, i: nat): (r: Option<nat>)
    requires i <= |s|
    ensures r.Some? ==> i <= r.value <= |s| && GroupsAt(s, r.value).Some?
    ensures r.Some? ==> forall k :: i <= k < r.value ==> GroupsAt(s, k).None?
    ensures r.None? ==> forall k :: i <= k <= |s| ==> GroupsAt(s, k).None?
    decreases |s| - i
  {
    if GroupsAt(s, i).Some? then Some(i)
    else if i == |s| then None
    else ExecFrom(s, i + 1)
  }

  /** `exec(zone)`: the captures of the leftmost match, or null. */
  function Exec(s: string): (r: Option<ZoneGroups>)
    ensures r.Some? ==> WellFormed(r.value)
    ensures r.Some? <==> exists k :: 0 <= k <= |s| && GroupsAt(s, k).Some?
  {
    var k := ExecFrom(s, 0);
    if k.None? then None else GroupsAt(s, k.value)
  }

  /**
   * The formatter's `offset` in minutes: the named hours and minutes with
   * the opposite sign, so '+01:00' gives -60; a missing minutes group counts 0.
   */
  function FormatterOffset(g: ZoneGroups): int
    requires WellFormed(g)
  {
    var minutes := Text.Value(g.hours) * 60 + (if g.minutes.Some? then Text.Value(g.minutes.value) else 0);
    if g.sign == '-' then minutes else -minutes
  }

  /** The three formatters createFormatter builds. */
  datatype Formatter =
    | SystemFormatter                            // reads an undefined `r`: formatToParts throws a ReferenceError
    | FixedFormatter(offset: int)                // the UTC getters at `date - offset * 60000`
    | IntlFormatter(zone: Zoned.ZoneOracle)      // `Intl.DateTimeFormat` for the zone

  /** `String(zone)`, as `exec` converts its argument: undefined becomes "undefined". */
  function ZoneText(zone: Option<string>): string
  {
    if zone.None? then "undefined" else zone.value
  }

  /**
   * `createFormatter(zone)`: the SYSTEM formatter for "SYSTEM"; the fixed
   * formatter when the pattern matches anywhere in the zone's text; otherwise
   * Intl's formatter, for the host's zone when zone is undefined, and a
   * RangeError when Intl rejects the name.
   */
  function CreateFormatter(zone: Option<string>, zones: Zoned.Zones, host: Zoned.ZoneOracle): (r: Result<Formatter>)
    ensures zone == Some("SYSTEM") ==> r == Ok(SystemFormatter)
    ensures zone != Some("SYSTEM") && Exec(ZoneText(zone)).Some? ==>
              r == Ok(FixedFormatter(FormatterOffset(Exec(ZoneText(zone)).value)))
    ensures zone == None ==> r == Ok(IntlFormatter(host))
    ensures r.Throw? <==> zone.Some? && zone != Some("SYSTEM") && Exec(zone.value).None? && zones(zone.value).None?
    ensures r.Throw? ==> r.exc == RangeError
  {
    if zone == Some("SYSTEM") then Ok(SystemFormatter)
    else
      var parts := Exec(ZoneText(zone));
      if parts.Some? then Ok(FixedFormatter(FormatterOffset(parts.value)))
      else if zone.None? then
        assert !Shared.IsSign("undefined"[0]) && !Shared.IsSign("undefined"[8]);
        assert forall k :: 0 <= k < 9 ==> !Shared.IsSign("undefined"[k]);
        Ok(IntlFormatter(host))
      else match zones(zone.value)
        case None => Throw(RangeError)
        case Some(z) => Ok(IntlFormatter(z))
  }

  /** The wall clock a (working) formatter shows at epoch milliseconds ms. */
  function Wall(f: Formatter, ms: int): Shared.WallClock
    requires !f.SystemFormatter?
  {
    match f
      case FixedFormatter(offset) => Zoned.UtcWall(ms - offset * 60000)
      case IntlFormatter(zone) => zone.wall(ms)
  }

  /** A sign, two digits, a colon and two digits: the pattern matches at the start with all three groups. */
  lemma ExecOfOffsetText(sign: char, hh: string, mm: string)
    requires Shared.IsSign(sign) && |hh| == 2 && Text.IsDigits(hh) && |mm| == 2 && Text.IsDigits(mm)
    ensures Exec([sign] + hh + ":" + mm) == Some(ZoneGroups(sign, hh, Some(mm)))
  {
    var s := [sign] + hh + ":" + mm;
    assert s[1..3] == hh && s[3] == ':' && s[4..6] == mm;
    assert Text.IsDigit(s[1]) && Text.IsDigit(s[2]);
    assert MinutesAt(s, 3) == Some(mm);
    assert GroupsAt(s, 0) == Some(ZoneGroups(sign, hh, Some(mm)));
  }

  /** The minutes of those groups, negated: `offset` is minus the signed offset. */
  lemma OffsetOfText(sign: char, hh: string, mm: string, k: int)
    requires Shared.IsSign(sign) && |hh| == 2 && Text.IsDigits(hh) && |mm| == 2 && Text.IsDigits(mm)
    requires k == Text.Value(hh) * 60 + Text.Value(mm)
    ensures FormatterOffset(ZoneGroups(sign, hh, Some(mm))) == if sign == '-' then k else -k
  {
  }

  /**
   * A zone given as an offset string, as makeOffsetString writes one for a
   * whole-minute offset under 100 hours, makes the fixed formatter show the
   * UTC wall clock shifted by that offset, and so '+01:00' shows UTC plus one hour.
   */
  lemma FormatterOfOffsetString(ms: int, zones: Zoned.Zones, host: Zoned.ZoneOracle)
    requires ms % 60000 == 0 && Abs(ms) < 100 * 3600000
    ensures CreateFormatter(Some(Shared.MakeOffsetString(ms)), zones, host) == Ok(FixedFormatter(-(ms / 60000)))
  {
    var s := Shared.MakeOffsetString(ms);
    var g := OffsetStringGroups(ms);
    assert s != "SYSTEM" by {
      assert s[0] != "SYSTEM"[0];
    }
  }

  /** The groups the pattern finds in makeOffsetString's text, and the formatter offset they give. */
  lemma OffsetStringGroups(ms: int) returns (g: ZoneGroups)
    requires ms % 60000 == 0 && Abs(ms) < 100 * 3600000
    ensures Exec(Shared.MakeOffsetString(ms)) == Some(g) && WellFormed(g) && FormatterOffset(g) == -(ms / 60000)
  {
    var sign, hours, minutes := Shared.MakeOffsetStringParts(ms);
    var hh, mm := Shared.TwoDigits(hours), Shared.TwoDigits(minutes);
    ExecOfOffsetText(sign, hh, mm);
    g := ZoneGroups(sign, hh, Some(mm));
    Shared.TwoDigitsOfSmall(hours);
    Shared.TwoDigitsOfSmall(minutes);
    var k: int := hours * 60 + minutes;
    OffsetOfText(sign, hh, mm, k);
    NegatedMinutes(ms, k);
  }

  lemma NegatedMinutes(ms: int, k: int)
    requires ms % 60000 == 0 && k == Abs(ms) / 60000
    ensures (if ms < 0 then k else -k) == -(ms / 60000)
  {
    Shared.WholeMinutes(ms, k);
    DivModUnique(ms, 60000, if ms < 0 then -k else k, 0);
  }

  /** No match starts before the first sign of a text. */
  lemma NoMatchBefore(s: string, i: nat)
    requires i <= |s| && forall k :: 0 <= k < i ==> !Shared.IsSign(s[k])
    ensures forall k :: 0 <= k < i ==> GroupsAt(s, k).None?
  {
  }

  /**
   * An IANA name carrying a signed hour is read by the pattern instead of
   * Intl: "Etc/GMT+5", five hours behind UTC, shows UTC plus five hours.
   */
  lemma EtcZoneReadAsOffset(zones: Zoned.Zones, host: Zoned.ZoneOracle)
    ensures CreateFormatter(Some("Etc/GMT+5"), zones, host) == Ok(FixedFormatter(-300))
  {
    var s := "Etc/GMT+5";
    assert forall k :: 0 <= k < 7 ==> !Shared.IsSign(s[k]);
    NoMatchBefore(s, 7);
    assert s[7] == '+' && s[8] == '5' && s[8..9] == "5" && |s| == 9;
    assert MinutesAt(s, 9) == None;
    assert GroupsAt(s, 7) == Some(ZoneGroups('+', "5", None));
    assert Exec(s) == Some(ZoneGroups('+', "5", None));
    assert Text.Value("5") == 5 by {
      assert "5"[..0] == "";
    }
  }

  /**
   * The pattern anchored, `^([+-])(\d{1,2})(?::?(\d{2}))?$`, with hours of n
   * digits: the whole text is the sign, the hours and then nothing, two
   * digits, or a colon and two digits. Each choice ends the match at a
   * different place, so at most one of them reaches the end of the text.
   */
  function FullAt(s: string, n: nat): (r: Option<ZoneGroups>)
    requires 1 <= n <= 2
    ensures r.Some? ==> |s| >= 1 + n && WellFormed(r.value) && r.value.sign == s[0] && |r.value.hours| == n
  {
    var j := 1 + n;
    if |s| < j || !Shared.IsSign(s[0]) || !Text.IsDigits(s[1..j]) then None
    else
      var g := ZoneGroups(s[0], s[1..j], None);
      if |s| == j then Some(g)
      else if |s| == j + 2 && Text.IsDigits(s[j..]) then Some(g.(minutes := Some(s[j..])))
      else if |s| == j + 3 && s[j] == ':' && Text.IsDigits(s[j + 1..]) then Some(g.(minutes := Some(s[j + 1..])))
      else None
  }

  /** The anchored `exec`: `\d{1,2}` tries two digits first and gives one back when only that lets the match reach the end. */
  function ExecAnchored(s: string): (r: Option<ZoneGroups>)
    ensures r.Some? ==> WellFormed(r.value) && |s| >= 2 && r.value.sign == s[0]
  {
    if FullAt(s, 2).Some? then FullAt(s, 2) else FullAt(s, 1)
  }

  /**
   * The evidently intended `createFormatter`: only a zone that is an offset
   * string from its first character to its last gets the fixed formatter;
   * every other name goes to Intl. An IANA name, which starts with a letter,
   * is therefore never read as an offset.
   */
  function CreateFormatterIntended(zone: Option<string>, zones: Zoned.Zones, host: Zoned.ZoneOracle): (r: Result<Formatter>)
    ensures zone == Some("SYSTEM") ==> r == Ok(SystemFormatter)
    ensures zone != Some("SYSTEM") && ExecAnchored(ZoneText(zone)).Some? ==>
              r == Ok(FixedFormatter(FormatterOffset(ExecAnchored(ZoneText(zone)).value)))
    ensures zone.Some? && zone.value != "SYSTEM" && (|zone.value| == 0 || !Shared.IsSign(zone.value[0])) ==>
              r == (match zones(zone.value) case None => Throw(RangeError) case Some(z) => Ok(IntlFormatter(z)))
    ensures zone == None ==> r == Ok(IntlFormatter(host))
  {
    if zone == Some("SYSTEM") then Ok(SystemFormatter)
    else
      var parts := ExecAnchored(ZoneText(zone));
      if parts.Some? then Ok(FixedFormatter(FormatterOffset(parts.value)))
      else if zone.None? then Ok(IntlFormatter(host))
      else match zones(zone.value)
        case None => Throw(RangeError)
        case Some(z) => Ok(IntlFormatter(z))
  }

  /** Anchored, 'Etc/GMT+5' is no offset: Intl is asked for the zone, which is five hours behind UTC. */
  lemma EtcZoneIntended(zones: Zoned.Zones, host: Zoned.ZoneOracle)
    ensures CreateFormatterIntended(Some("Etc/GMT+5"), zones, host)
      == (match zones("Etc/GMT+5") case None => Throw(RangeError) case Some(z) => Ok(IntlFormatter(z)))
  {
    assert "Etc/GMT+5"[0] == 'E';
  }

  /** A sign, two digits, a colon and two digits is matched whole by the anchored pattern, with the same groups. */
  lemma ExecAnchoredOfOffsetText(sign: char, hh: string, mm: string)
    requires Shared.IsSign(sign) && |hh| == 2 && Text.IsDigits(hh) && |mm| == 2 && Text.IsDigits(mm)
    ensures ExecAnchored([sign] + hh + ":" + mm) == Some(ZoneGroups(sign, hh, Some(mm)))
  {
    var s := [sign] + hh + ":" + mm;
    assert s[1..3] == hh && s[3] == ':' && s[4..] == mm && |s| == 6;
  }

  /** The offset strings makeOffsetString prints keep their fixed formatter once the pattern is anchored. */
  lemma FormatterOfOffsetStringIntended(ms: int, zones: Zoned.Zones, host: Zoned.ZoneOracle)
    requires ms % 60000 == 0 && Abs(ms) < 100 * 3600000
    ensures CreateFormatterIntended(Some(Shared.MakeOffsetString(ms)), zones, host) == Ok(FixedFormatter(-(ms / 60000)))
  {
    FormatterOfOffsetString(ms, zones, host);
    AnchoredOfOffsetString(ms);
  }

  /** On makeOffsetString's text the anchored and the unanchored pattern find the same groups. */
  lemma AnchoredOfOffsetString(ms: int)
    ensures ExecAnchored(Shared.MakeOffsetString(ms)) == Exec(Shared.MakeOffsetString(ms))
  {
    var sign, hours, minutes := Shared.MakeOffsetStringParts(ms);
    var hh, mm := Shared.TwoDigits(hours), Shared.TwoDigits(minutes);
    ExecOfOffsetText(sign, hh, mm);
    ExecAnchoredOfOffsetText(sign, hh, mm);
  }

  // ---------------------------------------------------------------------------
  // getInstantInfo

  /** The record getInstantInfo returns. */
  datatype InstantInfo = InstantInfo(year: int, month: int, day: int, hour: int, minute: int, second: int,
                                     nanosecond: int, offsetSeconds: int, ianaZone: Option<string>)

  /**
   * The record built from the formatter's wall clock w at ms: `ms % 1000`
   * (JavaScript's `%`, negative before 1970) as the millisecond, the
   * nanoseconds below the second as that millisecond times 10^6 plus ns, and
   * the offset as `Math.floor` of the wall clock read as UTC, less ms, in seconds.
   */
  function InfoOf(w: Shared.WallClock, ms: int, ns: int, ianaZone: Option<string>): InstantInfo
  {
    var millisecond := Rem(ms, 1000);
    InstantInfo(w.year, w.month, w.day, w.hour, w.minute, w.second, millisecond * 1000000 + ns,
                Zoned.OffsetAt(w, millisecond, ms) / 1000, ianaZone)
  }

  /**
   * `getInstantInfo(ms, ns, zone)`: the formatter's failures pass through
   * (a ReferenceError for "SYSTEM", a RangeError from Intl); otherwise the
   * record of its wall clock, with ianaZone undefined for the fixed formatter.
   */
  function GetInstantInfo(ms: int, ns: int, zone: Option<string>, zones: Zoned.Zones, host: Zoned.ZoneOracle): (r: Result<InstantInfo>)
    ensures zone == Some("SYSTEM") ==> r == Throw(ReferenceError)
    ensures r.Throw? <==> CreateFormatter(zone, zones, host).Throw? || zone == Some("SYSTEM")
    ensures r.Ok? ==> var f := CreateFormatter(zone, zones, host).value;
      && r.value.nanosecond == Rem(ms, 1000) * 1000000 + ns
      && r.value.ianaZone == (if f.FixedFormatter? then None else zone)
      && Shared.WallClock(r.value.year, r.value.month, r.value.day, r.value.hour, r.value.minute, r.value.second) == Wall(f, ms)
  {
    var f :- CreateFormatter(zone, zones, host);
    if f.SystemFormatter? then Throw(ReferenceError)
    else Ok(InfoOf(Wall(f, ms), ms, ns, if f.FixedFormatter? then None else zone))
  }

  /** The fixed formatter shows the wall clock of the zone `-offset` minutes ahead of UTC. */
  lemma FixedFormatterZone(offset: int, ms: int, k: int)
    requires k == -(offset * 60000)
    ensures Wall(FixedFormatter(offset), ms) == Zoned.FixedZone(k, "").wall(ms)
    ensures k % 1000 == 0
  {
    FixedZoneWallAt(k, ms);
    assert ms - offset * 60000 == ms + k;
    WholeSecondsOffset(offset, k);
  }

  lemma FixedZoneWallAt(k: int, t: int)
    ensures Zoned.FixedZone(k, "").wall(t) == Zoned.UtcWall(t + k)
  {
  }

  lemma WholeSecondsOffset(offset: int, k: int)
    requires k == -(offset * 60000)
    ensures k % 1000 == 0
  {
    DivModUnique(k, 1000, -(offset * 60), 0);
  }

  /** The offset getInstantInfo records, in whole seconds rounded down, is that of getZonedInfo for a zone showing the same wall clock. */
  lemma OffsetSecondsOf(w: Shared.WallClock, ms: int, ns: int, ianaZone: Option<string>, zone: Zoned.ZoneOracle)
    requires zone.wall(ms) == w
    ensures InfoOf(w, ms, ns, ianaZone).offsetSeconds == Zoned.ZoneOffset(zone, ms) / 1000
  {
  }

  lemma WholeSecondsOf(off: int, k: int, neg: bool, offset: int)
    requires k == -(offset * 60000) && off == if neg then k - 1000 else k
    ensures off / 1000 == if neg then -60 * offset - 1 else -60 * offset
  {
    DivModUnique(off, 1000, if neg then -60 * offset - 1 else -60 * offset, 0);
  }

  /**
   * The fixed formatter's record, outside the years 0..99: the UTC wall
   * clock `offset` minutes back, and the offset -60 * offset seconds from
   * 1970 on and at whole seconds, but one second less at every other instant
   * before 1970, where `ms % 1000` is negative while the wall clock's second
   * has already been rounded down.
   */
  lemma FixedInfo(offset: int, ms: int, ns: int, t: int, zone: Option<string>)
    requires t == ms - offset * 60000 && !(0 <= EcmaTime.Utc(t).year <= 99)
    ensures Wall(FixedFormatter(offset), ms) == Zoned.UtcWall(t)
    ensures InfoOf(Wall(FixedFormatter(offset), ms), ms, ns, zone).offsetSeconds
         == if ms >= 0 || ms % 1000 == 0 then -60 * offset else -60 * offset - 1
  {
    var k := -(offset * 60000);
    FixedFormatterZone(offset, ms, k);
    var z := Zoned.FixedZone(k, "");
    Zoned.FixedZoneOffset(k, ms, t, "");
    FixedOffsetSeconds(Wall(FixedFormatter(offset), ms), ms, ns, zone, z, offset, !(ms >= 0 || ms % 1000 == 0));
  }

  /** The step of FixedInfo from the zone's offset in milliseconds to the record's offset in seconds. */
  lemma FixedOffsetSeconds(w: Shared.WallClock, ms: int, ns: int, ianaZone: Option<string>, z: Zoned.ZoneOracle, offset: int, neg: bool)
    requires z.wall(ms) == w
    requires Zoned.ZoneOffset(z, ms) == if neg then -(offset * 60000) - 1000 else -(offset * 60000)
    ensures InfoOf(w, ms, ns, ianaZone).offsetSeconds == if neg then -60 * offset - 1 else -60 * offset
  {
    OffsetSecondsOf(w, ms, ns, ianaZone, z);
    WholeSecondsOf(Zoned.ZoneOffset(z, ms), -(offset * 60000), neg, offset);
  }

  /** So the zone "+00:00" one millisecond before 1970 reports an offset of -1 second and a nanosecond of -10^6. */
  lemma UtcInfoBeforeEpoch(zones: Zoned.Zones, host: Zoned.ZoneOracle)
    ensures var r := GetInstantInfo(-1, 0, Some("+00:00"), zones, host);
      r.Ok? && r.value.offsetSeconds == -1 && r.value.nanosecond == -1000000 && r.value.year == 1969
  {
    UtcFormatter(zones, host);
    UtcYearBeforeEpoch();
    FixedInfo(0, -1, 0, -1, None);
  }

  lemma UtcYearBeforeEpoch()
    ensures EcmaTime.Utc(-1).year == 1969
  {
    EcmaTime.YearFromDayUnique(-1, 1969);
  }

  lemma UtcFormatter(zones: Zoned.Zones, host: Zoned.ZoneOracle)
    ensures CreateFormatter(Some("+00:00"), zones, host) == Ok(FixedFormatter(0))
  {
    FormatterOfOffsetString(0, zones, host);
    Shared.MakeOffsetStringZeroExample();
  }

  /** getInstantInfo with the millisecond read as `((ms % 1000) + 1000) % 1000`, never negative. */
  function InfoOfIntended(w: Shared.WallClock, ms: int, ns: int, ianaZone: Option<string>): InstantInfo
  {
    var millisecond := ms % 1000;
    InstantInfo(w.year, w.month, w.day, w.hour, w.minute, w.second, millisecond * 1000000 + ns,
                Zoned.OffsetAt(w, millisecond, ms) / 1000, ianaZone)
  }

  /**
   * With the never-negative millisecond the fixed formatter's offset is
   * -60 * offset seconds at every instant (outside the years 0..99), and
   * the nanoseconds below the second stay within a second for ns below 10^6.
   */
  lemma FixedInfoIntended(offset: int, ms: int, ns: int, t: int, zone: Option<string>)
    requires t == ms - offset * 60000 && !(0 <= EcmaTime.Utc(t).year <= 99)
    ensures var info := InfoOfIntended(Wall(FixedFormatter(offset), ms), ms, ns, zone);
      && info.offsetSeconds == -60 * offset
      && (0 <= ns < 1000000 ==> 0 <= info.nanosecond < 1000000000)
  {
    var k := -(offset * 60000);
    FixedFormatterZone(offset, ms, k);
    var z := Zoned.FixedZone(k, "");
    Zoned.FixedZoneOffsetIntended(k, ms, t, "");
    assert InfoOfIntended(Wall(FixedFormatter(offset), ms), ms, ns, zone).offsetSeconds
        == Zoned.ZoneOffsetIntended(z, ms) / 1000;
    WholeSecondsOf(k, k, false, offset);
  }
}
