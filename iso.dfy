/**
 * The pieces of ISO 8601 text that several of the polyfill's regular
 * expressions share: a year of at least four digits with an optional sign
 * (`[+-]?\d{4}\d*`), and fixed-width digit fields such as `(0[1-9]|1[0-2])`,
 * together with the zero-padded forms `pad`/`signedpad` print.
 */
module Iso {
  import opened Js
  import Text
  import Shared

  /** `[+-]?\d{4}\d*` matched against all of s, and `+s` of the match. */
  function SignedYear(s: string): (r: Option<int>)
    ensures r.Some? ==> |s| >= 4
  {
    var signed := |s| > 0 && Shared.IsSign(s[0]);
    var ds := if signed then s[1..] else s;
    if |ds| >= 4 && Text.IsDigits(ds) then
      var v: int := Text.Value(ds);
      Some(if signed && s[0] == '-' then -v else v)
    else None
  }

  /** Exactly w digits whose value lies in lo..hi; the value. */
  function Digits(s: string, w: nat, lo: int, hi: int): (r: Option<int>)
    ensures r.Some? ==> |s| == w && Text.IsDigits(s) && r.value == Text.Value(s) && lo <= r.value <= hi
  {
    if |s| == w && Text.IsDigits(s) && lo <= Text.Value(s) <= hi then Some(Text.Value(s)) else None
  }

  /** `signedpad(year, 4)` reads back as the year. */
  lemma SignedYearOfSignedPad(year: int)
    ensures SignedYear(Shared.SignedPad(year, 4)) == Some(year)
  {
    var p := Shared.Pad(year, 4);
    var s := Shared.SignedPad(year, 4);
    assert |p| >= 4;
    if year < 0 {
      assert s == "-" + p;
      assert s[1..] == p && s[0] == '-';
      assert SignedYear(s) == Some(year);
    } else {
      assert s == p;
      assert !Shared.IsSign(p[0]) by {
        assert Text.IsDigit(p[0]);
      }
      assert SignedYear(s) == Some(year);
    }
  }

  /** `pad(n, w)` of a number below 10^w is exactly w digits with that value. */
  lemma PadWidth(n: nat, w: nat)
    requires 1 <= w && n < Text.Pow10(w)
    ensures |Shared.Pad(n, w)| == w && Text.IsDigits(Shared.Pad(n, w)) && Text.Value(Shared.Pad(n, w)) == n
  {
  }

  /** Two-digit fields: `pad(n, 2)` for n in lo..hi is accepted back as n. */
  lemma DigitsOfPad(n: int, w: nat, lo: int, hi: int)
    requires 1 <= w && 0 <= lo <= n <= hi && n < Text.Pow10(w)
    ensures Digits(Shared.Pad(n, w), w, lo, hi) == Some(n)
  {
    PadWidth(n, w);
  }

  lemma Pow10Small()
    ensures Text.Pow10(2) == 100 && Text.Pow10(3) == 1000 && Text.Pow10(4) == 10000
    ensures Text.Pow10(6) == 1000000 && Text.Pow10(9) == 1000000000
  {
  }

  /** A digit string contains no character that is not a digit. */
  lemma NotInDigits(s: string, c: char)
    requires Text.IsDigits(s) && !Text.IsDigit(c)
    ensures c !in s
  {
  }

  // ---------------------------------------------------------------------------
  // Fixed-width templates

  /**
   * An anchored regular expression without alternatives or repetition,
   * such as `^(\d{4})-(\d{2})-(\d{2})$`, piece by piece: a literal
   * character, or a group of exactly w ASCII digits. The same pieces
   * describe the template strings the formatters print, with
   * `pad(value, w)` in each group's place.
   */
  datatype Pattern = End | Lit(c: char, rest: Pattern) | Field(w: nat, rest: Pattern)

  /** The widths of the groups, in order. */
  function Widths(p: Pattern): seq<nat>
  {
    match p
    case End => []
    case Lit(_, rest) => Widths(rest)
    case Field(w, rest) => [w] + Widths(rest)
  }

  /** The number of characters a matching string has. */
  function Width(p: Pattern): nat
  {
    match p
    case End => 0
    case Lit(_, rest) => 1 + Width(rest)
    case Field(w, rest) => w + Width(rest)
  }

  /** The template written out: each literal as it is and each group as `pad(value, w)` of its value. */
  function Format(p: Pattern, vals: seq<Num>): string
    requires |vals| == |Widths(p)|
  {
    match p
    case End => ""
    case Lit(c, rest) => [c] + Format(rest, vals)
    case Field(w, rest) => Shared.PadNum(vals[0], w) + Format(rest, vals[1..])
  }

  /**
   * The regular expression executed on all of s: `number` of each group's
   * digits, in order, or None when s does not match.
   */
  function Match(p: Pattern, s: string): (r: Option<seq<Num>>)
    ensures r.Some? ==> |r.value| == |Widths(p)| && |s| == Width(p)
    ensures r.Some? ==> forall i :: 0 <= i < |r.value| ==> r.value[i].Fin? && r.value[i].v >= 0
  {
    match p
    case End => if s == [] then Some([]) else None
    case Lit(c, rest) => if |s| > 0 && s[0] == c then Match(rest, s[1..]) else None
    case Field(w, rest) =>
      if |s| >= w && Text.IsDigits(s[..w]) then
        var tail := Match(rest, s[w..]);
        if tail.Some? then Some([Fin(Text.Value(s[..w]))] + tail.value) else None
      else None
  }

  /** Values that `pad` prints in exactly their group's width: finite, non-negative and below ten to the width. */
  predicate Fits(p: Pattern, vals: seq<Num>)
  {
    && |vals| == |Widths(p)|
    && forall i :: 0 <= i < |vals| ==> Widths(p)[i] >= 1 && vals[i].Fin? && 0 <= vals[i].v < Text.Pow10(Widths(p)[i])
  }

  /** A template printed with values that fit is matched by its regular expression, which gives the values back. */
  lemma {:induction false} MatchOfFormat(p: Pattern, vals: seq<Num>)
    requires Fits(p, vals)
    ensures Match(p, Format(p, vals)) == Some(vals)
  {
    match p
    case End =>
    case Lit(c, rest) =>
      MatchOfFormat(rest, vals);
      var s := Format(p, vals);
      assert s[1..] == Format(rest, vals);
    case Field(w, rest) =>
      assert Fits(rest, vals[1..]) by {
        forall i | 0 <= i < |vals[1..]|
          ensures Widths(rest)[i] >= 1 && vals[1..][i].Fin? && 0 <= vals[1..][i].v < Text.Pow10(Widths(rest)[i])
        {
          assert Widths(p)[i + 1] == Widths(rest)[i];
          assert vals[1..][i] == vals[i + 1];
        }
      }
      MatchOfFormat(rest, vals[1..]);
      assert Widths(p)[0] == w;
      PadWidth(vals[0].v, w);
      var head := Shared.PadNum(vals[0], w);
      var s := Format(p, vals);
      assert s == head + Format(rest, vals[1..]);
      assert s[..w] == head && s[w..] == Format(rest, vals[1..]);
      assert [vals[0]] + vals[1..] == vals;
  }

  /** Each group's value is below ten to its width. */
  lemma {:induction false} MatchBound(p: Pattern, s: string)
    requires Match(p, s).Some?
    ensures forall i :: 0 <= i < |Widths(p)| ==> Match(p, s).value[i].v < Text.Pow10(Widths(p)[i])
  {
    match p
    case End =>
    case Lit(c, rest) =>
      MatchBound(rest, s[1..]);
    case Field(w, rest) =>
      var vals, more := Match(p, s).value, Match(rest, s[w..]).value;
      MatchBound(rest, s[w..]);
      Text.ValueBound(s[..w]);
      assert vals == [Fin(Text.Value(s[..w]))] + more;
      forall i | 0 <= i < |Widths(p)|
        ensures vals[i].v < Text.Pow10(Widths(p)[i])
      {
        if i > 0 {
          assert Widths(p)[i] == Widths(rest)[i - 1] && vals[i] == more[i - 1];
        }
      }
  }

  /** A string the regular expression matches is the template printed with the values it gives. */
  lemma {:induction false} FormatOfMatch(p: Pattern, s: string)
    requires Match(p, s).Some?
    requires forall i :: 0 <= i < |Widths(p)| ==> Widths(p)[i] >= 1
    ensures Format(p, Match(p, s).value) == s
  {
    var vals := Match(p, s).value;
    match p
    case End =>
    case Lit(c, rest) =>
      FormatOfMatch(rest, s[1..]);
      assert s == [s[0]] + s[1..];
    case Field(w, rest) =>
      var head, tail := s[..w], s[w..];
      assert s == head + tail;
      var more := Match(rest, tail).value;
      assert w >= 1 by {
        assert Widths(p)[0] == w;
      }
      assert forall i :: 0 <= i < |Widths(rest)| ==> Widths(rest)[i] == Widths(p)[i + 1];
      FormatOfMatch(rest, tail);
      Text.FixedOfValue(head, w);
      assert vals == [Fin(Text.Value(head))] + more;
      assert Format(p, vals) == Shared.PadNum(vals[0], w) + Format(rest, more);
  }
}
