/**
 * JavaScript value semantics that the Temporal polyfill relies on, restricted to
 * the integral values it computes with: NaN (which `undefined` also becomes once
 * it enters arithmetic), the truncating `%` and BigInt `/`, and thrown
 * exceptions as an error result.
 */
module Js {

  /** A JavaScript number the polyfill can hold: an integer, or NaN. */
  datatype Num = Fin(v: int) | NaN

  /** `a + b`: NaN is absorbing. */
  function Add(a: Num, b: Num): (r: Num)
    ensures r.Fin? <==> a.Fin? && b.Fin?
    ensures r.Fin? ==> r.v == a.v + b.v
  {
    if a.Fin? && b.Fin? then Fin(a.v + b.v) else NaN
  }

  /** `a - b`: NaN is absorbing. */
  function Sub(a: Num, b: Num): (r: Num)
    ensures r.Fin? <==> a.Fin? && b.Fin?
    ensures r.Fin? ==> r.v == a.v - b.v
  {
    if a.Fin? && b.Fin? then Fin(a.v - b.v) else NaN
  }

  /** `a < b`: every comparison with NaN is false. */
  predicate Less(a: Num, b: Num)
  {
    a.Fin? && b.Fin? && a.v < b.v
  }

  /** `Number.isFinite(x)` */
  predicate IsFinite(x: Num)
  {
    x.Fin?
  }

  /** The exceptions the polyfill throws, or that the host throws for it. */
  datatype Exception = TypeError | RangeError | Error | ReferenceError | SyntaxError

  /** A completion: a value, or a thrown exception. */
  datatype Result<T> = Ok(value: T) | Throw(exc: Exception)
  {
    predicate IsFailure() { Throw? }

    function PropagateFailure<U>(): Result<U>
      requires Throw?
    {
      Throw(exc)
    }

    function Extract(): T
      requires Ok?
    {
      value
    }
  }

  datatype Option<T> = None | Some(value: T)

  function Abs(x: int): nat
  {
    if x < 0 then -x else x
  }

  function Max(a: int, b: int): int
  {
    if a < b then b else a
  }

  /**
   * BigInt `a / b` and `Math.trunc(a / b)`: the quotient rounded toward zero.
   * Dafny's own `/` rounds toward negative infinity for a positive divisor.
   */
  function Quot(a: int, b: int): int
    requires b > 0
  {
    if a >= 0 then a / b else -((-a) / b)
  }

  /** `a % b` on numbers and BigInts: the remainder takes the sign of the dividend. */
  function Rem(a: int, b: int): int
    requires b > 0
  {
    if a >= 0 then a % b else -((-a) % b)
  }

  /** Truncating division and remainder decompose the dividend, with the remainder's sign. */
  lemma QuotRem(a: int, b: int)
    requires b > 0
    ensures a == b * Quot(a, b) + Rem(a, b)
    ensures a >= 0 ==> 0 <= Rem(a, b) < b
    ensures a < 0 ==> -b < Rem(a, b) <= 0
    ensures Abs(Quot(a, b)) == Abs(a) / b
  {
    var n := Abs(a);
    var q, r := n / b, n % b;
    assert n == b * q + r && 0 <= r < b;
    if a < 0 {
      assert Quot(a, b) == -q && Rem(a, b) == -r;
      NegatedProduct(b, q);
    } else {
      assert Quot(a, b) == q && Rem(a, b) == r;
    }
  }

  lemma NegatedProduct(b: int, q: int)
    ensures b * -q == -(b * q)
  {
  }

  /** For non-negative dividends truncation and flooring agree. */
  lemma QuotOfNonNegative(a: int, b: int)
    requires a >= 0 && b > 0
    ensures Quot(a, b) == a / b && Rem(a, b) == a % b
  {
  }

  lemma MulAtLeast(b: int, k: int)
    requires b > 0
    ensures k >= 1 ==> b * k >= b
    ensures k <= -1 ==> b * k <= -b
  {
  }

  /** Floor division is characterised by its remainder range. */
  lemma DivModUnique(a: int, b: int, q: int, r: int)
    requires b > 0 && 0 <= r < b && a == b * q + r
    ensures q == a / b && r == a % b
  {
    var k := q - a / b;
    assert b * k == b * q - b * (a / b);
    MulAtLeast(b, k);
  }
}
