/** Integer division as the source's language defines it. */
module Arithmetic {

  /** The quotient of two integers, rounded toward zero. */
  function Quotient(a: int, b: int): int
    requires b > 0
  {
    if a >= 0 then a / b else -((-a) / b)
  }

  /** Rounding toward zero leaves a remainder of the sign of the number, smaller than the divisor. */
  lemma QuotientRounds(a: int, b: int)
    requires b > 0
    ensures a >= 0 ==> b * Quotient(a, b) <= a < b * Quotient(a, b) + b
    ensures a < 0 ==> b * Quotient(a, b) - b < a <= b * Quotient(a, b)
  {
    var q := Quotient(a, b);
    if a < 0 {
      assert b * q == -(b * ((-a) / b));
    }
  }

  lemma Scale(b: int, x: int, y: int)
    requires b > 0 && x <= y
    ensures b * x <= b * y
  {
  }

  /** The remainder of a number next to zero. */
  lemma RemainderAround(v: int, p: int)
    requires 0 < p && -p <= v < p
    ensures v % p == if v >= 0 then v else if v == -p then 0 else v + p
  {
    var q := v / p;
    assert v == p * q + v % p;
    if q >= 1 { Scale(p, 1, q); }
    if q <= -2 { Scale(p, q, -2); }
    assert v < 0 ==> q < 0 by { if q >= 0 { Scale(p, 0, q); } }
    assert v >= 0 ==> q >= 0 by { if q <= -1 { Scale(p, q, -1); } }
  }

  lemma QuotientBounds(a: nat, b: int, q: nat)
    requires b > 0 && b * q <= a
    ensures a / b >= q
    ensures a < b * q + b ==> a / b == q
  {
    var d := a / b;
    assert b * d <= a < b * (d + 1);
    if d < q { Scale(b, d + 1, q); }
    if d > q { Scale(b, q + 1, d); }
  }

  lemma QuotientOfMultiple(k: int, b: int)
    requires b > 0
    ensures Quotient(b * k, b) == k
  {
    if k >= 0 {
      Scale(b, 0, k);
      QuotientBounds(b * k, b, k);
    } else {
      Scale(b, k, -1);
      assert -(b * k) == b * -k;
      QuotientBounds(b * -k, b, -k);
    }
  }

  /** Rounding a quotient that is not positive toward zero does not reach a lower multiple. */
  lemma QuotientAbove(k: int, a: int, b: int)
    requires b > 0 && b * k < a <= 0
    ensures Quotient(a, b) > k
  {
    var q := -a / b;
    assert b * q <= -a;
    if q >= -k { Scale(b, -k, q); }
  }
}
