/** The few facts about products, quotients and remainders that the solver needs spelled out. */
module Arith {

  lemma MulAtLeast(d: nat, k: nat)
    requires k >= 1
    ensures d * k >= d
  {
  }

  lemma MulMonotone(a: nat, x: int, y: int)
    requires x <= y
    ensures a * x <= a * y
  {
    assert a * (y - x) >= 0;
  }

  /** Quotient and remainder are determined by their defining equation. */
  lemma DivisionUnique(d: int, q: int, r: int, q': int, r': int)
    requires d > 0 && 0 <= r < d && 0 <= r' < d
    requires d * q + r == d * q' + r'
    ensures q == q' && r == r'
  {
    if q < q' {
      assert d * q' - d * q == d * (q' - q);
      MulAtLeast(d, q' - q);
    } else if q > q' {
      assert d * q - d * q' == d * (q - q');
      MulAtLeast(d, q - q');
    }
  }

  lemma DivMod(x: int, d: int)
    requires d > 0
    ensures x == d * (x / d) + x % d && 0 <= x % d < d
  {
  }

  lemma ModUnique(x: int, d: int, q: int, r: int)
    requires d > 0 && 0 <= r < d && x == d * q + r
    ensures x % d == r && x / d == q
  {
    DivMod(x, d);
    DivisionUnique(d, x / d, x % d, q, r);
  }

  lemma SmallMod(x: int, d: int)
    requires 0 <= x < d
    ensures x % d == x && x / d == 0
  {
    assert d * 0 == 0;
    ModUnique(x, d, 0, x);
  }

  lemma DivShrinks(x: nat, d: nat)
    requires d > 0
    ensures 0 <= x / d <= x
  {
    DivMod(x, d);
    MulAtLeast(x / d, d);
  }

  /** Dividing twice is dividing by the product. */
  lemma DivDiv(x: int, a: int, b: int)
    requires a > 0 && b > 0
    ensures a * b > 0 && (x / a) / b == x / (a * b)
  {
    var y := x / a;
    var q := y / b;
    DivMod(x, a);
    DivMod(y, b);
    DivDivRemainder(a, b, y % b, x % a);
    assert a * y == a * (b * q) + a * (y % b);
    assert a * (b * q) == (a * b) * q;
    ModUnique(x, a * b, q, a * (y % b) + x % a);
  }

  lemma DivDivRemainder(a: int, b: int, s: int, r: int)
    requires a > 0 && 0 <= r < a && 0 <= s < b
    ensures a * b > 0 && 0 <= a * s + r < a * b
  {
    assert a * (b - 1 - s) >= 0;
    assert a * (b - 1 - s) == a * b - a - a * s;
    assert a * s >= 0;
  }

  /** Flooring division under a name, so that a proof can treat it as a black box. */
  function Quotient(x: int, d: int): int
    requires d > 0
  {
    x / d
  }

  lemma QuotientUnique(x: int, d: int, q: int, r: int)
    requires d > 0 && 0 <= r < d && x == d * q + r
    ensures Quotient(x, d) == q
  {
    ModUnique(x, d, q, r);
  }

  lemma QuotientTwice(x: int, a: int, b: int, w: int)
    requires a > 0 && b > 0 && w > 0 && w == a * b
    ensures Quotient(Quotient(x, a), b) == Quotient(x, w)
  {
    DivDiv(x, a, b);
  }

  lemma QuotientShrinks(x: nat, d: nat)
    requires d > 0
    ensures 0 <= Quotient(x, d) <= x
  {
    DivShrinks(x, d);
  }

  lemma QuotientByOne(x: int)
    ensures Quotient(x, 1) == x
  {
  }
}
