/**
 Carry-less multiplication: `vmull_p64` and `vmulq_p8` of include/arm_neon.h, at any width.

 An integer's digits are the coefficients of a polynomial over the two-element field. `PolyMul`
 is the product by Horner's rule; it is shown to be the convolution of the coefficients and to
 make the polynomials a commutative ring without zero divisors. The shift-and-xor loops compute it.
 */
module Clmul {
  import opened Bits
  import opened BitScatter

  function PolyMul(a: nat, b: nat): nat
    decreases b
  {
    if b == 0 then 0 else Xor(Pick(b % 2, a), 2 * PolyMul(a, b / 2))
  }

  lemma PolyMulStep(a: nat, h: nat, d: nat)
    requires d < 2
    ensures PolyMul(a, 2 * h + d) == Xor(Pick(d, a), 2 * PolyMul(a, h))
  {
    var b := 2 * h + d;
    assert b / 2 == h && b % 2 == d;
    if b == 0 {
      assert Xor(0, 0) == 0;
    }
  }

  // ---- algebra of xor ----

  lemma XorCommutes(x: nat, y: nat)
    ensures Xor(x, y) == Xor(y, x)
  {
    XorBits(x, y); XorBits(y, x);
    Extensional(Xor(x, y), Xor(y, x));
  }

  /** Regrouping two sums term by term. */
  lemma XorRegroup(u: nat, v: nat, x: nat, y: nat)
    ensures Xor(Xor(u, v), Xor(x, y)) == Xor(Xor(u, x), Xor(v, y))
  {
    XorBits(u, v); XorBits(x, y); XorBits(u, x); XorBits(v, y);
    XorBits(Xor(u, v), Xor(x, y)); XorBits(Xor(u, x), Xor(v, y));
    Extensional(Xor(Xor(u, v), Xor(x, y)), Xor(Xor(u, x), Xor(v, y)));
  }

  lemma XorDouble(x: nat, y: nat)
    ensures Xor(2 * x, 2 * y) == 2 * Xor(x, y)
  {
    Step(x, y, 0, 0);
  }

  lemma XorIdentity(x: nat)
    ensures Xor(x, 0) == x && Xor(0, x) == x
  {
    XorZero(x);
    XorCommutes(x, 0);
  }

  // ---- the product ----

  lemma {:induction false} TimesZero(b: nat)
    ensures PolyMul(0, b) == 0
  {
    if b > 0 {
      TimesZero(b / 2);
      assert Xor(0, 0) == 0;
    }
  }

  lemma {:induction false} DoubleLeft(a: nat, b: nat)
    ensures PolyMul(2 * a, b) == 2 * PolyMul(a, b)
    decreases b
  {
    if b > 0 {
      DoubleLeft(a, b / 2);
      XorDouble(Pick(b % 2, a), 2 * PolyMul(a, b / 2));
    }
  }

  lemma DoubleRight(a: nat, b: nat)
    ensures PolyMul(a, 2 * b) == 2 * PolyMul(a, b)
  {
    PolyMulStep(a, b, 0);
    XorIdentity(2 * PolyMul(a, b));
  }

  lemma DistributesStep(a: nat, h: nat, k: nat, d: nat, e: nat)
    requires d < 2 && e < 2
    requires PolyMul(a, Xor(h, k)) == Xor(PolyMul(a, h), PolyMul(a, k))
    ensures PolyMul(a, Xor(2 * h + d, 2 * k + e)) == Xor(PolyMul(a, 2 * h + d), PolyMul(a, 2 * k + e))
  {
    hide PolyMul, Xor, Pick;
    var p, q := PolyMul(a, h), PolyMul(a, k);
    PolyMulStep(a, h, d);
    PolyMulStep(a, k, e);
    Step(h, k, d, e);
    PolyMulStep(a, Xor(h, k), Digit(d != e));
    XorDouble(p, q);
    XorRegroup(Pick(d, a), 2 * p, Pick(e, a), 2 * q);
    PickXor(a, d, e);
  }

  /** Distributes over xor on the right. */
  lemma {:induction false} DistributesRight(a: nat, b: nat, c: nat)
    ensures PolyMul(a, Xor(b, c)) == Xor(PolyMul(a, b), PolyMul(a, c))
    decreases b + c
  {
    if b == 0 && c == 0 {
      assert Xor(0, 0) == 0;
    } else {
      hide PolyMul, Xor;
      var h, d := Split(b);
      var k, e := Split(c);
      DistributesRight(a, h, k);
      DistributesStep(a, h, k, d, e);
    }
  }

  lemma Split(b: nat) returns (h: nat, d: nat)
    ensures b == 2 * h + d && d < 2 && (b > 0 ==> h < b) && h <= b
  {
    h, d := b / 2, b % 2;
  }

  lemma PickXor(a: nat, d: nat, e: nat)
    requires d < 2 && e < 2
    ensures Pick(Digit(d != e), a) == Xor(Pick(d, a), Pick(e, a))
  {
    AndSelf(a);
    AndSelf(0);
    XorIdentity(a);
  }

  /** Distributes over xor on the left. */
  lemma {:induction false} DistributesLeft(a: nat, b: nat, c: nat)
    ensures PolyMul(Xor(a, b), c) == Xor(PolyMul(a, c), PolyMul(b, c))
    decreases c
  {
    if c == 0 {
      assert Xor(0, 0) == 0;
    } else {
      DistributesLeft(a, b, c / 2);
      var p, q := PolyMul(a, c / 2), PolyMul(b, c / 2);
      XorDouble(p, q);
      XorRegroup(Pick(c % 2, a), 2 * p, Pick(c % 2, b), 2 * q);
      XorIdentity(0);
    }
  }

  lemma {:induction false} Commutes(a: nat, b: nat)
    ensures PolyMul(a, b) == PolyMul(b, a)
    decreases a
  {
    if a == 0 {
      TimesZero(b);
    } else {
      Commutes(a / 2, b);
      HornerLeft(a / 2, a % 2, b);
    }
  }

  /** Horner's rule on the left operand. */
  lemma HornerLeft(h: nat, d: nat, b: nat)
    requires d < 2
    ensures PolyMul(2 * h + d, b) == Xor(Pick(d, b), 2 * PolyMul(h, b))
  {
    hide PolyMul;
    EvenPlusDigit(h, d);
    DistributesLeft(d, 2 * h, b);
    DoubleLeft(h, b);
    if d == 0 { TimesZero(b); } else { OneTimes(b); }
  }

  lemma EvenPlusDigit(h: nat, d: nat)
    requires d < 2
    ensures Xor(d, 2 * h) == 2 * h + d
  {
    Step(0, h, d, 0);
    XorIdentity(h);
  }

  lemma {:induction false} OneTimes(b: nat)
    ensures PolyMul(1, b) == b
  {
    if b > 0 {
      OneTimes(b / 2);
      EvenPlusDigit(b / 2, b % 2);
    }
  }

  lemma {:induction false} Associates(a: nat, b: nat, c: nat)
    ensures PolyMul(PolyMul(a, b), c) == PolyMul(a, PolyMul(b, c))
    decreases c
  {
    if c > 0 {
      Associates(a, b, c / 2);
      var p := PolyMul(b, c / 2);
      DistributesRight(a, Pick(c % 2, b), 2 * p);
      DoubleRight(a, p);
    }
  }

  // ---- coefficients ----

  function XorAll(s: seq<bool>): bool {
    if s == [] then false else s[0] != XorAll(s[1..])
  }

  /** The products `a_i * b_j` with `i + j = k`, by increasing `j`. */
  function Products(a: nat, b: nat, k: nat): seq<bool> {
    seq(k + 1, j requires 0 <= j <= k => Bit(a, k - j) && Bit(b, j))
  }

  /** Coefficient `k` of the product is the sum of `a_i * b_j` over `i + j = k`. */
  lemma {:induction false} CoefficientIsConvolution(a: nat, b: nat, k: nat)
    ensures Bit(PolyMul(a, b), k) <==> XorAll(Products(a, b, k))
    decreases b, k
  {
    var s := Products(a, b, k);
    if b == 0 {
      ZeroBits();
      AllFalse(s);
    } else {
      var h := PolyMul(a, b / 2);
      assert PolyMul(a, b) == Xor(Pick(b % 2, a), 2 * h);
      hide PolyMul, Xor;
      XorBit(Pick(b % 2, a), 2 * h, k);
      PickBit(b % 2, a, k);
      ProductsStep(a, b, k);
      DoubledBit(h, k);
      if k > 0 {
        CoefficientIsConvolution(a, b / 2, k - 1);
      }
    }
  }

  lemma PickBit(d: nat, a: nat, k: nat)
    requires d < 2
    ensures Bit(Pick(d, a), k) <==> d == 1 && Bit(a, k)
  {
    ZeroBit(k);
  }

  lemma DoubledBit(h: nat, k: nat)
    ensures Bit(2 * h, k) <==> k > 0 && Bit(h, k - 1)
  {
  }

  /** Dropping the lowest digit of `b` drops the first product. */
  lemma ProductsStep(a: nat, b: nat, k: nat)
    ensures Products(a, b, k)[0] <==> Bit(a, k) && b % 2 == 1
    ensures Products(a, b, k)[1..] == if k == 0 then [] else Products(a, b / 2, k - 1)
  {
    if k > 0 {
      var tail, shorter := Products(a, b, k)[1..], Products(a, b / 2, k - 1);
      forall j | 0 <= j < k
        ensures tail[j] == shorter[j]
      {
        assert Bit(b, j + 1) <==> Bit(b / 2, j);
      }
    }
  }

  lemma {:induction false} AllFalse(s: seq<bool>)
    requires forall k :: 0 <= k < |s| ==> !s[k]
    ensures !XorAll(s)
  {
    if s != [] { AllFalse(s[1..]); }
  }

  lemma {:induction false} OneTrue(s: seq<bool>, i: nat)
    requires i < |s| && forall k :: 0 <= k < |s| ==> (s[k] <==> k == i)
    ensures XorAll(s)
  {
    if i == 0 {
      AllFalse(s[1..]);
    } else {
      OneTrue(s[1..], i - 1);
    }
  }

  // ---- degree ----

  lemma {:induction false} BitLengthFromTop(x: nat, t: nat)
    requires Bit(x, t) && forall i: nat :: i > t ==> !Bit(x, i)
    ensures BitLength(x) == t + 1
  {
    if x == 0 {
      ZeroBit(t);
    } else {
      TopBit(x);
      assert !(BitLength(x) - 1 > t);
    }
  }

  /** The degree of a product of non-zero polynomials is the sum of the degrees. */
  lemma DegreeAdds(a: nat, b: nat)
    requires a > 0 && b > 0
    ensures BitLength(PolyMul(a, b)) == BitLength(a) + BitLength(b) - 1
  {
    TopBit(a);
    TopBit(b);
    assert BitLength(a) > 0 && BitLength(b) > 0;
    hide PolyMul, BitLength, Bit;
    var da: nat, db: nat := BitLength(a) - 1, BitLength(b) - 1;
    TopProduct(a, b, da, db);
    forall k: nat | k > da + db
      ensures !Bit(PolyMul(a, b), k)
    {
      NoProduct(a, b, da, db, k);
    }
    BitLengthFromTop(PolyMul(a, b), da + db);
  }

  /** Only the leading digits meet at the sum of the degrees. */
  lemma TopProduct(a: nat, b: nat, da: nat, db: nat)
    requires Bit(a, da) && Bit(b, db) && (forall i: nat :: i > da ==> !Bit(a, i)) && (forall i: nat :: i > db ==> !Bit(b, i))
    ensures Bit(PolyMul(a, b), da + db)
  {
    hide PolyMul, Bit;
    CoefficientIsConvolution(a, b, da + db);
    OneTrue(Products(a, b, da + db), db);
  }

  lemma NoProduct(a: nat, b: nat, da: nat, db: nat, k: nat)
    requires (forall i: nat :: i > da ==> !Bit(a, i)) && (forall i: nat :: i > db ==> !Bit(b, i)) && k > da + db
    ensures !Bit(PolyMul(a, b), k)
  {
    hide PolyMul, Bit;
    CoefficientIsConvolution(a, b, k);
    AllFalse(Products(a, b, k));
  }

  /** No zero divisors. */
  lemma ZeroProduct(a: nat, b: nat)
    ensures PolyMul(a, b) == 0 <==> a == 0 || b == 0
  {
    if a == 0 {
      TimesZero(b);
    } else if b > 0 {
      DegreeAdds(a, b);
    }
  }

  lemma {:induction false} BitLengthBound(x: nat, n: nat)
    ensures x < Pow2(n) <==> BitLength(x) <= n
  {
    if x > 0 && n > 0 { BitLengthBound(x / 2, n - 1); }
  }

  /** Two `n`-digit operands: the product needs one digit less than twice as many. */
  lemma ProductFits(a: nat, b: nat, n: nat)
    requires n > 0 && a < Pow2(n) && b < Pow2(n)
    ensures PolyMul(a, b) < Pow2(2 * n - 1)
  {
    BitLengthBound(a, n);
    BitLengthBound(b, n);
    BitLengthBound(PolyMul(a, b), 2 * n - 1);
    if a == 0 {
      TimesZero(b);
    } else if b > 0 {
      DegreeAdds(a, b);
    }
  }

  // ---- the loops ----

  lemma {:induction false} TimesPower(a: nat, n: nat)
    ensures PolyMul(a, Pow2(n)) == Shl(a, n)
  {
    if n == 0 {
      XorIdentity(a);
      assert PolyMul(a, 1) == Xor(a, 2 * PolyMul(a, 0));
    } else {
      TimesPower(a, n - 1);
      DoubleRight(a, Pow2(n - 1));
    }
  }

  lemma {:induction false} LowBitsStep(b: nat, j: nat)
    ensures LowBits(b, j + 1) == Xor(LowBits(b, j), Pick(Digit(Bit(b, j)), Pow2(j)))
  {
    if j == 0 {
      XorIdentity(0);
      XorIdentity(1);
    } else {
      LowBitsStep(b / 2, j - 1);
      assert Bit(b, j) == Bit(b / 2, j - 1);
      assert Pick(Digit(Bit(b, j)), Pow2(j)) == 2 * Pick(Digit(Bit(b, j)), Pow2(j - 1));
      hide Xor, And, PopCount, Bit, Pow2;
      Step(LowBits(b / 2, j - 1), Pick(Digit(Bit(b, j)), Pow2(j - 1)), b % 2, 0);
    }
  }

  /** One more digit of the multiplier. */
  lemma AccumulateStep(a: nat, b: nat, j: nat)
    ensures PolyMul(a, LowBits(b, j + 1)) ==
            if Bit(b, j) then Xor(PolyMul(a, LowBits(b, j)), Shl(a, j)) else PolyMul(a, LowBits(b, j))
  {
    hide PolyMul, Shl;
    LowBitsStep(b, j);
    DistributesRight(a, LowBits(b, j), Pick(Digit(Bit(b, j)), Pow2(j)));
    TimesPower(a, j);
    XorIdentity(LowBits(b, j));
  }

  /** `vmull_p64` at width `n`: the accumulator is twice as wide, so nothing is lost. */
  method Vmull(n: nat, a: nat, b: nat) returns (r: nat)
    requires n > 0 && a < Pow2(n) && b < Pow2(n)
    ensures r == PolyMul(a, b)
    ensures r < Pow2(2 * n - 1)
  {
    r := 0;
    for j := 0 to n
      invariant r == PolyMul(a, LowBits(b, j))
    {
      AccumulateStep(a, b, j);
      if Bit(b, j) {
        r := Xor(r, Shl(a, j));
      }
    }
    LowBitsOfSmall(b, n);
    ProductFits(a, b, n);
  }

  lemma LowBitsXorStep(h: nat, k: nat, d: nat, e: nat, n: nat)
    requires d < 2 && e < 2 && LowBits(Xor(h, k), n) == Xor(LowBits(h, n), LowBits(k, n))
    ensures LowBits(Xor(2 * h + d, 2 * k + e), n + 1) == Xor(LowBits(2 * h + d, n + 1), LowBits(2 * k + e, n + 1))
  {
    hide Xor;
    Step(h, k, d, e);
    Step(LowBits(h, n), LowBits(k, n), d, e);
    LowBitsDigit(h, d, n);
    LowBitsDigit(k, e, n);
    LowBitsDigit(Xor(h, k), Digit(d != e), n);
  }

  lemma LowBitsDigit(h: nat, d: nat, n: nat)
    requires d < 2
    ensures LowBits(2 * h + d, n + 1) == d + 2 * LowBits(h, n)
  {
    var x := 2 * h + d;
    assert x / 2 == h && x % 2 == d;
  }

  lemma {:induction false} LowBitsXor(x: nat, y: nat, n: nat)
    ensures LowBits(Xor(x, y), n) == Xor(LowBits(x, n), LowBits(y, n))
  {
    if n == 0 {
      XorIdentity(0);
    } else {
      hide Xor, LowBits;
      LowBitsXor(x / 2, y / 2, n - 1);
      LowBitsXorStep(x / 2, y / 2, x % 2, y % 2, n - 1);
      assert x == 2 * (x / 2) + x % 2 && y == 2 * (y / 2) + y % 2;
    }
  }

  lemma {:induction false} LowBitsIdempotent(x: nat, n: nat)
    ensures LowBits(LowBits(x, n), n) == LowBits(x, n)
  {
    if n > 0 { LowBitsIdempotent(x / 2, n - 1); }
  }

  /** One lane of `vmulq_p8`: every xor is cut back to eight digits. */
  method MulLane(av: nat, bv: nat) returns (r: nat)
    requires av < Pow2(8) && bv < Pow2(8)
    ensures r == LowBits(PolyMul(av, bv), 8)
  {
    r := 0;
    assert LowBits(PolyMul(av, LowBits(bv, 0)), 8) == 0 by { LowBitsZero(8); }
    for j := 0 to 8
      invariant r == LowBits(PolyMul(av, LowBits(bv, j)), 8)
    {
      AccumulateStep(av, bv, j);
      if Bit(bv, j) {
        TruncatedXor(PolyMul(av, LowBits(bv, j)), Shl(av, j), 8);
        r := LowBits(Xor(r, Shl(av, j)), 8);
      }
    }
    LowBitsOfSmall(bv, 8);
  }

  lemma TruncatedXor(x: nat, y: nat, n: nat)
    ensures LowBits(Xor(LowBits(x, n), y), n) == LowBits(Xor(x, y), n)
  {
    LowBitsXor(LowBits(x, n), y, n);
    LowBitsXor(x, y, n);
    LowBitsIdempotent(x, n);
  }

  /** `vmulq_p8`: sixteen independent lanes. */
  method VmulqP8(a: seq<nat>, b: seq<nat>) returns (ret: seq<nat>)
    requires |a| == |b| == 16
    requires forall i :: 0 <= i < 16 ==> a[i] < Pow2(8) && b[i] < Pow2(8)
    ensures |ret| == 16
    ensures forall i :: 0 <= i < 16 ==> ret[i] == LowBits(PolyMul(a[i], b[i]), 8)
  {
    ret := [];
    for i := 0 to 16
      invariant |ret| == i
      invariant forall k :: 0 <= k < i ==> ret[k] == LowBits(PolyMul(a[k], b[k]), 8)
    {
      var r := MulLane(a[i], b[i]);
      ret := ret + [r];
    }
  }
}
