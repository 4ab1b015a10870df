/**
 Non-negative integers seen as bit strings.

 Masks, words and register images are plain integers in the modelled code, so they are plain
 `nat`s here. `Bit(x, i)` observes one position; the bitwise operators are defined by recursion
 on the binary digits and characterised position by position, and `Extensional` turns agreement
 on every position back into equality of integers.
 */
module Bits {

  function Pow2(n: nat): (p: nat)
    ensures p >= 1
  {
    if n == 0 then 1 else 2 * Pow2(n - 1)
  }

  /** Position `i` of `x`; the recursion lives in `DigitAt`. */
  predicate Bit(x: nat, i: nat) {
    DigitAt(x, i) == 1
  }

  function DigitAt(x: nat, i: nat): nat {
    if i == 0 then x % 2 else DigitAt(x / 2, i - 1)
  }

  function Digit(b: bool): nat {
    if b then 1 else 0
  }

  function And(x: nat, y: nat): nat {
    if x == 0 then 0 else Digit(x % 2 == 1 && y % 2 == 1) + 2 * And(x / 2, y / 2)
  }

  function Or(x: nat, y: nat): nat
    decreases x + y
  {
    if x == 0 && y == 0 then 0 else Digit(x % 2 == 1 || y % 2 == 1) + 2 * Or(x / 2, y / 2)
  }

  function Xor(x: nat, y: nat): nat
    decreases x + y
  {
    if x == 0 && y == 0 then 0 else Digit((x % 2 == 1) != (y % 2 == 1)) + 2 * Xor(x / 2, y / 2)
  }

  /** `x & ~y`, which stays non-negative for non-negative `x`. */
  function AndNot(x: nat, y: nat): nat {
    if x == 0 then 0 else Digit(x % 2 == 1 && y % 2 == 0) + 2 * AndNot(x / 2, y / 2)
  }

  /** `x << n`. */
  function Shl(x: nat, n: nat): nat {
    if n == 0 then x else 2 * Shl(x, n - 1)
  }

  /** `x >> n`. */
  function Shr(x: nat, n: nat): nat {
    if n == 0 then x else Shr(x / 2, n - 1)
  }

  function PopCount(x: nat): nat {
    if x == 0 then 0 else x % 2 + PopCount(x / 2)
  }

  /** Number of binary digits: the position just above the highest one. */
  function BitLength(x: nat): nat {
    if x == 0 then 0 else 1 + BitLength(x / 2)
  }

  /** `n` ones. */
  function Ones(n: nat): nat {
    if n == 0 then 0 else 1 + 2 * Ones(n - 1)
  }

  /** The low `n` digits. */
  function LowBits(x: nat, n: nat): nat {
    if n == 0 then 0 else x % 2 + 2 * LowBits(x / 2, n - 1)
  }

  lemma {:induction false} OnesIsPow2(n: nat)
    ensures Ones(n) == Pow2(n) - 1
  {
    if n > 0 { OnesIsPow2(n - 1); }
  }

  /** One step of every operator, with the lowest digits spelled out. */
  lemma Step(x: nat, y: nat, a: nat, b: nat)
    requires a < 2 && b < 2
    ensures And(2 * x + a, 2 * y + b) == Digit(a == 1 && b == 1) + 2 * And(x, y)
    ensures Xor(2 * x + a, 2 * y + b) == Digit(a != b) + 2 * Xor(x, y)
    ensures PopCount(2 * x + a) == a + PopCount(x)
  {
    AndStep(x, y, a, b);
  }

  lemma AndStep(x: nat, y: nat, a: nat, b: nat)
    requires a < 2 && b < 2
    ensures And(2 * x + a, 2 * y + b) == Digit(a == 1 && b == 1) + 2 * And(x, y)
  {
    var u, v := 2 * x + a, 2 * y + b;
    assert u / 2 == x && u % 2 == a && v / 2 == y && v % 2 == b;
    assert x == 0 ==> And(x, y) == 0;
  }

  // ---- one position at a time ----

  lemma {:induction false} ZeroBit(i: nat)
    ensures !Bit(0, i)
  {
    if i > 0 { ZeroBit(i - 1); }
  }

  lemma {:induction false} AndBit(x: nat, y: nat, i: nat)
    ensures Bit(And(x, y), i) <==> Bit(x, i) && Bit(y, i)
  {
    if x == 0 {
      ZeroBit(i);
    } else if i > 0 {
      AndBit(x / 2, y / 2, i - 1);
    }
  }

  lemma {:induction false} OrBit(x: nat, y: nat, i: nat)
    ensures Bit(Or(x, y), i) <==> Bit(x, i) || Bit(y, i)
  {
    if x == 0 && y == 0 {
    } else if i > 0 {
      OrBit(x / 2, y / 2, i - 1);
    }
  }

  lemma {:induction false} XorBit(x: nat, y: nat, i: nat)
    ensures Bit(Xor(x, y), i) <==> Bit(x, i) != Bit(y, i)
  {
    if x == 0 && y == 0 {
      ZeroBit(i);
    } else if i > 0 {
      XorBit(x / 2, y / 2, i - 1);
    }
  }

  lemma {:induction false} AndNotBit(x: nat, y: nat, i: nat)
    ensures Bit(AndNot(x, y), i) <==> Bit(x, i) && !Bit(y, i)
  {
    if x == 0 {
      ZeroBit(i);
    } else if i > 0 {
      AndNotBit(x / 2, y / 2, i - 1);
    }
  }

  lemma {:induction false} Pow2Bit(n: nat, i: nat)
    ensures Bit(Pow2(n), i) <==> i == n
  {
    if n == 0 {
      if i > 0 { ZeroBit(i - 1); }
    } else if i > 0 {
      Pow2Bit(n - 1, i - 1);
    }
  }

  lemma {:induction false} ShlBit(x: nat, n: nat, i: nat)
    ensures Bit(Shl(x, n), i) <==> i >= n && Bit(x, i - n)
  {
    if n > 0 && i > 0 {
      ShlBit(x, n - 1, i - 1);
    }
  }

  // ---- all positions at once ----

  lemma AndBits(x: nat, y: nat)
    ensures forall i: nat :: Bit(And(x, y), i) <==> Bit(x, i) && Bit(y, i)
  {
    forall i: nat { AndBit(x, y, i); }
  }

  lemma OrBits(x: nat, y: nat)
    ensures forall i: nat :: Bit(Or(x, y), i) <==> Bit(x, i) || Bit(y, i)
  {
    forall i: nat { OrBit(x, y, i); }
  }

  lemma XorBits(x: nat, y: nat)
    ensures forall i: nat :: Bit(Xor(x, y), i) <==> Bit(x, i) != Bit(y, i)
  {
    forall i: nat { XorBit(x, y, i); }
  }

  lemma AndNotBits(x: nat, y: nat)
    ensures forall i: nat :: Bit(AndNot(x, y), i) <==> Bit(x, i) && !Bit(y, i)
  {
    forall i: nat { AndNotBit(x, y, i); }
  }

  lemma Pow2Bits(n: nat)
    ensures forall i: nat :: Bit(Pow2(n), i) <==> i == n
  {
    forall i: nat { Pow2Bit(n, i); }
  }

  lemma ShlBits(x: nat, n: nat)
    ensures forall i: nat :: Bit(Shl(x, n), i) <==> i >= n && Bit(x, i - n)
  {
    forall i: nat { ShlBit(x, n, i); }
  }

  lemma {:induction false} ShlIsMul(x: nat, n: nat)
    ensures Shl(x, n) == x * Pow2(n)
  {
    if n > 0 { ShlIsMul(x, n - 1); }
  }

  lemma {:induction false} ShlAdd(x: nat, y: nat, n: nat)
    ensures Shl(x + y, n) == Shl(x, n) + Shl(y, n)
  {
    if n > 0 { ShlAdd(x, y, n - 1); }
  }

  lemma {:induction false} ShlDouble(x: nat, n: nat)
    ensures Shl(2 * x, n) == Shl(x, n + 1)
    ensures Shl(0, n) == 0 && Shl(1, n) == Pow2(n)
  {
    if n > 0 { ShlDouble(x, n - 1); }
  }

  /** Integers that agree on every position are equal. */
  lemma {:induction false} Extensional(x: nat, y: nat)
    requires forall i: nat :: Bit(x, i) <==> Bit(y, i)
    ensures x == y
    decreases x + y
  {
    if x == 0 && y == 0 {
    } else {
      assert Bit(x, 0) <==> Bit(y, 0);
      forall i: nat
        ensures Bit(x / 2, i) <==> Bit(y / 2, i)
      {
        assert Bit(x, i + 1) <==> Bit(y, i + 1);
      }
      Extensional(x / 2, y / 2);
    }
  }

  /** `w & m == v`, position by position: `v` lies inside `m` and agrees with `w` there. */
  lemma MaskedEquality(w: nat, m: nat, v: nat)
    ensures And(w, m) == v <==> (forall i: nat :: Bit(v, i) <==> Bit(w, i) && Bit(m, i))
  {
    AndBits(w, m);
    if forall i: nat :: Bit(v, i) <==> Bit(w, i) && Bit(m, i) {
      Extensional(And(w, m), v);
    }
  }

  // ---- magnitude ----

  lemma {:induction false} BitBound(x: nat, n: nat)
    ensures x < Pow2(n) <==> (forall i: nat :: i >= n ==> !Bit(x, i))
  {
    if x < Pow2(n) {
      forall i: nat | i >= n
        ensures !Bit(x, i)
      {
        HighBitsClear(x, n, i);
      }
    } else {
      var i := HighBitOf(x, n);
    }
  }

  lemma {:induction false} HighBitsClear(x: nat, n: nat, i: nat)
    requires x < Pow2(n) && i >= n
    ensures !Bit(x, i)
  {
    if n == 0 {
      ZeroBit(i);
    } else {
      HighBitsClear(x / 2, n - 1, i - 1);
    }
  }

  lemma {:induction false} HighBitOf(x: nat, n: nat) returns (i: nat)
    requires x >= Pow2(n)
    ensures i >= n && Bit(x, i)
  {
    if n == 0 {
      if x % 2 == 1 {
        i := 0;
      } else {
        i := HighBitOf(x / 2, 0);
        i := i + 1;
      }
    } else {
      i := HighBitOf(x / 2, n - 1);
      i := i + 1;
    }
  }

  lemma {:induction false} Pow2Add(m: nat, n: nat)
    ensures Pow2(m + n) == Pow2(m) * Pow2(n)
  {
    if m > 0 {
      Pow2Add(m - 1, n);
      assert Pow2(m + n) == 2 * Pow2(m - 1 + n);
    }
  }

  lemma {:induction false} Pow2Monotone(m: nat, n: nat)
    requires m <= n
    ensures Pow2(m) <= Pow2(n)
  {
    if m < n {
      Pow2Monotone(m, n - 1);
    }
  }

  lemma {:induction false} ShrShrinks(x: nat, n: nat)
    ensures Shr(x, n) <= x
  {
    if n > 0 { ShrShrinks(x / 2, n - 1); }
  }

  lemma {:induction false} PopCountBound(x: nat)
    ensures PopCount(x) <= BitLength(x)
    ensures x < Pow2(BitLength(x))
  {
    if x > 0 { PopCountBound(x / 2); }
  }

  /** The highest position holding a one is `BitLength - 1`. */
  lemma {:induction false} TopBit(x: nat)
    requires x > 0
    ensures Bit(x, BitLength(x) - 1)
    ensures forall i: nat :: i >= BitLength(x) ==> !Bit(x, i)
  {
    PopCountBound(x);
    BitBound(x, BitLength(x));
    if x > 1 { TopBit(x / 2); }
  }

  /** Operands without a common one add without carries. */
  lemma {:induction false} DisjointOr(x: nat, y: nat)
    requires And(x, y) == 0
    ensures Or(x, y) == x + y
    decreases x + y
  {
    if x == 0 && y == 0 {
    } else {
      assert x == 0 ==> And(x / 2, y / 2) == 0;
      DisjointOr(x / 2, y / 2);
    }
  }
}
