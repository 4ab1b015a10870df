/**
 Parallel deposit and extract (include/bmi2intrin.h) and the lowest-bit identities they loop
 over (include/bmiintrin.h), at any register width `n`.

 `Deposit` and `Extract` are the reference definitions: they walk the mask digit by digit. The
 methods are the portable C loops, which instead peel the lowest set bit off the mask.
 */
module BitScatter {
  import opened Arith
  import opened Bits

  /** The digits of `x`, from the low end, spread over the set positions of `m`. */
  function Deposit(x: nat, m: nat): nat
    decreases m
  {
    if m == 0 then 0
    else if m % 2 == 1 then x % 2 + 2 * Deposit(x / 2, m / 2)
    else 2 * Deposit(x, m / 2)
  }

  /** The digits of `x` at the set positions of `m`, packed towards the low end. */
  function Extract(x: nat, m: nat): nat
    decreases m
  {
    if m == 0 then 0
    else if m % 2 == 1 then x % 2 + 2 * Extract(x / 2, m / 2)
    else Extract(x / 2, m / 2)
  }

  // ---- the two are inverse ----

  lemma {:induction false} ExtractOfDeposit(x: nat, m: nat)
    ensures Extract(Deposit(x, m), m) == LowBits(x, PopCount(m))
    decreases m
  {
    if m == 0 {
    } else if m % 2 == 1 {
      ExtractOfDeposit(x / 2, m / 2);
      ExtractDigit(x % 2, Deposit(x / 2, m / 2), m);
    } else {
      ExtractOfDeposit(x, m / 2);
      ExtractDigit(0, Deposit(x, m / 2), m);
    }
  }

  lemma ExtractDigit(b: nat, y: nat, m: nat)
    requires b < 2 && m > 0
    ensures Extract(b + 2 * y, m) == if m % 2 == 1 then b + 2 * Extract(y, m / 2) else Extract(y, m / 2)
  {
  }

  lemma {:induction false} DepositOfExtract(x: nat, m: nat)
    ensures Deposit(Extract(x, m), m) == And(x, m)
    decreases m
  {
    if m == 0 {
      AndZero(x);
    } else {
      DepositOfExtract(x / 2, m / 2);
      if x == 0 {
        assert And(x / 2, m / 2) == 0;
      }
    }
  }

  lemma {:induction false} ExtractBound(x: nat, m: nat)
    ensures Extract(x, m) < Pow2(PopCount(m))
    decreases m
  {
    if m > 0 { ExtractBound(x / 2, m / 2); }
  }

  /** Every submask is deposited from exactly one value below `2^PopCount(m)`. */
  lemma DepositBijection(m: nat, v: nat)
    requires And(v, m) == v
    ensures Extract(v, m) < Pow2(PopCount(m)) && Deposit(Extract(v, m), m) == v
    ensures forall x: nat :: x < Pow2(PopCount(m)) && Deposit(x, m) == v ==> x == Extract(v, m)
  {
    ExtractBound(v, m);
    DepositOfExtract(v, m);
    forall x: nat | x < Pow2(PopCount(m)) && Deposit(x, m) == v
      ensures x == Extract(v, m)
    {
      ExtractOfDeposit(x, m);
      LowBitsOfSmall(x, PopCount(m));
    }
  }

  lemma {:induction false} LowBitsOfSmall(x: nat, k: nat)
    requires x < Pow2(k)
    ensures LowBits(x, k) == x
  {
    if k > 0 { LowBitsOfSmall(x / 2, k - 1); }
  }

  /** The low digits are the remainder by the power of two. */
  lemma {:induction false} LowBitsIsMod(x: nat, k: nat)
    ensures LowBits(x, k) == x % Pow2(k)
  {
    var q := LowBitsQuotient(x, k);
    ModUnique(x, Pow2(k), q, LowBits(x, k));
  }

  lemma {:induction false} LowBitsQuotient(x: nat, k: nat) returns (q: nat)
    ensures LowBits(x, k) < Pow2(k)
    ensures x == Pow2(k) * q + LowBits(x, k)
  {
    if k == 0 {
      q := x;
    } else {
      q := LowBitsQuotient(x / 2, k - 1);
      assert 2 * (Pow2(k - 1) * q) == Pow2(k) * q;
    }
  }

  lemma {:induction false} LowBitsZero(n: nat)
    ensures LowBits(0, n) == 0
  {
    if n > 0 { LowBitsZero(n - 1); }
  }

  lemma {:induction false} AndZero(x: nat)
    ensures And(x, 0) == 0
  {
    if x > 0 { AndZero(x / 2); }
  }

  // ---- lowest set bit: BLSI, BLSR, BLSMSK ----

  /** The value of the lowest set bit. */
  function Lowest(m: nat): (b: nat)
    requires m > 0
    ensures 0 < b <= m
  {
    if m % 2 == 1 then 1 else 2 * Lowest(m / 2)
  }

  /** `0U - m` in an `n`-bit register. */
  function Negate(n: nat, m: nat): (r: nat)
    requires m < Pow2(n)
    ensures r < Pow2(n)
  {
    if m == 0 then 0 else Pow2(n) - m
  }

  function Blsi(n: nat, x: nat): nat
    requires x < Pow2(n)
  {
    And(x, Negate(n, x))
  }

  /** `x - 1U` in an `n`-bit register. */
  function Decrement(n: nat, x: nat): (r: nat)
    requires x < Pow2(n)
    ensures r < Pow2(n)
  {
    if x == 0 then Pow2(n) - 1 else x - 1
  }

  function Blsr(n: nat, x: nat): nat
    requires x < Pow2(n)
  {
    And(x, Decrement(n, x))
  }

  function Blsmsk(n: nat, x: nat): nat
    requires x < Pow2(n)
  {
    Xor(x, Decrement(n, x))
  }

  lemma {:induction false} BlsiIsLowest(n: nat, x: nat)
    requires x < Pow2(n)
    ensures Blsi(n, x) == if x == 0 then 0 else Lowest(x)
  {
    if x > 0 {
      if x % 2 == 0 {
        BlsiIsLowest(n - 1, x / 2);
        BlsiEven(n, x / 2);
      } else {
        BlsiOdd(n, x / 2);
      }
    }
  }

  lemma BlsiEven(n: nat, h: nat)
    requires n > 0 && h < Pow2(n - 1)
    ensures Blsi(n, 2 * h) == 2 * Blsi(n - 1, h)
  {
    hide And;
    Step(h, Negate(n - 1, h), 0, 0);
  }

  /** `x = 2h + 1` and `-x = 2(2^(n-1) - 1 - h) + 1`: the halves are complements. */
  lemma BlsiOdd(n: nat, h: nat)
    requires n > 0 && h < Pow2(n - 1)
    ensures Blsi(n, 2 * h + 1) == 1
  {
    hide And;
    OnesIsPow2(n - 1);
    ComplementDisjoint(n - 1, h);
    Step(h, Ones(n - 1) - h, 1, 1);
  }

  lemma {:induction false} ComplementDisjoint(n: nat, h: nat)
    requires h <= Ones(n)
    ensures And(h, Ones(n) - h) == 0
    ensures Xor(h, Ones(n) - h) == Ones(n)
  {
    if n > 0 {
      ComplementDisjoint(n - 1, h / 2);
      hide And, Xor;
      Step(h / 2, Ones(n - 1) - h / 2, h % 2, 1 - h % 2);
      assert Ones(n) - h == 2 * (Ones(n - 1) - h / 2) + (1 - h % 2);
    }
  }

  /** BLSR clears exactly the lowest set bit. */
  lemma {:induction false} BlsrClearsLowest(n: nat, x: nat)
    requires x < Pow2(n)
    ensures Blsr(n, x) == if x == 0 then 0 else x - Lowest(x)
  {
    if x > 0 {
      var h := x / 2;
      if x % 2 == 0 {
        BlsrClearsLowest(n - 1, h);
        hide And;
        Step(h, h - 1, 0, 1);
        assert x - 1 == 2 * (h - 1) + 1;
      } else {
        AndSelf(h);
        hide And;
        Step(h, h, 1, 0);
        assert x - 1 == 2 * h;
      }
    }
  }

  lemma {:induction false} AndSelf(x: nat)
    ensures And(x, x) == x && Xor(x, x) == 0
  {
    if x > 0 { AndSelf(x / 2); }
  }

  /** BLSMSK keeps the lowest set bit and everything below it; at zero it is all ones. */
  lemma {:induction false} BlsmskIsMask(n: nat, x: nat)
    requires x < Pow2(n)
    ensures Blsmsk(n, x) == if x == 0 then Pow2(n) - 1 else 2 * Lowest(x) - 1
  {
    if x == 0 {
      OnesIsPow2(n);
      ComplementDisjoint(n, 0);
    } else {
      var h := x / 2;
      if x % 2 == 0 {
        BlsmskIsMask(n - 1, h);
        hide Xor;
        Step(h, h - 1, 0, 1);
      } else {
        AndSelf(h);
        hide Xor;
        Step(h, h, 1, 0);
      }
    }
  }

  /** Toggling `l` in `m` clears it and removes one from the population count. */
  predicate Peels(m: nat, l: nat) {
    l <= m && Xor(m, l) == m - l && PopCount(m - l) + 1 == PopCount(m) && And(l, m - l) == 0
  }

  lemma PeelsDouble(h: nat, l: nat)
    requires Peels(h, l)
    ensures Peels(2 * h, 2 * l)
  {
    hide Xor, And, PopCount;
    Step(h, l, 0, 0);
    Step(l, h - l, 0, 0);
    Step(h - l, 0, 0, 0);
  }

  lemma PeelsOdd(h: nat)
    ensures Peels(2 * h + 1, 1)
  {
    hide Xor, And, PopCount;
    XorZero(h);
    AndZeroLeft(h);
    Step(h, 0, 1, 1);
    Step(0, h, 1, 0);
    Step(h, 0, 0, 0);
  }

  lemma {:induction false} PeelLowest(m: nat)
    requires m > 0
    ensures Peels(m, Lowest(m))
  {
    hide Peels;
    if m % 2 == 1 {
      PeelsOdd(m / 2);
    } else {
      PeelLowest(m / 2);
      PeelsDouble(m / 2, Lowest(m / 2));
    }
  }

  lemma AndZeroLeft(x: nat)
    ensures And(0, x) == 0
  {
  }

  lemma {:induction false} XorZero(x: nat)
    ensures Xor(x, 0) == x
  {
    if x > 0 { XorZero(x / 2); }
  }

  // ---- the loops ----

  function Pick(bit: nat, x: nat): nat {
    if bit == 1 then x else 0
  }

  lemma DepositStep(x: nat, h: nat)
    ensures Deposit(x, 2 * h) == 2 * Deposit(x, h)
    ensures Deposit(x, 2 * h + 1) == x % 2 + 2 * Deposit(x / 2, h)
    ensures Deposit(x, 0) == 0
  {
    var even, odd := 2 * h, 2 * h + 1;
    assert even % 2 == 0 && even / 2 == h && odd % 2 == 1 && odd / 2 == h;
  }

  lemma {:induction false} DepositPeel(x: nat, m: nat)
    requires m > 0
    ensures Deposit(x, m) == Pick(x % 2, Lowest(m)) + Deposit(x / 2, m - Lowest(m))
    decreases m
  {
    hide Deposit;
    var h := m / 2;
    DepositStep(x, h);
    if m % 2 == 1 {
      DepositStep(x / 2, h);
    } else {
      DepositPeel(x, h);
      DepositStep(x / 2, h - Lowest(h));
    }
  }

  lemma {:induction false} ExtractPeel(x: nat, m: nat)
    requires m > 0
    ensures Extract(x, m) == Digit(And(x, Lowest(m)) != 0) + 2 * Extract(x, m - Lowest(m))
    decreases m
  {
    if m % 2 == 1 {
      AndOne(x);
      assert (m - 1) / 2 == m / 2;
    } else {
      ExtractPeel(x / 2, m / 2);
      assert (m - Lowest(m)) / 2 == m / 2 - Lowest(m / 2);
      if x == 0 {
        assert And(x / 2, Lowest(m / 2)) == 0;
      }
    }
  }

  lemma {:induction false} AndOne(x: nat)
    ensures And(x, 1) == x % 2
  {
    AndZero(x / 2);
  }

  lemma {:induction false} AndOnes(n: nat, x: nat)
    ensures And(x, Ones(n)) == LowBits(x, n)
  {
    if n == 0 {
      AndZero(x);
    } else {
      AndOnes(n - 1, x / 2);
      hide And;
      Step(x / 2, Ones(n - 1), x % 2, 1);
    }
  }

  /** `low & (0U - bit)` selects `low` when `bit` is one and nothing otherwise. */
  lemma SelectByBit(n: nat, low: nat, bit: nat)
    requires 0 < low < Pow2(n) && bit < 2
    ensures bit < Pow2(n) && And(low, Negate(n, bit)) == Pick(bit, low)
  {
    if bit == 0 {
      AndZero(low);
    } else {
      OnesIsPow2(n);
      AndOnes(n, low);
      LowBitsOfSmall(low, n);
    }
  }

  /** `m & (0U - m)` isolates the lowest set bit. */
  lemma IsolateLowest(n: nat, m: nat)
    requires 0 < m < Pow2(n)
    ensures And(m, Negate(n, m)) == Lowest(m)
  {
    BlsiIsLowest(n, m);
  }

  /** One turn of the `pdep` loop moves one term from the pending deposit to the accumulator. */
  lemma PdepStep(n: nat, r: nat, s: nat, m: nat, low: nat)
    requires 0 < m < Pow2(n) && And(r, m) == 0 && low == Lowest(m)
    ensures And(s, 1) < Pow2(n)
    ensures var r' := Or(r, And(low, Negate(n, And(s, 1))));
            r' + Deposit(s / 2, m - low) == r + Deposit(s, m) && And(r', m - low) == 0
  {
    hide And, Or, Deposit, Lowest;
    DepositPeel(s, m);
    AndOne(s);
    SelectByBit(n, low, s % 2);
    OrInto(r, low, s % 2, m);
  }

  /** The portable `pdep` loop. */
  method PdepLoop(n: nat, src: nat, mask: nat) returns (r: nat, ghost iterations: nat)
    requires src < Pow2(n) && mask < Pow2(n)
    ensures r == Deposit(src, mask)
    ensures iterations == PopCount(mask)
  {
    hide And, Or, Xor, Deposit, Lowest, Negate, PopCount, Pow2;
    r := 0;
    var s: nat, m: nat := src, mask;
    AndZeroLeft(mask);
    assert Deposit(s, m) == Deposit(src, mask);
    iterations := 0;
    while m != 0
      invariant m <= mask
      invariant And(r, m) == 0
      invariant r + Deposit(s, m) == Deposit(src, mask)
      invariant iterations + PopCount(m) == PopCount(mask)
      decreases m
    {
      IsolateLowest(n, m);
      var low := And(m, Negate(n, m));
      PeelLowest(m);
      PdepStep(n, r, s, m, low);
      r := Or(r, And(low, Negate(n, And(s, 1))));
      s := s / 2;
      m := Xor(m, low);
      iterations := iterations + 1;
    }
    DepositStep(s, 0);
    NothingLeft(src);
  }

  /** Or-ing the lowest bit of `m` into an accumulator disjoint from `m` adds it. */
  lemma OrInto(r: nat, low: nat, bit: nat, m: nat)
    requires m > 0 && low == Lowest(m) && bit < 2 && And(r, m) == 0
    ensures Or(r, Pick(bit, low)) == r + Pick(bit, low)
    ensures And(r + Pick(bit, low), m - low) == 0
  {
    hide And, Or, Xor, PopCount, Lowest;
    var rest := m - low;
    PeelLowest(m);
    LowestInside(m);
    AndBits(r, m); AndBits(low, m); AndBits(low, rest); AndBits(r, low); AndBits(r, rest);
    XorBits(m, low);
    ZeroBits();
    Extensional(And(r, low), 0);
    AndZero(r);
    DisjointOr(r, Pick(bit, low));
    OrBits(r, Pick(bit, low));
    AndBits(r + Pick(bit, low), rest);
    Extensional(And(r + Pick(bit, low), rest), 0);
  }

  lemma ZeroBits()
    ensures forall i: nat :: !Bit(0, i)
  {
    forall i: nat { ZeroBit(i); }
  }

  lemma {:induction false} LowestInside(m: nat)
    requires m > 0
    ensures And(Lowest(m), m) == Lowest(m)
  {
    if m % 2 == 0 { LowestInside(m / 2); }
  }

  /** One turn of the `pext` loop places digit `k` of the result. */
  lemma PextStep(n: nat, r: nat, src: nat, m: nat, low: nat, k: nat)
    requires 0 < m < Pow2(n) && low == Lowest(m) && r < Pow2(k) < Pow2(n)
    ensures var hit := Digit(And(src, low) != 0);
            && hit < Pow2(n)
            && var r' := Or(r, And(Pow2(k), Negate(n, hit)));
            r' < Pow2(k + 1) && r' + Shl(Extract(src, m - low), k + 1) == r + Shl(Extract(src, m), k)
  {
    hide And, Or, Extract, Lowest, Negate;
    var hit := Digit(And(src, low) != 0);
    ExtractPeel(src, m);
    SelectByBit(n, Pow2(k), hit);
    AppendBit(r, k, hit);
    ScaleDigit(k, hit, Extract(src, m - low));
  }

  lemma ScaleDigit(k: nat, hit: nat, rest: nat)
    requires hit < 2
    ensures Shl(hit + 2 * rest, k) == Pick(hit, Pow2(k)) + Shl(rest, k + 1)
  {
    ShlAdd(hit, 2 * rest, k);
    ShlDouble(rest, k);
  }

  /** The portable `pext` loop; `bit` leaves the register only after the last digit is placed. */
  method PextLoop(n: nat, src: nat, mask: nat) returns (r: nat, ghost iterations: nat)
    requires src < Pow2(n) && mask < Pow2(n)
    ensures r == Extract(src, mask)
    ensures iterations == PopCount(mask)
  {
    r := 0;
    var bit: nat, m: nat := 1 % Pow2(n), mask;
    iterations := 0;
    PextStarts(n, src, mask);
    hide And, Or, Xor, Lowest, Negate, Pow2, PextSoFar;
    while m != 0
      invariant m <= mask && PextSoFar(n, src, mask, r, bit, m, iterations)
      decreases m
    {
      PextTurn(n, src, mask, r, bit, m, iterations);
      var low := And(m, Negate(n, m));
      r := Or(r, And(bit, Negate(n, Digit(And(src, low) != 0))));
      m := Xor(m, low);
      bit := (2 * bit) % Pow2(n);
      iterations := iterations + 1;
    }
    PextEnds(n, src, mask, r, bit, iterations);
  }

  /** After `k` turns with `m` left: the low `k` digits of the result are in place. */
  ghost predicate PextSoFar(n: nat, src: nat, mask: nat, r: nat, bit: nat, m: nat, k: nat) {
    && k + PopCount(m) == PopCount(mask)
    && (m != 0 ==> bit == Pow2(k) < Pow2(n))
    && r < Pow2(k)
    && r + Shl(Extract(src, m), k) == Extract(src, mask)
  }

  lemma PextStarts(n: nat, src: nat, mask: nat)
    requires src < Pow2(n) && mask < Pow2(n)
    ensures PextSoFar(n, src, mask, 0, 1 % Pow2(n), mask, 0)
  {
    hide Extract, PopCount;
    PopCountFits(n, mask);
    SmallestRegister(n, mask);
  }

  lemma PextTurn(n: nat, src: nat, mask: nat, r: nat, bit: nat, m: nat, k: nat)
    requires 0 < m <= mask < Pow2(n) && src < Pow2(n) && PextSoFar(n, src, mask, r, bit, m, k)
    ensures var low := And(m, Negate(n, m));
            && Digit(And(src, low) != 0) < Pow2(n) && Xor(m, low) < m
            && PextSoFar(n, src, mask, Or(r, And(bit, Negate(n, Digit(And(src, low) != 0)))), (2 * bit) % Pow2(n), Xor(m, low), k + 1)
  {
    hide And, Or, Xor, Extract, Lowest, Negate, PopCount, Pow2, Shl;
    IsolateLowest(n, m);
    var low := And(m, Negate(n, m));
    PeelLowest(m);
    PextStep(n, r, src, m, low, k);
    NextBit(n, k, Xor(m, low), mask);
  }

  lemma PextEnds(n: nat, src: nat, mask: nat, r: nat, bit: nat, k: nat)
    requires PextSoFar(n, src, mask, r, bit, 0, k)
    ensures r == Extract(src, mask) && k == PopCount(mask)
  {
    NothingLeft(src);
    ShlDouble(0, k);
  }

  lemma NothingLeft(x: nat)
    ensures Extract(x, 0) == 0 && PopCount(0) == 0
  {
  }

  lemma SmallestRegister(n: nat, mask: nat)
    requires mask < Pow2(n)
    ensures Pow2(0) == 1
    ensures mask != 0 ==> 1 % Pow2(n) == 1 < Pow2(n)
  {
    if mask != 0 { SmallMod(1, Pow2(n)); }
  }

  lemma NextBit(n: nat, k: nat, rest: nat, mask: nat)
    requires mask < Pow2(n) && k + 1 + PopCount(rest) == PopCount(mask)
    ensures rest != 0 ==> (2 * Pow2(k)) % Pow2(n) == Pow2(k + 1) < Pow2(n)
  {
    if rest != 0 {
      PopCountFits(n, mask);
      PopCountBound(rest);
      PopCountFits(BitLength(rest), rest);
      Pow2Monotone(k + 2, n);
      SmallMod(Pow2(k + 1), Pow2(n));
    }
  }

  lemma {:induction false} PopCountFits(n: nat, m: nat)
    requires m < Pow2(n)
    ensures PopCount(m) <= n
    ensures m > 0 ==> PopCount(m) > 0
  {
    if m > 0 { PopCountFits(n - 1, m / 2); }
  }

  lemma AppendBit(r: nat, k: nat, bit: nat)
    requires r < Pow2(k) && bit < 2
    ensures Or(r, Pick(bit, Pow2(k))) == r + Pick(bit, Pow2(k)) < Pow2(k + 1)
  {
    BitBound(r, k);
    Pow2Bits(k);
    AndBits(r, Pow2(k));
    ZeroBits();
    Extensional(And(r, Pow2(k)), 0);
    AndZero(r);
    DisjointOr(r, Pick(bit, Pow2(k)));
  }

  // ---- BZHI and BEXTR ----

  /** `_bzhi`: the index is taken modulo 256 and saturates at the register width. */
  function Bzhi(n: nat, src: nat, index: nat): nat {
    var k := index % 256;
    if k >= n then src else And(src, Pow2(k) - 1)
  }

  lemma LowMask(x: nat, k: nat)
    ensures And(x, Pow2(k) - 1) == LowBits(x, k)
  {
    OnesIsPow2(k);
    AndOnes(k, x);
  }

  lemma BzhiKeepsLow(n: nat, src: nat, index: nat)
    requires src < Pow2(n)
    ensures Bzhi(n, src, index) == LowBits(src, index % 256)
  {
    var k := index % 256;
    if k >= n {
      Pow2Monotone(n, k);
      LowBitsOfSmall(src, k);
    } else {
      LowMask(src, k);
    }
  }

  /** Depositing and extracting again is BZHI by the population count, at any width up to 255. */
  lemma ExtractOfDepositIsBzhi(n: nat, x: nat, m: nat)
    requires n < 256 && x < Pow2(n) && m < Pow2(n)
    ensures Extract(Deposit(x, m), m) == Bzhi(n, x, PopCount(m)) == x % Pow2(PopCount(m))
  {
    PopCountFits(n, m);
    hide Extract, Deposit, Bzhi, Pow2;
    SmallMod(PopCount(m), 256);
    ExtractOfDeposit(x, m);
    BzhiKeepsLow(n, x, PopCount(m));
    LowBitsIsMod(x, PopCount(m));
  }

  /** `__bextr`: start in bits 7:0 of the control word, length in bits 15:8. */
  function Bextr(n: nat, x: nat, control: nat): nat {
    var start, len := control % 256, (control / 256) % 256;
    if start >= n then 0
    else
      var y := Shr(x, start);
      if len >= n then y else And(y, Pow2(len) - 1)
  }

  /** A contiguous extract is BEXTR: `len` ones shifted up by `start` select that run of digits. */
  lemma BextrIsExtract(n: nat, x: nat, start: nat, len: nat)
    requires x < Pow2(n) && n < 256 && start < 256 && len < 256
    ensures Bextr(n, x, start + 256 * len) == Extract(x, Shl(Ones(len), start))
  {
    ModUnique(start + 256 * len, 256, len, start);
    SmallMod(len, 256);
    hide Extract, Shl, Shr, Ones, Pow2, And;
    ExtractShifted(x, Ones(len), start);
    if start >= n {
      ShrSmall(x, n, start);
      ExtractZero(Ones(len));
    } else {
      ShrShrinks(x, start);
      BextrRun(n, Shr(x, start), len);
    }
  }

  lemma {:induction false} ShrSmall(x: nat, n: nat, k: nat)
    requires x < Pow2(n) && k >= n
    ensures Shr(x, k) == 0
  {
    if k > 0 { ShrSmall(x / 2, if n == 0 then 0 else n - 1, k - 1); }
  }

  lemma {:induction false} ExtractZero(m: nat)
    ensures Extract(0, m) == 0
  {
    if m > 0 { ExtractZero(m / 2); }
  }

  lemma BextrRun(n: nat, y: nat, len: nat)
    requires y < Pow2(n)
    ensures Extract(y, Ones(len)) == if len >= n then y else And(y, Pow2(len) - 1)
  {
    OnesIsPow2(len);
    ExtractOnes(y, len);
    if len >= n {
      Pow2Monotone(n, len);
      LowBitsOfSmall(y, len);
    } else {
      LowMask(y, len);
    }
  }

  lemma {:induction false} ExtractOnes(x: nat, len: nat)
    ensures Extract(x, Ones(len)) == LowBits(x, len)
  {
    if len > 0 {
      ExtractOnes(x / 2, len - 1);
      hide Extract;
      ExtractOdd(x, Ones(len - 1));
    }
  }

  lemma ExtractOdd(x: nat, m: nat)
    ensures Extract(x, 2 * m + 1) == x % 2 + 2 * Extract(x / 2, m)
  {
    var k := 2 * m + 1;
    assert k % 2 == 1 && k / 2 == m;
  }

  lemma ExtractEven(x: nat, m: nat)
    ensures Extract(x, 2 * m) == Extract(x / 2, m)
  {
    var k := 2 * m;
    assert k % 2 == 0 && k / 2 == m;
  }

  lemma {:induction false} ExtractShifted(x: nat, m: nat, k: nat)
    ensures Extract(x, Shl(m, k)) == Extract(Shr(x, k), m)
  {
    if k > 0 {
      ExtractShifted(x / 2, m, k - 1);
      hide Extract;
      ExtractEven(x, Shl(m, k - 1));
    }
  }
}
