/**
 The reciprocals of src/passes/div_by_const.rs: the searches that choose a multiplier and a shift
 for an unsigned or signed word of `n` bits, and why multiplying and shifting then divides.
 */
module MagicNumbers {
  import opened Options
  import opened Arith
  import opened Bits

  // ---- unsigned ----

  /** A multiplier of `n` bits, a shift, and whether the multiplier stands for itself plus `2^n`. */
  datatype UMagic = UMagic(magic: nat, shift: nat, add: bool)

  function Full(n: nat, u: UMagic): nat {
    if u.add then u.magic + Pow2(n) else u.magic
  }

  /** How far the least multiple of `d` from `2^(n+p)` upwards overshoots. */
  function Overshoot(n: nat, d: nat, p: nat): (e: nat)
    requires d > 0
  {
    (0 - Pow2(n + p)) % d
  }

  predicate CloseEnough(n: nat, d: nat, p: nat)
    requires d > 0
  {
    Overshoot(n, d, p) <= Pow2(p)
  }

  /** What makes a multiplier and shift usable, and the choice the cheapest one. */
  predicate ReciprocalOf(n: nat, d: nat, u: UMagic)
    requires d > 0
  {
    && u.magic < Pow2(n)
    && u.shift < n
    && Full(n, u) * d == Pow2(n + u.shift) + Overshoot(n, d, u.shift)
    && CloseEnough(n, d, u.shift)
    && (u.add <==> Full(n, u) >= Pow2(n))
    && (u.add ==> u.shift > 0)
    && (forall p: nat :: p < u.shift ==> !CloseEnough(n, d, p))
  }

  lemma CeilingDivides(two: nat, d: nat)
    requires d > 0
    ensures var m := (two + d - 1) / d; m * d == two + (0 - two) % d
  {
    var m := (two + d - 1) / d;
    DivMod(two + d - 1, d);
    var r := (two + d - 1) % d;
    assert 0 - two == d * (0 - m) + (d - 1 - r);
    ModUnique(0 - two, d, 0 - m, d - 1 - r);
  }

  /** Doubling a number at most doubles its distance to the next multiple. */
  lemma OvershootDoubles(t: nat, d: nat)
    requires d > 0
    ensures (0 - 2 * t) % d <= 2 * ((0 - t) % d)
  {
    var q, e := (0 - t) / d, (0 - t) % d;
    DivMod(0 - t, d);
    assert d * (2 * q) == 2 * (d * q) && d * (2 * q + 1) == 2 * (d * q) + d;
    if 2 * e < d {
      ModUnique(0 - 2 * t, d, 2 * q, 2 * e);
    } else {
      ModUnique(0 - 2 * t, d, 2 * q + 1, 2 * e - d);
    }
  }

  /** Closeness is never lost by shifting one place more. */
  lemma ClosenessGrows(n: nat, d: nat, p: nat)
    requires d > 0 && CloseEnough(n, d, p)
    ensures CloseEnough(n, d, p + 1)
  {
    OvershootDoubles(Pow2(n + p), d);
    assert Pow2(n + (p + 1)) == 2 * Pow2(n + p);
  }

  lemma {:induction false} ClosenessStays(n: nat, d: nat, p: nat, p': nat)
    requires d > 0 && CloseEnough(n, d, p) && p <= p'
    ensures CloseEnough(n, d, p')
    decreases p' - p
  {
    if p < p' {
      ClosenessGrows(n, d, p);
      ClosenessStays(n, d, p + 1, p');
    }
  }

  /** A shift below `log2 d` keeps the multiplier under `2^(n+1)`. */
  lemma MultiplierFits(n: nat, d: nat, p: nat, m: nat)
    requires 2 <= d < Pow2(n)
    requires Pow2(p) <= 2 * d - 2
    requires m * d == Pow2(n + p) + Overshoot(n, d, p)
    ensures m < 2 * Pow2(n)
  {
    var b := Pow2(n);
    Pow2Add(n, p);
    hide Pow2;
    assert Overshoot(n, d, p) < d;
    MulMonotone(b, Pow2(p), 2 * d - 2);
    assert b * (2 * d - 2) == 2 * b * d - 2 * b;
    assert d * (2 * b) == 2 * b * d && d * m == m * d;
    if m >= 2 * b { MulMonotone(d, 2 * b, m); }
  }

  /** A shift of `log2 d` rounded up is always close enough, and is below the word width for `d` up to half of it. */
  lemma LogIsEnough(n: nat, d: nat, c: nat)
    requires d > 0 && d <= Pow2(c)
    ensures CloseEnough(n, d, c)
  {
  }

  lemma FirstCloseIsSmall(n: nat, d: nat, p: nat)
    requires d >= 2 && forall k: nat :: k < p ==> !CloseEnough(n, d, k)
    ensures Pow2(p) <= 2 * d - 2
  {
    if p > 0 {
      var k: nat := p - 1;
      assert !CloseEnough(n, d, k);
      assert Overshoot(n, d, k) < d;
    }
  }

  lemma ShiftZeroFits(n: nat, d: nat, m: nat)
    requires 2 <= d < Pow2(n) && m * d == Pow2(n) + Overshoot(n, d, 0)
    ensures m < Pow2(n)
  {
    var b := Pow2(n);
    assert Overshoot(n, d, 0) < d;
    assert d * b == b * (d - 1) + b && d * m == m * d;
    MulAtLeast(b, d - 1);
    if m >= b { MulMonotone(d, b, m); }
  }

  /** What the search decides with a candidate that is close enough. */
  lemma CandidateDecides(n: nat, d: nat, p: nat, m: nat)
    requires n >= 2 && 2 <= d < Pow2(n)
    requires m * d == Pow2(n + p) + Overshoot(n, d, p) && CloseEnough(n, d, p)
    requires forall k: nat :: k < p ==> !CloseEnough(n, d, k)
    ensures m < 2 * Pow2(n)
    ensures p < n ==> ReciprocalOf(n, d, if m < Pow2(n) then UMagic(m, p, false) else UMagic(m - Pow2(n), p, true))
  {
    FirstCloseIsSmall(n, d, p);
    MultiplierFits(n, d, p, m);
    if p == 0 { ShiftZeroFits(n, d, m); }
  }

  /**
   `compute_unsigned_magic_32` and `compute_unsigned_magic_64`. `cap` is the largest multiplier
   the code keeps: `2^64 - 1` in the first, `2^65 - 1` in the second.
   */
  method ComputeUnsignedMagic(n: nat, d: nat, cap: nat) returns (r: Option<UMagic>)
    requires n >= 2 && 2 <= d < Pow2(n) && cap >= 2 * Pow2(n) - 1
    ensures r.Some? ==> ReciprocalOf(n, d, r.value)
    ensures r.Some? <==> CloseEnough(n, d, n - 1)
    ensures r.Some? <==> (0 - Pow2(n + (n - 1))) % d <= Pow2(n - 1)
    ensures d <= Pow2(n - 1) ==> r.Some?
  {
    if d <= Pow2(n - 1) { LogIsEnough(n, d, n - 1); }
    var p := 0;
    while p < n
      invariant p <= n
      invariant forall k: nat :: k < p ==> !CloseEnough(n, d, k)
    {
      var two := Pow2(n + p);
      var magic := (two + d - 1) / d;
      CeilingDivides(two, d);
      var error := magic * d - two;
      if error <= Pow2(p) {
        CandidateDecides(n, d, p, magic);
        ClosenessStays(n, d, p, n - 1);
        if magic < Pow2(n) {
          return Some(UMagic(magic, p, false));
        } else if magic <= cap {
          return Some(UMagic(magic - Pow2(n), p, true));
        }
      }
      p := p + 1;
    }
    r := None;
  }

  /** Multiplying by a close enough reciprocal and dropping the low digits divides, for every word. */
  lemma ReciprocalDivides(x: nat, d: nat, m: nat, e: nat, b: nat, s: nat)
    requires d > 0 && b > 0 && s > 0
    requires m * d == b * s + e && e <= s && x < b
    ensures b * s > 0 && Quotient(m * x, b * s) == Quotient(x, d)
  {
    var w, q, r := b * s, x / d, x % d;
    MulAtLeast(b, s);
    DivMod(x, d);
    ScaledRest(x, d, m, e, w, q, r);
    ErrorSmall(x, e, b, s);
    var rest := m * x - w * q;
    RestInRange(d, rest, e * x, w, r);
    QuotientUnique(m * x, w, q, rest);
  }

  lemma ErrorSmall(x: nat, e: nat, b: nat, s: nat)
    requires e <= s && s > 0 && x < b
    ensures 0 <= e * x < b * s
  {
    MulMonotone(x, e, s);
    MulMonotone(s, x, b - 1);
    assert s * (b - 1) == b * s - s && x * e == e * x && x * s == s * x;
    MulMonotone(e, 0, x);
  }

  lemma ScaledRest(x: int, d: int, m: int, e: int, w: int, q: int, r: int)
    requires x == d * q + r && m * d == w + e
    ensures d * (m * x - w * q) == e * x + w * r
  {
    assert d * (m * x) == (m * d) * x;
    assert (m * d) * x == (w + e) * x == w * x + e * x;
    assert d * (w * q) == w * (d * q);
    assert w * x == w * (d * q) + w * r;
    assert d * (m * x - w * q) == d * (m * x) - d * (w * q);
  }

  lemma RestInRange(d: int, rest: int, ex: int, w: int, r: int)
    requires d > 0 && w > 0 && 0 <= ex < w && 0 <= r < d
    requires d * rest == ex + w * r
    ensures 0 <= rest < w
  {
    MulMonotone(w, r, d - 1);
    assert w * (d - 1) == w * d - w;
    assert w * r >= 0;
    assert d * w == w * d;
    if rest < 0 {
      MulMonotone(d, rest, -1);
    } else if rest >= w {
      MulMonotone(d, w, rest);
    }
  }

  /** The high word of a product of two words of `n` bits. */
  function HighWord(m: nat, x: nat, n: nat): (h: nat)
    requires m < Pow2(n)
    ensures h <= x
  {
    HighWordSmall(m, x, Pow2(n));
    Quotient(m * x, Pow2(n))
  }

  /** `((x - hi) >> 1) + hi`, which cannot overflow the word. */
  function HalfSum(x: nat, hi: nat): (h: nat)
    requires hi <= x
    ensures h <= x
  {
    QuotientShrinks(x - hi, 2);
    Quotient(x - hi, 2) + hi
  }

  /** The same, for the number the search returns when no addition is needed. */
  lemma PlainDivides(n: nat, d: nat, u: UMagic, x: nat)
    requires d > 0 && ReciprocalOf(n, d, u) && !u.add && x < Pow2(n)
    ensures Quotient(HighWord(u.magic, x, n), Pow2(u.shift)) == Quotient(x, d)
  {
    var b, s := Pow2(n), Pow2(u.shift);
    Pow2Add(n, u.shift);
    hide Quotient, Overshoot, Pow2;
    ReciprocalDivides(x, d, u.magic, Overshoot(n, d, u.shift), b, s);
    QuotientTwice(u.magic * x, b, s, b * s);
  }

  /** With the addition: half the difference plus the high word, shifted once less, is the wider product shifted. */
  lemma AddedDivides(n: nat, d: nat, u: UMagic, x: nat)
    requires d > 0 && ReciprocalOf(n, d, u) && u.add && x < Pow2(n)
    ensures u.magic < Pow2(n) && u.shift > 0
    ensures Quotient(HalfSum(x, HighWord(u.magic, x, n)), Pow2(u.shift - 1)) == Quotient(x, d)
  {
    hide Quotient, Overshoot, Pow2, HalfSum, ReciprocalOf;
    ReciprocalEquation(n, d, u);
    var b, s, h := Pow2(n), Pow2(u.shift), Pow2(u.shift - 1);
    Pow2Doubles(u.shift - 1);
    WiderDivides(x, d, u.magic, Overshoot(n, d, u.shift), b, s);
    HalvedSum(x, HighWord(u.magic, x, n), h);
  }

  lemma ReciprocalEquation(n: nat, d: nat, u: UMagic)
    requires d > 0 && ReciprocalOf(n, d, u) && u.add
    ensures u.magic < Pow2(n) && u.shift > 0 && Overshoot(n, d, u.shift) <= Pow2(u.shift)
    ensures (u.magic + Pow2(n)) * d == Pow2(n) * Pow2(u.shift) + Overshoot(n, d, u.shift)
  {
    Pow2Add(n, u.shift);
  }

  lemma WiderDivides(x: nat, d: nat, m: nat, e: nat, b: nat, s: nat)
    requires d > 0 && b > 0 && s > 0 && (m + b) * d == b * s + e && e <= s && x < b
    ensures Quotient(x + Quotient(m * x, b), s) == Quotient(x, d)
  {
    hide Quotient;
    ReciprocalDivides(x, d, m + b, e, b, s);
    WiderHigh(m, x, b);
    QuotientTwice((m + b) * x, b, s, b * s);
  }

  lemma HalvedSum(x: nat, hi: nat, h: nat)
    requires hi <= x && h > 0
    ensures Quotient(HalfSum(x, hi), h) == Quotient(x + hi, 2 * h)
  {
    hide Quotient, HalfSum;
    HalfDifference(x, hi);
    QuotientTwice(x + hi, 2, h, 2 * h);
  }

  lemma HalfDifference(x: nat, hi: nat)
    requires hi <= x
    ensures HalfSum(x, hi) == Quotient(x + hi, 2)
  {
  }

  lemma HighWordSmall(m: nat, x: nat, b: nat)
    requires m < b
    ensures 0 <= Quotient(m * x, b) <= x
  {
    var h := m * x / b;
    DivMod(m * x, b);
    MulMonotone(x, m, b);
    assert x * m == m * x && x * b == b * x;
    if h < 0 { MulMonotone(b, h, -1); }
    assert b * (x + 1) == b * x + b;
    if h > x { MulMonotone(b, x + 1, h); }
  }

  lemma WiderHigh(m: nat, x: nat, b: nat)
    requires b > 0
    ensures Quotient((m + b) * x, b) == x + Quotient(m * x, b)
  {
    DivMod(m * x, b);
    assert (m + b) * x == m * x + b * x;
    assert b * (x + m * x / b) == b * x + b * (m * x / b);
    ModUnique((m + b) * x, b, x + m * x / b, m * x % b);
  }

  // ---- signed ----

  datatype SMagic = SMagic(magic: nat, shift: nat)

  /** Division rounding towards zero, by a positive divisor. */
  function Truncated(x: int, d: int): int
    requires d > 0
  {
    if x >= 0 then Quotient(x, d) else 0 - Quotient(0 - x, d)
  }

  /** The largest value below half the range that leaves remainder `d - 1`. */
  function LastCritical(t: nat, d: nat): int
    requires d > 0
  {
    t - 1 - t % d
  }

  /** `w` is the power of two the product is divided by, `t` half the range of the word. */
  predicate SignedReciprocal(t: nat, d: nat, w: nat, m: nat, delta: nat)
    requires d > 0
  {
    m * d == w + delta && 0 < delta <= d && w > LastCritical(t, d) * delta
  }

  lemma CriticalIsCritical(t: nat, d: nat)
    requires 2 <= d <= t
    ensures var c := LastCritical(t, d); d - 1 <= c < t && c + 1 == d * (t / d)
  {
    DivMod(t, d);
    if t / d <= 0 { MulMonotone(d, t / d, 0); }
    MulMonotone(d, 1, t / d);
  }

  /** Remainder `d - 1` is the tightest case; every other one has a whole extra power to spare. */
  lemma ProductBelow(t: nat, d: nat, w: nat, m: nat, delta: nat, y: nat)
    requires 2 <= d <= t && y <= t && SignedReciprocal(t, d, w, m, delta)
    requires y % d == d - 1 ==> y < t
    ensures y * delta < w * (d - y % d)
  {
    var c := LastCritical(t, d);
    CriticalIsCritical(t, d);
    var q, r := y / d, y % d;
    DivMod(y, d);
    DivMod(t, d);
    MulMonotone(w, 1, d - r);
    if y <= c {
      MulMonotone(delta, y, c);
    } else {
      BeyondCritical(t, d, y);
      assert y == c + 1 + r && r + 1 <= d - 1;
      MulMonotone(delta, r + 1, c);
      assert y * delta == delta * c + delta * (r + 1);
      MulMonotone(w, 2, d - r);
    }
  }

  lemma BeyondCritical(t: nat, d: nat, y: nat)
    requires 2 <= d <= t && LastCritical(t, d) < y <= t
    requires y % d == d - 1 ==> y < t
    ensures y == LastCritical(t, d) + 1 + y % d && y % d <= d - 2
  {
    CriticalIsCritical(t, d);
    DivMod(t, d);
    ModUnique(y, d, t / d, y - d * (t / d));
  }

  /** When half the range itself leaves remainder `d - 1`, the divisibility of `w` by it settles the case. */
  lemma ProductAtMinimum(t: nat, d: nat, k: nat, m: nat, delta: nat)
    requires 2 <= d <= t && t % d == d - 1 && k > 0
    requires SignedReciprocal(t, d, t * k, m, delta)
    ensures t * delta <= t * k
  {
    DivMod(t, d);
    var j := t / d + 1;
    assert t == d * j - 1;
    assert t * k == d * (j * k) - k by {
      assert (d * j - 1) * k == d * j * k - k;
      assert d * j * k == d * (j * k);
    }
    assert d * (m - j * k) == delta - k by {
      assert d * (m - j * k) == d * m - d * (j * k) && d * m == m * d;
    }
    if delta > k {
      MulAtLeastOne(d, m - j * k, delta - k);
    }
    MulMonotone(t, delta, k);
  }

  /** A positive multiple of `d` is at least `d`. */
  lemma MulAtLeastOne(d: nat, z: int, v: int)
    requires d * z == v && v > 0
    ensures v >= d
  {
    if z <= 0 { MulMonotone(d, z, 0); } else { MulMonotone(d, 1, z); }
  }

  lemma NonNegativeDivides(t: nat, d: nat, w: nat, m: nat, delta: nat, x: nat)
    requires 2 <= d <= t && x < t && SignedReciprocal(t, d, w, m, delta) && w > 0
    ensures Quotient(x * m, w) == Quotient(x, d)
  {
    var q, r := x / d, x % d;
    DivMod(x, d);
    ScaledRest(x, d, m, delta, w, q, r);
    var rest := m * x - w * q;
    assert delta * x == x * delta;
    ProductBelow(t, d, w, m, delta, x);
    RestBelow(d, rest, w, x * delta, r, false);
    assert x * m == m * x;
    ModUnique(x * m, w, q, rest);
  }

  lemma NegativeProduct(t: nat, d: nat, k: nat, m: nat, delta: nat, y: nat)
    requires 2 <= d <= t && k > 0 && 0 < y <= t && SignedReciprocal(t, d, t * k, m, delta) && t * k > 0
    ensures 0 < y * delta <= t * k * (d - y % d)
  {
    MulAtLeast(y, delta);
    if y % d == d - 1 && y == t {
      ProductAtMinimum(t, d, k, m, delta);
    } else {
      ProductBelow(t, d, t * k, m, delta, y);
    }
  }

  lemma NegativeDivides(t: nat, d: nat, k: nat, m: nat, delta: nat, y: nat)
    requires 2 <= d <= t && k > 0 && 0 < y <= t && SignedReciprocal(t, d, t * k, m, delta) && t * k > 0
    ensures Quotient((0 - y) * m, t * k) == 0 - Quotient(y, d) - 1
  {
    NegativeProduct(t, d, k, m, delta, y);
    FlooredNegative(y, d, m, delta, t * k);
  }

  lemma FlooredNegative(y: nat, d: nat, m: nat, delta: nat, w: nat)
    requires d > 0 && w > 0 && m * d == w + delta && 0 < y * delta <= w * (d - y % d)
    ensures Quotient((0 - y) * m, w) == 0 - Quotient(y, d) - 1
  {
    var q, r := y / d, y % d;
    DivMod(y, d);
    ScaledRest(y, d, m, delta, w, q, r);
    var rest := m * y - w * q;
    assert delta * y == y * delta;
    RestBelow(d, rest, w, y * delta, r, true);
    assert (0 - y) * m == 0 - m * y;
    assert w * (0 - q - 1) == 0 - w * q - w;
    ModUnique((0 - y) * m, w, 0 - q - 1, w - rest);
  }

  /** For every signed word: the floored product, plus one for a negative dividend, is the truncated quotient. */
  lemma SignedReciprocalDivides(t: nat, d: nat, k: nat, m: nat, delta: nat, x: int)
    requires 2 <= d <= t && k > 0 && 0 - t <= x < t
    requires SignedReciprocal(t, d, t * k, m, delta)
    ensures t * k > 0
    ensures Quotient(x * m, t * k) == if x >= 0 then Truncated(x, d) else Truncated(x, d) - 1
  {
    MulAtLeast(t, k);
    if x >= 0 {
      NonNegativeDivides(t, d, t * k, m, delta, x);
    } else {
      NegativeDivides(t, d, k, m, delta, 0 - x);
    }
  }

  lemma RestBelow(d: int, rest: int, w: int, z: int, r: int, positive: bool)
    requires d > 0 && w > 0 && 0 <= r < d && d * rest == z + w * r
    requires if positive then 0 < z <= w * (d - r) else 0 <= z < w * (d - r)
    ensures if positive then 0 < rest <= w else 0 <= rest < w
  {
    assert w * (d - r) == w * d - w * r && w * r >= 0 && w * d == d * w;
    assert d * (w + 1) == d * w + d;
    if rest < 0 {
      MulMonotone(d, rest, -1);
    } else if rest > w {
      MulMonotone(d, w + 1, rest);
    }
  }

  // ---- the signed search ----

  /** `q` and `r` are quotient and remainder of `v` by `d`. */
  predicate Divides(v: nat, d: nat, q: nat, r: nat) {
    v == d * q + r && r < d
  }

  lemma DoubledDivision(v: nat, d: nat, q: nat, r: nat)
    requires Divides(v, d, q, r)
    ensures Divides(2 * v, d, if 2 * r >= d then 2 * q + 1 else 2 * q, if 2 * r >= d then 2 * r - d else 2 * r)
  {
    assert d * (2 * q) == 2 * (d * q);
    assert d * (2 * q + 1) == d * (2 * q) + d;
  }

  predicate Exceeds(w: nat, c: nat, delta: nat) {
    w > c * delta
  }

  predicate Below(w: nat, t: nat, d: nat) {
    w < t * d
  }

  /** The code's loop test, on quotients, is the test on products. */
  lemma StopTest(w: nat, c: nat, q: nat, r: nat, delta: nat)
    requires Divides(w, c, q, r)
    ensures q < delta || (q == delta && r == 0) <==> !Exceeds(w, c, delta)
  {
    if q < delta {
      MulMonotone(c, q + 1, delta);
      assert c * (q + 1) == c * q + c;
    } else if q > delta {
      MulMonotone(c, delta + 1, q);
      assert c * (delta + 1) == c * delta + c;
    }
  }

  /** Before the search stops, the power of two is below `t * d`. */
  lemma SearchBounded(t: nat, d: nat, w: nat, delta: nat)
    requires 2 <= d <= t && delta <= d && LastCritical(t, d) >= 0 && !Exceeds(w, LastCritical(t, d), delta)
    ensures Below(w, t, d)
  {
    CriticalIsCritical(t, d);
    var c := LastCritical(t, d);
    MulMonotone(c, delta, d);
    assert t * d == c * d + (t - c) * d;
    MulAtLeast(d, t - c);
    assert (t - c) * d == d * (t - c);
  }

  /** When it stops after at most doubling such a power, the multiplier fits the word. */
  lemma SignedMagicFits(t: nat, d: nat, k: nat, q: nat, r: nat)
    requires 2 <= d < t && t * k < t * d
    requires Divides(2 * (t * k), d, q, r)
    ensures q + 1 < 2 * t
  {
    if k >= d { MulMonotone(t, d, k); }
    MulMonotone(t, k, d - 1);
    assert t * (d - 1) == t * d - t;
    assert d * (2 * t - 1) == 2 * (t * d) - d;
    if q + 1 >= 2 * t { MulMonotone(d, 2 * t - 1, q); }
  }

  /** While the search goes on the power stays below the square of half the range. */
  lemma PowerBelow(n: nat, d: nat, p: nat)
    requires n >= 1 && d < Pow2(n - 1) && Below(Pow2(p), Pow2(n - 1), d)
    ensures p < 2 * n - 2
  {
    var t := Pow2(n - 1);
    Pow2Add(n - 1, n - 1);
    MulMonotone(t, d, t);
    if p >= 2 * n - 2 { Pow2Monotone(2 * n - 2, p); }
  }

  /** The multiplier fits the word, the shift stays below it, and their ratio is a signed reciprocal. */
  predicate SignedMagicFor(n: nat, d: nat, r: SMagic)
    requires n >= 1 && d > 0
  {
    && 0 < r.magic < Pow2(n)
    && r.shift + 2 <= n
    && r.magic * d > Pow2(n + r.shift)
    && SignedReciprocal(Pow2(n - 1), d, Pow2(n + r.shift), r.magic, r.magic * d - Pow2(n + r.shift))
  }

  /** What the code computes with them: the high word, shifted, is the truncated quotient or one below it. */
  lemma SignedMagicDivides(n: nat, d: nat, r: SMagic, x: int)
    requires n >= 2 && 2 <= d < Pow2(n - 1) && SignedMagicFor(n, d, r) && 0 - Pow2(n - 1) <= x < Pow2(n - 1)
    ensures Quotient(Quotient(x * r.magic, Pow2(n)), Pow2(r.shift)) == if x >= 0 then Truncated(x, d) else Truncated(x, d) - 1
  {
    var w := Pow2(n + r.shift);
    Pow2Add(n, r.shift);
    Pow2Add(n - 1, r.shift + 1);
    hide Pow2, SignedReciprocal, Truncated, Quotient;
    SignedReciprocalDivides(Pow2(n - 1), d, Pow2(r.shift + 1), r.magic, r.magic * d - w, x);
    QuotientTwice(x * r.magic, Pow2(n), Pow2(r.shift), Pow2(n) * Pow2(r.shift));
  }

  lemma Pow2Doubles(h: nat)
    ensures Pow2(h + 1) == 2 * Pow2(h)
  {
  }

  lemma RemainderSmall(v: nat, d: nat, q: nat, r: nat)
    requires Divides(v, d, q, r)
    ensures r < d && (2 * r >= d ==> 2 * r - d < d)
  {
  }

  lemma SearchFits(n: nat, d: nat, h: nat, q: nat, r: nat)
    requires n >= 2 && 2 <= d < Pow2(n - 1) && h >= n - 1 && Below(Pow2(h), Pow2(n - 1), d)
    requires Divides(Pow2(h + 1), d, q, r)
    ensures q + 1 < Pow2(n) && (q + 1) % Pow2(n) == q + 1
  {
    Pow2Add(n - 1, h - (n - 1));
    Pow2Doubles(h);
    Pow2Doubles(n - 1);
    hide Pow2, Divides;
    SignedMagicFits(Pow2(n - 1), d, Pow2(h - (n - 1)), q, r);
    SmallMod(q + 1, Pow2(n));
  }

  lemma NextMultiple(w: nat, d: nat, q: nat, r: nat)
    requires Divides(w, d, q, r)
    ensures (q + 1) * d == w + (d - r) && 0 < d - r <= d
  {
  }

  /** Where the search stops: one more power than its last bound, with the product test passed. */
  lemma SearchFound(n: nat, d: nat, h: nat, q: nat, r: nat)
    requires n >= 2 && 2 <= d < Pow2(n - 1) && h >= n - 1 && Below(Pow2(h), Pow2(n - 1), d)
    requires LastCritical(Pow2(n - 1), d) >= 0
    requires Divides(Pow2(h + 1), d, q, r) && Exceeds(Pow2(h + 1), LastCritical(Pow2(n - 1), d), d - r)
    ensures q + 1 < Pow2(n) && (q + 1) % Pow2(n) == q + 1
    ensures SignedMagicFor(n, d, SMagic(q + 1, h + 1 - n))
  {
    hide Pow2, Divides, Below, LastCritical;
    PowerBelow(n, d, h);
    SearchFits(n, d, h, q, r);
    NextMultiple(Pow2(h + 1), d, q, r);
  }

  lemma StartBelow(t: nat, d: nat)
    requires t > 0 && d >= 2
    ensures Below(t, t, d)
  {
    MulMonotone(t, 2, d);
  }

  lemma StartDivides(t: nat, d: nat)
    requires d > 0
    ensures t / d >= 0 && t - t / d * d >= 0 && Divides(t, d, t / d, t - t / d * d)
  {
    DivMod(t, d);
    assert t / d * d == d * (t / d);
    if t / d < 0 { MulMonotone(d, t / d, -1); }
  }

  /** `compute_signed_magic_32` and `compute_signed_magic_64`, on a word of `n` bits. */
  method ComputeSignedMagic(n: nat, d: nat) returns (r: SMagic)
    requires n >= 2 && 2 <= d < Pow2(n - 1)
    ensures SignedMagicFor(n, d, r)
  {
    hide Divides, SignedMagicFor, Pow2, Exceeds, Below;
    var t := Pow2(n - 1);
    var anc := t - 1 - t % d;
    assert anc == LastCritical(t, d) && 0 < anc < t by { CriticalIsCritical(t, d); }
    hide LastCritical;
    var p := n - 1;
    StartDivides(t, anc);
    StartDivides(t, d);
    var q1: nat := t / anc;
    var r1: nat := t - q1 * anc;
    var q2: nat := t / d;
    var r2: nat := t - q2 * d;
    StartBelow(t, d);
    while true
      invariant n - 1 <= p && Below(Pow2(p), t, d)
      invariant Divides(Pow2(p), anc, q1, r1)
      invariant Divides(Pow2(p), d, q2, r2)
      decreases 2 * n - p
    {
      PowerBelow(n, d, p);
      RemainderSmall(Pow2(p), d, q2, r2);
      DoubledDivision(Pow2(p), anc, q1, r1);
      DoubledDivision(Pow2(p), d, q2, r2);
      ghost var h := p;
      p := p + 1;
      q1 := q1 * 2;
      r1 := r1 * 2;
      if r1 >= anc {
        q1 := q1 + 1;
        r1 := r1 - anc;
      }
      q2 := q2 * 2;
      r2 := r2 * 2;
      if r2 >= d {
        q2 := q2 + 1;
        r2 := r2 - d;
      }
      Pow2Doubles(h);
      var delta := d - r2;
      StopTest(Pow2(p), anc, q1, r1, delta);
      if q1 < delta || (q1 == delta && r1 == 0) {
        SearchBounded(t, d, Pow2(p), delta);
        continue;
      }
      SearchFound(n, d, h, q2, r2);
      break;
    }
    var magic := (q2 + 1) % Pow2(n);
    r := SMagic(magic, p - n);
  }
}
