/**
 The i686 emulation of the 64-bit float-to-integer conversions, `_mm_cvtss_si64` of
 include/xmmintrin.h (24-bit significand) and `_mm_cvtsd_si64` of include/emmintrin.h (53-bit).

 Adding and subtracting copysign(2^(p-1), x) in floating point rounds `x` to an integer. Floats
 are modelled as reals representable with `p` significant bits and exponents from `emin` up; the
 four directed roundings are those of section 4.3 of IEEE 754. Exponents are not bounded above:
 no intermediate result exceeds 2^p in magnitude.
 */
module FloatRounding {
  import opened Bits

  datatype Mode = NearestEven | Down | Up | TowardZero

  datatype Format = Format(p: nat, emin: int)

  /** The sign of a zero is observable through copysign. */
  datatype Float = NaN | Infinity(negative: bool) | Finite(negative: bool, v: real)

  // ---- powers of two ----

  function Scale(e: int): real
    decreases if e < 0 then -e else e
  {
    if e == 0 then 1.0 else if e > 0 then 2.0 * Scale(e - 1) else Scale(e + 1) / 2.0
  }

  lemma {:induction false} ScalePositive(e: int)
    ensures Scale(e) > 0.0
    decreases if e < 0 then -e else e
  {
    if e > 0 { ScalePositive(e - 1); } else if e < 0 { ScalePositive(e + 1); }
  }

  lemma ScaleStep(e: int)
    ensures Scale(e + 1) == 2.0 * Scale(e)
  {
  }

  lemma {:induction false} ScaleMonotone(d: int, e: int)
    requires d <= e
    ensures Scale(d) <= Scale(e)
    decreases e - d
  {
    if d < e {
      ScaleMonotone(d, e - 1);
      ScalePositive(e - 1);
      ScaleStep(e - 1);
    }
  }

  lemma {:induction false} ScaleIsPow2(n: nat)
    ensures Scale(n) == Pow2(n) as real
  {
    if n > 0 { ScaleIsPow2(n - 1); }
  }

  // ---- representable numbers ----

  function Magnitude(m: int): nat {
    if m < 0 then -m else m
  }

  /** `2^(p-1)`, the least full significand. */
  function Half(f: Format): nat {
    if f.p == 0 then 0 else Pow2(f.p - 1)
  }

  ghost predicate HasForm(f: Format, y: real, m: int, e: int) {
    Magnitude(m) < Pow2(f.p) && e >= f.emin && y == m as real * Scale(e)
  }

  ghost predicate Representable(f: Format, y: real) {
    exists m: int, e: int :: HasForm(f, y, m, e)
  }

  /** A canonical significand is at least half full unless the exponent is already the least one. */
  ghost predicate EvenSignificand(f: Format, y: real) {
    exists m: int, e: int ::
      HasForm(f, y, m, e) && (Magnitude(m) >= Half(f) || e == f.emin) && m % 2 == 0
  }

  function Abs(y: real): real {
    if y < 0.0 then -y else y
  }

  ghost predicate IsLeastAbove(f: Format, y: real, r: real) {
    Representable(f, r) && r >= y && forall s: real :: Representable(f, s) && s >= y ==> s >= r
  }

  ghost predicate IsGreatestBelow(f: Format, y: real, r: real) {
    Representable(f, r) && r <= y && forall s: real :: Representable(f, s) && s <= y ==> s <= r
  }

  ghost predicate IsNearestEven(f: Format, y: real, r: real) {
    && Representable(f, r)
    && (forall s: real :: Representable(f, s) ==> Abs(r - y) <= Abs(s - y))
    && ((exists s: real :: Representable(f, s) && s != r && Abs(s - y) == Abs(r - y)) ==> EvenSignificand(f, r))
  }

  /** `r` is the real `y` rounded to the format. */
  ghost predicate IsRounding(f: Format, mode: Mode, y: real, r: real) {
    match mode
    case Up => IsLeastAbove(f, y, r)
    case Down => IsGreatestBelow(f, y, r)
    case TowardZero => if y >= 0.0 then IsGreatestBelow(f, y, r) else IsLeastAbove(f, y, r)
    case NearestEven => IsNearestEven(f, y, r)
  }

  // ---- integers among the representable numbers ----

  ghost predicate WideEnough(f: Format) {
    f.p >= 2 && f.emin <= 0
  }

  lemma IntegersRepresentable(f: Format, k: int)
    requires WideEnough(f) && Magnitude(k) <= Pow2(f.p)
    ensures Representable(f, k as real)
  {
    if Magnitude(k) < Pow2(f.p) {
      assert HasForm(f, k as real, k, 0);
    } else {
      var h: int := Half(f);
      h := if k > 0 then h else 0 - h;
      assert Scale(1) == 2.0 * Scale(0);
      assert HasForm(f, k as real, h, 1);
    }
  }

  /** At and above 2^(p-1) the spacing is at least one: representable means integral. */
  lemma LargeMeansIntegral(f: Format, y: real) returns (k: int)
    requires WideEnough(f) && Representable(f, y) && Abs(y) >= Half(f) as real
    ensures y == k as real
  {
    var m, e :| HasForm(f, y, m, e);
    k := IntegralForm(f, y, m, e);
  }

  lemma IntegralForm(f: Format, y: real, m: int, e: int) returns (k: int)
    requires f.p >= 2 && HasForm(f, y, m, e) && Abs(y) >= Half(f) as real
    ensures e >= 0 && y == k as real && k == m * Pow2(e)
  {
    if e < 0 {
      TooSmall(f, y, m, e);
    }
    ScaleIsPow2(e);
    k := m * Pow2(e);
    IntProduct(m, Pow2(e));
  }

  lemma IntProduct(m: int, q: int)
    ensures (m * q) as real == m as real * q as real
  {
  }

  lemma TooSmall(f: Format, y: real, m: int, e: int)
    requires f.p >= 2 && e < 0 && HasForm(f, y, m, e)
    ensures Abs(y) < Half(f) as real
  {
    ScalePositive(e);
    ScaleMonotone(e, -1);
    assert Scale(-1) == Scale(0) / 2.0 == 0.5;
    assert Magnitude(m) < 2 * Half(f);
    hide Scale, Half, Pow2, Magnitude, Abs;
    SmallProduct(m, Scale(e), Half(f));
  }

  /** A product under a name, to be compared without being multiplied out. */
  function Scaled(a: real, s: real): real {
    a * s
  }

  lemma SmallProduct(m: int, s: real, h: nat)
    requires 0.0 < s <= 0.5 && Magnitude(m) < 2 * h
    ensures Abs(Scaled(m as real, s)) < h as real
  {
    hide Abs, Magnitude, Scaled;
    var a := Magnitude(m);
    MagnitudeOfProduct(m, s);
    ScaledBelow(a as real, s);
    HalfOf(a, h);
  }

  lemma ScaledBelow(a: real, s: real)
    requires a >= 0.0 && 0.0 < s <= 0.5
    ensures Scaled(a, s) <= Scaled(a, 0.5)
  {
    ProductBelow(a, s);
  }

  lemma HalfOf(a: nat, h: nat)
    requires a < 2 * h
    ensures Scaled(a as real, 0.5) < h as real
  {
  }

  lemma MagnitudeOfProduct(m: int, s: real)
    requires s > 0.0
    ensures Abs(Scaled(m as real, s)) == Scaled(Magnitude(m) as real, s)
  {
    var r := Magnitude(m) as real;
    PositiveProduct(r, s);
    if m < 0 {
      assert m as real == -r;
      NegatedProduct(r, s);
    }
  }

  lemma NegatedProduct(r: real, s: real)
    ensures (-r) * s == -(r * s)
  {
  }

  lemma PositiveProduct(a: real, s: real)
    requires a >= 0.0 && s > 0.0
    ensures a * s >= 0.0
  {
  }

  lemma ProductBelow(a: real, s: real)
    requires a >= 0.0 && 0.0 < s <= 0.5
    ensures a * s <= a * 0.5
  {
    assert a * (0.5 - s) >= 0.0;
  }

  // ---- rounding to an integer ----

  function RoundToInt(mode: Mode, v: real): int {
    var n := v.Floor;
    var d := v - n as real;
    match mode
    case Down => n
    case Up => if d == 0.0 then n else n + 1
    case TowardZero => if v >= 0.0 || d == 0.0 then n else n + 1
    case NearestEven => if d < 0.5 || (d == 0.5 && n % 2 == 0) then n else n + 1
  }

  /** Truncation, the C cast to an integer type. */
  function Truncate(v: real): int {
    RoundToInt(TowardZero, v)
  }

  lemma FloorShift(v: real, k: int)
    ensures (v + k as real).Floor == v.Floor + k
  {
  }

  /** Rounding commutes with adding an even integer that keeps the sign. */
  lemma RoundShift(mode: Mode, v: real, k: int)
    requires k % 2 == 0 && (mode == TowardZero ==> v >= 0.0 && k >= 0)
    ensures RoundToInt(mode, v + k as real) == RoundToInt(mode, v) + k
  {
    FloorShift(v, k);
  }

  function Opposite(mode: Mode): Mode {
    match mode
    case Up => Down
    case Down => Up
    case TowardZero => TowardZero
    case NearestEven => NearestEven
  }

  lemma RoundNegate(mode: Mode, v: real)
    ensures RoundToInt(mode, -v) == -RoundToInt(Opposite(mode), v)
  {
    var n := v.Floor;
    if v == n as real {
      assert (-v).Floor == -n;
    } else {
      assert (-v).Floor == -n - 1;
    }
  }

  // ---- the upper binade: floats in [2^(p-1), 2^p] are the integers ----

  ghost predicate InBinade(f: Format, y: real)
    requires f.p >= 1
  {
    Half(f) as real <= y < Pow2(f.p) as real
  }

  /** A float that is at least 2^(p-1) and is not above `y + 1` is an integer of the binade. */
  lemma AboveHalf(f: Format, s: real) returns (k: int)
    requires WideEnough(f) && Representable(f, s) && s >= Half(f) as real
    ensures s == k as real
  {
    k := LargeMeansIntegral(f, s);
  }

  lemma RoundInBinade(f: Format, mode: Mode, y: real, r: real)
    requires WideEnough(f) && InBinade(f, y)
    ensures IsRounding(f, mode, y, r) <==> r == RoundToInt(mode, y) as real
  {
    match mode
    case Down => DownInBinade(f, y, r);
    case TowardZero => DownInBinade(f, y, r);
    case Up => UpInBinade(f, y, r);
    case NearestEven => NearestInBinade(f, y, r);
  }

  lemma BelowFloor(y: real, k: int)
    ensures k as real <= y <==> k <= y.Floor
    ensures k as real >= y <==> k >= RoundToInt(Up, y)
  {
  }

  lemma DownInBinade(f: Format, y: real, r: real)
    requires WideEnough(f) && InBinade(f, y)
    ensures IsGreatestBelow(f, y, r) <==> r == y.Floor as real
  {
    hide Representable;
    var n := y.Floor;
    BelowFloor(y, Half(f));
    BelowFloor(y, Pow2(f.p));
    IntegersRepresentable(f, n);
    if IsGreatestBelow(f, y, r) {
      var k := AboveHalf(f, r);
      BelowFloor(y, k);
    }
    forall s: real | Representable(f, s) && s <= y
      ensures s <= n as real
    {
      if s >= Half(f) as real {
        var k := AboveHalf(f, s);
        BelowFloor(y, k);
      }
    }
  }

  lemma UpInBinade(f: Format, y: real, r: real)
    requires WideEnough(f) && InBinade(f, y)
    ensures IsLeastAbove(f, y, r) <==> r == RoundToInt(Up, y) as real
  {
    hide Representable;
    var n := RoundToInt(Up, y);
    BelowFloor(y, Half(f));
    BelowFloor(y, Pow2(f.p));
    BelowFloor(y, n);
    IntegersRepresentable(f, n);
    if IsLeastAbove(f, y, r) {
      var k := AboveHalf(f, r);
      BelowFloor(y, k);
    }
    forall s: real | Representable(f, s) && s >= y
      ensures s >= n as real
    {
      var k := AboveHalf(f, s);
      BelowFloor(y, k);
    }
  }

  lemma NearestInBinade(f: Format, y: real, r: real)
    requires WideEnough(f) && InBinade(f, y)
    ensures IsNearestEven(f, y, r) <==> r == RoundToInt(NearestEven, y) as real
  {
    if IsNearestEven(f, y, r) {
      NearestIsRounded(f, y, r);
    }
    if r == RoundToInt(NearestEven, y) as real {
      RoundedIsNearest(f, y);
    }
  }

  lemma NearestIsRounded(f: Format, y: real, r: real)
    requires WideEnough(f) && InBinade(f, y) && IsNearestEven(f, y, r)
    ensures r == RoundToInt(NearestEven, y) as real
  {
    hide Representable, EvenSignificand;
    var n := y.Floor;
    assert Half(f) <= n < Pow2(f.p);
    IntegersRepresentable(f, n);
    IntegersRepresentable(f, n + 1);
    IntegersRepresentable(f, Half(f));
    assert Abs(r - y) <= Abs(n as real - y) && Abs(r - y) <= Abs((n + 1) as real - y);
    assert Abs(r - y) <= Abs(Half(f) as real - y);
    var k := AboveHalf(f, r);
    assert k == n || k == n + 1;
    if y - n as real == 0.5 {
      var other := if k == n then (n + 1) as real else n as real;
      assert Representable(f, other) && other != r && Abs(other - y) == Abs(r - y);
      EvenInBinade(f, k);
    }
  }

  /** In the binade an even significand is an even integer. */
  lemma EvenInBinade(f: Format, k: int)
    requires WideEnough(f) && Half(f) <= k <= Pow2(f.p) && EvenSignificand(f, k as real)
    ensures k % 2 == 0
  {
    var m, e :| HasForm(f, k as real, m, e) && (Magnitude(m) >= Half(f) || e == f.emin) && m % 2 == 0;
    var k' := IntegralForm(f, k as real, m, e);
    assert k == k';
    EvenTimes(m, Pow2(e));
  }

  lemma EvenTimes(m: int, q: int)
    requires m % 2 == 0
    ensures (m * q) % 2 == 0
  {
    var h := m / 2;
    assert m == 2 * h;
    assert m * q == 2 * (h * q);
  }

  /** No integer is nearer than the rounded one, and a tie is won by an even one. */
  lemma NearestInteger(y: real, k: int)
    ensures var n := RoundToInt(NearestEven, y);
            && Abs(n as real - y) <= Abs(k as real - y)
            && Abs(n as real - y) <= 0.5
            && (k != n && Abs(k as real - y) == Abs(n as real - y) ==> n % 2 == 0)
  {
    BelowFloor(y, k);
  }

  lemma RoundedIsNearest(f: Format, y: real)
    requires WideEnough(f) && InBinade(f, y)
    ensures IsNearestEven(f, y, RoundToInt(NearestEven, y) as real)
  {
    hide Representable, EvenSignificand;
    var n := RoundToInt(NearestEven, y);
    var r := n as real;
    BelowFloor(y, Half(f));
    BelowFloor(y, Pow2(f.p));
    IntegersRepresentable(f, n);
    NearestInteger(y, Half(f));
    forall s: real | Representable(f, s)
      ensures Abs(r - y) <= Abs(s - y)
      ensures s != r && Abs(s - y) == Abs(r - y) ==> n % 2 == 0
    {
      if s >= Half(f) as real {
        var k := AboveHalf(f, s);
        NearestInteger(y, k);
      } else {
        assert Abs(s - y) > Abs(Half(f) as real - y);
      }
    }
    if n % 2 == 0 {
      EvenIntegerSignificand(f, n);
    }
  }

  lemma HalfBelow(f: Format)
    requires f.p >= 1
    ensures 1 <= Half(f) < Pow2(f.p) == 2 * Half(f)
  {
  }

  lemma EvenIntegerSignificand(f: Format, n: int)
    requires WideEnough(f) && Half(f) <= n <= Pow2(f.p) && n % 2 == 0
    ensures EvenSignificand(f, n as real)
  {
    HalfIsEven(f);
    hide Half, Pow2, HasForm, EvenSignificand;
    if n < Pow2(f.p) {
      PlainForm(f, n);
      EvenWitness(f, n as real, n, 0);
    } else {
      DoubledForm(f, Half(f));
      EvenWitness(f, n as real, Half(f), 1);
    }
  }

  lemma PlainForm(f: Format, n: nat)
    requires WideEnough(f) && n < Pow2(f.p)
    ensures HasForm(f, n as real, n, 0)
  {
  }

  lemma DoubledForm(f: Format, h: nat)
    requires WideEnough(f) && h < Pow2(f.p)
    ensures HasForm(f, (2 * h) as real, h, 1)
  {
    assert Scale(1) == 2.0;
  }

  lemma EvenWitness(f: Format, y: real, m: nat, e: int)
    requires HasForm(f, y, m, e) && m >= Half(f) && m % 2 == 0
    ensures EvenSignificand(f, y)
  {
    hide HasForm, Half;
    assert Magnitude(m) == m;
  }

  // ---- the same below zero, by symmetry ----

  lemma RepresentableNegate(f: Format, y: real)
    ensures Representable(f, y) ==> Representable(f, -y)
    ensures EvenSignificand(f, y) ==> EvenSignificand(f, -y)
  {
    if Representable(f, y) {
      var m, e :| HasForm(f, y, m, e);
      NegateForm(f, y, m, e);
    }
    if EvenSignificand(f, y) {
      var m, e :| HasForm(f, y, m, e) && (Magnitude(m) >= Half(f) || e == f.emin) && m % 2 == 0;
      NegateForm(f, y, m, e);
      assert (-m) % 2 == 0;
    }
  }

  lemma NegateForm(f: Format, y: real, m: int, e: int)
    requires HasForm(f, y, m, e)
    ensures HasForm(f, -y, -m, e)
  {
    assert (-m) as real == -(m as real);
    assert (-(m as real)) * Scale(e) == -(m as real * Scale(e));
  }

  lemma NegateRounding(f: Format, mode: Mode, y: real, r: real)
    requires y != 0.0 && IsRounding(f, mode, y, r)
    ensures IsRounding(f, Opposite(mode), -y, -r)
  {
    RepresentableNegate(f, r);
    forall s: real { RepresentableNegate(f, s); }
    forall s: real | Representable(f, s)
      ensures Representable(f, -s) && Abs(-s - y) == Abs(s - -y)
    {
    }
    if mode == NearestEven {
      if exists s: real :: Representable(f, s) && s != -r && Abs(s - -y) == Abs(-r - -y) {
        var s :| Representable(f, s) && s != -r && Abs(s - -y) == Abs(-r - -y);
        assert Representable(f, -s) && -s != r && Abs(-s - y) == Abs(r - y);
      }
    }
  }

  // ---- the add/subtract pair ----

  /** A representable number rounds to itself, whatever the mode. */
  lemma ExactRounding(f: Format, mode: Mode, y: real, r: real)
    requires Representable(f, y)
    ensures IsRounding(f, mode, y, r) <==> r == y
  {
    hide Representable, EvenSignificand;
    if mode == NearestEven && IsRounding(f, mode, y, r) {
      assert Abs(r - y) <= Abs(y - y);
    }
  }

  lemma HalfIsEven(f: Format)
    requires f.p >= 2
    ensures Half(f) % 2 == 0 && 0 < Half(f) && Pow2(f.p) == 2 * Half(f)
  {
    assert Half(f) == 2 * Pow2(f.p - 2);
  }

  lemma RoundWithin(mode: Mode, v: real, h: nat)
    requires 0.0 <= v < h as real
    ensures 0 <= RoundToInt(mode, v) <= h
  {
  }

  /** For `0 <= x < 2^(p-1)` the sum with 2^(p-1) rounds to the rounded `x` plus 2^(p-1). */
  lemma AddMagic(f: Format, mode: Mode, x: real, s: real)
    requires WideEnough(f) && 0.0 <= x < Half(f) as real
    ensures IsRounding(f, mode, x + Half(f) as real, s) <==> s == (RoundToInt(mode, x) + Half(f)) as real
  {
    HalfBelow(f);
    HalfIsEven(f);
    RoundInBinade(f, mode, x + Half(f) as real, s);
    RoundShift(mode, x, Half(f));
  }

  function Magic(f: Format, negative: bool): real {
    if negative then -(Half(f) as real) else Half(f) as real
  }

  ghost predicate SmallFinite(f: Format, x: Float) {
    x.Finite? && (x.v < 0.0 ==> x.negative) && (x.v > 0.0 ==> !x.negative) && Abs(x.v) < Half(f) as real
  }

  /** The sum with copysign(2^(p-1), x) has exactly one rounding, at the rounded `x`. */
  lemma AddMagicSigned(f: Format, mode: Mode, x: Float, s: real)
    requires WideEnough(f) && SmallFinite(f, x)
    ensures IsRounding(f, mode, x.v + Magic(f, x.negative), s) <==> s == RoundToInt(mode, x.v) as real + Magic(f, x.negative)
  {
    hide IsRounding, RoundToInt, Half;
    if !x.negative {
      AddMagic(f, mode, x.v, s);
    } else {
      HalfBelow(f);
      var y := x.v + Magic(f, true);
      assert -y == -x.v + Half(f) as real;
      AddMagic(f, Opposite(mode), -x.v, -s);
      RoundNegate(Opposite(mode), x.v);
      assert Opposite(Opposite(mode)) == mode;
      if IsRounding(f, mode, y, s) {
        NegateRounding(f, mode, y, s);
      }
      if IsRounding(f, Opposite(mode), -y, -s) {
        NegateRounding(f, Opposite(mode), -y, -s);
        assert -(-y) == y && -(-s) == s;
      }
    }
  }

  /** Subtracting it again is exact. */
  lemma SubtractMagicExact(f: Format, mode: Mode, x: Float, t: real)
    requires WideEnough(f) && SmallFinite(f, x)
    ensures IsRounding(f, mode, RoundToInt(mode, x.v) as real, t) <==> t == RoundToInt(mode, x.v) as real
  {
    HalfBelow(f);
    if x.negative {
      RoundNegate(mode, -x.v);
      RoundWithin(Opposite(mode), -x.v, Half(f));
      assert -(-x.v) == x.v;
    } else {
      RoundWithin(mode, x.v, Half(f));
    }
    IntegersRepresentable(f, RoundToInt(mode, x.v));
    ExactRounding(f, mode, RoundToInt(mode, x.v) as real, t);
  }

  // ---- the conversions ----

  ghost predicate HasRounding(f: Format, mode: Mode, y: real) {
    exists r: real :: IsRounding(f, mode, y, r)
  }

  ghost function Rounded(f: Format, mode: Mode, y: real): (r: real)
    requires HasRounding(f, mode, y)
    ensures IsRounding(f, mode, y, r)
  {
    var r: real :| IsRounding(f, mode, y, r);
    r
  }

  /** The ADD: the sum with copysign(2^(p-1), x), rounded. */
  ghost function MagicSum(f: Format, mode: Mode, x: Float): (s: real)
    requires WideEnough(f) && SmallFinite(f, x)
    ensures s == RoundToInt(mode, x.v) as real + Magic(f, x.negative)
  {
    hide IsRounding, SmallFinite, WideEnough;
    var n := RoundToInt(mode, x.v) as real + Magic(f, x.negative);
    AddMagicSigned(f, mode, x, n);
    var s := Rounded(f, mode, x.v + Magic(f, x.negative));
    AddMagicSigned(f, mode, x, s);
    s
  }

  /** The SUB: the magic constant taken out again, rounded. */
  ghost function AddSubtract(f: Format, mode: Mode, x: Float): (t: real)
    requires WideEnough(f) && SmallFinite(f, x)
    ensures t == RoundToInt(mode, x.v) as real
  {
    hide IsRounding, SmallFinite, WideEnough, MagicSum;
    var n := RoundToInt(mode, x.v) as real;
    SubtractMagicExact(f, mode, x, n);
    assert MagicSum(f, mode, x) - Magic(f, x.negative) == n;
    var t := Rounded(f, mode, MagicSum(f, mode, x) - Magic(f, x.negative));
    SubtractMagicExact(f, mode, x, t);
    t
  }

  function Limit(): nat {
    Pow2(63)
  }

  /** The integer indefinite value, -2^63. */
  function Indefinite(): int {
    0 - Limit()
  }

  /** The header's code. */
  ghost function Emulate(f: Format, mode: Mode, x: Float): int
    requires WideEnough(f)
    requires x.Finite? ==> (x.v < 0.0 ==> x.negative) && (x.v > 0.0 ==> !x.negative)
  {
    match x
    case NaN => Indefinite()
    case Infinity(_) => Indefinite()
    case Finite(_, v) =>
      if Abs(v) < Half(f) as real then Truncate(AddSubtract(f, mode, x))
      else if -(Limit() as real) <= v < Limit() as real then Truncate(v)
      else Indefinite()
  }

  /** The instruction: round per MXCSR.RC, or the indefinite value when the result does not fit. */
  function Convert(mode: Mode, x: Float): int {
    match x
    case NaN => Indefinite()
    case Infinity(_) => Indefinite()
    case Finite(_, v) =>
      var n := RoundToInt(mode, v);
      if Indefinite() <= n < Limit() then n else Indefinite()
  }

  /** `n` is the integer that the mode picks for `v`. */
  predicate IsIntegerFor(mode: Mode, v: real, n: int) {
    match mode
    case Down => n as real <= v < n as real + 1.0
    case Up => n as real - 1.0 < v <= n as real
    case TowardZero => if v >= 0.0 then n as real <= v < n as real + 1.0 else n as real - 1.0 < v <= n as real
    case NearestEven => Abs(v - n as real) <= 0.5 && (Abs(v - n as real) == 0.5 ==> n % 2 == 0)
  }

  /** Every mode picks exactly one integer. */
  lemma RoundToIntExactly(mode: Mode, v: real, n: int)
    ensures IsIntegerFor(mode, v, n) <==> n == RoundToInt(mode, v)
  {
    var k := v.Floor;
    assert k as real <= v < k as real + 1.0;
    if IsIntegerFor(mode, v, n) {
      assert n == k || n == k + 1;
    }
  }

  /** The converted value is the picked integer where it fits 64 bits, and the least 64-bit integer otherwise. */
  lemma ConvertExactly(mode: Mode, x: Float, n: int)
    ensures !x.Finite? ==> Convert(mode, x) == -0x8000_0000_0000_0000
    ensures x.Finite? && IsIntegerFor(mode, x.v, n) ==>
              Convert(mode, x) ==
              if -0x8000_0000_0000_0000 <= n <= 0x7FFF_FFFF_FFFF_FFFF then n else -0x8000_0000_0000_0000
  {
    LimitIs();
    if x.Finite? { RoundToIntExactly(mode, x.v, n); }
  }

  lemma LimitIs()
    ensures Limit() == 0x8000_0000_0000_0000
  {
    hide Pow2;
    assert Pow2(3) == 8 && Pow2(4) == 16 by { PowersToFour(); }
    Pow2Add(4, 4);
    Pow2Add(8, 8);
    Pow2Add(16, 16);
    Pow2Add(32, 16);
    Pow2Add(48, 8);
    Pow2Add(56, 4);
    Pow2Add(60, 3);
  }

  lemma PowersToFour()
    ensures Pow2(3) == 8 && Pow2(4) == 16
  {
  }

  /** A float of format `f`. */
  ghost predicate ValidFloat(f: Format, x: Float) {
    x.Finite? ==> (x.v < 0.0 ==> x.negative) && (x.v > 0.0 ==> !x.negative) && Representable(f, x.v)
  }

  lemma IntegralRoundsToItself(mode: Mode, k: int)
    ensures RoundToInt(mode, k as real) == k
  {
  }

  /**
   The emulation is the instruction, in every rounding mode and on every float, for every
   significand size that leaves the emulated range inside 64 bits.
   */
  lemma EmulationExact(f: Format, mode: Mode, x: Float)
    requires WideEnough(f) && f.p <= 63 && ValidFloat(f, x)
    ensures Emulate(f, mode, x) == Convert(mode, x)
  {
    if x.Finite? {
      HalfBelowLimit(f);
      hide Pow2, Emulate, Convert, Representable, Half, Limit;
      if Abs(x.v) < Half(f) as real {
        EmulationSmall(f, mode, x);
      } else {
        EmulationLarge(f, mode, x);
      }
    }
  }

  lemma HalfBelowLimit(f: Format)
    requires WideEnough(f) && f.p <= 63
    ensures Half(f) < Limit()
  {
    Pow2Monotone(f.p - 1, 62);
    assert Limit() == 2 * Pow2(62);
  }

  lemma EmulationSmall(f: Format, mode: Mode, x: Float)
    requires WideEnough(f) && Half(f) < Limit() && SmallFinite(f, x)
    ensures Emulate(f, mode, x) == Convert(mode, x)
  {
    hide Pow2, Limit, Half, AddSubtract, RoundToInt;
    SmallConverts(f, mode, x);
    IntegralRoundsToItself(TowardZero, RoundToInt(mode, x.v));
  }

  lemma EmulationLarge(f: Format, mode: Mode, x: Float)
    requires WideEnough(f) && Half(f) < Limit() && ValidFloat(f, x) && x.Finite? && Abs(x.v) >= Half(f) as real
    ensures Emulate(f, mode, x) == Convert(mode, x)
  {
    hide Pow2, Limit, Half, RoundToInt, Representable;
    var k := LargeMeansIntegral(f, x.v);
    IntegralRoundsToItself(mode, k);
    IntegralRoundsToItself(TowardZero, k);
  }

  /** Below 2^(p-1) the rounded value is far inside the 64-bit range. */
  lemma SmallConverts(f: Format, mode: Mode, x: Float)
    requires WideEnough(f) && SmallFinite(f, x)
    ensures -(Half(f) as int) <= RoundToInt(mode, x.v) <= Half(f)
  {
    if x.negative {
      RoundNegate(mode, -x.v);
      RoundWithin(Opposite(mode), -x.v, Half(f));
      assert -(-x.v) == x.v;
    } else {
      RoundWithin(mode, x.v, Half(f));
    }
  }

  /** `_mm_cvtss_si64`: 24-bit significand, least exponent -149. */
  lemma CvtssSi64(mode: Mode, x: Float)
    requires ValidFloat(Format(24, -149), x)
    ensures Emulate(Format(24, -149), mode, x) == Convert(mode, x)
  {
    EmulationExact(Format(24, -149), mode, x);
  }

  /** `_mm_cvtsd_si64`: 53-bit significand, least exponent -1074. */
  lemma CvtsdSi64(mode: Mode, x: Float)
    requires ValidFloat(Format(53, -1074), x)
    ensures Emulate(Format(53, -1074), mode, x) == Convert(mode, x)
  {
    EmulationExact(Format(53, -1074), mode, x);
  }
}
