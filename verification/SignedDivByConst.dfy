/**
 Signed division and remainder by constants, src/passes/div_by_const.rs: magic sequences, powers
 of two, negative divisors and the most negative word.
 */
module SignedDivByConst {
  import opened Options
  import opened Arith
  import opened Bits
  import opened BitScatter
  import opened MagicNumbers
  import opened WordIr
  import opened DivByConst

  // ---- signed: the magic sequences ----

  /** Add one to a negative value, by its own sign bit. */
  lemma SignFix(a: int)
    ensures Signed(Apply(Add, a, Apply(LShr, a, 63, I64), I64), I64) == Upped(Signed(a, I64))
  {
    SignBit(a, I64);
    SignedRange(a, I64);
    SignedSame(0, I64);
    SignedSame(1, I64);
    hide Apply, Signed, Unsigned;
    AddReads(a, Apply(LShr, a, 63, I64), I64);
  }

  function MaybeShift(src: nat, shift: nat, tmp: nat): seq<Inst> {
    if shift > 0 then [BinOp(tmp, AShr, Val(src), Imm(shift), I64)] else []
  }

  lemma MaybeShiftRuns(src: nat, shift: nat, tmp: nat, env: Env)
    requires shift < 64
    ensures var v := Reg(Run(MaybeShift(src, shift, tmp), env), if shift > 0 then tmp else src);
            Signed(v, I64) == Quotient(Signed(Reg(env, src), I64), Pow2(shift))
  {
    hide Apply, Signed, Unsigned, Quotient, Pow2, Run;
    if shift > 0 {
      AShrReads(Reg(env, src), shift, I64);
      RunOne(BinOp(tmp, AShr, Val(src), Imm(shift), I64), env);
    } else {
      NoShift(Signed(Reg(env, src), I64), shift);
      RunNone(env);
    }
  }

  lemma RunNone(env: Env)
    ensures Run([], env) == env
  {
  }

  /** The high word of a signed product. */
  function SignedHigh(x: int, m: nat, n: nat): int {
    Quotient(x * m, Pow2(n))
  }

  /** The truncated quotient from the floored one. */
  lemma FlooredToTruncated(n: nat, d: nat, r: SMagic, x: int)
    requires n >= 2 && 2 <= d < Pow2(n - 1) && SignedMagicFor(n, d, r) && 0 - Pow2(n - 1) <= x < Pow2(n - 1)
    ensures var f := Quotient(SignedHigh(x, r.magic, n), Pow2(r.shift));
            Upped(f) == Truncated(x, d)
    ensures 0 - Pow2(n - 1) <= Truncated(x, d) < Pow2(n - 1)
  {
    SignedMagicDivides(n, d, r, x);
    hide Quotient, SignedMagicFor, Pow2;
    if x >= 0 { QuotientShrinks(x, d); } else { QuotientShrinks(0 - x, d); }
  }

  function Sdiv32Head(x: Operand, magic: nat, next: nat): seq<Inst> {
    [ Cast(next, x, I32, I64),
      BinOp(next + 1, Mul, Val(next), Imm(magic), I64),
      BinOp(next + 2, AShr, Val(next + 1), Imm(32), I64) ]
  }

  function Sdiv32Tail(dest: nat, shifted: nat): seq<Inst> {
    [ BinOp(shifted + 1, LShr, Val(shifted), Imm(63), I64),
      BinOp(shifted + 2, Add, Val(shifted), Val(shifted + 1), I64),
      Cast(dest, Val(shifted + 2), I64, I32) ]
  }

  /** The magic sequence of `expand_sdiv32`. */
  function Sdiv32Code(dest: nat, x: Operand, m: SMagic, next: nat): seq<Inst> {
    Sdiv32Head(x, m.magic, next) +
    (MaybeShift(next + 2, m.shift, next + 3) + Sdiv32Tail(dest, if m.shift > 0 then next + 3 else next + 2))
  }

  lemma SignedProductFits(s: int, m: nat)
    requires -0x8000_0000 <= s < 0x8000_0000 && m < 0x1_0000_0000
    ensures -0x8000_0000_0000_0000 <= s * m < 0x8000_0000_0000_0000
  {
    MulMonotone(m, s, 0x7FFF_FFFF);
    MulMonotone(m, -0x8000_0000, s);
    assert s * m == m * s;
  }

  lemma Sdiv32HeadValue(s: int, a: int, magic: nat)
    requires -0x8000_0000 <= s < 0x8000_0000 && magic < 0x1_0000_0000 && Signed(a, I64) == s
    ensures Signed(Apply(AShr, Apply(Mul, a, magic, I64), 32, I64), I64) == SignedHigh(s, magic, 32)
  {
    hide Apply, Signed, Unsigned, Quotient, Pow2;
    SignedProductFits(s, magic);
    MulReads(a, magic, I64);
    SignedSame(s * magic, I64);
    AShrReads(Apply(Mul, a, magic, I64), 32, I64);
  }

  lemma Sdiv32HeadRuns(x: Operand, magic: nat, next: nat, env: Env)
    requires magic < Pow2(32)
    ensures Signed(Reg(Run(Sdiv32Head(x, magic, next), env), next + 2), I64) ==
            SignedHigh(Signed(Eval(env, x), I32), magic, 32)
  {
    PowersOfTwo();
    hide Apply, Signed, Unsigned, Quotient, Pow2, Run, SignedHigh;
    var s := Signed(Eval(env, x), I32);
    SignedRange(Eval(env, x), I32);
    SignedSame(s, I64);
    Sdiv32HeadValue(s, Unsigned(s, I64), magic);
    RunThree(Cast(next, x, I32, I64), BinOp(next + 1, Mul, Val(next), Imm(magic), I64), BinOp(next + 2, AShr, Val(next + 1), Imm(32), I64), env);
  }

  lemma Sdiv32TailRuns(dest: nat, shifted: nat, env: Env)
    requires var f := Signed(Reg(env, shifted), I64);
             -0x8000_0000 <= Upped(f) < 0x8000_0000
    ensures var f := Signed(Reg(env, shifted), I64);
            Signed(Reg(Run(Sdiv32Tail(dest, shifted), env), dest), I32) == Upped(f)
  {
    hide Apply, Signed, Unsigned, Quotient, Pow2, Run;
    var a := Reg(env, shifted);
    SignFix(a);
    SignedSame(Signed(Apply(Add, a, Apply(LShr, a, 63, I64), I64), I64), I32);
    RunThree(BinOp(shifted + 1, LShr, Val(shifted), Imm(63), I64), BinOp(shifted + 2, Add, Val(shifted), Val(shifted + 1), I64), Cast(dest, Val(shifted + 2), I64, I32), env);
  }

  function Upped(f: int): int {
    f + if f < 0 then 1 else 0
  }

  lemma Sdiv32Steps(dest: nat, x: Operand, m: SMagic, next: nat, f: int, env: Env)
    requires m.magic < Pow2(32) && m.shift < 64 && -0x8000_0000 <= Upped(f) < 0x8000_0000
    requires f == Quotient(SignedHigh(Signed(Eval(env, x), I32), m.magic, 32), Pow2(m.shift))
    ensures Signed(Reg(Run(Sdiv32Code(dest, x, m, next), env), dest), I32) == Upped(f)
  {
    hide Pow2, Unsigned, Signed, Run, Quotient, Sdiv32Head, Sdiv32Tail, MaybeShift, SignedHigh;
    var shifted := if m.shift > 0 then next + 3 else next + 2;
    var head, mid, tail := Sdiv32Head(x, m.magic, next), MaybeShift(next + 2, m.shift, next + 3), Sdiv32Tail(dest, shifted);
    RunAppend(head, mid + tail, env);
    var e := Run(head, env);
    RunAppend(mid, tail, e);
    Sdiv32HeadRuns(x, m.magic, next, env);
    MaybeShiftRuns(next + 2, m.shift, next + 3, e);
    Sdiv32TailRuns(dest, shifted, Run(mid, e));
  }

  lemma Sdiv32Runs(dest: nat, x: Operand, d: nat, m: SMagic, next: nat, env: Env)
    requires 2 <= d < Pow2(31) && SignedMagicFor(32, d, m)
    ensures Signed(Reg(Run(Sdiv32Code(dest, x, m, next), env), dest), I32) == Truncated(Signed(Eval(env, x), I32), d)
  {
    MagicInRange(32, d, m);
    hide Pow2, SignedMagicFor, Unsigned, Signed, Run, Quotient, Truncated, Sdiv32Code, SignedHigh, Upped;
    PowersOfTwo();
    var s := Signed(Eval(env, x), I32);
    SignedRange(Eval(env, x), I32);
    FlooredToTruncated(32, d, m, s);
    Sdiv32Steps(dest, x, m, next, Quotient(SignedHigh(s, m.magic, 32), Pow2(m.shift)), env);
  }

  lemma MagicInRange(n: nat, d: nat, m: SMagic)
    requires n >= 1 && d > 0 && SignedMagicFor(n, d, m)
    ensures 0 < m.magic < Pow2(n) && m.shift <= n - 2
  {
  }

  lemma Sdiv32Writes(dest: nat, x: Operand, m: SMagic, next: nat)
    ensures var code := Sdiv32Code(dest, x, m, next); code != [] && WritesOnly(code, dest, next, next + |code| - 1)
  {
  }

  // ---- 64 bits ----

  /** `smulh` by the magic word as a signed number, plus the dividend when that number is negative. */
  function Sdiv64Head(x: Operand, magic: nat, next: nat): seq<Inst> {
    var c := Signed(magic, I64);
    [BinOp(next, SMulHigh, x, Imm(c), I64)] + if c < 0 then [BinOp(next + 1, Add, Val(next), x, I64)] else []
  }

  function HeadId(magic: nat, next: nat): nat {
    if Signed(magic, I64) < 0 then next + 1 else next
  }

  function Sdiv64Tail(dest: nat, shifted: nat): seq<Inst> {
    [BinOp(shifted + 1, LShr, Val(shifted), Imm(63), I64), BinOp(dest, Add, Val(shifted), Val(shifted + 1), I64)]
  }

  /** The magic sequence of `expand_sdiv64`. */
  function Sdiv64Code(dest: nat, x: Operand, m: SMagic, next: nat): seq<Inst> {
    var hi := HeadId(m.magic, next);
    Sdiv64Head(x, m.magic, next) +
    (MaybeShift(hi, m.shift, hi + 1) + Sdiv64Tail(dest, if m.shift > 0 then hi + 1 else hi))
  }

  /** A product of two signed words stays below a quarter of the square of the modulus, so its high word is a word. */
  lemma HighInRange(s: int, c: int)
    requires -0x8000_0000_0000_0000 <= s < 0x8000_0000_0000_0000
    requires -0x8000_0000_0000_0000 <= c < 0x1_0000_0000_0000_0000
    ensures -0x8000_0000_0000_0000 <= Quotient(s * c, 0x1_0000_0000_0000_0000) < 0x8000_0000_0000_0000
  {
    var m := 0x1_0000_0000_0000_0000;
    var q := Quotient(s * c, m);
    DivMod(s * c, m);
    ProductBounds(s, c);
  }

  lemma ProductBounds(s: int, c: int)
    requires -0x8000_0000_0000_0000 <= s < 0x8000_0000_0000_0000
    requires -0x8000_0000_0000_0000 <= c < 0x1_0000_0000_0000_0000
    ensures -0x8000_0000_0000_0000 * 0x1_0000_0000_0000_0000 <= s * c < 0x8000_0000_0000_0000 * 0x1_0000_0000_0000_0000
  {
    var h := 0x8000_0000_0000_0000;
    if c >= 0 {
      MulMonotone(c, s, h - 1);
      MulMonotone(c, 0 - h, s);
      assert s * c == c * s;
    } else {
      MulMonotone(0 - c, s, h - 1);
      MulMonotone(0 - c, 0 - h, s);
      assert s * c == 0 - (0 - c) * s;
    }
  }

  /** Lowering one factor by the modulus lowers the high word by the other factor. */
  lemma LoweredHigh(s: int, c: int, m: nat)
    requires m > 0
    ensures Quotient(s * (c - m), m) == Quotient(s * c, m) - s
  {
    DivMod(s * c, m);
    assert s * (c - m) == m * (s * c / m - s) + s * c % m by {
      assert s * (c - m) == s * c - s * m && m * (s * c / m - s) == m * (s * c / m) - m * s && s * m == m * s;
    }
    QuotientUnique(s * (c - m), m, s * c / m - s, s * c % m);
  }

  lemma SMulHighReads(a: int, c: int)
    ensures Signed(Apply(SMulHigh, a, c, I64), I64) == Quotient(Signed(a, I64) * Signed(c, I64), Modulus(I64))
  {
    hide Signed, Unsigned, Quotient;
    SignedRange(a, I64);
    SignedRange(c, I64);
    HighInRange(Signed(a, I64), Signed(c, I64));
    SignedSame(Quotient(Signed(a, I64) * Signed(c, I64), Modulus(I64)), I64);
  }

  lemma SignedWord(magic: nat)
    requires magic < Pow2(64)
    ensures var c := Signed(magic, I64);
            (if c < 0 then c == magic - Pow2(64) else c == magic) && Signed(c, I64) == c
  {
    PowersOfTwo();
    UnsignedSame(magic, I64);
    SignedRange(magic, I64);
    SignedSame(Signed(magic, I64), I64);
  }

  lemma Sdiv64HeadValue(a: int, magic: nat)
    requires magic < Pow2(64)
    ensures var c := Signed(magic, I64);
            var hi := Apply(SMulHigh, a, c, I64);
            Signed(if c < 0 then Apply(Add, hi, a, I64) else hi, I64) == SignedHigh(Signed(a, I64), magic, 64)
  {
    PowersOfTwo();
    hide Signed, Unsigned, Quotient, Apply, Pow2;
    var c := Signed(magic, I64);
    var s := Signed(a, I64);
    var hi := Apply(SMulHigh, a, c, I64);
    SignedWord(magic);
    SMulHighReads(a, c);
    if c < 0 {
      LoweredHigh(s, magic, Modulus(I64));
      SignedRange(a, I64);
      HighInRange(s, magic);
      AddReads(hi, a, I64);
    }
  }

  lemma Sdiv64HeadRuns(x: Operand, magic: nat, next: nat, env: Env)
    requires magic < Pow2(64) && Known(x, next)
    ensures Signed(Reg(Run(Sdiv64Head(x, magic, next), env), HeadId(magic, next)), I64) == SignedHigh(Signed(Eval(env, x), I64), magic, 64)
  {
    hide Apply, Signed, Unsigned, Quotient, Pow2, Run, SignedHigh;
    var c := Signed(magic, I64);
    Sdiv64HeadValue(Eval(env, x), magic);
    var mul, add := BinOp(next, SMulHigh, x, Imm(c), I64), BinOp(next + 1, Add, Val(next), x, I64);
    if c < 0 {
      RunTwo(mul, add, env);
      assert [mul] + [add] == [mul, add];
    } else {
      RunOne(mul, env);
      assert [mul] + [] == [mul];
    }
  }

  lemma Sdiv64TailRuns(dest: nat, shifted: nat, env: Env)
    ensures Signed(Reg(Run(Sdiv64Tail(dest, shifted), env), dest), I64) == Upped(Signed(Reg(env, shifted), I64))
  {
    hide Apply, Signed, Unsigned, Run;
    SignFix(Reg(env, shifted));
    RunTwo(BinOp(shifted + 1, LShr, Val(shifted), Imm(63), I64), BinOp(dest, Add, Val(shifted), Val(shifted + 1), I64), env);
  }

  lemma Sdiv64Steps(dest: nat, x: Operand, m: SMagic, next: nat, env: Env)
    requires m.magic < Pow2(64) && m.shift < 64 && Known(x, next)
    ensures Signed(Reg(Run(Sdiv64Code(dest, x, m, next), env), dest), I64) ==
            Upped(Quotient(SignedHigh(Signed(Eval(env, x), I64), m.magic, 64), Pow2(m.shift)))
  {
    hide Pow2, Unsigned, Signed, Run, Quotient, Sdiv64Head, Sdiv64Tail, MaybeShift, SignedHigh, Upped, HeadId;
    var hi := HeadId(m.magic, next);
    var shifted := if m.shift > 0 then hi + 1 else hi;
    var head, mid, tail := Sdiv64Head(x, m.magic, next), MaybeShift(hi, m.shift, hi + 1), Sdiv64Tail(dest, shifted);
    RunAppend(head, mid + tail, env);
    var e := Run(head, env);
    RunAppend(mid, tail, e);
    Sdiv64HeadRuns(x, m.magic, next, env);
    MaybeShiftRuns(hi, m.shift, hi + 1, e);
    Sdiv64TailRuns(dest, shifted, Run(mid, e));
  }

  lemma Sdiv64Runs(dest: nat, x: Operand, d: nat, m: SMagic, next: nat, env: Env)
    requires 2 <= d < Pow2(63) && SignedMagicFor(64, d, m) && Known(x, next)
    ensures Signed(Reg(Run(Sdiv64Code(dest, x, m, next), env), dest), I64) == Truncated(Signed(Eval(env, x), I64), d)
  {
    MagicInRange(64, d, m);
    hide Pow2, SignedMagicFor, Unsigned, Signed, Run, Quotient, Truncated, Sdiv64Code, SignedHigh, Upped;
    PowersOfTwo();
    SignedRange(Eval(env, x), I64);
    FlooredToTruncated(64, d, m, Signed(Eval(env, x), I64));
    Sdiv64Steps(dest, x, m, next, env);
  }

  lemma Sdiv64Writes(dest: nat, x: Operand, m: SMagic, next: nat)
    ensures var code := Sdiv64Code(dest, x, m, next); code != [] && WritesOnly(code, dest, next, next + |code| - 1)
  {
  }

  // ---- powers of two ----

  /** `(x + ((x >> (N-1)) >>> (N-k))) >> k`. */
  function SdivPow2Code(dest: nat, x: Operand, k: nat, ty: Ty, next: nat): seq<Inst> {
    [ BinOp(next, AShr, x, Imm(Width(ty) - 1), ty),
      BinOp(next + 1, LShr, Val(next), Imm(Width(ty) - k), ty),
      BinOp(next + 2, Add, x, Val(next + 1), ty),
      BinOp(dest, AShr, Val(next + 2), Imm(k), ty) ]
  }

  predicate Word(ty: Ty) {
    ty.I32? || ty.I64?
  }

  /** What a negative dividend needs added before a flooring shift. */
  function Bias(s: int, k: nat): int {
    if s < 0 then Pow2(k) - 1 else 0
  }

  lemma SignBroadcast(a: int, ty: Ty)
    requires Word(ty)
    ensures var b := Apply(AShr, a, Width(ty) - 1, ty);
            b == Unsigned(b, ty) == if Signed(a, ty) < 0 then Modulus(ty) - 1 else 0
  {
    var h := Pow2(Width(ty) - 1);
    ModulusIsPower(ty);
    SignedRange(a, ty);
    ShiftCount(Width(ty) - 1, ty);
    hide Pow2, Quotient, Signed, Unsigned, Count, Modulus;
    var s := Signed(a, ty);
    if s < 0 {
      QuotientUnique(s, h, -1, s + h);
      MinusOneReads(ty);
    } else {
      QuotientUnique(s, h, 0, s);
      UnsignedSame(0, ty);
    }
  }

  lemma MinusOneReads(ty: Ty)
    ensures Unsigned(-1, ty) == Modulus(ty) - 1 && Unsigned(Modulus(ty) - 1, ty) == Modulus(ty) - 1
  {
    ModUnique(-1, Modulus(ty), -1, Modulus(ty) - 1);
    UnsignedSame(Modulus(ty) - 1, ty);
  }

  /** The all-ones word, shifted down to its top `k` digits. */
  lemma TopOnes(k: nat, n: nat)
    requires k <= n
    ensures Quotient(Pow2(n) - 1, Pow2(n - k)) == Pow2(k) - 1
  {
    Pow2Add(n - k, k);
    hide Pow2, Quotient;
    AllButOne(Pow2(n - k), Pow2(k));
  }

  lemma AllButOne(p: nat, q: nat)
    requires p > 0
    ensures Quotient(p * q - 1, p) == q - 1
  {
    assert p * q - 1 == p * (q - 1) + (p - 1);
    QuotientUnique(p * q - 1, p, q - 1, p - 1);
  }

  lemma BiasReads(a: int, k: nat, ty: Ty)
    requires Word(ty) && 0 < k < Width(ty)
    ensures Apply(LShr, Apply(AShr, a, Width(ty) - 1, ty), Width(ty) - k, ty) == Bias(Signed(a, ty), k)
  {
    ModulusIsPower(ty);
    hide Apply, Pow2, Quotient, Signed, Unsigned, Modulus;
    SignBroadcast(a, ty);
    var b := Apply(AShr, a, Width(ty) - 1, ty);
    LShrReads(b, Width(ty) - k, ty);
    if Signed(a, ty) < 0 {
      TopOnes(k, Width(ty));
    } else {
      QuotientUnique(0, Pow2(Width(ty) - k), 0, 0);
    }
  }

  lemma BiasedSum(a: int, b: int, k: nat, ty: Ty)
    requires Word(ty) && 0 < k < Width(ty) - 1 && b == Bias(Signed(a, ty), k)
    ensures Signed(Apply(Add, a, b, ty), ty) == Signed(a, ty) + b
  {
    ModulusIsPower(ty);
    Pow2Monotone(k + 1, Width(ty) - 1);
    assert Pow2(k + 1) == 2 * Pow2(k);
    hide Apply, Pow2, Signed, Unsigned, Modulus;
    SignedRange(a, ty);
    SignedSame(b, ty);
    AddReads(a, b, ty);
  }

  /** Flooring the biased value truncates. */
  lemma BiasTruncates(s: int, k: nat)
    ensures Quotient(s + Bias(s, k), Pow2(k)) == Truncated(s, Pow2(k))
    ensures s + Bias(s, k) == Pow2(k) * Truncated(s, Pow2(k)) + (s + Bias(s, k)) % Pow2(k)
  {
    var p := Pow2(k);
    DivMod(s + Bias(s, k), p);
    if s < 0 {
      var y := 0 - s;
      var q, r := y / p, y % p;
      DivMod(y, p);
      assert p * (0 - q) == 0 - p * q;
      QuotientUnique(s + p - 1, p, 0 - q, p - 1 - r);
    }
  }

  lemma SdivPow2Runs(dest: nat, x: Operand, k: nat, ty: Ty, next: nat, env: Env)
    requires Word(ty) && 0 < k < Width(ty) - 1 && Known(x, next)
    ensures Signed(Reg(Run(SdivPow2Code(dest, x, k, ty, next), env), dest), ty) == Truncated(Signed(Eval(env, x), ty), Pow2(k))
  {
    hide Apply, Pow2, Quotient, Signed, Unsigned, Truncated, Bias, Run, Width;
    var a := Eval(env, x);
    BiasReads(a, k, ty);
    var b := Bias(Signed(a, ty), k);
    BiasedSum(a, b, k, ty);
    AShrReads(Apply(Add, a, b, ty), k, ty);
    BiasTruncates(Signed(a, ty), k);
    RunFour(BinOp(next, AShr, x, Imm(Width(ty) - 1), ty), BinOp(next + 1, LShr, Val(next), Imm(Width(ty) - k), ty),
            BinOp(next + 2, Add, x, Val(next + 1), ty), BinOp(dest, AShr, Val(next + 2), Imm(k), ty), env);
  }

  lemma SdivPow2Writes(dest: nat, x: Operand, k: nat, ty: Ty, next: nat)
    ensures WritesOnly(SdivPow2Code(dest, x, k, ty, next), dest, next, next + 3)
  {
  }

  /** `expand_sdiv32` and `expand_sdiv64`: total on every divisor from two up. */
  method ExpandSdiv(dest: nat, x: Operand, d: int, ty: Ty, next: nat) returns (code: Option<seq<Inst>>, next': nat)
    requires Word(ty) && d < Pow2(Width(ty) - 1) && Known(x, next)
    ensures code.Some? <==> d >= 2
    ensures code.Some? ==> SDivides(code.value, dest, x, d, ty) && WritesOnly(code.value, dest, next, next')
  {
    hide Pow2, Run, Signed, Truncated, SignedMagicFor, SdivPow2Code, Sdiv32Code, Sdiv64Code;
    if d < 2 {
      return None, next;
    }
    if IsPowerOfTwo(d) {
      var k := TrailingZeros(d);
      PowerOfTwoIs(d, Width(ty) - 1);
      PositiveLog(d);
      var shifts := SdivPow2Code(dest, x, k, ty, next);
      SdivPow2Writes(dest, x, k, ty, next);
      forall env: Env
        ensures Signed(Reg(Run(shifts, env), dest), ty) == TruncDiv(Signed(Eval(env, x), ty), d)
      {
        SdivPow2Runs(dest, x, k, ty, next, env);
      }
      return Some(shifts), next + 3;
    }
    var m := ComputeSignedMagic(Width(ty), d);
    var magic := if ty.I32? then Sdiv32Code(dest, x, m, next) else Sdiv64Code(dest, x, m, next);
    Sdiv32Writes(dest, x, m, next);
    Sdiv64Writes(dest, x, m, next);
    next' := next + |magic| - 1;
    forall env: Env
      ensures Signed(Reg(Run(magic, env), dest), ty) == TruncDiv(Signed(Eval(env, x), ty), d)
    {
      if ty.I32? {
        Sdiv32Runs(dest, x, d, m, next, env);
      } else {
        Sdiv64Runs(dest, x, d, m, next, env);
      }
    }
    code := Some(magic);
  }

  lemma PositiveLog(d: nat)
    requires d >= 2 && d == Pow2(TrailingZeros(d))
    ensures TrailingZeros(d) > 0
  {
  }

  // ---- remainders ----

  /** Mask the biased value and take the bias back out. */
  function SremPow2Code(dest: nat, x: Operand, k: nat, ty: Ty, next: nat): seq<Inst> {
    [ BinOp(next, AShr, x, Imm(Width(ty) - 1), ty),
      BinOp(next + 1, BitAnd, Val(next), Imm(Pow2(k) - 1), ty),
      BinOp(next + 2, Add, x, Val(next + 1), ty),
      BinOp(next + 3, BitAnd, Val(next + 2), Imm(Pow2(k) - 1), ty) ] +
    [ BinOp(dest, Sub, Val(next + 3), Val(next + 1), ty) ]
  }

  lemma MaskReads(a: int, k: nat, ty: Ty)
    requires k < Width(ty)
    ensures Apply(BitAnd, a, Pow2(k) - 1, ty) == Unsigned(a, ty) % Pow2(k)
  {
    ModulusIsPower(ty);
    Pow2Monotone(k, Width(ty));
    OnesIsPow2(k);
    hide Pow2, Unsigned, Modulus;
    UnsignedSame(Pow2(k) - 1, ty);
    LowMask(Unsigned(a, ty), k);
    LowBitsIsMod(Unsigned(a, ty), k);
  }

  /** The modulus is a multiple of the mask's range, so low digits can be read from any reading. */
  lemma LowDigits(a: int, k: nat, ty: Ty)
    requires k < Width(ty)
    ensures Unsigned(a, ty) % Pow2(k) == Signed(a, ty) % Pow2(k)
  {
    ModulusIsPower(ty);
    Pow2Add(Width(ty) - k, k);
    hide Pow2, Modulus, Unsigned;
    var p, j := Pow2(k), Pow2(Width(ty) - k);
    if Signed(a, ty) < 0 {
      assert Unsigned(a, ty) == Signed(a, ty) + j * p;
      ModShift(Signed(a, ty), j, p);
    }
  }

  lemma MaskedBias(a: int, k: nat, ty: Ty)
    requires Word(ty) && 0 < k < Width(ty)
    ensures Apply(BitAnd, Apply(AShr, a, Width(ty) - 1, ty), Pow2(k) - 1, ty) == Bias(Signed(a, ty), k)
  {
    ModulusIsPower(ty);
    Pow2Add(Width(ty) - k, k);
    hide Apply, Pow2, Signed, Unsigned, Modulus;
    SignBroadcast(a, ty);
    MaskReads(Apply(AShr, a, Width(ty) - 1, ty), k, ty);
    var p, j := Pow2(k), Pow2(Width(ty) - k);
    if Signed(a, ty) < 0 {
      AllOnesMod(j, p);
    } else {
      SmallMod(0, p);
    }
  }

  lemma AllOnesMod(j: nat, p: nat)
    requires p > 0
    ensures (j * p - 1) % p == p - 1
  {
    ModShift(-1, j, p);
    ModUnique(-1, p, -1, p - 1);
  }

  /** The masked value, on readings: what is left of the truncated remainder once the bias is out. */
  lemma MaskedRemainder(a: int, k: nat, ty: Ty)
    requires Word(ty) && 0 < k < Width(ty) - 1
    ensures var b := Bias(Signed(a, ty), k);
            var masked := Apply(BitAnd, Apply(Add, a, b, ty), Pow2(k) - 1, ty);
            0 <= masked < Pow2(k) && masked - b == TruncRem(Signed(a, ty), Pow2(k))
  {
    hide Apply, Pow2, Signed, Unsigned, Truncated, Bias, Width, Modulus;
    var b := Bias(Signed(a, ty), k);
    var c := Apply(Add, a, b, ty);
    BiasedSum(a, b, k, ty);
    MaskReads(c, k, ty);
    LowDigits(c, k, ty);
    BiasTruncates(Signed(a, ty), k);
    DivMod(Signed(a, ty) + b, Pow2(k));
  }

  lemma MaskedDifference(m: nat, s: int, k: nat, ty: Ty)
    requires Word(ty) && k < Width(ty) - 1 && m < Pow2(k)
    ensures Signed(Apply(Sub, m, Bias(s, k), ty), ty) == m - Bias(s, k)
  {
    ModulusIsPower(ty);
    Pow2Monotone(k, Width(ty) - 1);
    hide Apply, Pow2, Signed, Unsigned, Modulus;
    SignedSame(m, ty);
    SignedSame(Bias(s, k), ty);
    SubReads(m, Bias(s, k), ty);
  }

  lemma SremPow2Steps(dest: nat, x: Operand, k: nat, ty: Ty, next: nat, env: Env)
    requires Known(x, next)
    ensures var a := Eval(env, x);
            var b := Apply(BitAnd, Apply(AShr, a, Width(ty) - 1, ty), Pow2(k) - 1, ty);
            var masked := Apply(BitAnd, Apply(Add, a, b, ty), Pow2(k) - 1, ty);
            Reg(Run(SremPow2Code(dest, x, k, ty, next), env), dest) == Apply(Sub, masked, b, ty)
  {
    hide Apply, Pow2, Run, Width;
    var i1, i2, i3, i4 :=
      BinOp(next, AShr, x, Imm(Width(ty) - 1), ty), BinOp(next + 1, BitAnd, Val(next), Imm(Pow2(k) - 1), ty),
      BinOp(next + 2, Add, x, Val(next + 1), ty), BinOp(next + 3, BitAnd, Val(next + 2), Imm(Pow2(k) - 1), ty);
    RunFour(i1, i2, i3, i4, env);
    RunPush([i1, i2, i3, i4], BinOp(dest, Sub, Val(next + 3), Val(next + 1), ty), env);
  }

  lemma SremPow2Runs(dest: nat, x: Operand, k: nat, ty: Ty, next: nat, env: Env)
    requires Word(ty) && 0 < k < Width(ty) - 1 && Known(x, next)
    ensures Signed(Reg(Run(SremPow2Code(dest, x, k, ty, next), env), dest), ty) == TruncRem(Signed(Eval(env, x), ty), Pow2(k))
  {
    hide Apply, Pow2, Signed, Unsigned, Truncated, TruncRem, Bias, Width, Modulus, Run, SremPow2Code;
    var a := Eval(env, x);
    SremPow2Steps(dest, x, k, ty, next, env);
    MaskedBias(a, k, ty);
    MaskedRemainder(a, k, ty);
    var b := Bias(Signed(a, ty), k);
    MaskedDifference(Apply(BitAnd, Apply(Add, a, b, ty), Pow2(k) - 1, ty), Signed(a, ty), k, ty);
  }

  lemma SremPow2Writes(dest: nat, x: Operand, k: nat, ty: Ty, next: nat)
    ensures WritesOnly(SremPow2Code(dest, x, k, ty, next), dest, next, next + 4)
  {
  }

  lemma TruncRemSmall(s: int, d: nat)
    requires d > 0
    ensures 0 - d < TruncRem(s, d) < d
    ensures s >= 0 ==> TruncRem(s, d) >= 0
    ensures s <= 0 ==> TruncRem(s, d) <= 0
  {
    if s >= 0 {
      DivMod(s, d);
    } else {
      DivMod(0 - s, d);
      assert d * (0 - Quotient(0 - s, d)) == 0 - d * Quotient(0 - s, d);
    }
  }

  lemma SignedRemainderFromQuotient(code: seq<Inst>, dest: nat, x: Operand, q: nat, d: nat, ty: Ty, next: nat, next': nat)
    requires Word(ty) && 0 < d < Pow2(Width(ty) - 1) && SDivides(code, q, x, d, ty)
    requires WritesOnly(code, q, next, next') && Known(x, next) && q >= next
    ensures SRemains(code + RemainderCode(dest, x, q, d, ty, next'), dest, x, d, ty)
  {
    ModulusIsPower(ty);
    hide Run, Unsigned, Signed, Truncated, RemainderCode, Pow2, Modulus, Width;
    var rem := RemainderCode(dest, x, q, d, ty, next');
    forall env: Env
      ensures Signed(Reg(Run(code + rem, env), dest), ty) == TruncRem(Signed(Eval(env, x), ty), d)
    {
      var e := Run(code, env);
      RunAppend(code, rem, env);
      if x.Val? { OthersUnchanged(code, q, next, next', env, x.id); }
      RemainderRuns(dest, x, q, d, ty, next', e);
      var s := Signed(Eval(env, x), ty);
      TruncRemSmall(s, d);
      SignedSame(TruncRem(s, d), ty);
    }
  }

  /** `expand_srem32` and `expand_srem64`. */
  method ExpandSrem(dest: nat, x: Operand, d: int, ty: Ty, next: nat) returns (code: Option<seq<Inst>>, next': nat)
    requires Word(ty) && d < Pow2(Width(ty) - 1) && Known(x, next)
    ensures code.Some? <==> d >= 2
    ensures code.Some? ==> SRemains(code.value, dest, x, d, ty) && WritesOnly(code.value, dest, next, next')
  {
    hide Pow2, Run, Signed, Truncated, SremPow2Code, RemainderCode, TruncRem, TruncDiv;
    if d < 2 {
      return None, next;
    }
    if IsPowerOfTwo(d) {
      var k := TrailingZeros(d);
      PowerOfTwoIs(d, Width(ty) - 1);
      PositiveLog(d);
      var masks := SremPow2Code(dest, x, k, ty, next);
      SremPow2Writes(dest, x, k, ty, next);
      forall env: Env
        ensures Signed(Reg(Run(masks, env), dest), ty) == TruncRem(Signed(Eval(env, x), ty), d)
      {
        SremPow2Runs(dest, x, k, ty, next, env);
      }
      return Some(masks), next + 4;
    }
    var quotient := next;
    code, next' := ExpandSdiv(quotient, x, d, ty, next + 1);
    SignedRemainderFromQuotient(code.value, dest, x, quotient, d, ty, next, next');
    RemainderWrites(code.value, dest, x, quotient, d, ty, next, next');
    code := Some(code.value + RemainderCode(dest, x, quotient, d, ty, next'));
    next' := next' + 1;
  }

  // ---- 64-bit divisions of operands that fit 32 bits ----

  /** The dividend read in one type and the quotient delivered in another. */
  ghost predicate SDividesAs(code: seq<Inst>, dest: nat, x: Operand, d: int, from: Ty, ty: Ty)
    requires d != 0
  {
    forall env: Env :: Signed(Reg(Run(code, env), dest), ty) == TruncDiv(Signed(Eval(env, x), from), d)
  }

  /** On an operand that fits 32 bits that is the 64-bit division. */
  lemma NarrowIsWide(code: seq<Inst>, dest: nat, x: Operand, d: int, env: Env)
    requires d != 0 && SDividesAs(code, dest, x, d, I32, I64) && Signed(Eval(env, x), I64) == Signed(Eval(env, x), I32)
    ensures Signed(Reg(Run(code, env), dest), I64) == TruncDiv(Signed(Eval(env, x), I64), d)
  {
  }

  /** Shifting up and back down sign-extends the low half. */
  lemma SignExtends(a: int)
    ensures Signed(Apply(AShr, Apply(Shl, a, 32, I64), 32, I64), I64) == Signed(a, I32)
  {
    PowersOfTwo();
    ShiftCount(32, I64);
    var s := Signed(a, I32);
    SignedRange(a, I32);
    var _, j := Wraps(a, I32);
    assert Apply(Shl, a, 32, I64) == Unsigned(a * Pow2(32), I64);
    hide Apply, Signed, Unsigned, Quotient, Pow2, Count;
    ShiftedUp(a, s, j);
    SignedSame(s * 0x1_0000_0000, I64);
    AShrReads(Apply(Shl, a, 32, I64), 32, I64);
    QuotientUnique(s * 0x1_0000_0000, 0x1_0000_0000, s, 0);
  }

  lemma ShiftedUp(a: int, s: int, j: int)
    requires a == s + j * Modulus(I32)
    ensures Unsigned(a * 0x1_0000_0000, I64) == Unsigned(s * 0x1_0000_0000, I64)
  {
    assert a * 0x1_0000_0000 == s * 0x1_0000_0000 + j * Modulus(I64);
    hide Unsigned;
    Congruent(s * 0x1_0000_0000, j, I64);
  }

  function ExtendCode(x: Operand, next: nat): seq<Inst> {
    [BinOp(next, Shl, x, Imm(32), I64), BinOp(next + 1, AShr, Val(next), Imm(32), I64)]
  }

  lemma ExtendRuns(x: Operand, next: nat, env: Env)
    ensures Signed(Reg(Run(ExtendCode(x, next), env), next + 1), I64) == Signed(Eval(env, x), I32)
  {
    hide Apply, Signed, Unsigned, Run;
    SignExtends(Eval(env, x));
    RunTwo(BinOp(next, Shl, x, Imm(32), I64), BinOp(next + 1, AShr, Val(next), Imm(32), I64), env);
  }

  function NarrowHead(magic: nat, next: nat): seq<Inst> {
    [BinOp(next + 2, Mul, Val(next + 1), Imm(magic), I64), BinOp(next + 3, AShr, Val(next + 2), Imm(32), I64)]
  }

  /** The magic sequence of `expand_sdiv32_in_i64`. */
  function NarrowCode(dest: nat, x: Operand, m: SMagic, next: nat): seq<Inst> {
    ExtendCode(x, next) +
    (NarrowHead(m.magic, next) +
     (MaybeShift(next + 3, m.shift, next + 4) + Sdiv64Tail(dest, if m.shift > 0 then next + 4 else next + 3)))
  }

  lemma NarrowHeadRuns(magic: nat, next: nat, s: int, env: Env)
    requires magic < Pow2(32) && -0x8000_0000 <= s < 0x8000_0000 && Signed(Reg(env, next + 1), I64) == s
    ensures Signed(Reg(Run(NarrowHead(magic, next), env), next + 3), I64) == SignedHigh(s, magic, 32)
  {
    PowersOfTwo();
    hide Apply, Signed, Unsigned, Quotient, Pow2, Run, SignedHigh;
    Sdiv32HeadValue(s, Reg(env, next + 1), magic);
    RunTwo(BinOp(next + 2, Mul, Val(next + 1), Imm(magic), I64), BinOp(next + 3, AShr, Val(next + 2), Imm(32), I64), env);
  }

  lemma NarrowRuns(dest: nat, x: Operand, d: nat, m: SMagic, next: nat, env: Env)
    requires 2 <= d < Pow2(31) && SignedMagicFor(32, d, m)
    ensures Signed(Reg(Run(NarrowCode(dest, x, m, next), env), dest), I64) == Truncated(Signed(Eval(env, x), I32), d)
  {
    MagicInRange(32, d, m);
    hide Pow2, SignedMagicFor, Unsigned, Signed, Run, Quotient, Truncated, SignedHigh, Upped, ExtendCode, NarrowHead, MaybeShift, Sdiv64Tail;
    PowersOfTwo();
    var s := Signed(Eval(env, x), I32);
    SignedRange(Eval(env, x), I32);
    FlooredToTruncated(32, d, m, s);
    var shifted := if m.shift > 0 then next + 4 else next + 3;
    var ext, head, mid, tail := ExtendCode(x, next), NarrowHead(m.magic, next), MaybeShift(next + 3, m.shift, next + 4), Sdiv64Tail(dest, shifted);
    RunAppend(ext, head + (mid + tail), env);
    var e1 := Run(ext, env);
    RunAppend(head, mid + tail, e1);
    var e2 := Run(head, e1);
    RunAppend(mid, tail, e2);
    ExtendRuns(x, next, env);
    NarrowHeadRuns(m.magic, next, s, e1);
    MaybeShiftRuns(next + 3, m.shift, next + 4, e2);
    Sdiv64TailRuns(dest, shifted, Run(mid, e2));
  }

  lemma NarrowPow2Runs(dest: nat, x: Operand, k: nat, next: nat, env: Env)
    requires 0 < k < 31
    ensures Signed(Reg(Run(ExtendCode(x, next) + SdivPow2Code(dest, Val(next + 1), k, I64, next + 2), env), dest), I64) ==
            Truncated(Signed(Eval(env, x), I32), Pow2(k))
  {
    hide Pow2, Signed, Run, Truncated, ExtendCode, SdivPow2Code;
    var ext, rest := ExtendCode(x, next), SdivPow2Code(dest, Val(next + 1), k, I64, next + 2);
    RunAppend(ext, rest, env);
    ExtendRuns(x, next, env);
    SdivPow2Runs(dest, Val(next + 1), k, I64, next + 2, Run(ext, env));
  }

  lemma NarrowWrites(dest: nat, x: Operand, m: SMagic, k: nat, next: nat)
    ensures var code := NarrowCode(dest, x, m, next); code != [] && WritesOnly(code, dest, next, next + |code| - 1)
    ensures WritesOnly(ExtendCode(x, next) + SdivPow2Code(dest, Val(next + 1), k, I64, next + 2), dest, next, next + 5)
  {
  }

  /** `expand_sdiv32_in_i64`: the low half is sign-extended first, so any operand is divided as a 32-bit one. */
  method ExpandSdiv32InI64(dest: nat, x: Operand, d: int, next: nat) returns (code: Option<seq<Inst>>, next': nat)
    requires d < Pow2(31) && Known(x, next)
    ensures code.Some? <==> d >= 2
    ensures code.Some? ==> SDividesAs(code.value, dest, x, d, I32, I64) && WritesOnly(code.value, dest, next, next')
  {
    hide Pow2, Run, Signed, Truncated, SignedMagicFor, SdivPow2Code, NarrowCode, ExtendCode;
    if d < 2 {
      return None, next;
    }
    if IsPowerOfTwo(d) {
      var k := TrailingZeros(d);
      PowerOfTwoIs(d, 31);
      PositiveLog(d);
      var shifts := ExtendCode(x, next) + SdivPow2Code(dest, Val(next + 1), k, I64, next + 2);
      NarrowWrites(dest, x, SMagic(0, 0), k, next);
      forall env: Env
        ensures Signed(Reg(Run(shifts, env), dest), I64) == TruncDiv(Signed(Eval(env, x), I32), d)
      {
        NarrowPow2Runs(dest, x, k, next, env);
      }
      return Some(shifts), next + 5;
    }
    var m := ComputeSignedMagic(32, d);
    var magic := NarrowCode(dest, x, m, next);
    NarrowWrites(dest, x, m, 1, next);
    next' := next + |magic| - 1;
    forall env: Env
      ensures Signed(Reg(Run(magic, env), dest), I64) == TruncDiv(Signed(Eval(env, x), I32), d)
    {
      NarrowRuns(dest, x, d, m, next, env);
    }
    code := Some(magic);
  }

  // ---- negative divisors ----

  /** `x / -C` is `-(x / C)`. */
  lemma NegatedRuns(code: seq<Inst>, dest: nat, x: Operand, q: nat, d: nat, from: Ty, ty: Ty)
    requires Word(ty) && Word(from) && Modulus(from) <= Modulus(ty) && 2 <= d && SDividesAs(code, q, x, d, from, ty)
    ensures SDividesAs(code + [BinOp(dest, Sub, Imm(0), Val(q), ty)], dest, x, 0 - d, from, ty)
  {
    var neg := BinOp(dest, Sub, Imm(0), Val(q), ty);
    forall env: Env
      ensures Signed(Reg(Run(code + [neg], env), dest), ty) == TruncDiv(Signed(Eval(env, x), from), 0 - d)
    {
      hide Run, Signed, Unsigned, Apply, Truncated;
      var v := Reg(Run(code, env), q);
      RunPush(code, neg, env);
      SignedRange(Eval(env, x), from);
      HalvedAtLeast(Signed(Eval(env, x), from), d, Modulus(from));
      SignedSame(0, ty);
      SubReads(0, v, ty);
    }
  }

  /** Dividing by two or more leaves room to negate. */
  lemma HalvedAtLeast(s: int, d: nat, m: nat)
    requires 2 <= d && 0 - m <= 2 * s < m && m >= 2
    ensures 0 - m < 2 * Truncated(s, d) < m
  {
    hide Quotient;
    HalfAtMost(if s >= 0 then s else 0 - s, d);
  }

  lemma HalfAtMost(y: nat, d: nat)
    requires d >= 2
    ensures 0 <= 2 * Quotient(y, d) <= y
  {
    var q := Quotient(y, d);
    DivMod(y, d);
    QuotientShrinks(y, d);
    MulMonotone(q, 2, d);
  }

  /** `expand_sdiv_neg` and `expand_sdiv64_neg`; `narrow` is whether a 64-bit operand is known to fit 32 bits. */
  method ExpandSdivNeg(dest: nat, x: Operand, d: nat, ty: Ty, narrow: bool, next: nat) returns (code: Option<seq<Inst>>, next': nat)
    requires Word(ty) && Known(x, next) && d < Pow2(if ty.I32? || narrow then 31 else 63)
    ensures code.Some? <==> d >= 2
    ensures code.Some? ==>
              SDividesAs(code.value, dest, x, 0 - d, if narrow then I32 else ty, ty) && WritesOnly(code.value, dest, next, next')
  {
    hide Pow2, SDivides, SDividesAs;
    var quotient := next;
    if ty.I64? && narrow {
      code, next' := ExpandSdiv32InI64(quotient, x, d, next + 1);
    } else {
      code, next' := ExpandSdiv(quotient, x, d, ty, next + 1);
      if code.Some? { DividesAs(code.value, quotient, x, d, ty); }
    }
    if code.Some? {
      NegatedRuns(code.value, dest, x, quotient, d, if narrow then I32 else ty, ty);
      code := Some(code.value + [BinOp(dest, Sub, Imm(0), Val(quotient), ty)]);
    }
  }

  lemma DividesAs(code: seq<Inst>, dest: nat, x: Operand, d: int, ty: Ty)
    requires d != 0
    ensures SDivides(code, dest, x, d, ty) <==> SDividesAs(code, dest, x, d, ty, ty)
  {
  }

  /** A negative divisor leaves the same remainder. */
  lemma SameRemainder(s: int, d: int)
    requires d != 0
    ensures TruncRem(s, d) == TruncRem(s, 0 - d)
  {
    assert d * TruncDiv(s, d) == (0 - d) * TruncDiv(s, 0 - d);
  }

  // ---- the most negative divisor ----

  function MinOf(ty: Ty): int {
    0 - Modulus(ty) / 2
  }

  /** `expand_by_signed_type_min`. */
  function TypeMinCode(dest: nat, x: Operand, remainder: bool, ty: Ty, next: nat): seq<Inst> {
    if remainder then [Cmp(next, Eq, x, Imm(MinOf(ty)), ty), Select(dest, Val(next), Imm(0), x)]
    else if ty.I32? then [Cmp(dest, Eq, x, Imm(MinOf(ty)), ty)]
    else [Cmp(next, Eq, x, Imm(MinOf(ty)), ty), Cast(dest, Val(next), I32, I64)]
  }

  /** Equal bit patterns are equal numbers. */
  lemma EqualReadings(a: int, ty: Ty)
    requires Word(ty)
    ensures Unsigned(a, ty) == Unsigned(MinOf(ty), ty) <==> Signed(a, ty) == MinOf(ty)
  {
    SignedSame(MinOf(ty), ty);
    ReadAgain(a, ty);
  }

  lemma ByMinimum(s: int, h: nat)
    requires h > 0 && 0 - h <= s < h
    ensures TruncDiv(s, 0 - h) == (if s == 0 - h then 1 else 0)
    ensures TruncRem(s, 0 - h) == (if s == 0 - h then 0 else s)
  {
    var y := if s >= 0 then s else 0 - s;
    if y < h { QuotientUnique(y, h, 0, y); } else { QuotientUnique(y, h, 1, 0); }
  }

  lemma TypeMinSteps(dest: nat, x: Operand, ty: Ty, next: nat, env: Env)
    requires Word(ty) && Known(x, next)
    ensures var hit := Unsigned(Eval(env, x), ty) == Unsigned(MinOf(ty), ty);
            && Signed(Reg(Run(TypeMinCode(dest, x, false, ty, next), env), dest), ty) == (if hit then 1 else 0)
            && Reg(Run(TypeMinCode(dest, x, true, ty, next), env), dest) == (if hit then 0 else Eval(env, x))
  {
    hide Run, Signed, Unsigned, MinOf;
    var min := Imm(MinOf(ty));
    RunTwo(Cmp(next, Eq, x, min, ty), Select(dest, Val(next), Imm(0), x), env);
    RunOne(Cmp(dest, Eq, x, min, ty), env);
    RunTwo(Cmp(next, Eq, x, min, ty), Cast(dest, Val(next), I32, I64), env);
    SignedSame(0, I32);
    SignedSame(1, I32);
    SignedSame(0, I64);
    SignedSame(1, I64);
  }

  /** One comparison divides by the most negative word. */
  lemma TypeMinDivides(dest: nat, x: Operand, ty: Ty, next: nat)
    requires Word(ty) && Known(x, next)
    ensures SDivides(TypeMinCode(dest, x, false, ty, next), dest, x, MinOf(ty), ty)
    ensures SRemains(TypeMinCode(dest, x, true, ty, next), dest, x, MinOf(ty), ty)
  {
    hide Run, Signed, Unsigned, TruncDiv, TruncRem, TypeMinCode;
    forall env: Env
      ensures Signed(Reg(Run(TypeMinCode(dest, x, false, ty, next), env), dest), ty) == TruncDiv(Signed(Eval(env, x), ty), MinOf(ty))
      ensures Signed(Reg(Run(TypeMinCode(dest, x, true, ty, next), env), dest), ty) == TruncRem(Signed(Eval(env, x), ty), MinOf(ty))
    {
      TypeMinSteps(dest, x, ty, next, env);
      EqualReadings(Eval(env, x), ty);
      SignedRange(Eval(env, x), ty);
      SignedSame(0, ty);
      ByMinimum(Signed(Eval(env, x), ty), 0 - MinOf(ty));
    }
  }
}
