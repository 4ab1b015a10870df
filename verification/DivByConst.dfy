/**
 Strength reduction of division by constants, src/passes/div_by_const.rs: the instruction
 sequences that replace a division or remainder, compared on every register state with the
 division they replace.
 */
module DivByConst {
  import opened Options
  import opened Arith
  import opened Bits
  import opened MagicNumbers
  import opened WordIr

  // ---- what the replaced instruction computes ----

  /** Division rounding towards zero, by any divisor but zero. */
  function TruncDiv(x: int, d: int): int
    requires d != 0
  {
    if d > 0 then Truncated(x, d) else 0 - Truncated(x, 0 - d)
  }

  function TruncRem(x: int, d: int): int
    requires d != 0
  {
    x - d * TruncDiv(x, d)
  }

  ghost predicate UDivides(code: seq<Inst>, dest: nat, x: Operand, d: nat, ty: Ty)
    requires d > 0
  {
    forall env: Env :: Unsigned(Reg(Run(code, env), dest), ty) == Quotient(Unsigned(Eval(env, x), ty), d)
  }

  ghost predicate URemains(code: seq<Inst>, dest: nat, x: Operand, d: nat, ty: Ty)
    requires d > 0
  {
    forall env: Env :: Unsigned(Reg(Run(code, env), dest), ty) == Unsigned(Eval(env, x), ty) % d
  }

  ghost predicate SDivides(code: seq<Inst>, dest: nat, x: Operand, d: int, ty: Ty)
    requires d != 0
  {
    forall env: Env :: Signed(Reg(Run(code, env), dest), ty) == TruncDiv(Signed(Eval(env, x), ty), d)
  }

  ghost predicate SRemains(code: seq<Inst>, dest: nat, x: Operand, d: int, ty: Ty)
    requires d != 0
  {
    forall env: Env :: Signed(Reg(Run(code, env), dest), ty) == TruncRem(Signed(Eval(env, x), ty), d)
  }

  // ---- unsigned, 32 bits ----

  /** The magic sequence of `expand_udiv32`: a 64-bit product, its high half, an optional fix-up and a shift. */
  function Udiv32Code(dest: nat, x: Operand, u: UMagic, next: nat): seq<Inst> {
    HighHalf32(x, u.magic, next) +
    if !u.add then
      if u.shift == 0 then [Cast(dest, Val(next + 2), U64, U32)]
      else [BinOp(next + 3, LShr, Val(next + 2), Imm(u.shift), U64), Cast(dest, Val(next + 3), U64, U32)]
    else
      FixUpTail32(dest, u.shift, next)
  }

  function HighHalf32(x: Operand, magic: nat, next: nat): seq<Inst> {
    [ Cast(next, x, U32, U64),
      BinOp(next + 1, Mul, Val(next), Imm(magic), U64),
      BinOp(next + 2, LShr, Val(next + 1), Imm(32), U64) ]
  }

  /** `((x - hi) >> 1) + hi`. */
  function FixUp(next: nat, x: Operand, hi: Operand, ty: Ty): seq<Inst> {
    [ BinOp(next, Sub, x, hi, ty),
      BinOp(next + 1, LShr, Val(next), Imm(1), ty),
      BinOp(next + 2, Add, Val(next + 1), hi, ty) ]
  }

  lemma ProductFits(v: nat, m: nat)
    requires v < 0x1_0000_0000 && m < 0x1_0000_0000
    ensures 0 <= v * m < 0x1_0000_0000_0000_0000
  {
    MulMonotone(v, 0, m);
    MulMonotone(v, m, 0x1_0000_0000);
  }

  /** The high word of a 32-bit product, as three wrapping 64-bit steps. */
  lemma HighHalf32Value(v: nat, magic: nat)
    requires v < Pow2(32) && magic < Pow2(32)
    ensures Apply(LShr, Apply(Mul, v, magic, U64), 32, U64) == HighWord(magic, v, 32)
  {
    PowersOfTwo();
    hide Pow2, Apply, Quotient, Unsigned;
    var w := v * magic;
    ProductFits(v, magic);
    MulExact(v, magic, U64);
    UnsignedSame(w, U64);
    LShrReads(w, 32, U64);
  }

  lemma HighHalf32Runs(x: Operand, magic: nat, next: nat, env: Env)
    requires magic < Pow2(32)
    ensures var e := Run(HighHalf32(x, magic, next), env);
            var v := Unsigned(Eval(env, x), U32);
            Reg(e, next) == v && Reg(e, next + 2) == HighWord(magic, v, 32)
  {
    PowersOfTwo();
    hide Apply, Pow2, Unsigned, Signed, Run, Quotient, HighWord;
    var v := Unsigned(Eval(env, x), U32);
    UnsignedSame(v, U64);
    HighHalf32Value(v, magic);
    var i, j, k := Cast(next, x, U32, U64), BinOp(next + 1, Mul, Val(next), Imm(magic), U64), BinOp(next + 2, LShr, Val(next + 1), Imm(32), U64);
    RunThree(i, j, k, env);
  }

  lemma FixUpValue(a: int, h: nat, ty: Ty)
    requires Width(ty) > 1 && h <= Unsigned(a, ty)
    ensures Apply(Add, Apply(LShr, Apply(Sub, a, h, ty), 1, ty), h, ty) == HalfSum(Unsigned(a, ty), h)
  {
    assert Pow2(1) == 2;
    hide Apply, Pow2, Unsigned, Modulus, Width, Quotient;
    var v := Unsigned(a, ty);
    SubExact(a, h, ty);
    UnsignedSame(v - h, ty);
    LShrReads(v - h, 1, ty);
    AddExact(Quotient(v - h, 2), h, ty);
  }

  lemma FixUpRuns(next: nat, x: Operand, hi: Operand, ty: Ty, env: Env)
    requires Width(ty) > 1 && Known(x, next) && Known(hi, next) && 0 <= Eval(env, hi) <= Unsigned(Eval(env, x), ty)
    ensures Reg(Run(FixUp(next, x, hi, ty), env), next + 2) == HalfSum(Unsigned(Eval(env, x), ty), Eval(env, hi))
  {
    hide Apply, Unsigned, Signed, Run, Quotient, HalfSum;
    FixUpValue(Eval(env, x), Eval(env, hi), ty);
    RunThree(BinOp(next, Sub, x, hi, ty), BinOp(next + 1, LShr, Val(next), Imm(1), ty), BinOp(next + 2, Add, Val(next + 1), hi, ty), env);
  }

  lemma NarrowValue(a: nat)
    requires a < Pow2(32)
    ensures Unsigned(Unsigned(a, U64), U32) == a
  {
    PowersOfTwo();
    UnsignedSame(a, U64);
    UnsignedSame(a, U32);
  }

  /** The tail after the high half: shift and narrow. */
  lemma ShiftAndNarrow(dest: nat, tmp: nat, src: Operand, c: nat, env: Env)
    requires c < 64 && 0 <= Eval(env, src) < Pow2(32)
    ensures Reg(Run([BinOp(tmp, LShr, src, Imm(c), U64), Cast(dest, Val(tmp), U64, U32)], env), dest) == Quotient(Eval(env, src), Pow2(c))
  {
    PowersOfTwo();
    hide Apply, Pow2, Unsigned, Signed, Run, Quotient;
    var a := Eval(env, src);
    UnsignedSame(a, U64);
    LShrReads(a, c, U64);
    NarrowValue(Apply(LShr, a, c, U64));
    RunTwo(BinOp(tmp, LShr, src, Imm(c), U64), Cast(dest, Val(tmp), U64, U32), env);
  }

  lemma Narrow(dest: nat, src: Operand, env: Env)
    requires 0 <= Eval(env, src) < Pow2(32)
    ensures Reg(Run([Cast(dest, src, U64, U32)], env), dest) == Eval(env, src)
  {
    hide Apply, Pow2, Unsigned, Signed, Run, Quotient;
    NarrowValue(Eval(env, src));
    RunOne(Cast(dest, src, U64, U32), env);
  }

  lemma Udiv32Plain(dest: nat, x: Operand, d: nat, u: UMagic, next: nat, env: Env)
    requires 2 <= d < Pow2(32) && ReciprocalOf(32, d, u) && !u.add
    ensures Reg(Run(Udiv32Code(dest, x, u, next), env), dest) == Quotient(Unsigned(Eval(env, x), U32), d)
  {
    PowersOfTwo();
    assert u.magic < Pow2(32) && u.shift < 32;
    hide ReciprocalOf, Pow2, Unsigned, Signed, Run, Quotient, HighHalf32, FixUp, HighWord;
    var v := Unsigned(Eval(env, x), U32);
    HighHalf32Runs(x, u.magic, next, env);
    PlainDivides(32, d, u, v);
    var head := HighHalf32(x, u.magic, next);
    var e := Run(head, env);
    if u.shift == 0 {
      RunAppend(head, [Cast(dest, Val(next + 2), U64, U32)], env);
      Narrow(dest, Val(next + 2), e);
      NoShift(HighWord(u.magic, v, 32), u.shift);
    } else {
      RunAppend(head, [BinOp(next + 3, LShr, Val(next + 2), Imm(u.shift), U64), Cast(dest, Val(next + 3), U64, U32)], env);
      ShiftAndNarrow(dest, next + 3, Val(next + 2), u.shift, e);
    }
  }

  function FixUpTail32(dest: nat, shift: nat, next: nat): seq<Inst> {
    FixUp(next + 3, Val(next), Val(next + 2), U64) +
    if shift > 1 then [BinOp(next + 6, LShr, Val(next + 5), Imm(shift - 1), U64), Cast(dest, Val(next + 6), U64, U32)]
    else [Cast(dest, Val(next + 5), U64, U32)]
  }

  lemma FixUpTail32Runs(dest: nat, shift: nat, next: nat, v: nat, hi: nat, env: Env)
    requires 0 < shift < 32 && hi <= v < Pow2(32) && Reg(env, next) == v && Reg(env, next + 2) == hi
    ensures Reg(Run(FixUpTail32(dest, shift, next), env), dest) == Quotient(HalfSum(v, hi), Pow2(shift - 1))
  {
    PowersOfTwo();
    hide Pow2, Unsigned, Signed, Run, Quotient, FixUp, HalfSum;
    UnsignedSame(v, U64);
    FixUpRuns(next + 3, Val(next), Val(next + 2), U64, env);
    var fix := FixUp(next + 3, Val(next), Val(next + 2), U64);
    var e := Run(fix, env);
    if shift > 1 {
      RunAppend(fix, [BinOp(next + 6, LShr, Val(next + 5), Imm(shift - 1), U64), Cast(dest, Val(next + 6), U64, U32)], env);
      ShiftAndNarrow(dest, next + 6, Val(next + 5), shift - 1, e);
    } else {
      RunAppend(fix, [Cast(dest, Val(next + 5), U64, U32)], env);
      Narrow(dest, Val(next + 5), e);
      NoShift(HalfSum(v, hi), shift - 1);
    }
  }

  lemma NoShift(x: int, c: nat)
    requires c == 0
    ensures Quotient(x, Pow2(c)) == x
  {
    QuotientByOne(x);
  }

  lemma Udiv32Added(dest: nat, x: Operand, d: nat, u: UMagic, next: nat, env: Env)
    requires 2 <= d < Pow2(32) && ReciprocalOf(32, d, u) && u.add
    ensures Reg(Run(Udiv32Code(dest, x, u, next), env), dest) == Quotient(Unsigned(Eval(env, x), U32), d)
  {
    PowersOfTwo();
    assert u.magic < Pow2(32) && 0 < u.shift < 32;
    hide ReciprocalOf, Pow2, Unsigned, Signed, Run, Quotient, HighHalf32, FixUpTail32, HighWord, HalfSum;
    var v := Unsigned(Eval(env, x), U32);
    HighHalf32Runs(x, u.magic, next, env);
    AddedDivides(32, d, u, v);
    var head := HighHalf32(x, u.magic, next);
    RunAppend(head, FixUpTail32(dest, u.shift, next), env);
    FixUpTail32Runs(dest, u.shift, next, v, HighWord(u.magic, v, 32), Run(head, env));
  }

  lemma ShiftRightRuns(dest: nat, x: Operand, c: nat, ty: Ty, env: Env)
    requires c < Width(ty)
    ensures Reg(Run([BinOp(dest, LShr, x, Imm(c), ty)], env), dest) == Quotient(Unsigned(Eval(env, x), ty), Pow2(c))
  {
    hide Apply, Pow2, Unsigned, Signed, Run, Quotient;
    LShrReads(Eval(env, x), c, ty);
    RunOne(BinOp(dest, LShr, x, Imm(c), ty), env);
  }

  // ---- powers of two ----

  /** `trailing_zeros`. */
  function TrailingZeros(d: nat): nat
    requires d > 0
  {
    if d % 2 == 1 then 0 else 1 + TrailingZeros(d / 2)
  }

  /** `is_power_of_two`: a single one among the digits. */
  predicate IsPowerOfTwo(d: nat) {
    PopCount(d) == 1
  }

  lemma {:induction false} PowerOfTwoIs(d: nat, n: nat)
    requires IsPowerOfTwo(d) && d < Pow2(n)
    ensures d > 0 && d == Pow2(TrailingZeros(d)) && TrailingZeros(d) < n
  {
    if d % 2 == 1 {
      if d / 2 > 0 { SomeDigit(d / 2); }
    } else {
      PowerOfTwoIs(d / 2, n - 1);
    }
  }

  lemma {:induction false} SomeDigit(d: nat)
    requires d > 0
    ensures PopCount(d) > 0
  {
    if d % 2 == 0 { SomeDigit(d / 2); }
  }

  /** A quotient that fits the word reads as itself. */
  lemma QuotientReads(v: int, d: nat, ty: Ty)
    requires d > 0
    ensures Unsigned(Quotient(Unsigned(v, ty), d), ty) == Quotient(Unsigned(v, ty), d)
  {
    hide Quotient, Unsigned;
    QuotientShrinks(Unsigned(v, ty), d);
    UnsignedSame(Quotient(Unsigned(v, ty), d), ty);
  }

  /** `expand_udiv32`, and when it gives up. */
  method ExpandUdiv32(dest: nat, x: Operand, d: nat, next: nat) returns (code: Option<seq<Inst>>, next': nat)
    requires d < Pow2(32) && Known(x, next)
    ensures code.Some? <==> d >= 2 && (IsPowerOfTwo(d) || CloseEnough(32, d, 31))
    ensures code.Some? ==> UDivides(code.value, dest, x, d, U32) && WritesOnly(code.value, dest, next, next')
  {
    hide Pow2, ReciprocalOf, CloseEnough, Run, Quotient, Unsigned, Udiv32Code;
    next' := next;
    if d < 2 {
      return None, next';
    }
    if IsPowerOfTwo(d) {
      var shift := TrailingZeros(d);
      PowerOfTwoIs(d, 32);
      var shr := [BinOp(dest, LShr, x, Imm(shift), U32)];
      forall env: Env
        ensures Unsigned(Reg(Run(shr, env), dest), U32) == Quotient(Unsigned(Eval(env, x), U32), d)
      {
        ShiftRightRuns(dest, x, shift, U32, env);
        QuotientReads(Eval(env, x), d, U32);
      }
      return Some(shr), next';
    }
    PowersOfTwo();
    var u := ComputeUnsignedMagic(32, d, 0xFFFF_FFFF_FFFF_FFFF);
    if u.None? {
      return None, next';
    }
    var seq32 := Udiv32Code(dest, x, u.value, next);
    Udiv32Writes(dest, x, u.value, next);
    next' := next + |seq32| - 1;
    forall env: Env
      ensures Unsigned(Reg(Run(seq32, env), dest), U32) == Quotient(Unsigned(Eval(env, x), U32), d)
    {
      if u.value.add {
        Udiv32Added(dest, x, d, u.value, next, env);
      } else {
        Udiv32Plain(dest, x, d, u.value, next, env);
      }
      QuotientReads(Eval(env, x), d, U32);
    }
    code := Some(seq32);
  }

  lemma Udiv32Writes(dest: nat, x: Operand, u: UMagic, next: nat)
    ensures var code := Udiv32Code(dest, x, u, next); code != [] && WritesOnly(code, dest, next, next + |code| - 1)
  {
  }

  // ---- unsigned, 64 bits ----

  function HiId(ty: Ty, next: nat): nat {
    if ty.U64? then next else next + 2
  }

  /** The high word of the product by one wide multiply, read and written in the type of the division. */
  function HighHalf64(x: Operand, magic: nat, ty: Ty, next: nat): seq<Inst> {
    if ty.U64? then [BinOp(next, UMulHigh, x, Imm(Signed(magic, I64)), U64)]
    else
      [ Cast(next, x, ty, U64),
        BinOp(next + 1, UMulHigh, Val(next), Imm(Signed(magic, I64)), U64),
        Cast(next + 2, Val(next + 1), U64, ty) ]
  }

  /** What follows the high word, in the value numbered `hi`. */
  function Tail64(dest: nat, x: Operand, hi: nat, u: UMagic, ty: Ty): seq<Inst> {
    if !u.add then
      if u.shift == 0 then [Copy(dest, Val(hi))] else [BinOp(dest, LShr, Val(hi), Imm(u.shift), ty)]
    else
      FixUp(hi + 1, x, Val(hi), ty) +
      if u.shift > 1 then [BinOp(dest, LShr, Val(hi + 3), Imm(u.shift - 1), ty)] else [Copy(dest, Val(hi + 3))]
  }

  function Udiv64Code(dest: nat, x: Operand, u: UMagic, ty: Ty, next: nat): seq<Inst> {
    HighHalf64(x, u.magic, ty, next) + Tail64(dest, x, HiId(ty, next), u, ty)
  }

  lemma SameWidth(v: int)
    ensures Unsigned(v, I64) == Unsigned(v, U64) && Unsigned(Signed(v, I64), U64) == Unsigned(v, U64)
  {
    ReadAgain(v, I64);
  }

  lemma HighHalf64Value(a: int, magic: nat)
    requires magic < Pow2(64)
    ensures Apply(UMulHigh, a, Signed(magic, I64), U64) == HighWord(magic, Unsigned(a, U64), 64)
  {
    PowersOfTwo();
    SameWidth(magic);
    UnsignedSame(magic, U64);
    hide Unsigned, Signed, Pow2, Quotient;
    assert Unsigned(a, U64) * magic == magic * Unsigned(a, U64);
  }

  /** Going through the unsigned type and back changes nothing. */
  lemma CastsAround(a: int, magic: nat)
    requires magic < Pow2(64)
    ensures Unsigned(Unsigned(Apply(UMulHigh, Unsigned(Signed(a, I64), U64), Signed(magic, I64), U64), U64), I64) ==
            HighWord(magic, Unsigned(a, I64), 64)
  {
    hide Apply, Pow2, Unsigned, Signed, HighWord;
    SameWidth(a);
    ReadAgain(a, U64);
    HighHalf64Value(Unsigned(a, U64), magic);
    var h := HighWord(magic, Unsigned(a, U64), 64);
    UnsignedSame(h, U64);
    SameWidth(h);
  }

  lemma HighHalf64Runs(x: Operand, magic: nat, ty: Ty, next: nat, env: Env)
    requires magic < Pow2(64) && (ty.I64? || ty.U64?) && Known(x, next)
    ensures var e := Run(HighHalf64(x, magic, ty, next), env);
            Reg(e, HiId(ty, next)) == HighWord(magic, Unsigned(Eval(env, x), ty), 64) && Eval(e, x) == Eval(env, x)
  {
    hide Apply, Pow2, Unsigned, Signed, Run, Quotient, HighWord, Modulus;
    var a := Eval(env, x);
    HighHalf64Value(a, magic);
    if ty.U64? {
      RunOne(BinOp(next, UMulHigh, x, Imm(Signed(magic, I64)), U64), env);
    } else {
      CastsAround(a, magic);
      RunThree(Cast(next, x, ty, U64), BinOp(next + 1, UMulHigh, Val(next), Imm(Signed(magic, I64)), U64), Cast(next + 2, Val(next + 1), U64, ty), env);
    }
  }

  lemma CopyRuns(dest: nat, src: Operand, env: Env)
    ensures Reg(Run([Copy(dest, src)], env), dest) == Eval(env, src)
  {
    hide Run;
    RunOne(Copy(dest, src), env);
  }

  lemma PlainTail64(dest: nat, x: Operand, hi: nat, u: UMagic, ty: Ty, env: Env)
    requires (ty.I64? || ty.U64?) && !u.add && u.shift < 64 && 0 <= Reg(env, hi) < Pow2(64)
    ensures Reg(Run(Tail64(dest, x, hi, u, ty), env), dest) == Quotient(Reg(env, hi), Pow2(u.shift))
  {
    PowersOfTwo();
    UnsignedSame(Reg(env, hi), ty);
    hide Apply, Pow2, Unsigned, Signed, Run, Quotient;
    if u.shift == 0 {
      CopyRuns(dest, Val(hi), env);
      NoShift(Reg(env, hi), u.shift);
    } else {
      ShiftRightRuns(dest, Val(hi), u.shift, ty, env);
    }
  }

  lemma AddedTail64(dest: nat, x: Operand, hi: nat, u: UMagic, ty: Ty, env: Env)
    requires (ty.I64? || ty.U64?) && u.add && 0 < u.shift < 64 && Known(x, hi + 1)
    requires 0 <= Reg(env, hi) <= Unsigned(Eval(env, x), ty)
    ensures Reg(Run(Tail64(dest, x, hi, u, ty), env), dest) ==
            Quotient(HalfSum(Unsigned(Eval(env, x), ty), Reg(env, hi)), Pow2(u.shift - 1))
  {
    hide Apply, Pow2, Unsigned, Signed, Run, Quotient, HalfSum, FixUp;
    var fix := FixUp(hi + 1, x, Val(hi), ty);
    var e := Run(fix, env);
    var sum := HalfSum(Unsigned(Eval(env, x), ty), Reg(env, hi));
    FixUpRuns(hi + 1, x, Val(hi), ty, env);
    UnsignedSame(sum, ty);
    if u.shift > 1 {
      RunAppend(fix, [BinOp(dest, LShr, Val(hi + 3), Imm(u.shift - 1), ty)], env);
      ShiftRightRuns(dest, Val(hi + 3), u.shift - 1, ty, e);
    } else {
      RunAppend(fix, [Copy(dest, Val(hi + 3))], env);
      CopyRuns(dest, Val(hi + 3), e);
      NoShift(sum, u.shift - 1);
    }
  }

  lemma Udiv64Runs(dest: nat, x: Operand, d: nat, u: UMagic, ty: Ty, next: nat, env: Env)
    requires 2 <= d < Pow2(64) && ReciprocalOf(64, d, u) && (ty.I64? || ty.U64?) && Known(x, next)
    ensures Reg(Run(Udiv64Code(dest, x, u, ty, next), env), dest) == Quotient(Unsigned(Eval(env, x), ty), d)
  {
    PowersOfTwo();
    assert u.magic < Pow2(64) && u.shift < 64 && (u.add ==> u.shift > 0) by {
      hide Pow2;
    }
    hide ReciprocalOf, Pow2, Unsigned, Signed, Run, Quotient, HighHalf64, Tail64, HighWord, HalfSum;
    var v := Unsigned(Eval(env, x), ty);
    var hi := HiId(ty, next);
    HighHalf64Runs(x, u.magic, ty, next, env);
    var head := HighHalf64(x, u.magic, ty, next);
    RunAppend(head, Tail64(dest, x, hi, u, ty), env);
    if u.add {
      AddedDivides(64, d, u, v);
      AddedTail64(dest, x, hi, u, ty, Run(head, env));
    } else {
      PlainDivides(64, d, u, v);
      PlainTail64(dest, x, hi, u, ty, Run(head, env));
    }
  }

  lemma Udiv64Writes(dest: nat, x: Operand, u: UMagic, ty: Ty, next: nat)
    ensures var code := Udiv64Code(dest, x, u, ty, next); code != [] && WritesOnly(code, dest, next, next + |code| - 1)
  {
  }

  /** A divisor of at least half the range: the quotient is one comparison. */
  function CompareCode(dest: nat, x: Operand, d: nat, ty: Ty, next: nat): seq<Inst> {
    [Cmp(next, Uge, x, Imm(Signed(d, I64)), ty), Cast(dest, Val(next), I8, ty)]
  }

  lemma CompareSteps(dest: nat, x: Operand, d: nat, ty: Ty, next: nat, env: Env)
    requires ty.I64? || ty.U64?
    ensures Reg(Run(CompareCode(dest, x, d, ty, next), env), dest) ==
            if Unsigned(Eval(env, x), ty) >= Unsigned(Signed(d, I64), ty) then 1 else 0
  {
    SignedSame(0, I8);
    SignedSame(1, I8);
    UnsignedSame(0, ty);
    UnsignedSame(1, ty);
    hide Unsigned, Signed, Run;
    RunTwo(Cmp(next, Uge, x, Imm(Signed(d, I64)), ty), Cast(dest, Val(next), I8, ty), env);
  }

  lemma CompareRuns(dest: nat, x: Operand, d: nat, ty: Ty, next: nat, env: Env)
    requires Pow2(63) <= d < Pow2(64) && (ty.I64? || ty.U64?)
    ensures Reg(Run(CompareCode(dest, x, d, ty, next), env), dest) == Quotient(Unsigned(Eval(env, x), ty), d)
  {
    hide Pow2, Unsigned, Signed, Run, Quotient, CompareCode;
    PowersOfTwo();
    ConstantReads(d, ty);
    CompareSteps(dest, x, d, ty, next, env);
    AtMostOnce(Unsigned(Eval(env, x), ty), d);
  }

  /** `expand_udiv64`: total on every divisor but zero and one. */
  method ExpandUdiv64(dest: nat, x: Operand, d: nat, ty: Ty, next: nat) returns (code: Option<seq<Inst>>, next': nat)
    requires d < Pow2(64) && (ty.I64? || ty.U64?) && Known(x, next)
    ensures code.Some? <==> d >= 2
    ensures code.Some? ==> UDivides(code.value, dest, x, d, ty) && WritesOnly(code.value, dest, next, next')
  {
    hide Pow2, ReciprocalOf, CloseEnough, Run, Quotient, Unsigned, Udiv64Code, CompareCode;
    next' := next;
    if d < 2 {
      return None, next';
    }
    if IsPowerOfTwo(d) {
      var shift := TrailingZeros(d);
      PowerOfTwoIs(d, 64);
      var shr := [BinOp(dest, LShr, x, Imm(shift), ty)];
      forall env: Env
        ensures Unsigned(Reg(Run(shr, env), dest), ty) == Quotient(Unsigned(Eval(env, x), ty), d)
      {
        ShiftRightRuns(dest, x, shift, ty, env);
        QuotientReads(Eval(env, x), d, ty);
      }
      return Some(shr), next';
    }
    PowersOfTwo();
    if d > 0x7FFF_FFFF_FFFF_FFFF {
      var compare := CompareCode(dest, x, d, ty, next);
      next' := next + 1;
      CompareWrites(dest, x, d, ty, next);
      forall env: Env
        ensures Unsigned(Reg(Run(compare, env), dest), ty) == Quotient(Unsigned(Eval(env, x), ty), d)
      {
        CompareRuns(dest, x, d, ty, next, env);
        QuotientReads(Eval(env, x), d, ty);
      }
      return Some(compare), next';
    }
    var u := ComputeUnsignedMagic(64, d, 0x1_FFFF_FFFF_FFFF_FFFF);
    var magic := Udiv64Code(dest, x, u.value, ty, next);
    Udiv64Writes(dest, x, u.value, ty, next);
    next' := next + |magic| - 1;
    forall env: Env
      ensures Unsigned(Reg(Run(magic, env), dest), ty) == Quotient(Unsigned(Eval(env, x), ty), d)
    {
      Udiv64Runs(dest, x, d, u.value, ty, next, env);
      QuotientReads(Eval(env, x), d, ty);
    }
    code := Some(magic);
  }

  lemma CompareWrites(dest: nat, x: Operand, d: nat, ty: Ty, next: nat)
    ensures WritesOnly(CompareCode(dest, x, d, ty, next), dest, next, next + 1)
  {
  }

  // ---- unsigned remainders ----

  /** `x - q * d`, from a quotient already computed. */
  function RemainderCode(dest: nat, x: Operand, q: nat, d: int, ty: Ty, next: nat): seq<Inst> {
    [BinOp(next, Mul, Val(q), Imm(d), ty), BinOp(dest, Sub, x, Val(next), ty)]
  }

  lemma RemainderRuns(dest: nat, x: Operand, q: nat, d: int, ty: Ty, next: nat, env: Env)
    requires Known(x, next)
    ensures var r := Reg(Run(RemainderCode(dest, x, q, d, ty, next), env), dest);
            && r == Unsigned(Signed(Eval(env, x), ty) - d * Signed(Reg(env, q), ty), ty)
            && r == Unsigned(Unsigned(Eval(env, x), ty) - d * Unsigned(Reg(env, q), ty), ty)
  {
    hide Apply, Unsigned, Signed, Run;
    RemainderReads(Eval(env, x), Reg(env, q), d, ty);
    RunTwo(BinOp(next, Mul, Val(q), Imm(d), ty), BinOp(dest, Sub, x, Val(next), ty), env);
  }

  lemma QuotientRest(v: nat, d: nat)
    requires d > 0
    ensures v - d * Quotient(v, d) == v % d && 0 <= v % d <= v
  {
    DivMod(v, d);
    QuotientShrinks(v, d);
    MulMonotone(d, 0, v / d);
  }

  /** Dividing first and multiplying back leaves the remainder. */
  lemma RemainderFromQuotient(code: seq<Inst>, dest: nat, x: Operand, q: nat, d: nat, ty: Ty, next: nat, next': nat)
    requires d > 0 && UDivides(code, q, x, d, ty) && WritesOnly(code, q, next, next') && Known(x, next) && q >= next
    ensures URemains(code + RemainderCode(dest, x, q, d, ty, next'), dest, x, d, ty)
  {
    hide Run, Unsigned, Signed, Quotient, RemainderCode;
    var rem := RemainderCode(dest, x, q, d, ty, next');
    forall env: Env
      ensures Unsigned(Reg(Run(code + rem, env), dest), ty) == Unsigned(Eval(env, x), ty) % d
    {
      var e := Run(code, env);
      RunAppend(code, rem, env);
      if x.Val? { OthersUnchanged(code, q, next, next', env, x.id); }
      RemainderRuns(dest, x, q, d, ty, next', e);
      var v := Unsigned(Eval(env, x), ty);
      QuotientRest(v, d);
      UnsignedSame(v % d, ty);
    }
  }

  lemma RemainderWrites(code: seq<Inst>, dest: nat, x: Operand, q: nat, d: int, ty: Ty, next: nat, next': nat)
    requires WritesOnly(code, q, next + 1, next') && q == next
    ensures WritesOnly(code + RemainderCode(dest, x, q, d, ty, next'), dest, next, next' + 1)
  {
  }

  /** `expand_urem32`; powers of two are left to a mask elsewhere. */
  method ExpandUrem32(dest: nat, x: Operand, d: nat, next: nat) returns (code: Option<seq<Inst>>, next': nat)
    requires d < Pow2(32) && Known(x, next)
    ensures code.Some? <==> d >= 2 && !IsPowerOfTwo(d) && CloseEnough(32, d, 31)
    ensures code.Some? ==> URemains(code.value, dest, x, d, U32) && WritesOnly(code.value, dest, next, next')
  {
    hide Pow2, CloseEnough, Run, Quotient, Unsigned, RemainderCode;
    if d < 2 || IsPowerOfTwo(d) {
      return None, next;
    }
    var quotient := next;
    code, next' := ExpandUdiv32(quotient, x, d, next + 1);
    if code.Some? {
      RemainderFromQuotient(code.value, dest, x, quotient, d, U32, next, next');
      RemainderWrites(code.value, dest, x, quotient, d, U32, next, next');
      code := Some(code.value + RemainderCode(dest, x, quotient, d, U32, next'));
      next' := next' + 1;
    }
  }

  /** A divisor of at least half the range: subtract it once or not at all. */
  function SubtractOnceCode(dest: nat, x: Operand, d: nat, ty: Ty, next: nat): seq<Inst> {
    [ Cmp(next, Uge, x, Imm(Signed(d, I64)), ty),
      BinOp(next + 1, Sub, x, Imm(Signed(d, I64)), ty),
      Select(dest, Val(next), Val(next + 1), x) ]
  }

  /** Subtracting a constant written as a negative number. */
  lemma SubConstant(a: int, d: nat, ty: Ty)
    requires (ty.I64? || ty.U64?) && d <= Unsigned(a, ty)
    ensures Apply(Sub, a, Signed(d, I64), ty) == Unsigned(a, ty) - d
  {
    hide Unsigned, Signed, Modulus;
    SubExact(a, d, ty);
    var _, j := Wraps(d, I64);
    assert Modulus(I64) == Modulus(ty) by { WideModulus(ty); }
    assert a - Signed(d, I64) == a - d + j * Modulus(ty);
    Congruent(a - d, j, ty);
  }

  lemma WideModulus(ty: Ty)
    requires ty.I64? || ty.U64?
    ensures Modulus(ty) == Modulus(I64) == Pow2(64)
  {
    PowersOfTwo();
  }

  lemma SubtractOnceSteps(dest: nat, x: Operand, d: nat, ty: Ty, next: nat, env: Env)
    requires Known(x, next)
    ensures var a, c := Eval(env, x), Signed(d, I64);
            Reg(Run(SubtractOnceCode(dest, x, d, ty, next), env), dest) ==
            if Unsigned(a, ty) >= Unsigned(c, ty) then Apply(Sub, a, c, ty) else a
  {
    hide Apply, Unsigned, Signed, Run;
    RunThree(Cmp(next, Uge, x, Imm(Signed(d, I64)), ty), BinOp(next + 1, Sub, x, Imm(Signed(d, I64)), ty), Select(dest, Val(next), Val(next + 1), x), env);
  }

  /** A constant of the wide types reads back from its signed spelling. */
  lemma ConstantReads(d: nat, ty: Ty)
    requires d < Pow2(64) && (ty.I64? || ty.U64?)
    ensures Unsigned(Signed(d, I64), ty) == d
  {
    WideModulus(ty);
    SameWidth(d);
    UnsignedSame(d, ty);
  }

  lemma AtMostOnce(v: nat, d: nat)
    requires v < 2 * d
    ensures v < d ==> Quotient(v, d) == 0 && v % d == v
    ensures v >= d ==> Quotient(v, d) == 1 && v % d == v - d
  {
    if v < d {
      SmallMod(v, d);
    } else {
      ModUnique(v, d, 1, v - d);
    }
  }

  lemma SubtractOnceRuns(dest: nat, x: Operand, d: nat, ty: Ty, next: nat, env: Env)
    requires Pow2(63) <= d < Pow2(64) && (ty.I64? || ty.U64?) && Known(x, next)
    ensures Unsigned(Reg(Run(SubtractOnceCode(dest, x, d, ty, next), env), dest), ty) == Unsigned(Eval(env, x), ty) % d
  {
    hide Apply, Pow2, Unsigned, Signed, Run, SubtractOnceCode, Quotient;
    PowersOfTwo();
    ConstantReads(d, ty);
    SubtractOnceSteps(dest, x, d, ty, next, env);
    var a := Eval(env, x);
    var v := Unsigned(a, ty);
    AtMostOnce(v, d);
    if v >= d {
      SubConstant(a, d, ty);
      UnsignedSame(v - d, ty);
    }
  }

  /** `expand_urem64`. */
  method ExpandUrem64(dest: nat, x: Operand, d: nat, ty: Ty, next: nat) returns (code: Option<seq<Inst>>, next': nat)
    requires d < Pow2(64) && (ty.I64? || ty.U64?) && Known(x, next)
    ensures code.Some? <==> d >= 2 && !IsPowerOfTwo(d)
    ensures code.Some? ==> URemains(code.value, dest, x, d, ty) && WritesOnly(code.value, dest, next, next')
  {
    hide Pow2, Run, Quotient, Unsigned, RemainderCode;
    if d < 2 || IsPowerOfTwo(d) {
      return None, next;
    }
    PowersOfTwo();
    if d > 0x7FFF_FFFF_FFFF_FFFF {
      var once := SubtractOnceCode(dest, x, d, ty, next);
      forall env: Env
        ensures Unsigned(Reg(Run(once, env), dest), ty) == Unsigned(Eval(env, x), ty) % d
      {
        SubtractOnceRuns(dest, x, d, ty, next, env);
      }
      return Some(once), next + 2;
    }
    var quotient := next;
    code, next' := ExpandUdiv64(quotient, x, d, ty, next + 1);
    RemainderFromQuotient(code.value, dest, x, quotient, d, ty, next, next');
    RemainderWrites(code.value, dest, x, quotient, d, ty, next, next');
    code := Some(code.value + RemainderCode(dest, x, quotient, d, ty, next'));
    next' := next' + 1;
  }
}
