/**
 The integer part of the compiler's intermediate language, with the wrapping arithmetic of
 src/ir/ops.rs: registers, instructions, an interpreter, and how each instruction's result reads.
 */
module WordIr {
  import opened Arith
  import opened Bits

  // ---- the intermediate language ----

  datatype Ty = I8 | I32 | U32 | I64 | U64

  function Width(ty: Ty): nat {
    match ty case I8 => 8 case I32 | U32 => 32 case I64 | U64 => 64
  }

  function Modulus(ty: Ty): (m: nat)
    ensures m > 1
  {
    match ty case I8 => 0x100 case I32 | U32 => 0x1_0000_0000 case I64 | U64 => 0x1_0000_0000_0000_0000
  }

  predicate IsSigned(ty: Ty) {
    ty.I8? || ty.I32? || ty.I64?
  }

  /** A register read as an unsigned or as a two's complement number. */
  function Unsigned(v: int, ty: Ty): (u: nat)
    ensures u < Modulus(ty)
  {
    v % Modulus(ty)
  }

  function Signed(v: int, ty: Ty): int {
    var u := Unsigned(v, ty);
    if 2 * u < Modulus(ty) then u else u - Modulus(ty)
  }

  datatype Operand = Val(id: nat) | Imm(c: int)

  datatype Op = Add | Sub | Mul | BitAnd | BitOr | BitXor | Shl | LShr | AShr | UMulHigh | SMulHigh

  datatype CmpOp = Uge | Eq

  datatype Inst =
    | BinOp(dest: nat, op: Op, lhs: Operand, rhs: Operand, ty: Ty)
    | Cast(dest: nat, src: Operand, from: Ty, to: Ty)
    | Copy(dest: nat, src: Operand)
    | Cmp(dest: nat, cmp: CmpOp, lhs: Operand, rhs: Operand, ty: Ty)
    | Select(dest: nat, cond: Operand, yes: Operand, no: Operand)

  type Env = map<nat, int>

  function Reg(env: Env, id: nat): int {
    if id in env then env[id] else 0
  }

  function Eval(env: Env, o: Operand): int {
    match o case Val(id) => Reg(env, id) case Imm(c) => c
  }

  /** A shift count wraps at the width of the operation. */
  function Count(b: int, ty: Ty): nat {
    Unsigned(b, ty) % Width(ty)
  }

  function Apply(op: Op, a: int, b: int, ty: Ty): int {
    match op
    case Add => Unsigned(a + b, ty)
    case Sub => Unsigned(a - b, ty)
    case Mul => Unsigned(a * b, ty)
    case BitAnd => And(Unsigned(a, ty), Unsigned(b, ty))
    case BitOr => Or(Unsigned(a, ty), Unsigned(b, ty))
    case BitXor => Xor(Unsigned(a, ty), Unsigned(b, ty))
    case Shl => Unsigned(a * Pow2(Count(b, ty)), ty)
    case LShr => Quotient(Unsigned(a, ty), Pow2(Count(b, ty)))
    case AShr => Unsigned(Quotient(Signed(a, ty), Pow2(Count(b, ty))), ty)
    case UMulHigh => Quotient(Unsigned(a, ty) * Unsigned(b, ty), Modulus(ty))
    case SMulHigh => Unsigned(Quotient(Signed(a, ty) * Signed(b, ty), Modulus(ty)), ty)
  }

  function Value(i: Inst, env: Env): int {
    match i
    case BinOp(_, op, lhs, rhs, ty) => Apply(op, Eval(env, lhs), Eval(env, rhs), ty)
    case Cast(_, src, from, to) =>
      Unsigned(if IsSigned(from) then Signed(Eval(env, src), from) else Unsigned(Eval(env, src), from), to)
    case Copy(_, src) => Eval(env, src)
    case Cmp(_, cmp, lhs, rhs, ty) =>
      var a, b := Unsigned(Eval(env, lhs), ty), Unsigned(Eval(env, rhs), ty);
      if (if cmp.Uge? then a >= b else a == b) then 1 else 0
    case Select(_, cond, yes, no) => if Eval(env, cond) != 0 then Eval(env, yes) else Eval(env, no)
  }

  function Step(i: Inst, env: Env): Env {
    env[i.dest := Value(i, env)]
  }

  function Run(code: seq<Inst>, env: Env): Env {
    if code == [] then env else Step(code[|code| - 1], Run(code[..|code| - 1], env))
  }

  lemma RunPush(code: seq<Inst>, i: Inst, env: Env)
    ensures Run(code + [i], env) == Step(i, Run(code, env))
  {
    assert (code + [i])[..|code|] == code;
  }

  lemma {:induction false} RunAppend(a: seq<Inst>, b: seq<Inst>, env: Env)
    ensures Run(a + b, env) == Run(b, Run(a, env))
  {
    if b == [] {
      assert a + b == a;
    } else {
      var front, last := b[..|b| - 1], b[|b| - 1];
      RunAppend(a, front, env);
      assert a + b == (a + front) + [last] && b == front + [last];
      RunPush(a + front, last, env);
    }
  }

  lemma RunOne(i: Inst, env: Env)
    ensures Run([i], env) == Step(i, env)
  {
    RunPush([], i, env);
    assert [] + [i] == [i];
  }

  lemma RunTwo(i: Inst, j: Inst, env: Env)
    ensures Run([i, j], env) == Step(j, Step(i, env))
  {
    RunOne(i, env);
    RunPush([i], j, env);
    assert [i] + [j] == [i, j];
  }

  lemma RunThree(i: Inst, j: Inst, k: Inst, env: Env)
    ensures Run([i, j, k], env) == Step(k, Step(j, Step(i, env)))
  {
    RunTwo(i, j, env);
    RunPush([i, j], k, env);
    assert [i, j] + [k] == [i, j, k];
  }

  lemma RunFour(i: Inst, j: Inst, k: Inst, l: Inst, env: Env)
    ensures Run([i, j, k, l], env) == Step(l, Step(k, Step(j, Step(i, env))))
  {
    RunThree(i, j, k, env);
    RunPush([i, j, k], l, env);
    assert [i, j, k] + [l] == [i, j, k, l];
  }

  /** Every write goes to `dest` or to a value numbered from `next` up to `next'`. */
  predicate WritesOnly(code: seq<Inst>, dest: nat, next: nat, next': nat) {
    next <= next' && forall k :: 0 <= k < |code| ==> code[k].dest == dest || next <= code[k].dest < next'
  }

  /** So nothing else changes, whatever the code computes. */
  lemma {:induction false} OthersUnchanged(code: seq<Inst>, dest: nat, next: nat, next': nat, env: Env, id: nat)
    requires WritesOnly(code, dest, next, next') && id != dest && !(next <= id < next')
    ensures Reg(Run(code, env), id) == Reg(env, id)
  {
    if code != [] {
      var front := code[..|code| - 1];
      assert forall k :: 0 <= k < |front| ==> front[k] == code[k];
      OthersUnchanged(front, dest, next, next', env, id);
    }
  }

  predicate Known(x: Operand, next: nat) {
    x.Val? ==> x.id < next
  }

  // ---- reading what one instruction left ----

  lemma SmallPowers()
    ensures Pow2(1) == 2 && Pow2(8) == 256
  {
  }

  lemma PowersOfTwo()
    ensures Pow2(31) == 0x8000_0000 && Pow2(32) == 0x1_0000_0000
    ensures Pow2(63) == 0x8000_0000_0000_0000 && Pow2(64) == 0x1_0000_0000_0000_0000
  {
    hide Pow2;
    SmallPowers();
    Pow2Add(8, 8);
    Pow2Add(16, 16);
    Pow2Add(32, 32);
    Pow2Add(1, 31);
    Pow2Add(1, 63);
  }

  lemma ModulusIsPower(ty: Ty)
    ensures Modulus(ty) == Pow2(Width(ty)) == 2 * Pow2(Width(ty) - 1)
  {
    PowersOfTwo();
    assert Pow2(8) == 256;
  }

  lemma UnsignedSame(v: int, ty: Ty)
    requires 0 <= v < Modulus(ty)
    ensures Unsigned(v, ty) == v
  {
    SmallMod(v, Modulus(ty));
  }

  lemma SignedSame(v: int, ty: Ty)
    requires 0 - Modulus(ty) <= 2 * v < Modulus(ty)
    ensures Signed(v, ty) == v && Signed(Unsigned(v, ty), ty) == v
  {
    if v >= 0 { UnsignedSame(v, ty); } else { ModUnique(v, Modulus(ty), -1, v + Modulus(ty)); }
    UnsignedSame(Unsigned(v, ty), ty);
  }

  lemma SignedRange(v: int, ty: Ty)
    ensures 0 - Modulus(ty) <= 2 * Signed(v, ty) < Modulus(ty)
  {
  }

  /** A register and its readings differ by multiples of the modulus. */
  lemma Wraps(v: int, ty: Ty) returns (i: int, j: int)
    ensures v == Unsigned(v, ty) + i * Modulus(ty)
    ensures v == Signed(v, ty) + j * Modulus(ty)
  {
    DivMod(v, Modulus(ty));
    i := v / Modulus(ty);
    j := if Signed(v, ty) >= 0 then i else i + 1;
  }

  lemma Congruent(v: int, k: int, ty: Ty)
    ensures Unsigned(v + k * Modulus(ty), ty) == Unsigned(v, ty)
  {
    ModShift(v, k, Modulus(ty));
  }

  lemma ReadAgain(v: int, ty: Ty)
    ensures Unsigned(Unsigned(v, ty), ty) == Unsigned(v, ty)
    ensures Signed(Unsigned(v, ty), ty) == Signed(v, ty)
    ensures Unsigned(Signed(v, ty), ty) == Unsigned(v, ty)
  {
    UnsignedSame(Unsigned(v, ty), ty);
    var _, j := Wraps(v, ty);
    hide Unsigned, Modulus;
    Congruent(Signed(v, ty), j, ty);
  }

  lemma ShiftCount(c: nat, ty: Ty)
    requires c < Width(ty)
    ensures Count(c, ty) == c
  {
  }

  lemma LShrReads(a: int, c: nat, ty: Ty)
    requires c < Width(ty)
    ensures Apply(LShr, a, c, ty) == Quotient(Unsigned(a, ty), Pow2(c))
    ensures 0 <= Apply(LShr, a, c, ty) <= Unsigned(a, ty)
  {
    ShiftCount(c, ty);
    hide Unsigned, Count, Quotient;
    QuotientShrinks(Unsigned(a, ty), Pow2(c));
  }

  lemma FlooredShrinks(s: int, p: nat, m: int)
    requires p > 0 && 0 - m <= 2 * s < m
    ensures 0 - m <= 2 * Quotient(s, p) < m
    ensures s >= 0 <==> Quotient(s, p) >= 0
  {
    DivMod(s, p);
    var q := s / p;
    assert p * (s - 1) == p * s - p;
    if s >= 0 {
      DivShrinks(s, p);
    } else {
      MulMonotone(0 - s, 1, p);
      if q >= 0 {
        MulMonotone(p, 0, q);
      } else if q < s {
        MulMonotone(p, q, s - 1);
      }
    }
  }

  lemma AShrReads(a: int, c: nat, ty: Ty)
    requires c < Width(ty)
    ensures Signed(Apply(AShr, a, c, ty), ty) == Quotient(Signed(a, ty), Pow2(c))
    ensures Signed(a, ty) >= 0 <==> Quotient(Signed(a, ty), Pow2(c)) >= 0
  {
    ShiftCount(c, ty);
    SignedRange(a, ty);
    hide Unsigned, Signed, Quotient, Count, Pow2;
    FlooredShrinks(Signed(a, ty), Pow2(c), Modulus(ty));
    SignedSame(Quotient(Signed(a, ty), Pow2(c)), ty);
  }

  /** The sign bit, moved to the bottom. */
  lemma SignBit(a: int, ty: Ty)
    requires ty.I32? || ty.I64?
    ensures Apply(LShr, a, Width(ty) - 1, ty) == if Signed(a, ty) < 0 then 1 else 0
  {
    LShrReads(a, Width(ty) - 1, ty);
    ModulusIsPower(ty);
    var u, h := Unsigned(a, ty), Pow2(Width(ty) - 1);
    if u < h { QuotientUnique(u, h, 0, u); } else { QuotientUnique(u, h, 1, u - h); }
  }

  lemma MulExact(a: int, b: int, ty: Ty)
    requires 0 <= a * b < Modulus(ty)
    ensures Apply(Mul, a, b, ty) == a * b
  {
    UnsignedSame(a * b, ty);
  }

  /** A difference of unsigned readings that does not borrow. */
  lemma SubExact(a: int, h: nat, ty: Ty)
    requires h <= Unsigned(a, ty)
    ensures Apply(Sub, a, h, ty) == Unsigned(a, ty) - h
  {
    var i, _ := Wraps(a, ty);
    var v := Unsigned(a, ty);
    hide Unsigned, Modulus;
    assert a - h == v - h + i * Modulus(ty);
    Congruent(v - h, i, ty);
    UnsignedSame(v - h, ty);
  }

  lemma AddExact(a: nat, b: nat, ty: Ty)
    requires a + b < Modulus(ty)
    ensures Apply(Add, a, b, ty) == a + b
  {
    UnsignedSame(a + b, ty);
  }

  /** Sums and differences are exact when the exact result is in range. */
  lemma AddReads(a: int, b: int, ty: Ty)
    requires 0 - Modulus(ty) <= 2 * (Signed(a, ty) + Signed(b, ty)) < Modulus(ty)
    ensures Signed(Apply(Add, a, b, ty), ty) == Signed(a, ty) + Signed(b, ty)
  {
    var _, i := Wraps(a, ty);
    var _, j := Wraps(b, ty);
    var s := Signed(a, ty) + Signed(b, ty);
    hide Signed, Unsigned;
    assert a + b == s + (i + j) * Modulus(ty);
    Congruent(s, i + j, ty);
    SignedSame(s, ty);
  }

  lemma SubReads(a: int, b: int, ty: Ty)
    requires 0 - Modulus(ty) <= 2 * (Signed(a, ty) - Signed(b, ty)) < Modulus(ty)
    ensures Signed(Apply(Sub, a, b, ty), ty) == Signed(a, ty) - Signed(b, ty)
  {
    var _, i := Wraps(a, ty);
    var _, j := Wraps(b, ty);
    var s := Signed(a, ty) - Signed(b, ty);
    hide Signed, Unsigned;
    assert a - b == s + (i - j) * Modulus(ty);
    Congruent(s, i - j, ty);
    SignedSame(s, ty);
  }

  lemma ModShift(a: int, k: int, m: int)
    requires m > 0
    ensures (a + k * m) % m == a % m
  {
    DivMod(a, m);
    assert m * (a / m + k) == m * (a / m) + k * m;
    ModUnique(a + k * m, m, a / m + k, a % m);
  }

  lemma Distributes(s: int, j: int, m: int, b: int)
    ensures (s + j * m) * b == s * b + (j * b) * m
  {
  }

  /** Products only depend on what the factors read as. */
  lemma MulReads(a: int, b: int, ty: Ty)
    ensures Apply(Mul, a, b, ty) == Unsigned(Signed(a, ty) * b, ty) == Unsigned(Unsigned(a, ty) * b, ty)
  {
    var i, j := Wraps(a, ty);
    var m := Modulus(ty);
    hide Signed, Unsigned, Modulus;
    Distributes(Signed(a, ty), j, m, b);
    Congruent(Signed(a, ty) * b, j * b, ty);
    Distributes(Unsigned(a, ty), i, m, b);
    Congruent(Unsigned(a, ty) * b, i * b, ty);
  }

  /** `x - (x / d) * d` in wrapping arithmetic, from the quotient as it reads. */
  lemma RemainderReads(x: int, q: int, d: int, ty: Ty)
    ensures Apply(Sub, x, Apply(Mul, q, d, ty), ty) == Unsigned(Signed(x, ty) - d * Signed(q, ty), ty)
    ensures Apply(Sub, x, Apply(Mul, q, d, ty), ty) == Unsigned(Unsigned(x, ty) - d * Unsigned(q, ty), ty)
  {
    MulReads(q, d, ty);
    var s, u := d * Signed(q, ty), d * Unsigned(q, ty);
    assert s == Signed(q, ty) * d && u == Unsigned(q, ty) * d;
    hide Signed, Unsigned;
    SubMods(x, s, ty);
    SubMods(x, u, ty);
  }

  lemma SubMods(x: int, s: int, ty: Ty)
    ensures Unsigned(x - Unsigned(s, ty), ty) == Unsigned(Signed(x, ty) - s, ty) == Unsigned(Unsigned(x, ty) - s, ty)
  {
    var i, j := Wraps(x, ty);
    var k, _ := Wraps(s, ty);
    var m := Modulus(ty);
    hide Signed, Unsigned, Modulus;
    assert x - Unsigned(s, ty) == Signed(x, ty) - s + (j + k) * m;
    Congruent(Signed(x, ty) - s, j + k, ty);
    assert x - Unsigned(s, ty) == Unsigned(x, ty) - s + (i + k) * m;
    Congruent(Unsigned(x, ty) - s, i + k, ty);
  }
}
