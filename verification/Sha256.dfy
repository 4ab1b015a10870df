/**
 SHA-256 with split state: the x86 two-round helper of include/shaintrin.h and the Arm four-round
 pair of include/arm_neon.h, against the eight-variable round of section 6.2.2 of FIPS 180-4; and
 the x86 message-schedule pair against the schedule of the same section.

 Words are 32-bit; `+` wraps. Registers of four lanes are sequences indexed from lane 0.
 */
module Sha256 {

  type Word = bv32

  /** Four 32-bit lanes. */
  datatype Lanes = Lanes(l0: Word, l1: Word, l2: Word, l3: Word)

  // ---- section 3.2 and 4.1.2 of FIPS 180-4 ----

  /** Addition modulo 2^32. */
  function Plus(x: Word, y: Word): Word {
    x + y
  }

  function Sum4(w: Word, x: Word, y: Word, z: Word): Word {
    Plus(Plus(Plus(w, x), y), z)
  }

  function Xor3(x: Word, y: Word, z: Word): Word {
    x ^ y ^ z
  }

  function Rotr(x: Word, n: nat): Word
    requires n < 32
  {
    x.RotateRight(n)
  }

  function Ch(x: Word, y: Word, z: Word): Word {
    (x & y) ^ (!x & z)
  }

  function Maj(x: Word, y: Word, z: Word): Word {
    Xor3(x & y, x & z, y & z)
  }

  /** `Ch` takes each bit from `y` or `z` by the bit of `x`. */
  lemma Chooses(x: Word, y: Word, z: Word)
    ensures Ch(x, y, z) & x == y & x && Ch(x, y, z) & !x == z & !x
  {
  }

  /** Any two arguments of `Maj` that agree decide it. */
  lemma MajorityDecides(x: Word, z: Word)
    ensures Maj(x, x, z) == x && Maj(x, z, x) == x && Maj(z, x, x) == x
  {
  }

  /** Two equal arguments of a three-way sum cancel. */
  lemma Xor3Cancels(x: Word, z: Word)
    ensures Xor3(x, x, z) == z && Xor3(x, z, x) == z && Xor3(z, x, x) == z
  {
  }

  function BigSigma0(x: Word): Word {
    Xor3(Rotr(x, 2), Rotr(x, 13), Rotr(x, 22))
  }

  function BigSigma1(x: Word): Word {
    Xor3(Rotr(x, 6), Rotr(x, 11), Rotr(x, 25))
  }

  function SmallSigma0(x: Word): Word {
    Xor3(Rotr(x, 7), Rotr(x, 18), x >> 3)
  }

  function SmallSigma1(x: Word): Word {
    Xor3(Rotr(x, 17), Rotr(x, 19), x >> 10)
  }

  // ---- section 6.2.2: the round ----

  datatype State = State(a: Word, b: Word, c: Word, d: Word, e: Word, f: Word, g: Word, h: Word)

  /** One round with `k + w` already added into `wk`. */
  function Round(s: State, wk: Word): State {
    var t1 := Sum4(s.h, BigSigma1(s.e), Ch(s.e, s.f, s.g), wk);
    var t2 := Plus(BigSigma0(s.a), Maj(s.a, s.b, s.c));
    State(Plus(t1, t2), s.a, s.b, s.c, Plus(s.d, t1), s.e, s.f, s.g)
  }

  function Rounds(s: State, wks: seq<Word>): State
    decreases |wks|
  {
    if wks == [] then s else Rounds(Round(s, wks[0]), wks[1..])
  }

  lemma {:induction false} RoundsAppend(s: State, u: seq<Word>, v: seq<Word>)
    ensures Rounds(s, u + v) == Rounds(Rounds(s, u), v)
    decreases |u|
  {
    hide Round;
    if u == [] {
      assert u + v == v;
    } else {
      assert (u + v)[1..] == u[1..] + v;
      RoundsAppend(Round(s, u[0]), u[1..], v);
    }
  }

  // ---- the shift-or rotations of the headers ----

  function ShiftRotr(x: Word, n: nat): Word
    requires 0 < n < 32
  {
    (x >> n) | (x << (32 - n))
  }

  /** The shift-or idiom is the rotation, at every amount the headers use. */
  lemma ShiftOrIsRotation(x: Word)
    ensures ShiftRotr(x, 2) == Rotr(x, 2) && ShiftRotr(x, 13) == Rotr(x, 13) && ShiftRotr(x, 22) == Rotr(x, 22)
    ensures ShiftRotr(x, 6) == Rotr(x, 6) && ShiftRotr(x, 11) == Rotr(x, 11) && ShiftRotr(x, 25) == Rotr(x, 25)
    ensures ShiftRotr(x, 7) == Rotr(x, 7) && ShiftRotr(x, 18) == Rotr(x, 18)
    ensures ShiftRotr(x, 17) == Rotr(x, 17) && ShiftRotr(x, 19) == Rotr(x, 19)
  {
  }

  function HeaderSigma0(x: Word): Word {
    Xor3(ShiftRotr(x, 2), ShiftRotr(x, 13), ShiftRotr(x, 22))
  }

  function HeaderSigma1(x: Word): Word {
    Xor3(ShiftRotr(x, 6), ShiftRotr(x, 11), ShiftRotr(x, 25))
  }

  lemma HeaderSigmas(x: Word)
    ensures HeaderSigma0(x) == BigSigma0(x) && HeaderSigma1(x) == BigSigma1(x)
  {
    hide Xor3, Rotr, ShiftRotr;
    ShiftOrIsRotation(x);
  }

  // ---- x86: two rounds on ABEF and CDGH ----

  /** `_mm_sha256rnds2_epu32`: `cdgh` and `abef` list their letters from lane 3 down. */
  function Rnds2(cdgh: Lanes, abef: Lanes, wk: Lanes): Lanes {
    var A, B, E, F := abef.l3, abef.l2, abef.l1, abef.l0;
    var C, D, G, H := cdgh.l3, cdgh.l2, cdgh.l1, cdgh.l0;
    var t1 := Sum4(H, HeaderSigma1(E), Ch(E, F, G), wk.l0);
    var t2 := Plus(HeaderSigma0(A), Maj(A, B, C));
    var H2, G2, F2, E2 := G, F, E, Plus(D, t1);
    var D2, C2, B2, A2 := C, B, A, Plus(t1, t2);
    var u1 := Sum4(H2, HeaderSigma1(E2), Ch(E2, F2, G2), wk.l1);
    var u2 := Plus(HeaderSigma0(A2), Maj(A2, B2, C2));
    var E3 := Plus(D2, u1);
    var B3 := A2;
    var A3 := Plus(u1, u2);
    Lanes(E2, E3, B3, A3)
  }

  function Abef(s: State): Lanes {
    Lanes(s.f, s.e, s.b, s.a)
  }

  function Cdgh(s: State): Lanes {
    Lanes(s.h, s.g, s.d, s.c)
  }

  /** Two rounds, and the old ABEF is the new CDGH. */
  lemma Rnds2IsTwoRounds(s: State, wk: Lanes)
    ensures var s' := Round(Round(s, wk.l0), wk.l1);
            Rnds2(Cdgh(s), Abef(s), wk) == Abef(s') && Abef(s) == Cdgh(s')
  {
    hide BigSigma0, BigSigma1, HeaderSigma0, HeaderSigma1, Ch, Maj, Plus, Sum4;
    HeaderSigmas(s.a);
    HeaderSigmas(s.e);
    HeaderSigmas(Round(s, wk.l0).a);
    HeaderSigmas(Round(s, wk.l0).e);
  }

  /** The calling pattern: each call's result is ABEF, the previous ABEF becomes CDGH. */
  datatype X86State = X86State(cdgh: Lanes, abef: Lanes)

  function X86Fold(x: X86State, wks: seq<Lanes>): X86State
    decreases |wks|
  {
    if wks == [] then x else X86Fold(X86State(x.abef, Rnds2(x.cdgh, x.abef, wks[0])), wks[1..])
  }

  /** The two message words of each call, in order. */
  function PairWords(wks: seq<Lanes>): seq<Word> {
    if wks == [] then [] else [wks[0].l0, wks[0].l1] + PairWords(wks[1..])
  }

  function Split(s: State): X86State {
    X86State(Cdgh(s), Abef(s))
  }

  lemma RoundsOfTwo(s: State, u: Word, v: Word)
    ensures Rounds(s, [u, v]) == Round(Round(s, u), v)
  {
    hide Round;
    assert [u, v] == [u] + [v];
    RoundsSnoc(s, [u], v);
    assert [u] == [] + [u];
    RoundsSnoc(s, [], u);
  }

  /** Any number of x86 calls performs the plain rounds on the flattened words. */
  lemma {:induction false} X86FoldIsRounds(s: State, wks: seq<Lanes>)
    ensures X86Fold(Split(s), wks) == Split(Rounds(s, PairWords(wks)))
    decreases |wks|
  {
    if wks != [] {
      var wk := wks[0];
      var s' := Round(Round(s, wk.l0), wk.l1);
      Rnds2IsTwoRounds(s, wk);
      hide Round, Rnds2;
      X86FoldIsRounds(s', wks[1..]);
      RoundsOfTwo(s, wk.l0, wk.l1);
      RoundsAppend(s, [wk.l0, wk.l1], PairWords(wks[1..]));
    }
  }

  // ---- Arm: four rounds on ABCD and EFGH ----

  function StateOf(abcd: Lanes, efgh: Lanes): State {
    State(abcd.l0, abcd.l1, abcd.l2, abcd.l3, efgh.l0, efgh.l1, efgh.l2, efgh.l3)
  }

  function Abcd(s: State): Lanes {
    Lanes(s.a, s.b, s.c, s.d)
  }

  function Efgh(s: State): Lanes {
    Lanes(s.e, s.f, s.g, s.h)
  }

  function LaneWords(l: Lanes): seq<Word> {
    [l.l0, l.l1, l.l2, l.l3]
  }

  lemma {:induction false} RoundsSnoc(s: State, u: seq<Word>, w: Word)
    ensures Rounds(s, u + [w]) == Round(Rounds(s, u), w)
  {
    hide Round;
    RoundsAppend(s, u, [w]);
    assert [w][1..] == [];
  }

  lemma NoRounds(s: State)
    ensures Rounds(s, []) == s
  {
  }

  /** The four-step loop shared by `vsha256hq_u32` and `vsha256h2q_u32`. */
  method FourRounds(abcd: Lanes, efgh: Lanes, wk: Lanes)
    returns (a: Word, b: Word, c: Word, d: Word, e: Word, f: Word, g: Word, h: Word)
    ensures State(a, b, c, d, e, f, g, h) == Rounds(StateOf(abcd, efgh), LaneWords(wk))
  {
    a, b, c, d := abcd.l0, abcd.l1, abcd.l2, abcd.l3;
    e, f, g, h := efgh.l0, efgh.l1, efgh.l2, efgh.l3;
    var words := LaneWords(wk);
    hide BigSigma0, BigSigma1, HeaderSigma0, HeaderSigma1, Ch, Maj, Plus, Sum4, Rounds;
    assert words[..0] == [];
    assert Rounds(StateOf(abcd, efgh), []) == StateOf(abcd, efgh) by { NoRounds(StateOf(abcd, efgh)); }
    for i := 0 to 4
      invariant |words| == 4
      invariant State(a, b, c, d, e, f, g, h) == Rounds(StateOf(abcd, efgh), words[..i])
    {
      HeaderSigmas(a);
      HeaderSigmas(e);
      assert words[..i + 1] == words[..i] + [words[i]];
      RoundsSnoc(StateOf(abcd, efgh), words[..i], words[i]);
      var temp1 := Sum4(h, HeaderSigma1(e), Ch(e, f, g), words[i]);
      var temp2 := Plus(HeaderSigma0(a), Maj(a, b, c));
      h := g;
      g := f;
      f := e;
      e := Plus(d, temp1);
      d := c;
      c := b;
      b := a;
      a := Plus(temp1, temp2);
    }
    assert words[..4] == words;
  }

  /** `vsha256hq_u32`. */
  method HashUpdate(abcd: Lanes, efgh: Lanes, wk: Lanes) returns (ret: Lanes)
    ensures ret == Abcd(Rounds(StateOf(abcd, efgh), LaneWords(wk)))
  {
    var a, b, c, d, e, f, g, h := FourRounds(abcd, efgh, wk);
    ret := Lanes(a, b, c, d);
  }

  /** `vsha256h2q_u32`. */
  method HashUpdate2(efgh: Lanes, abcd: Lanes, wk: Lanes) returns (ret: Lanes)
    ensures ret == Efgh(Rounds(StateOf(abcd, efgh), LaneWords(wk)))
  {
    var a, b, c, d, e, f, g, h := FourRounds(abcd, efgh, wk);
    ret := Lanes(e, f, g, h);
  }

  datatype ArmState = ArmState(abcd: Lanes, efgh: Lanes)

  /** One pair of calls, both reading the old halves. */
  function ArmStep(x: ArmState, wk: Lanes): ArmState {
    var s := Rounds(StateOf(x.abcd, x.efgh), LaneWords(wk));
    ArmState(Abcd(s), Efgh(s))
  }

  method ArmPair(x: ArmState, wk: Lanes) returns (x': ArmState)
    ensures x' == ArmStep(x, wk)
  {
    var abcd := HashUpdate(x.abcd, x.efgh, wk);
    var efgh := HashUpdate2(x.efgh, x.abcd, wk);
    x' := ArmState(abcd, efgh);
  }

  function ArmFold(x: ArmState, wks: seq<Lanes>): ArmState
    decreases |wks|
  {
    if wks == [] then x else ArmFold(ArmStep(x, wks[0]), wks[1..])
  }

  function QuadWords(wks: seq<Lanes>): seq<Word> {
    if wks == [] then [] else LaneWords(wks[0]) + QuadWords(wks[1..])
  }

  /** Any number of Arm call pairs performs the plain rounds on the flattened words. */
  lemma {:induction false} ArmFoldIsRounds(s: State, wks: seq<Lanes>)
    ensures var s' := Rounds(s, QuadWords(wks));
            ArmFold(ArmState(Abcd(s), Efgh(s)), wks) == ArmState(Abcd(s'), Efgh(s'))
    decreases |wks|
  {
    if wks != [] {
      hide Round, LaneWords;
      var s' := Rounds(s, LaneWords(wks[0]));
      ArmFoldIsRounds(s', wks[1..]);
      RoundsAppend(s, LaneWords(wks[0]), QuadWords(wks[1..]));
      assert StateOf(Abcd(s), Efgh(s)) == s;
    }
  }

  // ---- the two shapes agree ----

  /** Each Arm operand split into the two operands of the x86 calls. */
  function Halves(wks: seq<Lanes>): seq<Lanes> {
    if wks == [] then []
    else
      var w := wks[0];
      [Lanes(w.l0, w.l1, 0, 0), Lanes(w.l2, w.l3, 0, 0)] + Halves(wks[1..])
  }

  lemma {:induction false} HalvesKeepWords(wks: seq<Lanes>)
    ensures PairWords(Halves(wks)) == QuadWords(wks)
  {
    if wks != [] {
      var w := wks[0];
      var x, y := Lanes(w.l0, w.l1, 0, 0), Lanes(w.l2, w.l3, 0, 0);
      var all := [x, y] + Halves(wks[1..]);
      HalvesKeepWords(wks[1..]);
      assert all[1..] == [y] + Halves(wks[1..]);
      assert all[1..][1..] == Halves(wks[1..]);
      assert PairWords(all) == [w.l0, w.l1] + PairWords(all[1..]);
      assert PairWords(all[1..]) == [w.l2, w.l3] + PairWords(all[1..][1..]);
    }
  }

  /** The fixed lane permutation between the two register layouts. */
  function Permute(x: ArmState): X86State {
    X86State(Lanes(x.efgh.l3, x.efgh.l2, x.abcd.l3, x.abcd.l2), Lanes(x.efgh.l1, x.efgh.l0, x.abcd.l1, x.abcd.l0))
  }

  /** Arm pairs and twice as many x86 calls on the same words end in the same state. */
  lemma ArmAgreesWithX86(x: ArmState, wks: seq<Lanes>)
    ensures Permute(ArmFold(x, wks)) == X86Fold(Permute(x), Halves(wks))
  {
    var s := StateOf(x.abcd, x.efgh);
    ArmFoldIsRounds(s, wks);
    X86FoldIsRounds(s, Halves(wks));
    HalvesKeepWords(wks);
    hide Rounds, ArmFold, X86Fold;
    assert ArmState(Abcd(s), Efgh(s)) == x;
    assert Split(s) == Permute(x);
  }

  // ---- the message schedule ----

  /** Word `t` of the schedule: the block itself, then the recurrence of section 6.2.2. */
  function Schedule(block: seq<Word>, t: nat): Word
    requires |block| == 16
  {
    if t < 16 then block[t]
    else
      Sum4(SmallSigma1(Schedule(block, t - 2)), Schedule(block, t - 7),
           SmallSigma0(Schedule(block, t - 15)), Schedule(block, t - 16))
  }

  function HeaderSmall0(x: Word): Word {
    Xor3(ShiftRotr(x, 7), ShiftRotr(x, 18), x >> 3)
  }

  function HeaderSmall1(x: Word): Word {
    Xor3(ShiftRotr(x, 17), ShiftRotr(x, 19), x >> 10)
  }

  lemma HeaderSmalls(x: Word)
    ensures HeaderSmall0(x) == SmallSigma0(x) && HeaderSmall1(x) == SmallSigma1(x)
  {
    hide Xor3, Rotr, ShiftRotr;
    ShiftOrIsRotation(x);
  }

  /** `_mm_sha256msg1_epu32`. */
  function Msg1(a: Lanes, b: Lanes): Lanes {
    Lanes(Plus(a.l0, HeaderSmall0(a.l1)), Plus(a.l1, HeaderSmall0(a.l2)),
          Plus(a.l2, HeaderSmall0(a.l3)), Plus(a.l3, HeaderSmall0(b.l0)))
  }

  /** `_mm_sha256msg2_epu32`: lanes 2 and 3 depend on the freshly written lanes 0 and 1. */
  function Msg2Of(a: Lanes, b: Lanes): Lanes {
    var r0 := Plus(a.l0, HeaderSmall1(b.l2));
    var r1 := Plus(a.l1, HeaderSmall1(b.l3));
    Lanes(r0, r1, Plus(a.l2, HeaderSmall1(r0)), Plus(a.l3, HeaderSmall1(r1)))
  }

  function AddLanes(a: Lanes, b: Lanes): Lanes {
    Lanes(Plus(a.l0, b.l0), Plus(a.l1, b.l1), Plus(a.l2, b.l2), Plus(a.l3, b.l3))
  }

  /** Four consecutive words from position `t`. */
  function At(w: seq<Word>, t: nat): Lanes
    requires t + 4 <= |w|
  {
    Lanes(w[t], w[t + 1], w[t + 2], w[t + 3])
  }

  /** The next four words: msg1, lane-wise addition of W[t-7], msg2. */
  function NextFour(w: seq<Word>): Lanes
    requires |w| >= 16
  {
    var t := |w|;
    Msg2Of(AddLanes(Msg1(At(w, t - 16), At(w, t - 12)), At(w, t - 7)), At(w, t - 4))
  }

  function X86Schedule(block: seq<Word>, steps: nat): (w: seq<Word>)
    requires |block| == 16
    ensures |w| == 16 + 4 * steps
    decreases steps
  {
    if steps == 0 then block
    else
      var w := X86Schedule(block, steps - 1);
      w + LaneWords(NextFour(w))
  }

  lemma Reorder(w16: Word, s0: Word, w7: Word, s1: Word)
    ensures Sum4(w16, s0, w7, s1) == Sum4(s1, w7, s0, w16)
  {
    hide Plus, Sum4;
    PlusCommutes(w16, s0);
    PlusCommutes(Plus(Plus(w16, s0), w7), s1);
    PlusAssociates(s1, w7, Plus(s0, w16));
    PlusCommutes(w7, Plus(s0, w16));
    PlusAssociates(Plus(s1, w7), s0, w16);
    FourTerms(w16, s0, w7, s1);
    FourTerms(s1, w7, s0, w16);
  }

  lemma FourTerms(w: Word, x: Word, y: Word, z: Word)
    ensures Sum4(w, x, y, z) == Plus(Plus(Plus(w, x), y), z)
  {
  }

  lemma PlusCommutes(x: Word, y: Word)
    ensures Plus(x, y) == Plus(y, x)
  {
  }

  lemma PlusAssociates(x: Word, y: Word, z: Word)
    ensures Plus(Plus(x, y), z) == Plus(x, Plus(y, z))
  {
    hide Plus;
    PlusIs(x, y);
    PlusIs(y, z);
    PlusRegroups(x, y, z);
  }

  lemma PlusIs(x: Word, y: Word)
    ensures Plus(x, y) == x + y
  {
  }

  lemma PlusRegroups(x: Word, y: Word, z: Word)
    ensures Plus(x + y, z) == Plus(x, y + z)
  {
  }

  /** One step extends a correct schedule prefix by four correct words. */
  lemma NextFourIsSchedule(block: seq<Word>, w: seq<Word>)
    requires |block| == 16 && |w| >= 16
    requires forall t :: 0 <= t < |w| ==> w[t] == Schedule(block, t)
    ensures var n := |w|;
            NextFour(w) == Lanes(Schedule(block, n), Schedule(block, n + 1), Schedule(block, n + 2), Schedule(block, n + 3))
  {
    hide Plus, Sum4, HeaderSmall0, HeaderSmall1, Schedule, NextFour;
    var n := |w|;
    var r := NextFour(w);
    NextFourLanes(w);
    LaneIsSchedule(block, n, w[n - 16], w[n - 15], w[n - 7], w[n - 2]);
    LaneIsSchedule(block, n + 1, w[n - 15], w[n - 14], w[n - 6], w[n - 1]);
    LaneIsSchedule(block, n + 2, w[n - 14], w[n - 13], w[n - 5], r.l0);
    LaneIsSchedule(block, n + 3, w[n - 13], w[n - 12], w[n - 4], r.l1);
  }

  /** The four lanes of a step, spelled out. */
  lemma NextFourLanes(w: seq<Word>)
    requires |w| >= 16
    ensures var n, r := |w|, NextFour(w);
            && r.l0 == Sum4(w[n - 16], HeaderSmall0(w[n - 15]), w[n - 7], HeaderSmall1(w[n - 2]))
            && r.l1 == Sum4(w[n - 15], HeaderSmall0(w[n - 14]), w[n - 6], HeaderSmall1(w[n - 1]))
            && r.l2 == Sum4(w[n - 14], HeaderSmall0(w[n - 13]), w[n - 5], HeaderSmall1(r.l0))
            && r.l3 == Sum4(w[n - 13], HeaderSmall0(w[n - 12]), w[n - 4], HeaderSmall1(r.l1))
  {
    hide Plus, HeaderSmall0, HeaderSmall1;
  }

  lemma LaneIsSchedule(block: seq<Word>, t: nat, w16: Word, w15: Word, w7: Word, w2: Word)
    requires |block| == 16 && t >= 16
    requires w16 == Schedule(block, t - 16) && w15 == Schedule(block, t - 15) && w7 == Schedule(block, t - 7) && w2 == Schedule(block, t - 2)
    ensures Sum4(w16, HeaderSmall0(w15), w7, HeaderSmall1(w2)) == Schedule(block, t)
  {
    hide SmallSigma0, SmallSigma1, HeaderSmall0, HeaderSmall1, Sum4;
    HeaderSmalls(w15);
    HeaderSmalls(w2);
    Reorder(w16, HeaderSmall0(w15), w7, HeaderSmall1(w2));
  }

  /** For every block and every number of steps the x86 pair produces the FIPS schedule. */
  lemma {:induction false} X86ScheduleIsFips(block: seq<Word>, steps: nat)
    requires |block| == 16
    ensures forall t :: 0 <= t < 16 + 4 * steps ==> X86Schedule(block, steps)[t] == Schedule(block, t)
  {
    if steps > 0 {
      var w := X86Schedule(block, steps - 1);
      X86ScheduleIsFips(block, steps - 1);
      NextFourIsSchedule(block, w);
      assert X86Schedule(block, steps) == w + LaneWords(NextFour(w));
      hide NextFour, Schedule, X86Schedule;
      FourMore(block, w, NextFour(w));
    }
  }

  lemma FourMore(block: seq<Word>, w: seq<Word>, r: Lanes)
    requires |block| == 16 && (forall t :: 0 <= t < |w| ==> w[t] == Schedule(block, t))
    requires var n := |w|;
             r == Lanes(Schedule(block, n), Schedule(block, n + 1), Schedule(block, n + 2), Schedule(block, n + 3))
    ensures forall t :: 0 <= t < |w| + 4 ==> (w + LaneWords(r))[t] == Schedule(block, t)
  {
    hide Schedule;
    forall t | 0 <= t < |w| + 4
      ensures (w + LaneWords(r))[t] == Schedule(block, t)
    {
      if t >= |w| {
        assert t == |w| || t == |w| + 1 || t == |w| + 2 || t == |w| + 3;
      }
    }
  }

  /** One step as the headers run it, the result lanes of the second helper written in place and reread. */
  method ScheduleStep(ghost block: seq<Word>, w: seq<Word>) returns (r: Lanes)
    requires |block| == 16 && |w| >= 16
    requires forall t :: 0 <= t < |w| ==> w[t] == Schedule(block, t)
    ensures var n := |w|;
            r == Lanes(Schedule(block, n), Schedule(block, n + 1), Schedule(block, n + 2), Schedule(block, n + 3))
  {
    hide Plus, HeaderSmall0, HeaderSmall1, Schedule;
    var n := |w|;
    var a := AddLanes(Msg1(At(w, n - 16), At(w, n - 12)), At(w, n - 7));
    var b := At(w, n - 4);
    var pr := new Word[4];
    pr[0] := Plus(a.l0, HeaderSmall1(b.l2));
    pr[1] := Plus(a.l1, HeaderSmall1(b.l3));
    pr[2] := Plus(a.l2, HeaderSmall1(pr[0]));
    pr[3] := Plus(a.l3, HeaderSmall1(pr[1]));
    r := Lanes(pr[0], pr[1], pr[2], pr[3]);
    assert r == NextFour(w);
    NextFourIsSchedule(block, w);
  }

  // ---- the Arm schedule helpers ----

  /** `vsha256su1q_u32`, as written: lanes 2 and 3 are fed from the argument, and W[t-6] is added for W[t-7]. */
  function Su1(tw: Lanes, w8: Lanes, w12: Lanes): Lanes {
    Lanes(Plus(Plus(tw.l0, HeaderSmall1(w12.l2)), w8.l2), Plus(Plus(tw.l1, HeaderSmall1(w12.l3)), w8.l3),
          Plus(Plus(tw.l2, HeaderSmall1(tw.l0)), w12.l0), Plus(Plus(tw.l3, HeaderSmall1(tw.l1)), w12.l1))
  }

  /** The pair of Arm helpers on the last sixteen words; `vsha256su0q_u32` computes what `_mm_sha256msg1_epu32` does. */
  function ArmNextFour(w: seq<Word>): Lanes
    requires |w| >= 16
  {
    var t := |w|;
    Su1(Msg1(At(w, t - 16), At(w, t - 12)), At(w, t - 8), At(w, t - 4))
  }

  function Minus(x: Word, y: Word): Word {
    x - y
  }

  lemma MinusSum(x: Word, a: Word)
    ensures Minus(x + a, x) == a
  {
  }

  lemma Subtracts(x: Word, a: Word)
    ensures Minus(Plus(x, a), x) == a
  {
    hide Plus, Minus;
    PlusIs(x, a);
    MinusSum(x, a);
  }

  lemma CancelLeft(x: Word, a: Word, b: Word)
    ensures Plus(x, a) == Plus(x, b) <==> a == b
  {
    hide Plus, Minus;
    Subtracts(x, a);
    Subtracts(x, b);
  }

  lemma CancelTerm(x: Word, s: Word, a: Word, s': Word, b: Word)
    ensures Plus(Plus(x, s), a) == Plus(Plus(x, b), s') <==> Plus(s, a) == Plus(s', b)
  {
    hide Plus;
    PlusAssociates(x, s, a);
    PlusAssociates(x, b, s');
    PlusCommutes(b, s');
    CancelLeft(x, Plus(s, a), Plus(s', b));
  }

  lemma CancelWord(x: Word, s: Word, a: Word, b: Word)
    ensures Plus(Plus(x, s), a) == Plus(Plus(x, b), s) <==> a == b
  {
    hide Plus;
    CancelTerm(x, s, a, s, b);
    CancelLeft(s, a, b);
  }

  /** When the words the code adds stand for the words the standard adds. */
  ghost predicate ArmAgrees(block: seq<Word>, n: nat)
    requires |block| == 16 && n >= 16
  {
    && Schedule(block, n - 6) == Schedule(block, n - 7)
    && Schedule(block, n - 5) == Schedule(block, n - 6)
    && Plus(SmallSigma1(Plus(Schedule(block, n - 16), SmallSigma0(Schedule(block, n - 15)))), Schedule(block, n - 4)) ==
       Plus(SmallSigma1(Schedule(block, n)), Schedule(block, n - 5))
    && Plus(SmallSigma1(Plus(Schedule(block, n - 15), SmallSigma0(Schedule(block, n - 14)))), Schedule(block, n - 3)) ==
       Plus(SmallSigma1(Schedule(block, n + 1)), Schedule(block, n - 4))
  }

  /** The Arm pair extends a correct schedule prefix correctly if and only if those words happen to agree. */
  lemma ArmScheduleExactly(block: seq<Word>, w: seq<Word>)
    requires |block| == 16 && |w| >= 16
    requires forall t :: 0 <= t < |w| ==> w[t] == Schedule(block, t)
    ensures var n := |w|;
            ArmNextFour(w) == Lanes(Schedule(block, n), Schedule(block, n + 1), Schedule(block, n + 2), Schedule(block, n + 3)) <==>
            ArmAgrees(block, n)
  {
    hide Plus, Sum4, HeaderSmall0, HeaderSmall1, SmallSigma0, SmallSigma1, Schedule, NextFour;
    var n := |w|;
    var r := NextFour(w);
    NextFourIsSchedule(block, w);
    NextFourLanes(w);
    HeaderSmalls(w[n - 15]); HeaderSmalls(w[n - 14]); HeaderSmalls(w[n - 13]); HeaderSmalls(w[n - 12]);
    HeaderSmalls(w[n - 2]); HeaderSmalls(w[n - 1]); HeaderSmalls(r.l0); HeaderSmalls(r.l1);
    var t0, t1 := Plus(w[n - 16], SmallSigma0(w[n - 15])), Plus(w[n - 15], SmallSigma0(w[n - 14]));
    var t2, t3 := Plus(w[n - 14], SmallSigma0(w[n - 13])), Plus(w[n - 13], SmallSigma0(w[n - 12]));
    HeaderSmalls(t0); HeaderSmalls(t1);
    FourTerms(w[n - 16], SmallSigma0(w[n - 15]), w[n - 7], SmallSigma1(w[n - 2]));
    FourTerms(w[n - 15], SmallSigma0(w[n - 14]), w[n - 6], SmallSigma1(w[n - 1]));
    FourTerms(w[n - 14], SmallSigma0(w[n - 13]), w[n - 5], SmallSigma1(r.l0));
    FourTerms(w[n - 13], SmallSigma0(w[n - 12]), w[n - 4], SmallSigma1(r.l1));
    CancelWord(t0, SmallSigma1(w[n - 2]), w[n - 6], w[n - 7]);
    CancelWord(t1, SmallSigma1(w[n - 1]), w[n - 5], w[n - 6]);
    CancelTerm(t2, SmallSigma1(t0), w[n - 4], SmallSigma1(r.l0), w[n - 5]);
    CancelTerm(t3, SmallSigma1(t1), w[n - 3], SmallSigma1(r.l1), w[n - 4]);
  }

  /** A block with a single one, in word 10. */
  function OneBlock(): seq<Word> {
    [0, 0, 0, 0, 0, 0, 0, 0, 0, 0, 1, 0, 0, 0, 0, 0]
  }

  /** On it the Arm pair already gets word 16 wrong. */
  lemma ArmScheduleDiffers()
    ensures var b := OneBlock();
            ArmNextFour(b) != Lanes(Schedule(b, 16), Schedule(b, 17), Schedule(b, 18), Schedule(b, 19))
  {
    var b := OneBlock();
    assert forall t :: 0 <= t < |b| ==> b[t] == Schedule(b, t);
    assert Schedule(b, 10) != Schedule(b, 9);
    hide ArmNextFour, Schedule, OneBlock;
    ArmScheduleExactly(b, b);
  }
}
