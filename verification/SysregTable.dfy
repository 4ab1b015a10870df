/**
 The system-register gate of scripts/aarch64_sysreg_table.py: the packed encoding, the rendered
 table and its reader, and the sweep that checks the compiler against the table.
 */
module SysregTable {
  import opened Options
  import opened Bytes
  import opened Bits
  import opened BitScatter

  // ---- the packed encoding ----

  datatype Fields = Fields(op0: nat, op1: nat, crn: nat, crm: nat, op2: nat)

  function Packed(f: Fields): nat {
    SysregEncoding(f.op0, f.op1, f.crn, f.crm, f.op2)
  }

  /** `op0:op1:CRn:CRm:op2` in sixteen bits. */
  function SysregEncoding(op0: nat, op1: nat, crn: nat, crm: nat, op2: nat): nat {
    Or(Or(Or(Or(Shl(And(op0, 3), 14), Shl(And(op1, 7), 11)), Shl(And(crn, 15), 7)), Shl(And(crm, 15), 3)), And(op2, 7))
  }

  lemma MaskIsLow(x: nat)
    ensures And(x, 3) == LowBits(x, 2) < 4 && And(x, 7) == LowBits(x, 3) < 8 && And(x, 15) == LowBits(x, 4) < 16
  {
    assert Pow2(2) == 4 && Pow2(3) == 8 && Pow2(4) == 16;
    LowMask(x, 2);
    LowMask(x, 3);
    LowMask(x, 4);
    var q2 := LowBitsQuotient(x, 2);
    var q3 := LowBitsQuotient(x, 3);
    var q4 := LowBitsQuotient(x, 4);
  }

  /** A shifted value or-ed with something that fits below it is their sum. */
  lemma OrBelow(x: nat, k: nat, y: nat)
    requires y < Pow2(k)
    ensures Or(Shl(x, k), y) == x * Pow2(k) + y
  {
    ShlBits(x, k);
    BitBound(y, k);
    AndBits(Shl(x, k), y);
    ZeroBits();
    Extensional(And(Shl(x, k), y), 0);
    DisjointOr(Shl(x, k), y);
    ShlIsMul(x, k);
  }

  lemma OrShift(x: nat, y: nat, j: nat, k: nat)
    ensures Or(Shl(x, j + k), Shl(y, k)) == Shl(Or(Shl(x, j), y), k)
  {
    ShlBits(x, j + k); ShlBits(y, k); ShlBits(x, j);
    OrBits(Shl(x, j + k), Shl(y, k));
    OrBits(Shl(x, j), y);
    ShlBits(Or(Shl(x, j), y), k);
    Extensional(Or(Shl(x, j + k), Shl(y, k)), Shl(Or(Shl(x, j), y), k));
  }

  function Join(a: nat, b: nat, c: nat, d: nat, e: nat): nat {
    (((a * 8 + b) * 16 + c) * 16 + d) * 8 + e
  }

  /** The five fields lie side by side. */
  lemma FieldsAdd(a: nat, b: nat, c: nat, d: nat, e: nat)
    requires b < 8 && c < 16 && d < 16 && e < 8
    ensures Or(Or(Or(Or(Shl(a, 14), Shl(b, 11)), Shl(c, 7)), Shl(d, 3)), e) == Join(a, b, c, d, e)
  {
    assert Pow2(3) == 8 && Pow2(4) == 16;
    hide And, Or, Shl, Pow2;
    OrShift(a, b, 3, 11);
    OrBelow(a, 3, b);
    var ab := a * 8 + b;
    OrShift(ab, c, 4, 7);
    OrBelow(ab, 4, c);
    var abc := ab * 16 + c;
    OrShift(abc, d, 4, 3);
    OrBelow(abc, 4, d);
    var abcd := abc * 16 + d;
    assert Or(Or(Or(Shl(a, 14), Shl(b, 11)), Shl(c, 7)), Shl(d, 3)) == Shl(abcd, 3);
    OrBelow(abcd, 3, e);
  }

  lemma EncodingIsSum(op0: nat, op1: nat, crn: nat, crm: nat, op2: nat)
    ensures SysregEncoding(op0, op1, crn, crm, op2) ==
            Join(LowBits(op0, 2), LowBits(op1, 3), LowBits(crn, 4), LowBits(crm, 4), LowBits(op2, 3))
  {
    hide And, Or, Shl, LowBits, Join;
    MaskIsLow(op0); MaskIsLow(op1); MaskIsLow(crn); MaskIsLow(crm); MaskIsLow(op2);
    FieldsAdd(LowBits(op0, 2), LowBits(op1, 3), LowBits(crn, 4), LowBits(crm, 4), LowBits(op2, 3));
  }

  lemma JoinInjective(a: nat, b: nat, c: nat, d: nat, e: nat, a': nat, b': nat, c': nat, d': nat, e': nat)
    requires b < 8 && c < 16 && d < 16 && e < 8
    requires b' < 8 && c' < 16 && d' < 16 && e' < 8
    ensures Join(a, b, c, d, e) == Join(a', b', c', d', e') <==> a == a' && b == b' && c == c' && d == d' && e == e'
    ensures a < 4 ==> Join(a, b, c, d, e) < 65536
  {
  }

  /** Two registers share an encoding exactly when all five fields agree on the bits the encoding keeps. */
  lemma EncodingInjective(p: Fields, q: Fields)
    ensures Packed(p) == Packed(q) <==>
            LowBits(p.op0, 2) == LowBits(q.op0, 2) && LowBits(p.op1, 3) == LowBits(q.op1, 3) &&
            LowBits(p.crn, 4) == LowBits(q.crn, 4) && LowBits(p.crm, 4) == LowBits(q.crm, 4) &&
            LowBits(p.op2, 3) == LowBits(q.op2, 3)
    ensures Packed(p) < 65536
  {
    hide And, Or, Shl, LowBits, SysregEncoding, Join;
    EncodingIsSum(p.op0, p.op1, p.crn, p.crm, p.op2);
    EncodingIsSum(q.op0, q.op1, q.crn, q.crm, q.op2);
    MaskIsLow(p.op0); MaskIsLow(p.op1); MaskIsLow(p.crn); MaskIsLow(p.crm); MaskIsLow(p.op2);
    MaskIsLow(q.op0); MaskIsLow(q.op1); MaskIsLow(q.crn); MaskIsLow(q.crm); MaskIsLow(q.op2);
    JoinInjective(LowBits(p.op0, 2), LowBits(p.op1, 3), LowBits(p.crn, 4), LowBits(p.crm, 4), LowBits(p.op2, 3),
                  LowBits(q.op0, 2), LowBits(q.op1, 3), LowBits(q.crn, 4), LowBits(q.crm, 4), LowBits(q.op2, 3));
  }

  /** On legal field values the packing loses nothing, and undoing it by shifts and masks gives them back. */
  lemma EncodingDecodes(p: Fields)
    requires p.op0 < 4 && p.op1 < 8 && p.crn < 16 && p.crm < 16 && p.op2 < 8
    ensures Packed(p) / 16384 == p.op0 && Packed(p) / 2048 % 8 == p.op1 && Packed(p) / 128 % 16 == p.crn &&
            Packed(p) / 8 % 16 == p.crm && Packed(p) % 8 == p.op2
  {
    assert Pow2(2) == 4 && Pow2(3) == 8 && Pow2(4) == 16;
    hide And, Or, Shl, LowBits, SysregEncoding, Pow2, Join;
    EncodingIsSum(p.op0, p.op1, p.crn, p.crm, p.op2);
    LowBitsOfSmall(p.op0, 2); LowBitsOfSmall(p.op1, 3); LowBitsOfSmall(p.crn, 4); LowBitsOfSmall(p.crm, 4); LowBitsOfSmall(p.op2, 3);
    JoinSplits(p.op0, p.op1, p.crn, p.crm, p.op2);
  }

  lemma JoinSplits(a: nat, b: nat, c: nat, d: nat, e: nat)
    requires b < 8 && c < 16 && d < 16 && e < 8
    ensures var j := Join(a, b, c, d, e);
            j / 16384 == a && j / 2048 % 8 == b && j / 128 % 16 == c && j / 8 % 16 == d && j % 8 == e
  {
    var j := Join(a, b, c, d, e);
    assert j / 8 == (((a * 8 + b) * 16 + c) * 16 + d);
    assert j / 128 == ((a * 8 + b) * 16 + c);
    assert j / 2048 == a * 8 + b;
  }

  // ---- the sweep ----

  datatype Dir = Mrs | Msr

  datatype Problem =
    | Rejects(dir: Dir, name: string)
    | Mismatch(dir: Dir, name: string, got: nat, want: int)
    | Refused(dir: Dir)
    | TooMany(dir: Dir, unchecked: nat)

  function Instruction(dir: Dir, name: string): string {
    match dir
    case Mrs => "mrs x0," + name
    case Msr => "msr " + name + ",x0"
  }

  /** The compiler: each line on its own, an accepted line being some bytes. */
  type Compiler = string -> Option<seq<Byte>>

  predicate Accepts(cc: Compiler, dir: Dir, name: string) {
    cc(Instruction(dir, name)).Some?
  }

  predicate AcceptsAll(cc: Compiler, dir: Dir, names: seq<string>) {
    forall k :: 0 <= k < |names| ==> Accepts(cc, dir, names[k])
  }

  /** Every accepted line is one word. */
  predicate OneWordEach(cc: Compiler, dir: Dir, names: seq<string>) {
    forall k :: 0 <= k < |names| && Accepts(cc, dir, names[k]) ==> |cc(Instruction(dir, names[k])).value| == 4
  }

  function Emitted(cc: Compiler, dir: Dir, names: seq<string>): seq<Byte>
    requires AcceptsAll(cc, dir, names)
  {
    if names == [] then []
    else
      var n := |names| - 1;
      assert AcceptsAll(cc, dir, names[..n]) by {
        assert forall k :: 0 <= k < n ==> names[..n][k] == names[k];
      }
      Emitted(cc, dir, names[..n]) + (assert Accepts(cc, dir, names[n]); cc(Instruction(dir, names[n])).value)
  }

  /** Four bytes, least significant first. */
  function LittleEndian(b: seq<Byte>): nat
    requires |b| == 4
  {
    var b0: int, b1: int, b2: int, b3: int := b[0], b[1], b[2], b[3];
    b0 + 0x100 * b1 + 0x1_0000 * b2 + 0x100_0000 * b3
  }

  /** `(word >> 5) & 0xFFFF`. */
  function FieldOf(word: nat): nat {
    LowBits(Shr(word, 5), 16)
  }

  function Want(table: map<string, int>, name: string): int {
    if name in table then table[name] else -1
  }

  /** `_lccc_sweep` on the instructions of `names`: the bytes, or a refusal of the file, also for its size. */
  function Sweep(cc: Compiler, dir: Dir, names: seq<string>): Option<seq<Byte>> {
    if AcceptsAll(cc, dir, names) && |Emitted(cc, dir, names)| == 4 * |names| then Some(Emitted(cc, dir, names)) else None
  }

  lemma WordOfSum(f: seq<Byte>, l: seq<Byte>, n: nat, k: nat)
    requires |f| == 4 * n && |l| == 4 && k <= n
    ensures (f + l)[4 * k..4 * k + 4] == if k < n then f[4 * k..4 * k + 4] else l
  {
  }

  lemma {:induction false} OneWordSweeps(cc: Compiler, dir: Dir, names: seq<string>)
    requires OneWordEach(cc, dir, names) && AcceptsAll(cc, dir, names)
    ensures |Emitted(cc, dir, names)| == 4 * |names|
    ensures forall k :: 0 <= k < |names| ==> Accepts(cc, dir, names[k]) && Emitted(cc, dir, names)[4 * k..4 * k + 4] == cc(Instruction(dir, names[k])).value
  {
    if names != [] {
      var n := |names| - 1;
      var front := names[..n];
      assert forall k :: 0 <= k < n ==> front[k] == names[k];
      OneWordSweeps(cc, dir, front);
      assert Accepts(cc, dir, names[n]);
      var all := Emitted(cc, dir, names);
      assert all == Emitted(cc, dir, front) + cc(Instruction(dir, names[n])).value;
      forall k | 0 <= k < |names|
        ensures Accepts(cc, dir, names[k]) && all[4 * k..4 * k + 4] == cc(Instruction(dir, names[k])).value
      {
        WordOfSum(Emitted(cc, dir, front), cc(Instruction(dir, names[n])).value, n, k);
      }
    }
  }

  lemma OneWordSome(cc: Compiler, dir: Dir, names: seq<string>)
    requires OneWordEach(cc, dir, names)
    ensures Sweep(cc, dir, names).Some? <==> AcceptsAll(cc, dir, names)
  {
    if AcceptsAll(cc, dir, names) { OneWordSweeps(cc, dir, names); }
  }

  /** `_bisect_failing_line` on a refused file: some line where the refusal begins; with one word per line, only ever the first. */
  method BisectFailingLine(cc: Compiler, dir: Dir, names: seq<string>) returns (bad: Option<nat>)
    requires Sweep(cc, dir, names).None?
    ensures bad.None? <==> Sweep(cc, dir, names[..1]).Some?
    ensures bad.Some? ==> bad.value < |names| && Sweep(cc, dir, names[..bad.value + 1]).None? &&
                          (bad.value == 0 || Sweep(cc, dir, names[..bad.value]).Some?)
    ensures OneWordEach(cc, dir, names) ==> bad == if Accepts(cc, dir, names[0]) then None else Some(0)
  {
    NonEmpty(cc, dir, names);
    FirstLine(cc, dir, names);
    hide Sweep, OneWordEach;
    var lo, hi := 0, |names|;
    assert names[..hi] == names;
    if Sweep(cc, dir, names[..1]).Some? {
      return None;
    }
    while hi - lo > 1
      invariant 0 <= lo < hi <= |names|
      invariant Sweep(cc, dir, names[..hi]).None? && (lo == 0 || Sweep(cc, dir, names[..lo]).Some?)
      invariant OneWordEach(cc, dir, names) ==> lo == 0
      decreases hi - lo
    {
      var mid := (lo + hi) / 2;
      if OneWordEach(cc, dir, names) { RefusedPrefix(cc, dir, names, mid); }
      if Sweep(cc, dir, names[..mid]).Some? {
        lo := mid;
      } else {
        hi := mid;
      }
    }
    bad := Some(lo);
  }

  lemma NonEmpty(cc: Compiler, dir: Dir, names: seq<string>)
    requires Sweep(cc, dir, names).None?
    ensures names != []
  {
  }

  lemma OneWordPrefix(cc: Compiler, dir: Dir, names: seq<string>, n: nat)
    requires n <= |names| && OneWordEach(cc, dir, names)
    ensures OneWordEach(cc, dir, names[..n])
  {
    assert forall k :: 0 <= k < n ==> names[..n][k] == names[k];
  }

  lemma FirstLine(cc: Compiler, dir: Dir, names: seq<string>)
    requires names != []
    ensures OneWordEach(cc, dir, names) ==> (Sweep(cc, dir, names[..1]).Some? <==> Accepts(cc, dir, names[0]))
  {
    if OneWordEach(cc, dir, names) {
      OneWordPrefix(cc, dir, names, 1);
      OneWordSome(cc, dir, names[..1]);
      assert names[..1][0] == names[0];
    }
  }

  lemma RefusedPrefix(cc: Compiler, dir: Dir, names: seq<string>, n: nat)
    requires 0 < n <= |names| && OneWordEach(cc, dir, names) && Sweep(cc, dir, names[..1]).None?
    ensures Sweep(cc, dir, names[..n]).None?
  {
    FirstLine(cc, dir, names);
    OneWordPrefix(cc, dir, names, n);
    OneWordSome(cc, dir, names[..n]);
    assert names[..n][0] == names[0];
  }

  /** The mismatches the comparison finds in the bytes of a sweep. */
  function MismatchesIn(data: seq<Byte>, table: map<string, int>, dir: Dir, names: seq<string>): seq<Problem>
    requires |data| == 4 * |names|
  {
    if names == [] then []
    else
      var n := |names| - 1;
      var got := FieldOf(LittleEndian(data[4 * n..4 * n + 4]));
      MismatchesIn(data[..4 * n], table, dir, names[..n]) +
      (if got != Want(table, names[n]) then [Mismatch(dir, names[n], got, Want(table, names[n]))] else [])
  }

  /** The mismatches of each name by itself. */
  function Mismatches(cc: Compiler, table: map<string, int>, dir: Dir, names: seq<string>): seq<Problem>
    requires AcceptsAll(cc, dir, names) && OneWordEach(cc, dir, names)
  {
    if names == [] then []
    else
      var n := |names| - 1;
      var got := (assert Accepts(cc, dir, names[n]); FieldOf(LittleEndian(cc(Instruction(dir, names[n])).value)));
      assert AcceptsAll(cc, dir, names[..n]) && OneWordEach(cc, dir, names[..n]) by {
        assert forall k :: 0 <= k < n ==> names[..n][k] == names[k];
      }
      Mismatches(cc, table, dir, names[..n]) +
      (if got != Want(table, names[n]) then [Mismatch(dir, names[n], got, Want(table, names[n]))] else [])
  }

  /** With one word per line the sweep's bytes show each name its own word. */
  lemma {:induction false} SameMismatches(cc: Compiler, table: map<string, int>, dir: Dir, names: seq<string>)
    requires AcceptsAll(cc, dir, names) && OneWordEach(cc, dir, names)
    ensures |Emitted(cc, dir, names)| == 4 * |names|
    ensures MismatchesIn(Emitted(cc, dir, names), table, dir, names) == Mismatches(cc, table, dir, names)
  {
    OneWordSweeps(cc, dir, names);
    if names != [] {
      var n := |names| - 1;
      assert forall k :: 0 <= k < n ==> names[..n][k] == names[k];
      SameMismatches(cc, table, dir, names[..n]);
      var all := Emitted(cc, dir, names);
      assert all[..4 * n] == Emitted(cc, dir, names[..n]);
    }
  }

  /** How many names at the front are rejected, up to `limit`. */
  function Leading(cc: Compiler, dir: Dir, names: seq<string>, limit: nat): (n: nat)
    ensures n <= limit && n <= |names|
  {
    if limit == 0 || names == [] || Accepts(cc, dir, names[0]) then 0 else 1 + Leading(cc, dir, names[1..], limit - 1)
  }

  function AllReject(dir: Dir, names: seq<string>): seq<Problem> {
    seq(|names|, i requires 0 <= i < |names| => Rejects(dir, names[i]))
  }

  /** What one direction reports, in closed form: only a rejected prefix is told apart by name. */
  function Report(cc: Compiler, table: map<string, int>, dir: Dir, names: seq<string>, limit: nat): seq<Problem>
    requires OneWordEach(cc, dir, names)
  {
    var f := Leading(cc, dir, names, limit);
    assert OneWordEach(cc, dir, names[f..]) by {
      assert forall k :: 0 <= k < |names| - f ==> names[f..][k] == names[f + k];
    }
    AllReject(dir, names[..f]) +
    (if f == |names| then []
     else if f == limit then [TooMany(dir, |names| - f)]
     else if AcceptsAll(cc, dir, names[f..]) then Mismatches(cc, table, dir, names[f..])
     else [Refused(dir)])
  }

  lemma LeadingStep(cc: Compiler, dir: Dir, names: seq<string>, limit: nat)
    requires names != [] && limit > 0 && !Accepts(cc, dir, names[0])
    ensures Leading(cc, dir, names, limit) == 1 + Leading(cc, dir, names[1..], limit - 1)
  {
  }

  lemma ReportStep(cc: Compiler, table: map<string, int>, dir: Dir, names: seq<string>, limit: nat)
    requires names != [] && limit > 0 && !Accepts(cc, dir, names[0]) && OneWordEach(cc, dir, names)
    ensures OneWordEach(cc, dir, names[1..])
    ensures Report(cc, table, dir, names, limit) == [Rejects(dir, names[0])] + Report(cc, table, dir, names[1..], limit - 1)
  {
    OneWordRest(cc, dir, names);
    hide Accepts, AcceptsAll, Mismatches, OneWordEach, Leading;
    LeadingStep(cc, dir, names, limit);
    var f := Leading(cc, dir, names[1..], limit - 1);
    OneMoreRejected(dir, names, f);
    hide AllReject;
  }

  lemma OneMoreRejected(dir: Dir, names: seq<string>, f: nat)
    requires f < |names|
    ensures AllReject(dir, names[..f + 1]) == [Rejects(dir, names[0])] + AllReject(dir, names[1..][..f])
    ensures names[f + 1..] == names[1..][f..]
  {
    assert names[..f + 1][1..] == names[1..][..f];
  }

  /** The rounds that end the sweep. */
  lemma ReportEnds(cc: Compiler, table: map<string, int>, dir: Dir, names: seq<string>, limit: nat)
    requires names != [] && OneWordEach(cc, dir, names)
    ensures limit == 0 ==> Report(cc, table, dir, names, limit) == [TooMany(dir, |names|)]
    ensures limit > 0 && Sweep(cc, dir, names).Some? ==>
              |Sweep(cc, dir, names).value| == 4 * |names| &&
              Report(cc, table, dir, names, limit) == MismatchesIn(Sweep(cc, dir, names).value, table, dir, names)
    ensures limit > 0 && Sweep(cc, dir, names).None? && Accepts(cc, dir, names[0]) ==>
              Report(cc, table, dir, names, limit) == [Refused(dir)]
  {
    hide Mismatches, MismatchesIn;
    OneWordSome(cc, dir, names);
    if AcceptsAll(cc, dir, names) { SameMismatches(cc, table, dir, names); }
    assert names[0..] == names && names[..0] == [] && AllReject(dir, []) == [];
  }

  method CompareWords(table: map<string, int>, dir: Dir, names: seq<string>, todo: seq<nat>, data: seq<Byte>)
    returns (problems: seq<Problem>)
    requires (forall k :: 0 <= k < |todo| ==> todo[k] < |names|) && |data| == 4 * |todo|
    ensures problems == MismatchesIn(data, table, dir, Selected(names, todo))
  {
    hide FieldOf, LittleEndian;
    problems := [];
    var sel := Selected(names, todo);
    for k := 0 to |todo|
      invariant problems == MismatchesIn(data[..4 * k], table, dir, sel[..k])
    {
      assert sel[..k + 1][..k] == sel[..k];
      assert data[..4 * (k + 1)][..4 * k] == data[..4 * k];
      assert data[..4 * (k + 1)][4 * k..4 * k + 4] == data[4 * k..4 * k + 4];
      var want := Want(table, names[todo[k]]);
      var got := FieldOf(LittleEndian(data[4 * k..4 * k + 4]));
      if got != want {
        problems := problems + [Mismatch(dir, names[todo[k]], got, want)];
      }
    }
    assert sel[..|todo|] == sel && data[..4 * |todo|] == data;
  }

  function Selected(names: seq<string>, todo: seq<nat>): seq<string>
    requires forall k :: 0 <= k < |todo| ==> todo[k] < |names|
  {
    seq(|todo|, k requires 0 <= k < |todo| => names[todo[k]])
  }

  /** The whole sweep assembles and shows every name its field. */
  ghost predicate SweptClean(cc: Compiler, table: map<string, int>, dir: Dir, names: seq<string>) {
    names == [] || (Sweep(cc, dir, names).Some? && MismatchesIn(Sweep(cc, dir, names).value, table, dir, names) == [])
  }

  /** One direction of `run_lccc`. */
  method RunDirection(cc: Compiler, table: map<string, int>, dir: Dir, names: seq<string>)
    returns (problems: seq<Problem>, ghost rounds: nat)
    ensures Settles(cc, table, dir, names, problems)
    ensures rounds <= 65
  {
    hide Sweep, MismatchesIn, Under, SweptClean;
    problems := [];
    var todo: seq<nat> := seq(|names|, i requires 0 <= i < |names| => i);
    var count := 0;
    rounds := 0;
    assert Selected(names, todo) == names;
    UnderStarts(cc, table, dir, names);
    while todo != []
      invariant forall k :: 0 <= k < |todo| ==> todo[k] < |names|
      invariant 0 <= count == rounds <= 64
      invariant Under(cc, table, dir, names, Selected(names, todo), problems, count)
      decreases |todo|
    {
      count := count + 1;
      rounds := count;
      var sel := Selected(names, todo);
      UnderEnds(cc, table, dir, names, sel, problems, count - 1);
      if count > 64 {
        problems := problems + [TooMany(dir, |todo|)];
        return;
      }
      var data := Sweep(cc, dir, sel);
      if data.Some? {
        var more := CompareWords(table, dir, names, todo, data.value);
        problems := problems + more;
        return;
      }
      var bad := BisectFailingLine(cc, dir, sel);
      if bad.None? {
        problems := problems + [Refused(dir)];
        return;
      }
      UnderGoesOn(cc, table, dir, names, sel, problems, count - 1, bad.value);
      problems := problems + [Rejects(dir, sel[bad.value])];
      todo := todo[bad.value + 1..];
      assert Selected(names, todo) == sel[bad.value + 1..];
    }
    assert Selected(names, todo) == [];
    UnderDrained(cc, table, dir, names, problems, count);
  }

  /** After `count` refused lines, with `sel` left. */
  ghost predicate Under(cc: Compiler, table: map<string, int>, dir: Dir, names: seq<string>, sel: seq<string>, problems: seq<Problem>, count: nat) {
    && |problems| == count <= 64
    && (count == 0 ==> sel == names)
    && (count > 0 ==> names != [] && Sweep(cc, dir, names).None?)
    && (OneWordEach(cc, dir, names) ==>
          OneWordEach(cc, dir, sel) && Report(cc, table, dir, names, 64) == problems + Report(cc, table, dir, sel, 64 - count))
  }

  /** What the caller is promised of the final list. */
  ghost predicate Settles(cc: Compiler, table: map<string, int>, dir: Dir, names: seq<string>, problems: seq<Problem>) {
    && (problems == [] <==> SweptClean(cc, table, dir, names))
    && (OneWordEach(cc, dir, names) ==> problems == Report(cc, table, dir, names, 64))
  }

  lemma UnderStarts(cc: Compiler, table: map<string, int>, dir: Dir, names: seq<string>)
    ensures Under(cc, table, dir, names, names, [], 0)
  {
    hide Report;
  }

  /** The three ways a round can be the last. */
  lemma UnderEnds(cc: Compiler, table: map<string, int>, dir: Dir, names: seq<string>, sel: seq<string>, problems: seq<Problem>, count: nat)
    requires Under(cc, table, dir, names, sel, problems, count) && sel != []
    ensures count == 64 ==> Settles(cc, table, dir, names, problems + [TooMany(dir, |sel|)])
    ensures count < 64 && Sweep(cc, dir, sel).Some? ==>
              |Sweep(cc, dir, sel).value| == 4 * |sel| &&
              Settles(cc, table, dir, names, problems + MismatchesIn(Sweep(cc, dir, sel).value, table, dir, sel))
    ensures count < 64 && Sweep(cc, dir, sel).None? && Sweep(cc, dir, sel[..1]).Some? ==>
              Settles(cc, table, dir, names, problems + [Refused(dir)])
  {
    hide Report, MismatchesIn, Accepts, OneWordEach;
    if OneWordEach(cc, dir, names) {
      ReportEnds(cc, table, dir, sel, 64 - count);
      FirstLine(cc, dir, sel);
    }
  }

  lemma UnderGoesOn(cc: Compiler, table: map<string, int>, dir: Dir, names: seq<string>, sel: seq<string>, problems: seq<Problem>, count: nat, bad: nat)
    requires Under(cc, table, dir, names, sel, problems, count) && count < 64 && bad < |sel| && Sweep(cc, dir, sel).None?
    requires OneWordEach(cc, dir, sel) ==> bad == 0 && !Accepts(cc, dir, sel[0])
    ensures Under(cc, table, dir, names, sel[bad + 1..], problems + [Rejects(dir, sel[bad])], count + 1)
  {
    hide Report, MismatchesIn, Accepts, OneWordEach, Sweep;
    if OneWordEach(cc, dir, names) {
      ReportStep(cc, table, dir, sel, 64 - count);
    }
  }

  lemma UnderDrained(cc: Compiler, table: map<string, int>, dir: Dir, names: seq<string>, problems: seq<Problem>, count: nat)
    requires Under(cc, table, dir, names, [], problems, count)
    ensures Settles(cc, table, dir, names, problems)
  {
    hide Report, Sweep, OneWordEach;
    if OneWordEach(cc, dir, names) { ReportEmpty(cc, table, dir, 64 - count); }
  }

  lemma OneWordRest(cc: Compiler, dir: Dir, names: seq<string>)
    requires names != [] && OneWordEach(cc, dir, names)
    ensures OneWordEach(cc, dir, names[1..])
  {
    var rest := names[1..];
    assert forall k :: 0 <= k < |rest| ==> rest[k] == names[k + 1];
  }

  lemma ReportEmpty(cc: Compiler, table: map<string, int>, dir: Dir, limit: nat)
    requires OneWordEach(cc, dir, [])
    ensures Report(cc, table, dir, [], limit) == []
  {
    assert AllReject(dir, []) == [];
  }

  /** The bytes are one word, and its bits 5 to 20 are `field`. */
  predicate Shows(bytes: Option<seq<Byte>>, field: int) {
    && bytes.Some? && |bytes.value| == 4
    && var b := bytes.value;
    var b0: int, b1: int, b2: int, b3: int := b[0], b[1], b[2], b[3];
    (b0 + 256 * b1 + 65536 * b2 + 16777216 * b3) / 32 % 65536 == field
  }

  /** Reading and writing the register both assemble to the table's field. */
  predicate Verified(cc: Compiler, table: map<string, int>, name: string) {
    && name in table
    && Shows(cc("mrs x0," + name), table[name])
    && Shows(cc("msr " + name + ",x0"), table[name])
  }

  /** Neither direction of the register assembles to anything but one word. */
  predicate WordOrNothing(cc: Compiler, name: string) {
    var r, w := cc("mrs x0," + name), cc("msr " + name + ",x0");
    (r.Some? ==> |r.value| == 4) && (w.Some? ==> |w.value| == 4)
  }

  lemma FieldShows(b: seq<Byte>, field: int)
    requires |b| == 4
    ensures FieldOf(LittleEndian(b)) == field <==> Shows(Some(b), field)
  {
    var word := LittleEndian(b);
    assert Pow2(8) == 256;
    Pow2Add(8, 8);
    LowBitsIsMod(Shr(word, 5), 16);
    ShrFive(word);
  }

  lemma ShrFive(x: nat)
    ensures Shr(x, 5) == x / 32
  {
    assert Shr(x, 5) == Shr(x / 2, 4) == Shr(x / 2 / 2, 3) == Shr(x / 2 / 2 / 2, 2);
    assert Shr(x / 2 / 2 / 2, 2) == Shr(x / 2 / 2 / 2 / 2, 1) == x / 2 / 2 / 2 / 2 / 2;
  }

  /** The clean verdict in the compiler's own terms. */
  lemma CleanExactly(cc: Compiler, table: map<string, int>, names: seq<string>)
    ensures Clean(cc, table, Mrs, names) && Clean(cc, table, Msr, names) <==>
            forall k :: 0 <= k < |names| ==> Verified(cc, table, names[k])
    ensures OneWordEach(cc, Mrs, names) && OneWordEach(cc, Msr, names) <==>
            forall k :: 0 <= k < |names| ==> WordOrNothing(cc, names[k])
  {
    hide FieldOf, LittleEndian, Shows;
    forall k | 0 <= k < |names|
      ensures Verified(cc, table, names[k]) <==> Right(cc, table, Mrs, names[k]) && Right(cc, table, Msr, names[k])
      ensures WordOrNothing(cc, names[k]) <==> OneWordEach(cc, Mrs, [names[k]]) && OneWordEach(cc, Msr, [names[k]])
    {
      RightShows(cc, table, Mrs, names[k]);
      RightShows(cc, table, Msr, names[k]);
      assert [names[k]][0] == names[k];
    }
    OneWordPointwise(cc, Mrs, names);
    OneWordPointwise(cc, Msr, names);
    hide Right, Verified, WordOrNothing, OneWordEach;
  }

  lemma OneWordPointwise(cc: Compiler, dir: Dir, names: seq<string>)
    ensures OneWordEach(cc, dir, names) <==> forall k :: 0 <= k < |names| ==> OneWordEach(cc, dir, [names[k]])
  {
    forall k | 0 <= k < |names|
      ensures OneWordEach(cc, dir, [names[k]]) <==> (Accepts(cc, dir, names[k]) ==> |cc(Instruction(dir, names[k])).value| == 4)
    {
      assert [names[k]][0] == names[k];
    }
  }

  lemma RightShows(cc: Compiler, table: map<string, int>, dir: Dir, name: string)
    ensures Right(cc, table, dir, name) <==> name in table && Shows(cc(Instruction(dir, name)), table[name])
  {
    hide FieldOf, LittleEndian, Instruction;
    var bytes := cc(Instruction(dir, name));
    if bytes.Some? && |bytes.value| == 4 && name in table {
      FieldShows(bytes.value, table[name]);
    }
  }

  /**
   `run_lccc`: both directions. A compiler that is right about every name is never blamed, and when no
   line is longer or shorter than a word, only such a compiler is passed.
   */
  method RunLccc(cc: Compiler, table: map<string, int>, names: seq<string>) returns (problems: seq<Problem>)
    ensures problems == [] <==> SweptClean(cc, table, Mrs, names) && SweptClean(cc, table, Msr, names)
    ensures (forall k :: 0 <= k < |names| ==> Verified(cc, table, names[k])) ==> problems == []
    ensures problems == [] && (forall k :: 0 <= k < |names| ==> WordOrNothing(cc, names[k])) ==>
              forall k :: 0 <= k < |names| ==> Verified(cc, table, names[k])
    ensures (forall k :: 0 <= k < |names| ==> WordOrNothing(cc, names[k])) ==>
              OneWordEach(cc, Mrs, names) && OneWordEach(cc, Msr, names) &&
              problems == Report(cc, table, Mrs, names, 64) + Report(cc, table, Msr, names, 64)
  {
    hide SweptClean, Clean, Report, Verified, WordOrNothing, OneWordEach;
    var readings, _ := RunDirection(cc, table, Mrs, names);
    var writings, _ := RunDirection(cc, table, Msr, names);
    CleanExactly(cc, table, names);
    CleanIsOneWord(cc, table, Mrs, names);
    CleanIsOneWord(cc, table, Msr, names);
    if OneWordEach(cc, Mrs, names) && OneWordEach(cc, Msr, names) {
      CleanReport(cc, table, Mrs, names);
      CleanReport(cc, table, Msr, names);
    }
    problems := readings + writings;
  }

  lemma CleanIsOneWord(cc: Compiler, table: map<string, int>, dir: Dir, names: seq<string>)
    ensures Clean(cc, table, dir, names) ==> OneWordEach(cc, dir, names)
  {
    hide FieldOf, LittleEndian, Instruction;
  }

  /** The name assembles to one word that encodes the table's field. */
  predicate Right(cc: Compiler, table: map<string, int>, dir: Dir, name: string) {
    Accepts(cc, dir, name) && |cc(Instruction(dir, name)).value| == 4 && name in table &&
    FieldOf(LittleEndian(cc(Instruction(dir, name)).value)) == table[name]
  }

  /** Every name assembles and encodes the table's field. */
  predicate Clean(cc: Compiler, table: map<string, int>, dir: Dir, names: seq<string>) {
    forall k :: 0 <= k < |names| ==> Right(cc, table, dir, names[k])
  }

  lemma {:induction false} NoMismatches(cc: Compiler, table: map<string, int>, dir: Dir, names: seq<string>)
    requires AcceptsAll(cc, dir, names) && OneWordEach(cc, dir, names)
    ensures Mismatches(cc, table, dir, names) == [] <==> Clean(cc, table, dir, names)
  {
    hide FieldOf, LittleEndian, Instruction;
    if names != [] {
      var n := |names| - 1;
      var front := names[..n];
      assert forall k :: 0 <= k < n ==> front[k] == names[k];
      NoMismatches(cc, table, dir, front);
      assert Accepts(cc, dir, names[n]);
      CleanFront(cc, table, dir, names);
      hide Clean;
    }
  }

  lemma CleanFront(cc: Compiler, table: map<string, int>, dir: Dir, names: seq<string>)
    requires names != [] && AcceptsAll(cc, dir, names) && OneWordEach(cc, dir, names) && Accepts(cc, dir, names[|names| - 1])
    ensures |cc(Instruction(dir, names[|names| - 1])).value| == 4
    ensures Clean(cc, table, dir, names) <==>
            Clean(cc, table, dir, names[..|names| - 1]) &&
            FieldOf(LittleEndian(cc(Instruction(dir, names[|names| - 1])).value)) == Want(table, names[|names| - 1])
  {
    hide FieldOf, LittleEndian, Instruction;
    var n := |names| - 1;
    var front := names[..n];
    assert forall k :: 0 <= k < n ==> front[k] == names[k];
    assert forall k :: 0 <= k < |names| ==> Accepts(cc, dir, names[k]) && |cc(Instruction(dir, names[k])).value| == 4;
  }

  /** A silent sweep certifies every name, and only a silent sweep does. */
  lemma CleanReport(cc: Compiler, table: map<string, int>, dir: Dir, names: seq<string>)
    requires OneWordEach(cc, dir, names)
    ensures Report(cc, table, dir, names, 64) == [] <==> Clean(cc, table, dir, names)
  {
    hide FieldOf, LittleEndian, OneWordEach;
    var f := Leading(cc, dir, names, 64);
    if f > 0 {
      assert !Accepts(cc, dir, names[0]);
      assert AllReject(dir, names[..f])[0] == Rejects(dir, names[0]);
    } else {
      assert names[0..] == names;
      assert names[..0] == [] && AllReject(dir, []) == [];
      if names != [] && AcceptsAll(cc, dir, names) {
        NoMismatches(cc, table, dir, names);
      }
    }
  }

  /** The report settles every name by itself. */
  predicate PerRegister(problems: seq<Problem>) {
    forall k :: 0 <= k < |problems| ==> problems[k].Rejects? || problems[k].Mismatch?
  }

  /** The rejected names are the first `f`, and there is room to name them all. */
  predicate RejectsArePrefix(cc: Compiler, dir: Dir, names: seq<string>, f: nat)
    requires f <= |names|
  {
    && (forall k :: 0 <= k < |names| ==> (Accepts(cc, dir, names[k]) <==> k >= f))
    && (f < 64 || f == |names| == 64)
  }

  lemma {:induction false} LeadingRejected(cc: Compiler, dir: Dir, names: seq<string>, limit: nat)
    ensures var f := Leading(cc, dir, names, limit);
            && (forall k :: 0 <= k < f ==> !Accepts(cc, dir, names[k]))
            && (f < limit && f < |names| ==> Accepts(cc, dir, names[f]))
  {
    hide Accepts;
    if limit > 0 && names != [] && !Accepts(cc, dir, names[0]) {
      LeadingRejected(cc, dir, names[1..], limit - 1);
      var rest := names[1..];
      assert forall k :: 1 <= k < |names| ==> names[k] == rest[k - 1];
    }
  }

  lemma {:induction false} MismatchesOnly(cc: Compiler, table: map<string, int>, dir: Dir, names: seq<string>)
    requires AcceptsAll(cc, dir, names) && OneWordEach(cc, dir, names)
    ensures PerRegister(Mismatches(cc, table, dir, names))
  {
    if names != [] {
      var front := names[..|names| - 1];
      assert forall k :: 0 <= k < |front| ==> front[k] == names[k];
      MismatchesOnly(cc, table, dir, front);
    }
  }

  /** A per-register verdict is given exactly when the rejected names are a prefix of at most 64. */
  lemma PerRegisterExactly(cc: Compiler, table: map<string, int>, dir: Dir, names: seq<string>)
    requires OneWordEach(cc, dir, names)
    ensures PerRegister(Report(cc, table, dir, names, 64)) <==>
            exists f: nat :: f <= |names| && RejectsArePrefix(cc, dir, names, f)
  {
    hide Accepts, Mismatches, Leading;
    var f := Leading(cc, dir, names, 64);
    LeadingRejected(cc, dir, names, 64);
    var all := Report(cc, table, dir, names, 64);
    var rest := names[f..];
    assert forall k :: 0 <= k < |rest| ==> rest[k] == names[f + k];
    assert forall k :: f <= k < |names| ==> names[k] == rest[k - f];
    if f == |names| {
      assert RejectsArePrefix(cc, dir, names, f);
    } else if f == 64 {
      assert all[f] == TooMany(dir, |names| - f);
      assert !Accepts(cc, dir, names[63]);
    } else if AcceptsAll(cc, dir, rest) {
      MismatchesOnly(cc, table, dir, rest);
      assert RejectsArePrefix(cc, dir, names, f);
    } else {
      assert all[f] == Refused(dir);
      var k :| 0 <= k < |rest| && !Accepts(cc, dir, rest[k]);
      assert Accepts(cc, dir, names[f]) && !Accepts(cc, dir, names[f + k]);
    }
  }

  /** The name assembles to `got`, which is not what the table wants. */
  predicate Mismatched(cc: Compiler, table: map<string, int>, dir: Dir, name: string, got: nat, want: int) {
    Accepts(cc, dir, name) && Shows(cc(Instruction(dir, name)), got) && want == Want(table, name) && got != want
  }

  lemma {:induction false} MismatchMembers(cc: Compiler, table: map<string, int>, dir: Dir, names: seq<string>, name: string, got: nat, want: int)
    requires AcceptsAll(cc, dir, names) && OneWordEach(cc, dir, names)
    ensures Mismatch(dir, name, got, want) in Mismatches(cc, table, dir, names) <==>
            name in names && Mismatched(cc, table, dir, name, got, want)
  {
    hide FieldOf, LittleEndian, Instruction, Shows;
    if names != [] {
      var n := |names| - 1;
      var front := names[..n];
      assert forall k :: 0 <= k < n ==> front[k] == names[k];
      MismatchMembers(cc, table, dir, front, name, got, want);
      assert Accepts(cc, dir, names[n]);
      FieldShows(cc(Instruction(dir, names[n])).value, got);
      assert names == front + [names[n]];
    }
  }

  lemma MismatchesReject(cc: Compiler, table: map<string, int>, dir: Dir, names: seq<string>, name: string)
    requires AcceptsAll(cc, dir, names) && OneWordEach(cc, dir, names)
    ensures Rejects(dir, name) !in Mismatches(cc, table, dir, names)
  {
    hide FieldOf, LittleEndian, Instruction;
    if names != [] {
      var front := names[..|names| - 1];
      assert forall k :: 0 <= k < |front| ==> front[k] == names[k];
      MismatchesReject(cc, table, dir, front, name);
    }
  }

  /** Where every problem names a register, each name gets its own verdict and no other. */
  lemma VerdictsExact(cc: Compiler, table: map<string, int>, dir: Dir, names: seq<string>, name: string, got: nat, want: int)
    requires OneWordEach(cc, dir, names) && PerRegister(Report(cc, table, dir, names, 64)) && name in names
    ensures Rejects(dir, name) in Report(cc, table, dir, names, 64) <==> cc(Instruction(dir, name)).None?
    ensures Mismatch(dir, name, got, want) in Report(cc, table, dir, names, 64) <==> Mismatched(cc, table, dir, name, got, want)
  {
    hide Mismatches, Mismatched, Report, PerRegister, OneWordEach, Instruction;
    var f := PerRegisterShape(cc, table, dir, names);
    var rejected, rest := names[..f], names[f..];
    assert names == rejected + rest;
    RejectMembers(dir, rejected, name, got, want);
    hide AllReject;
    MismatchMembers(cc, table, dir, rest, name, got, want);
    MismatchesReject(cc, table, dir, rest, name);
    RejectedMismatch(cc, table, dir, name, got, want);
  }

  /** Such a report is a refused prefix and then a full comparison. */
  lemma PerRegisterShape(cc: Compiler, table: map<string, int>, dir: Dir, names: seq<string>) returns (f: nat)
    requires OneWordEach(cc, dir, names) && PerRegister(Report(cc, table, dir, names, 64))
    ensures f <= |names| && (forall k :: 0 <= k < |names[..f]| ==> !Accepts(cc, dir, names[..f][k]))
    ensures AcceptsAll(cc, dir, names[f..]) && OneWordEach(cc, dir, names[f..])
    ensures Report(cc, table, dir, names, 64) == AllReject(dir, names[..f]) + Mismatches(cc, table, dir, names[f..])
  {
    hide Accepts, Leading, FieldOf, LittleEndian, Instruction;
    f := Leading(cc, dir, names, 64);
    LeadingRejected(cc, dir, names, 64);
    assert forall k :: 0 <= k < |names| - f ==> names[f..][k] == names[f + k];
    OpaqueReport(cc, table, dir, names);
  }

  lemma OpaqueReport(cc: Compiler, table: map<string, int>, dir: Dir, names: seq<string>)
    requires OneWordEach(cc, dir, names)
    ensures var f := Leading(cc, dir, names, 64);
            f < |names| && (f == 64 || !AcceptsAll(cc, dir, names[f..])) ==> !PerRegister(Report(cc, table, dir, names, 64))
  {
    var f := Leading(cc, dir, names, 64);
    var all := Report(cc, table, dir, names, 64);
    if f < |names| && (f == 64 || !AcceptsAll(cc, dir, names[f..])) {
      assert |all| == f + 1 && (all[f].TooMany? || all[f].Refused?);
    }
  }

  lemma RejectedMismatch(cc: Compiler, table: map<string, int>, dir: Dir, name: string, got: nat, want: int)
    ensures Mismatched(cc, table, dir, name, got, want) ==> Accepts(cc, dir, name)
  {
  }

  lemma RejectMembers(dir: Dir, names: seq<string>, name: string, got: nat, want: int)
    ensures Rejects(dir, name) in AllReject(dir, names) <==> name in names
    ensures Mismatch(dir, name, got, want) !in AllReject(dir, names)
  {
    if name in names {
      var k :| 0 <= k < |names| && names[k] == name;
      assert AllReject(dir, names)[k] == Rejects(dir, name);
    }
  }

  /** The first name assembles and the second does not: the report does not say which one was refused. */
  lemma LaterRefusalIsNotFound(cc: Compiler, table: map<string, int>)
    requires OneWordEach(cc, Mrs, ["a", "b"]) && Accepts(cc, Mrs, "a") && !Accepts(cc, Mrs, "b")
    ensures Report(cc, table, Mrs, ["a", "b"], 64) == [Refused(Mrs)]
    ensures Sweep(cc, Mrs, ["a", "b"][..1]).Some? && Sweep(cc, Mrs, ["a", "b"]).None?
  {
    var names := ["a", "b"];
    FirstLine(cc, Mrs, names);
    OneWordSome(cc, Mrs, names);
    assert !Accepts(cc, Mrs, names[1]);
    hide Report, OneWordEach, Sweep;
    ReportEnds(cc, table, Mrs, names, 64);
  }

  /** Such a compiler exists. */
  lemma LaterRefusalHappens()
    ensures var cc := (line: string) => if line == "mrs x0,a" then Some([0, 0, 0, 0]) else None;
            OneWordEach(cc, Mrs, ["a", "b"]) && Accepts(cc, Mrs, "a") && !Accepts(cc, Mrs, "b")
  {
    assert Instruction(Mrs, "a") == "mrs x0,a" && Instruction(Mrs, "b") == "mrs x0,b";
    assert "mrs x0,a"[7] != "mrs x0,b"[7];
  }
}
