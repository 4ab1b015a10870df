/**
 The encoder differential of scripts/aarch64_encoder_differential.py: corpus selection, address
 pinning through `.org`, and batched assembly with recursive bisection.

 An assembler is any per-line function: the bytes of a line depend on its text and its address,
 and a file is accepted exactly when all its lines are. Error texts are an arbitrary function of
 the file. The driver must then report, for every instruction, what testing it alone would.
 */
module EncoderDiffer {
  import opened Bytes
  import opened Options
  import opened Arith
  import opened Bits

  /** `word` is the decoded encoding as four little-endian bytes. */
  datatype Insn = Insn(addr: nat, word: seq<Byte>, mnemonic: string, text: string)

  // ---- the abstract assembler ----

  datatype Directive = Section | Org(addr: nat) | Line(text: string)

  datatype Assembler = Assembler(line: (string, nat) -> Option<seq<Byte>>, diagnose: seq<Directive> -> string)

  datatype AsmResult = AsmResult(ok: bool, data: seq<Byte>, error: string)

  function Zeros(n: nat): seq<Byte> {
    seq(n, i => 0)
  }

  /** The section bytes, or `None` when a line is refused or an `.org` moves backwards. */
  function Emit(asm: Assembler, src: seq<Directive>, data: seq<Byte>): Option<seq<Byte>>
    decreases |src|
  {
    if src == [] then Some(data)
    else
      match src[0]
      case Section => Emit(asm, src[1..], data)
      case Org(a) => if a < |data| then None else Emit(asm, src[1..], data + Zeros(a - |data|))
      case Line(t) =>
        var bytes := asm.line(t, |data|);
        if bytes.None? then None else Emit(asm, src[1..], data + bytes.value)
  }

  function Assemble(asm: Assembler, src: seq<Directive>): AsmResult {
    var out := Emit(asm, src, []);
    if out.None? then AsmResult(false, [], asm.diagnose(src)) else AsmResult(true, out.value, "")
  }

  // ---- address pinning ----

  /** Every instruction starts at or after the end of the one before it. */
  predicate Spaced(items: seq<Insn>) {
    forall i :: 0 <= i < |items| - 1 ==> items[i].addr + 4 <= items[i + 1].addr
  }

  function SourceFrom(items: seq<Insn>, cursor: nat): Option<seq<Directive>>
    decreases |items|
  {
    if items == [] then Some([])
    else
      var ins := items[0];
      if ins.addr < cursor then None
      else
        var rest := SourceFrom(items[1..], ins.addr + 4);
        if rest.None? then None
        else Some((if ins.addr > cursor then [Org(ins.addr)] else []) + [Line(ins.text)] + rest.value)
  }

  function Source(items: seq<Insn>): Option<seq<Directive>> {
    var body := SourceFrom(items, 0);
    if body.None? then None else Some([Section] + body.value)
  }

  function Joined(done: seq<Directive>, rest: Option<seq<Directive>>): Option<seq<Directive>> {
    if rest.None? then None else Some(done + rest.value)
  }

  /** `Differ._src`; `None` is the raised HarnessError. */
  method Src(items: seq<Insn>) returns (src: Option<seq<Directive>>)
    ensures src == Source(items)
  {
    var parts := [Section];
    var cursor: nat := 0;
    assert items[0..] == items;
    for i := 0 to |items|
      invariant Source(items) == Joined(parts, SourceFrom(items[i..], cursor))
    {
      var ins := items[i];
      assert items[i..][0] == ins && items[i..][1..] == items[i + 1..];
      ghost var rest := SourceFrom(items[i + 1..], ins.addr + 4);
      if ins.addr > cursor {
        JoinedTwice(parts, [Org(ins.addr)], [Line(ins.text)], rest);
        parts := parts + [Org(ins.addr)];
        cursor := ins.addr;
      } else if ins.addr < cursor {
        return None;
      } else {
        JoinedTwice(parts, [], [Line(ins.text)], rest);
        assert parts + [] == parts;
      }
      parts := parts + [Line(ins.text)];
      cursor := cursor + 4;
    }
    assert parts + [] == parts;
    src := Some(parts);
  }

  lemma JoinedTwice(parts: seq<Directive>, u: seq<Directive>, v: seq<Directive>, rest: Option<seq<Directive>>)
    ensures Joined(parts, if rest.None? then None else Some(u + v + rest.value)) == Joined(parts + u + v, rest)
  {
    if rest.Some? {
      assert parts + (u + v + rest.value) == parts + u + v + rest.value;
    }
  }

  /** The source never raises exactly when the addresses are spaced. */
  lemma {:induction false} SourceDefined(items: seq<Insn>, cursor: nat)
    ensures SourceFrom(items, cursor).Some? <==> Spaced(items) && (items != [] ==> items[0].addr >= cursor)
    decreases |items|
  {
    if items != [] {
      SourceDefined(items[1..], items[0].addr + 4);
      SpacedCons(items);
    }
  }

  lemma SpacedCons(items: seq<Insn>)
    requires items != []
    ensures Spaced(items) <==> Spaced(items[1..]) && (|items| > 1 ==> items[0].addr + 4 <= items[1].addr)
  {
    var rest := items[1..];
    if Spaced(rest) && (|items| > 1 ==> items[0].addr + 4 <= items[1].addr) {
      forall i | 0 <= i < |items| - 1
        ensures items[i].addr + 4 <= items[i + 1].addr
      {
        if i > 0 {
          assert rest[i - 1].addr + 4 <= rest[i].addr;
        }
      }
    }
  }

  /** Halves and chunks of a spaced list are spaced. */
  lemma SpacedSlice(items: seq<Insn>, lo: nat, hi: nat)
    requires Spaced(items) && lo <= hi <= |items|
    ensures Spaced(items[lo..hi])
  {
    var part := items[lo..hi];
    forall i | 0 <= i < |part| - 1
      ensures part[i].addr + 4 <= part[i + 1].addr
    {
      assert part[i] == items[lo + i] && part[i + 1] == items[lo + i + 1];
    }
  }

  // ---- where the bytes land ----

  predicate Accepted(asm: Assembler, ins: Insn) {
    asm.line(ins.text, ins.addr).Some?
  }

  predicate AllAccepted(asm: Assembler, items: seq<Insn>) {
    forall i :: 0 <= i < |items| ==> Accepted(asm, items[i])
  }

  /** The line is accepted with at least one word. */
  predicate Full(asm: Assembler, ins: Insn) {
    var bytes := asm.line(ins.text, ins.addr);
    bytes.Some? && |bytes.value| >= 4
  }

  predicate AllFull(asm: Assembler, items: seq<Insn>) {
    forall i :: 0 <= i < |items| ==> Full(asm, items[i])
  }

  /** An accepted line is one word, or ends before a next line that is pinned by its own `.org`. */
  predicate Room(asm: Assembler, ins: Insn, next: nat) {
    Accepted(asm, ins) ==>
      var n := |asm.line(ins.text, ins.addr).value|;
      n == 4 || (ins.addr + n <= next && ins.addr + 4 < next)
  }

  /** No line moves the ones after it. */
  predicate Pinned(asm: Assembler, items: seq<Insn>) {
    forall i :: 0 <= i < |items| - 1 ==> Room(asm, items[i], items[i + 1].addr)
  }

  lemma PinnedRest(asm: Assembler, items: seq<Insn>)
    requires items != [] && Pinned(asm, items)
    ensures Pinned(asm, items[1..])
  {
    assert items[1..|items|] == items[1..];
    PinnedSlice(asm, items, 1, |items|);
  }

  lemma PinnedSlice(asm: Assembler, items: seq<Insn>, lo: nat, hi: nat)
    requires Pinned(asm, items) && lo <= hi <= |items|
    ensures Pinned(asm, items[lo..hi])
  {
    hide Room;
    var part := items[lo..hi];
    forall i | 0 <= i < |part| - 1
      ensures Room(asm, part[i], part[i + 1].addr)
    {
      assert part[i] == items[lo + i] && part[i + 1] == items[lo + i + 1];
    }
  }

  /** The bytes of an accepted line lie at its own address. */
  ghost predicate At(asm: Assembler, ins: Insn, data: seq<Byte>) {
    var bytes := asm.line(ins.text, ins.addr);
    && bytes.Some? && ins.addr + |bytes.value| <= |data|
    && data[ins.addr..ins.addr + |bytes.value|] == bytes.value
  }

  ghost predicate Placed(asm: Assembler, items: seq<Insn>, data: seq<Byte>) {
    forall i :: 0 <= i < |items| ==> At(asm, items[i], data)
  }

  lemma AtStays(asm: Assembler, ins: Insn, data: seq<Byte>, more: seq<Byte>)
    requires At(asm, ins, data) && data <= more
    ensures At(asm, ins, more)
  {
    var bytes := asm.line(ins.text, ins.addr).value;
    assert more[ins.addr..ins.addr + |bytes|] == data[ins.addr..ins.addr + |bytes|];
  }

  /** The file ends with the bytes of its last line. */
  predicate EndsAt(asm: Assembler, ins: Insn, data: seq<Byte>) {
    var bytes := asm.line(ins.text, ins.addr);
    bytes.Some? && |data| == ins.addr + |bytes.value|
  }

  /** Emitting a pinned source succeeds exactly when every line is accepted at its own address. */
  lemma {:induction false} EmitPinned(asm: Assembler, items: seq<Insn>, cursor: nat, data: seq<Byte>)
    requires Pinned(asm, items) && SourceFrom(items, cursor).Some?
    requires items != [] ==> |data| <= items[0].addr && (|data| == items[0].addr || cursor < items[0].addr)
    ensures var out := Emit(asm, SourceFrom(items, cursor).value, data);
            && (out.Some? <==> AllAccepted(asm, items))
            && (out.Some? ==> data <= out.value && Placed(asm, items, out.value))
            && (out.Some? && items != [] ==> EndsAt(asm, items[|items| - 1], out.value))
    decreases |items|
  {
    hide At;
    if items != [] {
      var ins, rest := items[0], items[1..];
      EmitOne(asm, ins, cursor, SourceFrom(rest, ins.addr + 4).value, data);
      if Accepted(asm, ins) {
        var data' := data + Zeros(ins.addr - |data|) + asm.line(ins.text, ins.addr).value;
        AtEnd(asm, ins, data);
        PinnedRest(asm, items);
        if rest != [] {
          assert Room(asm, ins, items[1].addr);
          assert SourceFrom(rest, ins.addr + 4).Some?;
        }
        EmitPinned(asm, rest, ins.addr + 4, data');
        PlacedCons(asm, items, data', Emit(asm, SourceFrom(rest, ins.addr + 4).value, data'));
      }
    }
  }

  lemma AtEnd(asm: Assembler, ins: Insn, data: seq<Byte>)
    requires |data| <= ins.addr && Accepted(asm, ins)
    ensures var data' := data + Zeros(ins.addr - |data|) + asm.line(ins.text, ins.addr).value;
            At(asm, ins, data') && EndsAt(asm, ins, data') && data <= data'
  {
  }

  /** One instruction: an optional `.org` and the line. */
  lemma EmitOne(asm: Assembler, ins: Insn, cursor: nat, tail: seq<Directive>, data: seq<Byte>)
    requires |data| <= ins.addr && (|data| == ins.addr || cursor < ins.addr)
    ensures var src := (if ins.addr > cursor then [Org(ins.addr)] else []) + [Line(ins.text)] + tail;
            Emit(asm, src, data) ==
              if Accepted(asm, ins) then Emit(asm, tail, data + Zeros(ins.addr - |data|) + asm.line(ins.text, ins.addr).value)
              else None
  {
    var padded := data + Zeros(ins.addr - |data|);
    var src := [Line(ins.text)] + tail;
    assert src[1..] == tail;
    assert |padded| == ins.addr;
    assert Emit(asm, src, padded) ==
      if Accepted(asm, ins) then Emit(asm, tail, padded + asm.line(ins.text, ins.addr).value) else None;
    if ins.addr > cursor {
      var all := [Org(ins.addr)] + [Line(ins.text)] + tail;
      assert all[1..] == src;
    } else {
      assert padded == data;
      assert [] + [Line(ins.text)] + tail == src;
    }
  }

  lemma PlacedCons(asm: Assembler, items: seq<Insn>, data': seq<Byte>, out: Option<seq<Byte>>)
    requires items != [] && Accepted(asm, items[0]) && At(asm, items[0], data')
    requires out.Some? <==> AllAccepted(asm, items[1..])
    requires out.Some? ==> data' <= out.value && Placed(asm, items[1..], out.value)
    ensures out.Some? <==> AllAccepted(asm, items)
    ensures out.Some? ==> Placed(asm, items, out.value)
  {
    hide At, Accepted;
    var rest := items[1..];
    assert forall i :: 1 <= i < |items| ==> items[i] == rest[i - 1];
    if out.Some? {
      AtStays(asm, items[0], data', out.value);
    }
    if AllAccepted(asm, items) {
      forall i | 0 <= i < |rest|
        ensures Accepted(asm, rest[i])
      {
        assert rest[i] == items[i + 1];
      }
    }
  }

  /** What one assembler run on a pinned file yields. */
  lemma AssemblePinned(asm: Assembler, items: seq<Insn>)
    requires Pinned(asm, items) && Spaced(items) && items != []
    ensures Source(items).Some?
    ensures var r := Assemble(asm, Source(items).value);
            && (r.ok <==> AllAccepted(asm, items))
            && (r.ok ==> Placed(asm, items, r.data) && EndsAt(asm, items[|items| - 1], r.data))
  {
    SourceDefined(items, 0);
    var body := SourceFrom(items, 0).value;
    var src := [Section] + body;
    assert src[1..] == body;
    EmitPinned(asm, items, 0, []);
  }

  // ---- verdicts ----

  datatype Status = Ok | Misencode | RoundtripDrift | GasReject | LcccReject | BothReject

  datatype Finding = Finding(
    status: Status, addr: nat, text: string, mnemonic: string, word: seq<Byte>,
    gasBytes: Option<seq<Byte>>, lcccBytes: Option<seq<Byte>>, gasError: string, lcccError: string)

  /** The comparison of two accepted encodings. */
  function Compare(ins: Insn, gb: seq<Byte>, lb: seq<Byte>): Finding {
    var status := if gb != ins.word then RoundtripDrift else if gb != lb then Misencode else Ok;
    Finding(status, ins.addr, ins.text, ins.mnemonic, ins.word, Some(gb), Some(lb), "", "")
  }

  /** The verdict on a file of one instruction that could not be compared. */
  function Refusal(ins: Insn, g: AsmResult, l: AsmResult): Finding {
    var status :=
      if !g.ok && !l.ok then BothReject else if !g.ok then GasReject else if !l.ok then LcccReject else Misencode;
    Finding(status, ins.addr, ins.text, ins.mnemonic, ins.word,
            if g.ok then Some(g.data) else None, if l.ok then Some(l.data) else None, g.error, l.error)
  }

  /** The file of one instruction. */
  function OneFile(ins: Insn): seq<Directive> {
    [Section] + (if ins.addr > 0 then [Org(ins.addr)] else []) + [Line(ins.text)]
  }

  /** Testing one instruction alone. */
  function Single(gas: Assembler, lccc: Assembler, ins: Insn): Finding {
    var g, l := Assemble(gas, OneFile(ins)), Assemble(lccc, OneFile(ins));
    var a := ins.addr;
    if g.ok && l.ok && |g.data| >= a + 4 && |l.data| >= a + 4 then Compare(ins, g.data[a..a + 4], l.data[a..a + 4])
    else Refusal(ins, g, l)
  }

  function Singles(gas: Assembler, lccc: Assembler, items: seq<Insn>): seq<Finding> {
    seq(|items|, i requires 0 <= i < |items| => Single(gas, lccc, items[i]))
  }

  lemma SinglesConcat(gas: Assembler, lccc: Assembler, u: seq<Insn>, v: seq<Insn>)
    ensures Singles(gas, lccc, u) + Singles(gas, lccc, v) == Singles(gas, lccc, u + v)
  {
  }

  /** Two lists of findings are right together exactly when each is. */
  lemma SinglesSplit(gas: Assembler, lccc: Assembler, u: seq<Insn>, v: seq<Insn>, f: seq<Finding>, g: seq<Finding>)
    requires |f| == |u| && |g| == |v|
    ensures f + g == Singles(gas, lccc, u + v) <==> f == Singles(gas, lccc, u) && g == Singles(gas, lccc, v)
  {
    SinglesConcat(gas, lccc, u, v);
    var su, sv := Singles(gas, lccc, u), Singles(gas, lccc, v);
    assert (f + g)[..|u|] == f && (f + g)[|u|..] == g;
    assert (su + sv)[..|u|] == su && (su + sv)[|u|..] == sv;
  }

  lemma SourceOfOne(ins: Insn)
    ensures Source([ins]) == Some(OneFile(ins))
  {
    var head := (if ins.addr > 0 then [Org(ins.addr)] else []) + [Line(ins.text)];
    assert [ins][1..] == [];
    assert SourceFrom([ins], 0) == Some(head + []);
    assert head + [] == head;
    assert [Section] + head == OneFile(ins);
  }

  /** Of two instructions: an `.org` before the first unless it is at zero, and before the second only across a gap. */
  lemma SourceOfTwo(i: Insn, j: Insn)
    requires i.addr + 4 <= j.addr
    ensures Source([i, j]) ==
            Some([Section] + ((if i.addr > 0 then [Org(i.addr)] else []) + [Line(i.text)] +
                              ((if j.addr > i.addr + 4 then [Org(j.addr)] else []) + [Line(j.text)])))
  {
    var first := (if i.addr > 0 then [Org(i.addr)] else []) + [Line(i.text)];
    var second := (if j.addr > i.addr + 4 then [Org(j.addr)] else []) + [Line(j.text)];
    assert [i, j][1..] == [j] && [j][1..] == [];
    assert SourceFrom([j], i.addr + 4) == Some(second + []);
    assert second + [] == second;
    assert SourceFrom([i, j], 0) == Some(first + second);
  }

  /** The file of one instruction is padding and its bytes. */
  lemma OneFileIs(asm: Assembler, ins: Insn)
    ensures Emit(asm, OneFile(ins), []) ==
              if Accepted(asm, ins) then Some(Zeros(ins.addr) + asm.line(ins.text, ins.addr).value) else None
  {
    var body := (if ins.addr > 0 then [Org(ins.addr)] else []) + [Line(ins.text)];
    assert OneFile(ins)[1..] == body && body + [] == body;
    EmitOne(asm, ins, 0, [], []);
    assert [] + Zeros(ins.addr) == Zeros(ins.addr);
  }

  /** The first bytes of `slice` are those of the line, as far as it goes. */
  predicate Begins(asm: Assembler, ins: Insn, slice: seq<Byte>) {
    var bytes := asm.line(ins.text, ins.addr);
    |slice| == 4 && bytes.Some? && forall k :: 0 <= k < 4 && k < |bytes.value| ==> slice[k] == bytes.value[k]
  }

  lemma BeginsAt(asm: Assembler, ins: Insn, data: seq<Byte>)
    requires At(asm, ins, data) && ins.addr + 4 <= |data|
    ensures Begins(asm, ins, data[ins.addr..ins.addr + 4])
  {
    var bytes := asm.line(ins.text, ins.addr).value;
    var slice := data[ins.addr..ins.addr + 4];
    forall k | 0 <= k < 4 && k < |bytes|
      ensures slice[k] == bytes[k]
    {
      assert data[ins.addr..ins.addr + |bytes|][k] == data[ins.addr + k];
    }
  }

  /** Two full lines are compared alike in a batch and alone. */
  lemma FullIsSingle(gas: Assembler, lccc: Assembler, ins: Insn, gb: seq<Byte>, lb: seq<Byte>)
    requires Begins(gas, ins, gb) && Begins(lccc, ins, lb) && Full(gas, ins) && Full(lccc, ins)
    ensures Compare(ins, gb, lb) == Single(gas, lccc, ins)
  {
    hide Emit, Compare, OneFile;
    OneFileIs(gas, ins);
    OneFileIs(lccc, ins);
    var a := ins.addr;
    var g, l := Assemble(gas, OneFile(ins)), Assemble(lccc, OneFile(ins));
    assert g.data[a..a + 4] == gb && l.data[a..a + 4] == lb;
  }

  /** A slice that equals the short file it was cut from is all zeros. */
  lemma ShortSliceIsZero(asm: Assembler, ins: Insn, slice: seq<Byte>)
    requires Begins(asm, ins, slice) && !Full(asm, ins)
    requires slice == Zeros(ins.addr) + asm.line(ins.text, ins.addr).value
    ensures slice == [0, 0, 0, 0]
  {
    var bytes, a := asm.line(ins.text, ins.addr).value, ins.addr;
    assert 1 <= a <= 4 && |bytes| == 4 - a;
    assert forall k :: 0 <= k < a ==> slice[k] == 0;
    assert slice[0] == 0;
    assert slice[1] == if a > 1 then 0 else slice[1 - a];
    assert slice[2] == if a > 2 then 0 else slice[2 - a];
    assert slice[3] == if a > 3 then 0 else slice[3 - a];
  }

  /** A short line is never judged in a batch as it is alone. */
  lemma ShortDiffers(gas: Assembler, lccc: Assembler, ins: Insn, gb: seq<Byte>, lb: seq<Byte>)
    requires Begins(gas, ins, gb) && Begins(lccc, ins, lb) && !(Full(gas, ins) && Full(lccc, ins))
    ensures Compare(ins, gb, lb) != Single(gas, lccc, ins)
  {
    hide Emit, OneFile;
    OneFileIs(gas, ins);
    OneFileIs(lccc, ins);
    var g, l := Assemble(gas, OneFile(ins)), Assemble(lccc, OneFile(ins));
    assert Single(gas, lccc, ins) == Refusal(ins, g, l);
    if Compare(ins, gb, lb) == Single(gas, lccc, ins) {
      assert gb == g.data && lb == l.data && gb != lb;
      assert |g.data| == 4 && |l.data| == 4;
      ShortSliceIsZero(gas, ins, gb);
      ShortSliceIsZero(lccc, ins, lb);
      assert false;
    }
  }

  lemma SourceRaises(items: seq<Insn>)
    ensures Source(items).Some? <==> Spaced(items)
  {
    SourceDefined(items, 0);
  }

  // ---- what a verdict says about the two encodings ----

  /** The line was accepted and its first word is `w`. */
  predicate Encodes(bytes: Option<seq<Byte>>, w: seq<Byte>) {
    bytes.Some? && |bytes.value| >= 4 && bytes.value[..4] == w
  }

  predicate HasWord(bytes: Option<seq<Byte>>) {
    bytes.Some? && |bytes.value| >= 4
  }

  /** The verdict on an instruction whose line encodes to `g` with gas and to `l` with lccc, at its own address. */
  predicate Judged(ins: Insn, g: Option<seq<Byte>>, l: Option<seq<Byte>>, f: Finding) {
    && f.addr == ins.addr && f.text == ins.text && f.mnemonic == ins.mnemonic && f.word == ins.word
    && (f.status == Ok <==> Encodes(g, ins.word) && Encodes(l, ins.word))
    && (f.status == RoundtripDrift <==> HasWord(g) && HasWord(l) && !Encodes(g, ins.word))
    && (f.status == Misencode <==> g.Some? && l.Some? && (!HasWord(g) || !HasWord(l) || (Encodes(g, ins.word) && !Encodes(l, ins.word))))
    && (f.status == GasReject <==> g.None? && l.Some?)
    && (f.status == LcccReject <==> g.Some? && l.None?)
    && (f.status == BothReject <==> g.None? && l.None?)
    && (HasWord(g) && HasWord(l) ==> f.gasBytes == Some(g.value[..4]) && f.lcccBytes == Some(l.value[..4]))
    && (!(HasWord(g) && HasWord(l)) ==> f.gasBytes == Padded(g, ins.addr) && f.lcccBytes == Padded(l, ins.addr))
  }

  /** The whole file, where there is nothing to slice. */
  function Padded(bytes: Option<seq<Byte>>, addr: nat): Option<seq<Byte>> {
    if bytes.None? then None else Some(Zeros(addr) + bytes.value)
  }

  ghost predicate AllJudged(gas: Assembler, lccc: Assembler, items: seq<Insn>, fs: seq<Finding>) {
    |fs| == |items| && forall i :: 0 <= i < |items| ==>
      Judged(items[i], gas.line(items[i].text, items[i].addr), lccc.line(items[i].text, items[i].addr), fs[i])
  }

  lemma CompareJudges(ins: Insn, gb: seq<Byte>, lb: seq<Byte>)
    requires |gb| == |lb| == 4
    ensures Judged(ins, Some(gb), Some(lb), Compare(ins, gb, lb))
  {
    assert gb[..4] == gb && lb[..4] == lb;
  }

  /** Testing one instruction alone judges the two encodings, and shows what each assembler said of the lone file. */
  lemma SingleVerdict(gas: Assembler, lccc: Assembler, ins: Insn)
    ensures Judged(ins, gas.line(ins.text, ins.addr), lccc.line(ins.text, ins.addr), Single(gas, lccc, ins))
    ensures var alone := [Section] + (if ins.addr > 0 then [Org(ins.addr)] else []) + [Line(ins.text)];
            && Single(gas, lccc, ins).gasError == (if Accepted(gas, ins) then "" else gas.diagnose(alone))
            && Single(gas, lccc, ins).lcccError == (if Accepted(lccc, ins) then "" else lccc.diagnose(alone))
  {
    hide Emit;
    OneFileIs(gas, ins);
    OneFileIs(lccc, ins);
    if Full(gas, ins) && Full(lccc, ins) {
      var g, l, a := gas.line(ins.text, ins.addr).value, lccc.line(ins.text, ins.addr).value, ins.addr;
      assert (Zeros(a) + g)[a..a + 4] == g[..4] && (Zeros(a) + l)[a..a + 4] == l[..4];
    }
  }

  lemma SinglesJudged(gas: Assembler, lccc: Assembler, items: seq<Insn>)
    ensures AllJudged(gas, lccc, items, Singles(gas, lccc, items))
  {
    hide Single, Judged;
    forall i | 0 <= i < |items|
      ensures Judged(items[i], gas.line(items[i].text, items[i].addr), lccc.line(items[i].text, items[i].addr), Single(gas, lccc, items[i]))
    {
      SingleVerdict(gas, lccc, items[i]);
    }
  }

  /** When gas gives the decoded word back and lccc another one, that is reported, whatever the words are. */
  lemma MisencodingIsReported(gas: Assembler, lccc: Assembler, ins: Insn, w: seq<Byte>)
    requires |ins.word| == |w| == 4 && w != ins.word
    requires gas.line(ins.text, ins.addr) == Some(ins.word) && lccc.line(ins.text, ins.addr) == Some(w)
    ensures var f := Single(gas, lccc, ins); f.status == Misencode && f.gasBytes == Some(ins.word) && f.lcccBytes == Some(w)
  {
    SingleVerdict(gas, lccc, ins);
    assert ins.word[..4] == ins.word && w[..4] == w;
  }

  // ---- cost ----

  /** The instruction is refused or comes out short. */
  predicate Troubled(gas: Assembler, lccc: Assembler, ins: Insn) {
    !Full(gas, ins) || !Full(lccc, ins)
  }

  function CountTroubled(gas: Assembler, lccc: Assembler, items: seq<Insn>): nat {
    if items == [] then 0 else Digit(Troubled(gas, lccc, items[0])) + CountTroubled(gas, lccc, items[1..])
  }

  lemma {:induction false} CountConcat(gas: Assembler, lccc: Assembler, u: seq<Insn>, v: seq<Insn>)
    ensures CountTroubled(gas, lccc, u + v) == CountTroubled(gas, lccc, u) + CountTroubled(gas, lccc, v)
  {
    if u == [] {
      assert u + v == v;
    } else {
      assert (u + v)[1..] == u[1..] + v;
      CountConcat(gas, lccc, u[1..], v);
    }
  }

  lemma {:induction false} CountZero(gas: Assembler, lccc: Assembler, items: seq<Insn>)
    ensures CountTroubled(gas, lccc, items) == 0 <==> AllFull(gas, items) && AllFull(lccc, items)
  {
    hide Full;
    if items != [] {
      CountZero(gas, lccc, items[1..]);
      var rest := items[1..];
      assert forall i :: 1 <= i < |items| ==> items[i] == rest[i - 1];
      assert forall i :: 0 <= i < |rest| ==> rest[i] == items[i + 1];
    }
  }

  /** The file of `items` assembles and is long enough to be compared. */
  predicate Compared(gas: Assembler, lccc: Assembler, items: seq<Insn>) {
    && items != [] && AllAccepted(gas, items) && AllAccepted(lccc, items)
    && Full(gas, items[|items| - 1]) && Full(lccc, items[|items| - 1])
  }

  lemma UntroubledCompared(gas: Assembler, lccc: Assembler, items: seq<Insn>)
    requires items != [] && CountTroubled(gas, lccc, items) == 0
    ensures Compared(gas, lccc, items)
  {
    CountZero(gas, lccc, items);
    assert forall i :: 0 <= i < |items| && Full(gas, items[i]) ==> Accepted(gas, items[i]);
    assert forall i :: 0 <= i < |items| && Full(lccc, items[i]) ==> Accepted(lccc, items[i]);
  }

  /** The bisection leaves every short line that is not refused to a file of its own. */
  predicate ShortAlone(gas: Assembler, lccc: Assembler, items: seq<Insn>)
    decreases |items|
  {
    |items| <= 1 ||
    if Compared(gas, lccc, items) then AllFull(gas, items) && AllFull(lccc, items)
    else ShortAlone(gas, lccc, items[..|items| / 2]) && ShortAlone(gas, lccc, items[|items| / 2..])
  }

  /** `ShortAlone` of every chunk that `run` cuts. */
  predicate ChunksAlone(gas: Assembler, lccc: Assembler, items: seq<Insn>, batch: nat)
    requires batch > 0
    decreases |items|
  {
    items == [] ||
    var hi := if batch <= |items| then batch else |items|;
    ShortAlone(gas, lccc, items[..hi]) && ChunksAlone(gas, lccc, items[hi..], batch)
  }

  lemma ChunkStep(gas: Assembler, lccc: Assembler, items: seq<Insn>, batch: nat, i: nat, hi: nat)
    requires batch > 0 && i < |items| && hi == if i + batch <= |items| then i + batch else |items|
    ensures ChunksAlone(gas, lccc, items[i..], batch) <==>
              ShortAlone(gas, lccc, items[i..hi]) && ChunksAlone(gas, lccc, items[hi..], batch)
  {
    hide ShortAlone;
    assert items[i..][..hi - i] == items[i..hi] && items[i..][hi - i..] == items[hi..];
  }

  /** An accepted line fills its word. */
  predicate Whole(asm: Assembler, items: seq<Insn>) {
    forall i :: 0 <= i < |items| && Accepted(asm, items[i]) ==> Full(asm, items[i])
  }

  lemma {:induction false} WholeAlone(gas: Assembler, lccc: Assembler, items: seq<Insn>)
    requires Whole(gas, items) && Whole(lccc, items)
    ensures ShortAlone(gas, lccc, items)
    decreases |items|
  {
    hide Full, Accepted;
    if |items| > 1 && !Compared(gas, lccc, items) {
      WholeAlone(gas, lccc, items[..|items| / 2]);
      WholeAlone(gas, lccc, items[|items| / 2..]);
    }
  }

  /** When no accepted line is short, every chunk size gives the verdicts of testing each line alone. */
  lemma {:induction false} WholeChunks(gas: Assembler, lccc: Assembler, items: seq<Insn>, batch: nat)
    requires batch > 0 && Whole(gas, items) && Whole(lccc, items)
    ensures ChunksAlone(gas, lccc, items, batch)
    decreases |items|
  {
    hide Full, Accepted, ShortAlone;
    if items != [] {
      var hi := if batch <= |items| then batch else |items|;
      WholeAlone(gas, lccc, items[..hi]);
      WholeChunks(gas, lccc, items[hi..], batch);
    }
  }

  /** The least `k` with `2^k >= n`. */
  function CeilLog2(n: nat): nat {
    if n <= 1 then 0 else 1 + CeilLog2((n + 1) / 2)
  }

  lemma {:induction false} CeilLog2Exact(n: nat)
    requires n >= 1
    ensures n <= Pow2(CeilLog2(n)) && (n > 1 ==> Pow2(CeilLog2(n) - 1) < n)
  {
    if n > 1 { CeilLog2Exact((n + 1) / 2); }
  }

  lemma {:induction false} CeilLog2Monotone(m: nat, n: nat)
    requires m <= n
    ensures CeilLog2(m) <= CeilLog2(n)
    decreases n
  {
    if m > 1 { CeilLog2Monotone((m + 1) / 2, (n + 1) / 2); }
  }

  /** How many files the bisection of `items` assembles with each assembler. */
  function Files(gas: Assembler, lccc: Assembler, items: seq<Insn>): nat
    decreases |items|
  {
    if Compared(gas, lccc, items) || |items| <= 1 then 1
    else
      var mid := |items| / 2;
      1 + Files(gas, lccc, items[..mid]) + Files(gas, lccc, items[mid..])
  }

  /** A product under a name, so that the induction can treat it as a black box. */
  function Times(k: nat, l: nat): nat {
    k * l
  }

  lemma {:induction false} FilesTimes(gas: Assembler, lccc: Assembler, items: seq<Insn>)
    requires items != []
    ensures Files(gas, lccc, items) <= 1 + 2 * Times(CountTroubled(gas, lccc, items), CeilLog2(|items|))
    ensures CountTroubled(gas, lccc, items) == 0 ==> Files(gas, lccc, items) == 1
    decreases |items|
  {
    hide CountTroubled, Compared, Times;
    if CountTroubled(gas, lccc, items) == 0 {
      UntroubledCompared(gas, lccc, items);
    } else if !Compared(gas, lccc, items) && |items| > 1 {
      var mid := |items| / 2;
      var u, v := items[..mid], items[mid..];
      assert u + v == items;
      CountConcat(gas, lccc, u, v);
      FilesTimes(gas, lccc, u);
      FilesTimes(gas, lccc, v);
      CeilLog2Monotone(|u|, |v|);
      assert CeilLog2(|items|) == 1 + CeilLog2(|v|);
      SplitBound(CountTroubled(gas, lccc, u), CountTroubled(gas, lccc, v), CeilLog2(|u|), CeilLog2(|v|));
    }
  }

  lemma SplitBound(j: nat, k: nat, l: nat, L: nat)
    requires l <= L && j + k >= 1
    ensures 1 + (1 + 2 * Times(j, l)) + (1 + 2 * Times(k, L)) <= 1 + 2 * Times(j + k, 1 + L)
  {
    MulMonotone(j, l, L);
    assert (j + k) * (1 + L) == (j + k) + j * L + k * L;
  }

  /** One refused or short instruction costs at most twice the logarithm of the batch in extra files. */
  lemma FilesBound(gas: Assembler, lccc: Assembler, items: seq<Insn>)
    requires items != []
    ensures Files(gas, lccc, items) <= 1 + 2 * (CountTroubled(gas, lccc, items) * CeilLog2(|items|))
    ensures CountTroubled(gas, lccc, items) == 0 ==> Files(gas, lccc, items) == 1
  {
    hide Files, CountTroubled, CeilLog2;
    FilesTimes(gas, lccc, items);
  }

  // ---- the differ ----

  class Differ {
    const gas: Assembler
    const lccc: Assembler
    const batch: nat
    var calls: nat
    var seqNo: nat

    constructor (gas: Assembler, lccc: Assembler, batch: nat)
      ensures this.gas == gas && this.lccc == lccc && this.batch == batch && calls == 0 && seqNo == 0
    {
      this.gas, this.lccc, this.batch, calls, seqNo := gas, lccc, batch, 0, 0;
    }

    /** Slice both outputs at the pinned addresses. */
    method CompareAll(items: seq<Insn>, g: AsmResult, l: AsmResult) returns (findings: seq<Finding>)
      requires forall i :: 0 <= i < |items| ==> items[i].addr + 4 <= |g.data| && items[i].addr + 4 <= |l.data|
      ensures |findings| == |items|
      ensures forall i :: 0 <= i < |items| ==>
                findings[i] == Compare(items[i], g.data[items[i].addr..items[i].addr + 4], l.data[items[i].addr..items[i].addr + 4])
      ensures forall i :: 0 <= i < |items| ==>
                Judged(items[i], Some(g.data[items[i].addr..items[i].addr + 4]), Some(l.data[items[i].addr..items[i].addr + 4]), findings[i])
    {
      hide Judged, Compare;
      findings := [];
      for i := 0 to |items|
        invariant |findings| == i
        invariant forall k :: 0 <= k < i ==>
                    Judged(items[k], Some(g.data[items[k].addr..items[k].addr + 4]), Some(l.data[items[k].addr..items[k].addr + 4]), findings[k])
        invariant forall k :: 0 <= k < i ==>
                    findings[k] == Compare(items[k], g.data[items[k].addr..items[k].addr + 4], l.data[items[k].addr..items[k].addr + 4])
      {
        var ins := items[i];
        var gb := g.data[ins.addr..ins.addr + 4];
        var lb := l.data[ins.addr..ins.addr + 4];
        CompareJudges(ins, gb, lb);
        findings := findings + [Compare(ins, gb, lb)];
      }
    }

    /**
     `_batch`: one file when everything assembles, otherwise bisect. `None` is the raised error. Where no
     line moves the next ones, the findings are those of the lone files exactly when no short line is
     compared inside a longer file.
     */
    method Batch(items: seq<Insn>, depth: nat) returns (findings: Option<seq<Finding>>)
      requires items != []
      modifies this`calls, this`seqNo
      ensures findings.Some? <==> Spaced(items)
      ensures findings.Some? ==> |findings.value| == |items|
      ensures findings.Some? && Pinned(gas, items) && Pinned(lccc, items) ==>
                && (findings.value == Singles(gas, lccc, items) <==> ShortAlone(gas, lccc, items))
                && (ShortAlone(gas, lccc, items) ==> AllJudged(gas, lccc, items, findings.value))
                && calls == old(calls) + 2 * Files(gas, lccc, items)
                && seqNo == old(seqNo) + Files(gas, lccc, items)
                && calls <= old(calls) + 2 + 4 * Times(CountTroubled(gas, lccc, items), CeilLog2(|items|))
                && (CountTroubled(gas, lccc, items) == 0 ==> calls == old(calls) + 2)
      decreases |items|
    {
      hide Assemble, Source, SourceFrom, Compared, AllFull, Placed, CountTroubled, Spaced, Pinned, Single, Singles, Times, CeilLog2, AllJudged;
      SinglesJudged(gas, lccc, items);
      FilesTimes(gas, lccc, items);
      ghost var pinned := Pinned(gas, items) && Pinned(lccc, items);
      seqNo := seqNo + 1;
      calls := calls + 2;
      var src := Src(items);
      SourceRaises(items);
      if src.None? {
        return None;
      }
      if pinned { BatchRun(gas, lccc, items); }
      var g := Assemble(gas, src.value);
      var l := Assemble(lccc, src.value);
      var need := items[|items| - 1].addr + 4;
      if g.ok && l.ok && |g.data| >= need && |l.data| >= need {
        LastIsHighest(items);
        var fs := CompareAll(items, g, l);
        if pinned { ComparedExactly(gas, lccc, items, g.data, l.data, fs); }
        return Some(fs);
      }
      if |items| == 1 {
        assert items == [items[0]];
        SourceOfOne(items[0]);
        findings := Some([Refusal(items[0], g, l)]);
        LeafIsSingle(gas, lccc, items[0], g, l);
        return;
      }
      var mid := |items| / 2;
      SpacedSlice(items, 0, mid);
      SpacedSlice(items, mid, |items|);
      assert items[0..mid] == items[..mid] && items[mid..|items|] == items[mid..];
      if pinned {
        PinnedSlice(gas, items, 0, mid); PinnedSlice(gas, items, mid, |items|);
        PinnedSlice(lccc, items, 0, mid); PinnedSlice(lccc, items, mid, |items|);
      }
      var left := Batch(items[..mid], depth + 1);
      var right := Batch(items[mid..], depth + 1);
      SinglesSplit(gas, lccc, items[..mid], items[mid..], left.value, right.value);
      assert items[..mid] + items[mid..] == items;
      findings := Some(left.value + right.value);
    }

    /** `run`: the findings are those of the lone files exactly when they are in every chunk. */
    method Run(items: seq<Insn>) returns (findings: Option<seq<Finding>>)
      requires batch > 0
      modifies this`calls, this`seqNo
      ensures Spaced(items) ==> findings.Some? && |findings.value| == |items|
      ensures Spaced(items) && Pinned(gas, items) && Pinned(lccc, items) ==>
                (findings == Some(Singles(gas, lccc, items)) <==> ChunksAlone(gas, lccc, items, batch))
      ensures Spaced(items) && Pinned(gas, items) && Pinned(lccc, items) && ChunksAlone(gas, lccc, items, batch) ==>
                AllJudged(gas, lccc, items, findings.value)
      ensures Spaced(items) && Pinned(gas, items) && Pinned(lccc, items) ==>
                calls <= old(calls) + 2 * ((|items| + batch - 1) / batch) + 4 * Times(CountTroubled(gas, lccc, items), CeilLog2(batch))
    {
      hide Spaced, Pinned, Singles, CountTroubled, Times, CeilLog2, ShortAlone, Files, AllJudged;
      var out: seq<Finding> := [];
      var i := 0;
      ghost var chunks := 0;
      ghost var pinned := Spaced(items) && Pinned(gas, items) && Pinned(lccc, items);
      SinglesNone(gas, lccc, CeilLog2(batch));
      assert items[..0] == [] && items[0..] == items;
      assert ChunksAlone(gas, lccc, [], batch);
      hide ChunksAlone;
      while i < |items|
        invariant 0 <= i <= |items|
        invariant |out| == i
        invariant pinned ==> (ChunksAlone(gas, lccc, items, batch) <==>
                              out == Singles(gas, lccc, items[..i]) && ChunksAlone(gas, lccc, items[i..], batch))
        invariant i == |items| || i == chunks * batch
        invariant chunks == (i + batch - 1) / batch
        invariant pinned ==>
                    calls <= old(calls) + 2 * chunks + 4 * Times(CountTroubled(gas, lccc, items[..i]), CeilLog2(batch))
      {
        var hi := if i + batch <= |items| then i + batch else |items|;
        var chunk := items[i..hi];
        if Spaced(items) {
          SpacedSlice(items, i, hi);
        }
        if pinned {
          PinnedSlice(gas, items, i, hi);
          PinnedSlice(lccc, items, i, hi);
        }
        var fs := Batch(chunk, 0);
        if fs.None? {
          return None;
        }
        SinglesSplit(gas, lccc, items[..i], chunk, out, fs.value);
        assert items[..i] + chunk == items[..hi];
        ChunkStep(gas, lccc, items, batch, i, hi);
        ChunkCost(gas, lccc, items, i, hi, batch);
        out := out + fs.value;
        ChunkCount(chunks, batch, i, hi);
        i := hi;
        chunks := chunks + 1;
      }
      assert items[..|items|] == items && items[|items|..] == [];
      SinglesJudged(gas, lccc, items);
      findings := Some(out);
    }
  }

  lemma SinglesNone(gas: Assembler, lccc: Assembler, l: nat)
    ensures Singles(gas, lccc, []) == [] && Times(CountTroubled(gas, lccc, []), l) == 0
  {
  }

  /** What both runs on a pinned batch yield. */
  lemma BatchRun(gas: Assembler, lccc: Assembler, items: seq<Insn>)
    requires Pinned(gas, items) && Pinned(lccc, items) && Spaced(items) && items != []
    ensures Source(items).Some?
    ensures var g, l := Assemble(gas, Source(items).value), Assemble(lccc, Source(items).value);
            var need := items[|items| - 1].addr + 4;
            && (Compared(gas, lccc, items) <==> g.ok && l.ok && |g.data| >= need && |l.data| >= need)
            && (g.ok && l.ok ==> Placed(gas, items, g.data) && Placed(lccc, items, l.data))
  {
    hide Assemble, Source, Placed, Pinned, AllAccepted;
    AssemblePinned(gas, items);
    AssemblePinned(lccc, items);
  }

  /** All slices lie inside the section once the last one does. */
  lemma LastIsHighest(items: seq<Insn>)
    requires Spaced(items) && items != []
    ensures forall i :: 0 <= i < |items| ==> items[i].addr <= items[|items| - 1].addr
  {
    forall i | 0 <= i < |items|
      ensures items[i].addr <= items[|items| - 1].addr
    {
      if i < |items| - 1 { FarApart(items, i, |items| - 1); }
    }
  }

  /** A compared file gives the lone verdicts exactly when no line in it is short. */
  lemma ComparedExactly(gas: Assembler, lccc: Assembler, items: seq<Insn>, gd: seq<Byte>, ld: seq<Byte>, fs: seq<Finding>)
    requires Placed(gas, items, gd) && Placed(lccc, items, ld) && |fs| == |items| && Compared(gas, lccc, items)
    requires forall i :: 0 <= i < |items| ==> items[i].addr + 4 <= |gd| && items[i].addr + 4 <= |ld|
    requires forall i :: 0 <= i < |items| ==>
               fs[i] == Compare(items[i], gd[items[i].addr..items[i].addr + 4], ld[items[i].addr..items[i].addr + 4])
    ensures fs == Singles(gas, lccc, items) <==> ShortAlone(gas, lccc, items)
  {
    hide Single, Compare, At, Begins, Full, AllAccepted;
    forall i | 0 <= i < |items|
      ensures fs[i] == Single(gas, lccc, items[i]) <==> Full(gas, items[i]) && Full(lccc, items[i])
    {
      var ins := items[i];
      BeginsAt(gas, ins, gd);
      BeginsAt(lccc, ins, ld);
      var gb, lb := gd[ins.addr..ins.addr + 4], ld[ins.addr..ins.addr + 4];
      if Full(gas, ins) && Full(lccc, ins) {
        FullIsSingle(gas, lccc, ins, gb, lb);
      } else {
        ShortDiffers(gas, lccc, ins, gb, lb);
      }
    }
    assert fs == Singles(gas, lccc, items) <==> AllFull(gas, items) && AllFull(lccc, items);
  }

  /** A lone file that cannot be compared is its own verdict. */
  lemma LeafIsSingle(gas: Assembler, lccc: Assembler, ins: Insn, g: AsmResult, l: AsmResult)
    requires g == Assemble(gas, OneFile(ins)) && l == Assemble(lccc, OneFile(ins))
    requires !(g.ok && l.ok && |g.data| >= ins.addr + 4 && |l.data| >= ins.addr + 4)
    ensures Singles(gas, lccc, [ins]) == [Refusal(ins, g, l)]
  {
  }

  /** Two lines of which the first emits nothing. */
  function Silent(w: seq<Byte>): Assembler {
    Assembler((t: string, a: nat) => if t == "x" then Some([]) else Some(w), (src: seq<Directive>) => "")
  }

  function SilentItems(w: seq<Byte>): seq<Insn> {
    [Insn(0, w, "x", "x"), Insn(8, w, "y", "y")]
  }

  /** Where the two ways of testing part: padding is compared in the batch, a short file is refused alone. */
  lemma SilentLineDiffers(w: seq<Byte>)
    requires |w| == 4 && w != [0, 0, 0, 0]
    ensures var asm, items := Silent(w), SilentItems(w);
            && Spaced(items) && Source(items).Some? && Pinned(asm, items) && !ShortAlone(asm, asm, items)
            && Assemble(asm, Source(items).value) == AsmResult(true, Zeros(8) + w, "")
            && Compare(items[0], (Zeros(8) + w)[0..4], (Zeros(8) + w)[0..4]).status == RoundtripDrift
            && Single(asm, asm, items[0]).status == Misencode
  {
    SilentBatch(w);
    SilentShape(w);
    assert (Zeros(8) + w)[0..4] == [0, 0, 0, 0];
    SilentAlone(w);
    hide Emit, Source, Pinned, ShortAlone, Spaced, Silent;
  }

  lemma SilentShape(w: seq<Byte>)
    requires |w| == 4
    ensures var asm, items := Silent(w), SilentItems(w);
            Spaced(items) && Pinned(asm, items) && !ShortAlone(asm, asm, items)
  {
    var asm, items := Silent(w), SilentItems(w);
    assert !Full(asm, items[0]) && Full(asm, items[1]) && AllAccepted(asm, items);
    hide Silent, Full;
  }

  lemma SilentAlone(w: seq<Byte>)
    ensures Assemble(Silent(w), OneFile(SilentItems(w)[0])) == AsmResult(true, [], "")
  {
    var asm := Silent(w);
    var one := OneFile(SilentItems(w)[0]);
    assert one == [Section, Line("x")];
    var line := [Line("x")];
    assert one[1..] == line && line[1..] == [];
    assert asm.line("x", 0) == Some([]);
    assert Emit(asm, line, []) == Some([] + []);
    assert Emit(asm, one, []) == Some([] + []);
  }

  lemma SilentBatch(w: seq<Byte>)
    requires |w| == 4
    ensures var asm, items := Silent(w), SilentItems(w);
            && Source(items) == Some([Section, Line("x"), Org(8), Line("y")])
            && Assemble(asm, [Section, Line("x"), Org(8), Line("y")]) == AsmResult(true, Zeros(8) + w, "")
  {
    var asm, items := Silent(w), SilentItems(w);
    assert items[1..] == [items[1]] && items[1..][1..] == [];
    assert SourceFrom(items[1..], 4) == Some([Org(8)] + [Line("y")] + []);
    assert SourceFrom(items, 0).value == [Line("x"), Org(8), Line("y")];
    assert [Section] + [Line("x"), Org(8), Line("y")] == [Section, Line("x"), Org(8), Line("y")];
    var src := [Section, Line("x"), Org(8), Line("y")];
    assert src[1..] == [Line("x"), Org(8), Line("y")];
    assert src[1..][1..] == [Org(8), Line("y")];
    assert src[1..][1..][1..] == [Line("y")];
    assert src[1..][1..][1..][1..] == [];
    assert [] + [] + Zeros(8) + w == Zeros(8) + w;
    assert asm.line("x", 0) == Some([]) && asm.line("y", 8) == Some(w);
  }

  lemma ChunkCost(gas: Assembler, lccc: Assembler, items: seq<Insn>, i: nat, hi: nat, batch: nat)
    requires i < hi <= |items| && hi - i <= batch
    ensures 2 * Files(gas, lccc, items[i..hi]) + 4 * Times(CountTroubled(gas, lccc, items[..i]), CeilLog2(batch)) <=
            2 + 4 * Times(CountTroubled(gas, lccc, items[..hi]), CeilLog2(batch))
  {
    hide Files, CountTroubled, CeilLog2, Times;
    var chunk := items[i..hi];
    assert items[..i] + chunk == items[..hi];
    CountConcat(gas, lccc, items[..i], chunk);
    FilesTimes(gas, lccc, chunk);
    CeilLog2Monotone(|chunk|, batch);
    CostAdds(CountTroubled(gas, lccc, items[..i]), CountTroubled(gas, lccc, chunk), CeilLog2(|chunk|), CeilLog2(batch));
  }

  lemma CostAdds(j: nat, k: nat, l: nat, L: nat)
    requires l <= L
    ensures Times(k, l) <= Times(k, L) && Times(j + k, L) == Times(j, L) + Times(k, L)
  {
    MulMonotone(k, l, L);
  }

  lemma ChunkCount(chunks: int, batch: nat, i: nat, hi: nat)
    requires batch > 0 && i == chunks * batch && i < hi <= i + batch
    ensures (hi + batch - 1) / batch == chunks + 1
    ensures hi == i + batch ==> hi == (chunks + 1) * batch
  {
    assert batch * (chunks + 1) == chunks * batch + batch;
    ModUnique(hi + batch - 1, batch, chunks + 1, hi - i - 1);
  }

  // ---- corpus selection ----

  /** `at` lists corpus positions in increasing order. */
  predicate Increasing(at: seq<nat>) {
    forall i, j :: 0 <= i < j < |at| ==> at[i] < at[j]
  }

  function CountMnemonic(items: seq<Insn>, m: string): nat {
    if items == [] then 0
    else CountMnemonic(items[..|items| - 1], m) + Digit(items[|items| - 1].mnemonic == m)
  }

  predicate HasText(items: seq<Insn>, t: string) {
    exists k :: 0 <= k < |items| && items[k].text == t
  }

  /** A position that was passed over had its text or its mnemonic's whole budget picked before it. */
  ghost predicate PassedOver(corpus: seq<Insn>, at: seq<nat>, picked: seq<Insn>, perMnemonic: nat, p: nat)
    requires |at| == |picked| && p < |corpus|
  {
    exists k :: 0 <= k <= |at| && (forall i :: 0 <= i < k ==> at[i] < p) &&
      (HasText(picked[..k], corpus[p].text) || CountMnemonic(picked[..k], corpus[p].mnemonic) >= perMnemonic)
  }

  /** `select_corpus`. */
  method SelectCorpus(corpus: seq<Insn>, perMnemonic: nat, maxInsns: nat) returns (picked: seq<Insn>, ghost at: seq<nat>)
    ensures |at| == |picked| && Increasing(at)
    ensures forall k :: 0 <= k < |at| ==> at[k] < |corpus| && picked[k] == corpus[at[k]]
    ensures DistinctTexts(picked)
    ensures forall m: string :: CountMnemonic(picked, m) <= perMnemonic
    ensures |picked| <= if maxInsns == 0 then 1 else maxInsns
    ensures |picked| < maxInsns ==> forall p: nat :: p < |corpus| && p !in at ==> PassedOver(corpus, at, picked, perMnemonic, p)
    ensures Spaced(corpus) ==> Spaced(picked)
  {
    hide Selecting, PassedOver, HasText, CountMnemonic, Spaced, Lookup, Increasing, DistinctTexts;
    var seen: set<string> := {};
    var counts: map<string, nat> := map[];
    picked, at := [], [];
    SelectingStarts(corpus, perMnemonic);
    ghost var last := 0;
    for n := 0 to |corpus|
      invariant Selecting(corpus, n, at, picked, seen, counts, perMnemonic) && last == n
      invariant |picked| < maxInsns || picked == []
    {
      var ins := corpus[n];
      SelectingStep(corpus, n, at, picked, seen, counts, perMnemonic);
      last := n + 1;
      if Lookup(counts, ins.mnemonic) >= perMnemonic || ins.text in seen {
        continue;
      }
      seen := seen + {ins.text};
      counts := counts[ins.mnemonic := Lookup(counts, ins.mnemonic) + 1];
      picked := picked + [ins];
      at := at + [n];
      if |picked| >= maxInsns {
        break;
      }
    }
    SelectingEnds(corpus, last, at, picked, seen, counts, perMnemonic);
  }

  /** What holds after the first `n` instructions of the corpus. */
  ghost predicate Selecting(corpus: seq<Insn>, n: nat, at: seq<nat>, picked: seq<Insn>, seen: set<string>, counts: map<string, nat>, perMnemonic: nat) {
    && n <= |corpus| && |at| == |picked| && Increasing(at)
    && (forall k :: 0 <= k < |at| ==> at[k] < n && picked[k] == corpus[at[k]])
    && (forall t :: t in seen <==> HasText(picked, t))
    && (forall m: string :: CountMnemonic(picked, m) == Lookup(counts, m) <= perMnemonic)
    && DistinctTexts(picked)
    && (forall p: nat :: p < n && p !in at ==> PassedOver(corpus, at, picked, perMnemonic, p))
  }

  lemma SelectingStep(corpus: seq<Insn>, n: nat, at: seq<nat>, picked: seq<Insn>, seen: set<string>, counts: map<string, nat>, perMnemonic: nat)
    requires Selecting(corpus, n, at, picked, seen, counts, perMnemonic) && n < |corpus|
    ensures var ins := corpus[n];
            if Lookup(counts, ins.mnemonic) >= perMnemonic || ins.text in seen
            then Selecting(corpus, n + 1, at, picked, seen, counts, perMnemonic)
            else Selecting(corpus, n + 1, at + [n], picked + [ins], seen + {ins.text},
                           counts[ins.mnemonic := Lookup(counts, ins.mnemonic) + 1], perMnemonic)
  {
    hide PassedOver, HasText, CountMnemonic;
    var ins := corpus[n];
    if Lookup(counts, ins.mnemonic) >= perMnemonic || ins.text in seen {
      NowPassedOver(corpus, at, picked, perMnemonic, n);
    } else {
      PickedMore(corpus, at, picked, perMnemonic, n);
      TakenInOrder(corpus, n, at, picked);
      var all, counts' := picked + [ins], counts[ins.mnemonic := Lookup(counts, ins.mnemonic) + 1];
      forall m: string
        ensures CountMnemonic(all, m) == Lookup(counts', m) <= perMnemonic
      {
        assert CountMnemonic(picked, m) == Lookup(counts, m);
      }
      forall p: nat | p < n + 1 && p !in at + [n]
        ensures PassedOver(corpus, at + [n], all, perMnemonic, p)
      {
        assert p < n && p !in at;
      }
      assert forall t :: t in seen + {ins.text} <==> HasText(all, t);
      hide Increasing, DistinctTexts, Lookup;
    }
  }

  lemma TakenInOrder(corpus: seq<Insn>, n: nat, at: seq<nat>, picked: seq<Insn>)
    requires n < |corpus| && |at| == |picked| && Increasing(at) && forall k :: 0 <= k < |at| ==> at[k] < n && picked[k] == corpus[at[k]]
    ensures var at', picked' := at + [n], picked + [corpus[n]];
            && Increasing(at') && (forall p: nat :: p in at' <==> p in at || p == n)
            && (forall k :: 0 <= k < |at'| ==> at'[k] < n + 1 && picked'[k] == corpus[at'[k]])
  {
  }

  lemma SelectingEnds(corpus: seq<Insn>, n: nat, at: seq<nat>, picked: seq<Insn>, seen: set<string>, counts: map<string, nat>, perMnemonic: nat)
    requires Selecting(corpus, n, at, picked, seen, counts, perMnemonic)
    ensures |at| == |picked| && Increasing(at) && DistinctTexts(picked)
    ensures forall k :: 0 <= k < |at| ==> at[k] < |corpus| && picked[k] == corpus[at[k]]
    ensures forall m: string :: CountMnemonic(picked, m) <= perMnemonic
    ensures forall p: nat :: p < n && p !in at ==> PassedOver(corpus, at, picked, perMnemonic, p)
    ensures Spaced(corpus) ==> Spaced(picked)
  {
    hide PassedOver, HasText, CountMnemonic, Spaced;
    if Spaced(corpus) {
      PickedSpaced(corpus, at, picked);
    }
  }

  function Lookup(counts: map<string, nat>, m: string): nat {
    if m in counts then counts[m] else 0
  }

  predicate DistinctTexts(items: seq<Insn>) {
    forall i, j :: 0 <= i < j < |items| ==> items[i].text != items[j].text
  }

  lemma SelectingStarts(corpus: seq<Insn>, perMnemonic: nat)
    ensures Selecting(corpus, 0, [], [], {}, map[], perMnemonic)
  {
    assert forall t :: !HasText([], t);
    assert forall m: string :: CountMnemonic([], m) == 0;
  }

  lemma NowPassedOver(corpus: seq<Insn>, at: seq<nat>, picked: seq<Insn>, perMnemonic: nat, p: nat)
    requires |at| == |picked| && p < |corpus| && forall k :: 0 <= k < |at| ==> at[k] < p
    requires HasText(picked, corpus[p].text) || CountMnemonic(picked, corpus[p].mnemonic) >= perMnemonic
    ensures PassedOver(corpus, at, picked, perMnemonic, p)
  {
    assert picked[..|at|] == picked;
  }

  lemma PickedMore(corpus: seq<Insn>, at: seq<nat>, picked: seq<Insn>, perMnemonic: nat, n: nat)
    requires |at| == |picked| && n < |corpus|
    requires forall k :: 0 <= k < |at| ==> at[k] < n
    ensures var all := picked + [corpus[n]];
            && (forall t :: HasText(all, t) <==> HasText(picked, t) || t == corpus[n].text)
            && (forall m: string :: CountMnemonic(all, m) == CountMnemonic(picked, m) + Digit(corpus[n].mnemonic == m))
    ensures DistinctTexts(picked) && !HasText(picked, corpus[n].text) ==> DistinctTexts(picked + [corpus[n]])
    ensures forall p: nat :: p < n && PassedOver(corpus, at, picked, perMnemonic, p) ==>
              PassedOver(corpus, at + [n], picked + [corpus[n]], perMnemonic, p)
  {
    var all := picked + [corpus[n]];
    assert all[..|all| - 1] == picked;
    forall t
      ensures HasText(all, t) <==> HasText(picked, t) || t == corpus[n].text
    {
      if HasText(picked, t) {
        var k :| 0 <= k < |picked| && picked[k].text == t;
        assert all[k].text == t;
      }
      if t == corpus[n].text {
        assert all[|picked|].text == t;
      }
    }
    forall p: nat | p < n && PassedOver(corpus, at, picked, perMnemonic, p)
      ensures PassedOver(corpus, at + [n], all, perMnemonic, p)
    {
      var k :| 0 <= k <= |at| && (forall i :: 0 <= i < k ==> at[i] < p) &&
        (HasText(picked[..k], corpus[p].text) || CountMnemonic(picked[..k], corpus[p].mnemonic) >= perMnemonic);
      assert all[..k] == picked[..k];
    }
  }

  /** Dropping instructions keeps a spaced corpus spaced. */
  lemma PickedSpaced(corpus: seq<Insn>, at: seq<nat>, picked: seq<Insn>)
    requires Spaced(corpus) && |at| == |picked| && Increasing(at)
    requires forall k :: 0 <= k < |at| ==> at[k] < |corpus| && picked[k] == corpus[at[k]]
    ensures Spaced(picked)
  {
    forall i | 0 <= i < |picked| - 1
      ensures picked[i].addr + 4 <= picked[i + 1].addr
    {
      FarApart(corpus, at[i], at[i + 1]);
    }
  }

  lemma {:induction false} FarApart(corpus: seq<Insn>, i: nat, j: nat)
    requires Spaced(corpus) && i < j < |corpus|
    ensures corpus[i].addr + 4 <= corpus[j].addr
    decreases j
  {
    assert corpus[j - 1].addr + 4 <= corpus[j].addr;
    if i < j - 1 { FarApart(corpus, i, j - 1); }
  }
}
