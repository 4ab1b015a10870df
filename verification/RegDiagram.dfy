/**
 Register diagrams: boxes of constant, don't-care and variable columns, turned into the
 `(mask, value, fields)` constraint that the bitdiffs fold starts from
 (`diagram_constraints` of scripts/aarch64_doccheck_2026_09.py).
 */
module RegDiagram {
  import opened Options
  import opened Bits
  import opened BitScatter
  import opened BitdiffText
  import opened BitdiffPrint
  import opened BitdiffReads
  import opened BitdiffCompile

  datatype Cell = Cell(colspan: int, text: string)

  /** A missing or malformed `hibit` is `None`; an absent name is the empty string. */
  datatype Box = Box(hibit: Option<int>, width: int, name: string, cells: seq<Cell>)

  // ---- one digit per column ----

  predicate AllDigits(s: string) {
    forall k :: 0 <= k < |s| ==> IsDigitChar(s[k])
  }

  /** `(1)`-style parenthesised constants lose their parentheses. */
  function Bare(text: string): string {
    if |text| >= 3 && text[0] == '(' && text[|text| - 1] == ')' && AllDigits(text[1..|text| - 1]) then
      text[1..|text| - 1]
    else text
  }

  predicate IsConstraint(text: string) {
    text != "" && (text[0] == '!' || text[0] == '<' || text[0] == '>' || text[0] == '=')
  }

  predicate IsVariable(text: string, colspan: nat) {
    text == "" || IsConstraint(text) || (|text| == colspan && forall k :: 0 <= k < |text| ==> text[k] == 'x' || text[k] == 'X')
  }

  function Unknown(n: nat): string {
    seq(n, i => 'x')
  }

  /** The digits of one cell: unknown columns for a variable span, the text itself for constants. */
  function CellDigits(c: Cell, remaining: nat): Option<string> {
    if c.colspan < 1 || c.colspan > remaining then None
    else
      var text := Bare(Strip(c.text));
      if IsVariable(text, c.colspan) then Some(Unknown(c.colspan))
      else if AllDigits(text) && |text| == c.colspan then Some(text)
      else None
  }

  /** Digits of a cell that hold the constants of `d` and leave the other columns open. */
  predicate Holds(digits: Option<string>, d: string) {
    && digits.Some? && |digits.value| == |d|
    && forall k :: 0 <= k < |d| ==> if d[k] == '0' || d[k] == '1' then digits.value[k] == d[k] else digits.value[k] in "xX"
  }

  /** The constants `d`, bare or in parentheses and with any blanks around them, fill exactly as many columns as they have digits. */
  lemma CellReads(pre: string, text: string, post: string, d: string, colspan: int, remaining: nat)
    requires Blank(pre) && Blank(post) && d != "" && AllDigits(d) && (text == d || text == "(" + d + ")")
    ensures var digits := CellDigits(Cell(colspan, pre + text + post), remaining);
            if colspan == |d| <= remaining then Holds(digits, d) else digits.None?
  {
    hide Strip;
    StripPadded(pre, text, post);
    if text != d {
      assert text[1..|text| - 1] == d;
    }
    assert Bare(text) == d;
  }

  /** An empty cell and a constraint such as `!= 1111` leave their columns open; any other text is refused. */
  lemma CellOpen(pre: string, text: string, post: string, colspan: int, remaining: nat)
    requires Blank(pre) && Blank(post) && (text == "" || Tight(text))
    requires !AllDigits(text) || text == ""
    requires !(|text| >= 3 && text[0] == '(' && text[|text| - 1] == ')' && AllDigits(text[1..|text| - 1]))
    ensures var digits := CellDigits(Cell(colspan, pre + text + post), remaining);
            if 1 <= colspan <= remaining && (text == "" || text[0] in "!<>=") then digits == Some(seq(colspan, i => 'x')) else digits.None?
  {
    hide Strip;
    StripPadded(pre, text, post);
  }

  /** Columns left over by the cells are one variable span. */
  function Columns(cells: seq<Cell>, remaining: nat): Option<string> {
    if remaining == 0 then Some("")
    else if cells == [] then Some(Unknown(remaining))
    else
      var first := CellDigits(cells[0], remaining);
      if first.None? then None
      else if |first.value| > remaining then None
      else
        var rest := Columns(cells[1..], remaining - |first.value|);
        if rest.None? then None else Some(first.value + rest.value)
  }

  lemma {:induction false} ColumnsFill(cells: seq<Cell>, remaining: nat)
    requires Columns(cells, remaining).Some?
    ensures |Columns(cells, remaining).value| == remaining
    ensures AllDigits(Columns(cells, remaining).value)
  {
    if remaining > 0 && cells != [] {
      var first := CellDigits(cells[0], remaining).value;
      ColumnsFill(cells[1..], remaining - |first|);
    }
  }

  predicate Shaped(b: Box) {
    b.hibit.Some? && b.width >= 1 && b.hibit.value <= 31 && b.hibit.value - b.width + 1 >= 0 &&
    Columns(b.cells, b.width).Some?
  }

  predicate AllShaped(boxes: seq<Box>) {
    forall k :: 0 <= k < |boxes| ==> Shaped(boxes[k])
  }

  function Digits(b: Box): string
    requires Shaped(b)
  {
    Columns(b.cells, b.width).value
  }

  function Low(b: Box): nat
    requires Shaped(b)
  {
    b.hibit.value - b.width + 1
  }

  predicate InBox(b: Box, i: nat)
    requires Shaped(b)
  {
    Low(b) <= i <= b.hibit.value
  }

  /** The digit of the box at word bit `i`. */
  function DigitOf(b: Box, i: nat): char
    requires Shaped(b) && InBox(b, i)
  {
    ColumnsFill(b.cells, b.width);
    Digits(b)[b.hibit.value - i]
  }

  /** What the diagram says of a word: every constant column is met. */
  ghost predicate DiagramHolds(boxes: seq<Box>, w: nat)
    requires AllShaped(boxes)
  {
    forall k, i: nat :: 0 <= k < |boxes| && InBox(boxes[k], i) ==> DigitHolds(DigitOf(boxes[k], i), Bit(w, i))
  }

  ghost predicate DisjointBoxes(boxes: seq<Box>)
    requires AllShaped(boxes)
  {
    forall j, k, i: nat :: 0 <= j < |boxes| && 0 <= k < |boxes| && InBox(boxes[j], i) && InBox(boxes[k], i) ==> j == k
  }

  // ---- the constraint a diagram stands for ----

  predicate IsConstant(c: char) {
    c == '0' || c == '1'
  }

  /** Bits of `x` are exactly the box bits whose digit satisfies the given predicate. */
  ghost predicate BoxBits(x: nat, b: Box, p: char -> bool)
    requires Shaped(b)
  {
    forall i: nat :: Bit(x, i) <==> InBox(b, i) && p(DigitOf(b, i))
  }

  ghost predicate IsFieldOf(f: Field, b: Box)
    requires Shaped(b)
  {
    && BoxBits(f.mask, b, c => true)
    && BoxBits(f.pinned, b, IsConstant)
    && BoxBits(f.ones, b, c => c == '1')
  }

  ghost predicate PinnedByBox(boxes: seq<Box>, i: nat)
    requires AllShaped(boxes)
  {
    exists k :: 0 <= k < |boxes| && InBox(boxes[k], i) && IsConstant(DigitOf(boxes[k], i))
  }

  ghost predicate OneByBox(boxes: seq<Box>, i: nat)
    requires AllShaped(boxes)
  {
    exists k :: 0 <= k < |boxes| && InBox(boxes[k], i) && DigitOf(boxes[k], i) == '1'
  }

  /** Box `k` is the last one carrying the name `n`. */
  ghost predicate LastNamed(boxes: seq<Box>, n: string, k: int) {
    0 <= k < |boxes| && boxes[k].name == n && forall j :: k < j < |boxes| ==> boxes[j].name != n
  }

  ghost predicate IsConstraintOf(c: Constraint, boxes: seq<Box>)
    requires AllShaped(boxes)
  {
    && (forall i: nat :: Bit(c.mask, i) <==> PinnedByBox(boxes, i))
    && (forall i: nat :: Bit(c.value, i) <==> OneByBox(boxes, i))
    && (forall n :: n in c.fields <==> n != "" && exists k :: LastNamed(boxes, n, k))
    && (forall n, k :: n in c.fields && LastNamed(boxes, n, k) ==> IsFieldOf(c.fields[n], boxes[k]))
  }

  // ---- one box ----

  /** `x` is `x0` plus the bits, from `top` down, whose digit satisfies `p`. */
  ghost predicate Marked(x: nat, x0: nat, top: int, digits: string, p: char -> bool) {
    forall i: nat :: Bit(x, i) <==> Bit(x0, i) || (i <= top && top - i < |digits| && p(digits[top - i]))
  }

  lemma MarkedAppend(x: nat, x0: nat, x1: nat, top: int, done: string, digits: string, p: char -> bool)
    requires Marked(x1, x0, top, done, p) && Marked(x, x1, top - |done|, digits, p)
    ensures Marked(x, x0, top, done + digits, p)
  {
  }

  lemma MarkedNothing(x: nat, top: int, digits: string, p: char -> bool)
    requires forall k :: 0 <= k < |digits| ==> !p(digits[k])
    ensures Marked(x, x, top, digits, p)
  {
  }

  function IsOne(c: char): bool {
    c == '1'
  }

  function IsAny(c: char): bool {
    true
  }

  /** `for i, ch in enumerate(text)`: the constant columns of one span. */
  method OrConstants(text: string, pos: nat, mask: nat, value: nat, pinned: nat) returns (mask': nat, value': nat, pinned': nat)
    requires |text| <= pos + 1
    ensures Marked(mask', mask, pos, text, IsConstant)
    ensures Marked(value', value, pos, text, IsOne)
    ensures Marked(pinned', pinned, pos, text, IsConstant)
  {
    mask', value', pinned' := mask, value, pinned;
    for j := 0 to |text|
      invariant Marked(mask', mask, pos, text[..j], IsConstant)
      invariant Marked(value', value, pos, text[..j], IsOne)
      invariant Marked(pinned', pinned, pos, text[..j], IsConstant)
    {
      var bit: nat := pos - j;
      Pow2Bits(bit);
      if IsConstant(text[j]) {
        OrBits(mask', Pow2(bit));
        OrBits(pinned', Pow2(bit));
        OrBits(value', Pow2(bit));
        mask' := Or(mask', Pow2(bit));
        pinned' := Or(pinned', Pow2(bit));
        if text[j] == '1' {
          value' := Or(value', Pow2(bit));
        }
      }
    }
    assert text[..|text|] == text;
  }

  /** `for i in range(colspan)`: the columns a named field covers, and its ones. */
  method OrSpan(digits: string, pos: nat, fmask: nat, fbits: nat) returns (fmask': nat, fbits': nat)
    requires |digits| <= pos + 1
    ensures Marked(fmask', fmask, pos, digits, IsAny)
    ensures Marked(fbits', fbits, pos, digits, IsOne)
  {
    fmask', fbits' := fmask, fbits;
    for j := 0 to |digits|
      invariant Marked(fmask', fmask, pos, digits[..j], IsAny)
      invariant Marked(fbits', fbits, pos, digits[..j], IsOne)
    {
      var bit: nat := pos - j;
      Pow2Bits(bit);
      OrBits(fmask', Pow2(bit));
      fmask' := Or(fmask', Pow2(bit));
      if digits[j] == '1' {
        OrBits(fbits', Pow2(bit));
        fbits' := Or(fbits', Pow2(bit));
      }
    }
    assert digits[..|digits|] == digits;
  }

  /** The five accumulators of the column loop. */
  datatype Totals = Totals(mask: nat, value: nat, field: Field)

  ghost predicate TotalsFor(t: Totals, t0: Totals, top: int, digits: string) {
    && Marked(t.mask, t0.mask, top, digits, IsConstant)
    && Marked(t.value, t0.value, top, digits, IsOne)
    && Marked(t.field.mask, t0.field.mask, top, digits, IsAny)
    && Marked(t.field.ones, t0.field.ones, top, digits, IsOne)
    && Marked(t.field.pinned, t0.field.pinned, top, digits, IsConstant)
  }

  lemma TotalsAppend(t: Totals, t1: Totals, t0: Totals, top: int, done: string, digits: string)
    requires TotalsFor(t1, t0, top, done) && TotalsFor(t, t1, top - |done|, digits)
    ensures TotalsFor(t, t0, top, done + digits)
  {
    MarkedAppend(t.mask, t0.mask, t1.mask, top, done, digits, IsConstant);
    MarkedAppend(t.value, t0.value, t1.value, top, done, digits, IsOne);
    MarkedAppend(t.field.mask, t0.field.mask, t1.field.mask, top, done, digits, IsAny);
    MarkedAppend(t.field.ones, t0.field.ones, t1.field.ones, top, done, digits, IsOne);
    MarkedAppend(t.field.pinned, t0.field.pinned, t1.field.pinned, top, done, digits, IsConstant);
  }

  /** One span: constants go into the mask, every column into the field. */
  method ReadSpan(digits: string, isVariable: bool, pos: nat, t0: Totals) returns (t: Totals)
    requires |digits| <= pos + 1
    requires isVariable ==> digits == Unknown(|digits|)
    ensures TotalsFor(t, t0, pos, digits)
  {
    var m, v, p := t0.mask, t0.value, t0.field.pinned;
    if isVariable {
      MarkedNothing(m, pos, digits, IsConstant);
      MarkedNothing(v, pos, digits, IsOne);
      MarkedNothing(p, pos, digits, IsConstant);
    } else {
      m, v, p := OrConstants(digits, pos, m, v, p);
    }
    var fm, fb := OrSpan(digits, pos, t0.field.mask, t0.field.ones);
    t := Totals(m, v, Field(fm, fb, p));
  }

  function AppendColumns(done: string, rest: Option<string>): Option<string> {
    if rest.None? then None else Some(done + rest.value)
  }

  lemma AppendColumnsNothing(rest: Option<string>)
    ensures AppendColumns("", rest) == rest
  {
    if rest.Some? {
      assert "" + rest.value == rest.value;
    }
  }

  lemma AppendColumnsTwice(done: string, first: string, rest: Option<string>)
    ensures AppendColumns(done, AppendColumns(first, rest)) == AppendColumns(done + first, rest)
  {
    if rest.Some? {
      assert done + (first + rest.value) == done + first + rest.value;
    }
  }

  predicate InWord(b: Box) {
    b.hibit.Some? && b.width >= 1 && b.hibit.value <= 31 && b.hibit.value - b.width + 1 >= 0
  }

  /** The next span: cell `idx`, or everything that is left once the cells run out. */
  function SpanAt(cells: seq<Cell>, idx: nat, remaining: nat): Option<string> {
    if idx < |cells| then CellDigits(cells[idx], remaining) else Some(Unknown(remaining))
  }

  predicate SpanIsVariable(cells: seq<Cell>, idx: nat) {
    idx < |cells| ==> cells[idx].colspan >= 0 && IsVariable(Bare(Strip(cells[idx].text)), cells[idx].colspan)
  }

  function After(cells: seq<Cell>, idx: nat): nat {
    if idx < |cells| then idx + 1 else idx
  }

  lemma ColumnsStep(cells: seq<Cell>, idx: nat, remaining: nat)
    requires idx <= |cells| && remaining > 0
    ensures SpanAt(cells, idx, remaining).None? ==> Columns(cells[idx..], remaining).None?
    ensures SpanAt(cells, idx, remaining).Some? ==>
              var d := SpanAt(cells, idx, remaining).value;
              && 1 <= |d| <= remaining
              && (SpanIsVariable(cells, idx) ==> d == Unknown(|d|))
              && Columns(cells[idx..], remaining) == AppendColumns(d, Columns(cells[After(cells, idx)..], remaining - |d|))
  {
    if idx < |cells| {
      assert cells[idx..][0] == cells[idx] && cells[idx..][1..] == cells[idx + 1..];
    } else {
      assert cells[idx..] == [];
      assert Unknown(remaining) + "" == Unknown(remaining);
    }
  }

  /** The column loop of one box. */
  method ReadColumns(b: Box, t0: Totals) returns (r: Option<Totals>)
    requires InWord(b)
    ensures r.Some? <==> Columns(b.cells, b.width).Some?
    ensures r.Some? ==> TotalsFor(r.value, t0, b.hibit.value, Columns(b.cells, b.width).value)
  {
    hide TotalsFor, Columns, SpanAt, SpanIsVariable;
    var t := t0;
    var remaining: nat := b.width;
    var idx: nat := 0;
    ghost var done := "";
    var hibit := b.hibit.value;
    assert b.cells[0..] == b.cells;
    AppendColumnsNothing(Columns(b.cells, b.width));
    ZeroTotals(t0, hibit);
    while remaining > 0
      invariant idx <= |b.cells|
      invariant |done| + remaining == b.width
      invariant Columns(b.cells, b.width) == AppendColumns(done, Columns(b.cells[idx..], remaining))
      invariant TotalsFor(t, t0, hibit, done)
    {
      ColumnsStep(b.cells, idx, remaining);
      var span := SpanAt(b.cells, idx, remaining);
      if span.None? {
        return None;
      }
      var digits := span.value;
      ghost var t1 := t;
      t := ReadSpan(digits, SpanIsVariable(b.cells, idx), hibit - b.width + remaining, t);
      TotalsAppend(t, t1, t0, hibit, done, digits);
      idx := After(b.cells, idx);
      AppendColumnsTwice(done, digits, Columns(b.cells[idx..], remaining - |digits|));
      assert Columns(b.cells, b.width) == AppendColumns(done + digits, Columns(b.cells[idx..], remaining - |digits|));
      remaining := remaining - |digits|;
      done := done + digits;
    }
    NoColumnsLeft(b.cells[idx..], done);
    r := Some(t);
  }

  lemma NoColumnsLeft(cells: seq<Cell>, done: string)
    ensures AppendColumns(done, Columns(cells, 0)) == Some(done)
  {
    assert done + "" == done;
  }

  lemma ZeroTotals(t: Totals, top: int)
    ensures TotalsFor(t, t, top, "")
  {
  }

  // ---- the whole diagram ----

  lemma {:induction false} SnocShaped(boxes: seq<Box>, b: Box)
    requires AllShaped(boxes) && Shaped(b)
    ensures AllShaped(boxes + [b])
    ensures forall i: nat :: PinnedByBox(boxes + [b], i) <==> PinnedByBox(boxes, i) || (InBox(b, i) && IsConstant(DigitOf(b, i)))
    ensures forall i: nat :: OneByBox(boxes + [b], i) <==> OneByBox(boxes, i) || (InBox(b, i) && DigitOf(b, i) == '1')
    ensures forall n, k :: LastNamed(boxes + [b], n, k) <==> if b.name == n then k == |boxes| else LastNamed(boxes, n, k)
  {
    var all := boxes + [b];
    assert all[|boxes|] == b;
    assert forall k :: 0 <= k < |boxes| ==> all[k] == boxes[k];
    forall i: nat
      ensures PinnedByBox(all, i) <==> PinnedByBox(boxes, i) || (InBox(b, i) && IsConstant(DigitOf(b, i)))
      ensures OneByBox(all, i) <==> OneByBox(boxes, i) || (InBox(b, i) && DigitOf(b, i) == '1')
    {
      if PinnedByBox(boxes, i) {
        var k :| 0 <= k < |boxes| && InBox(boxes[k], i) && IsConstant(DigitOf(boxes[k], i));
        assert InBox(all[k], i) && IsConstant(DigitOf(all[k], i));
      }
      if OneByBox(boxes, i) {
        var k :| 0 <= k < |boxes| && InBox(boxes[k], i) && DigitOf(boxes[k], i) == '1';
        assert InBox(all[k], i) && DigitOf(all[k], i) == '1';
      }
    }
    forall n, k
      ensures LastNamed(all, n, k) <==> if b.name == n then k == |boxes| else LastNamed(boxes, n, k)
    {
      if LastNamed(all, n, k) && k < |boxes| {
        assert all[|boxes|].name != n;
      }
    }
  }

  /** What reading a shaped box adds, in terms of its digits. */
  lemma BoxTotals(b: Box, t: Totals, t0: Totals)
    requires Shaped(b) && TotalsFor(t, t0, b.hibit.value, Digits(b)) && t0.field == Field(0, 0, 0)
    ensures forall i: nat :: Bit(t.mask, i) <==> Bit(t0.mask, i) || (InBox(b, i) && IsConstant(DigitOf(b, i)))
    ensures forall i: nat :: Bit(t.value, i) <==> Bit(t0.value, i) || (InBox(b, i) && DigitOf(b, i) == '1')
    ensures IsFieldOf(t.field, b)
  {
    hide Columns, DigitAt, Bit;
    ColumnsFill(b.cells, b.width);
    ZeroBits();
    assert forall i: nat :: InBox(b, i) <==> i <= b.hibit.value && b.hibit.value - i < |Digits(b)|;
  }

  /** `diagram_constraints`: nothing comes back unless every box can be read. */
  method DiagramConstraints(boxes: seq<Box>) returns (r: Option<Constraint>)
    ensures r.Some? <==> AllShaped(boxes)
    ensures r.Some? ==> IsConstraintOf(r.value, boxes)
  {
    var c := Constraint(0, 0, map[]);
    ZeroBits();
    for n := 0 to |boxes|
      invariant AllShaped(boxes[..n]) && IsConstraintOf(c, boxes[..n])
    {
      var b := boxes[n];
      if !InWord(b) {
        return None;
      }
      ghost var t0 := Totals(c.mask, c.value, Field(0, 0, 0));
      var t := ReadColumns(b, Totals(c.mask, c.value, Field(0, 0, 0)));
      if t.None? {
        return None;
      }
      BoxTotals(b, t.value, t0);
      SnocShaped(boxes[..n], b);
      assert boxes[..n] + [b] == boxes[..n + 1];
      ghost var c0 := c;
      // A read box covers at least one bit, so a name always enters the table.
      c := Constraint(t.value.mask, t.value.value, if b.name != "" then c.fields[b.name := t.value.field] else c.fields);
      FieldsStep(c0, c, boxes[..n], b, t.value.field);
    }
    assert boxes[..|boxes|] == boxes;
    r := Some(c);
  }

  lemma FieldsStep(c0: Constraint, c: Constraint, boxes: seq<Box>, b: Box, f: Field)
    requires AllShaped(boxes) && Shaped(b) && IsConstraintOf(c0, boxes) && IsFieldOf(f, b)
    requires AllShaped(boxes + [b])
    requires c.fields == if b.name != "" then c0.fields[b.name := f] else c0.fields
    ensures forall n :: n in c.fields <==> n != "" && exists k :: LastNamed(boxes + [b], n, k)
    ensures forall n, k :: n in c.fields && LastNamed(boxes + [b], n, k) ==> IsFieldOf(c.fields[n], (boxes + [b])[k])
  {
    var all := boxes + [b];
    SnocShaped(boxes, b);
    forall n
      ensures n in c.fields <==> n != "" && exists k :: LastNamed(all, n, k)
    {
      if n == b.name {
        assert LastNamed(all, n, |boxes|);
      } else if exists k :: LastNamed(boxes, n, k) {
        var k :| LastNamed(boxes, n, k);
        assert LastNamed(all, n, k);
      }
    }
    forall n, k | n in c.fields && LastNamed(all, n, k)
      ensures IsFieldOf(c.fields[n], all[k])
    {
      if n == b.name {
        assert all[k] == b;
      } else {
        assert LastNamed(boxes, n, k) && all[k] == boxes[k];
      }
    }
  }

  // ---- what the constraint means ----

  /** On non-overlapping boxes, `word & mask == value` says exactly that every constant column is met. */
  lemma DiagramMeaning(boxes: seq<Box>, c: Constraint, w: nat)
    requires AllShaped(boxes) && DisjointBoxes(boxes) && IsConstraintOf(c, boxes)
    ensures And(w, c.mask) == c.value <==> DiagramHolds(boxes, w)
  {
    MaskedEquality(w, c.mask, c.value);
    if And(w, c.mask) == c.value {
      forall k, i: nat | 0 <= k < |boxes| && InBox(boxes[k], i)
        ensures DigitHolds(DigitOf(boxes[k], i), Bit(w, i))
      {
        ColumnsFill(boxes[k].cells, boxes[k].width);
        assert Bit(c.value, i) <==> Bit(w, i) && Bit(c.mask, i);
        OnlyBox(boxes, k, i);
      }
    }
    if DiagramHolds(boxes, w) {
      forall i: nat
        ensures Bit(c.value, i) <==> Bit(w, i) && Bit(c.mask, i)
      {
        if PinnedByBox(boxes, i) {
          var k :| 0 <= k < |boxes| && InBox(boxes[k], i) && IsConstant(DigitOf(boxes[k], i));
          OnlyBox(boxes, k, i);
          assert DigitHolds(DigitOf(boxes[k], i), Bit(w, i));
        }
      }
    }
  }

  /** In a non-overlapping diagram one box decides a bit. */
  lemma OnlyBox(boxes: seq<Box>, k: int, i: nat)
    requires AllShaped(boxes) && DisjointBoxes(boxes) && 0 <= k < |boxes| && InBox(boxes[k], i)
    ensures PinnedByBox(boxes, i) <==> IsConstant(DigitOf(boxes[k], i))
    ensures OneByBox(boxes, i) <==> DigitOf(boxes[k], i) == '1'
  {
    if PinnedByBox(boxes, i) {
      var j :| 0 <= j < |boxes| && InBox(boxes[j], i) && IsConstant(DigitOf(boxes[j], i));
      assert j == k;
    }
    if OneByBox(boxes, i) {
      var j :| 0 <= j < |boxes| && InBox(boxes[j], i) && DigitOf(boxes[j], i) == '1';
      assert j == k;
    }
  }

  /** What mask and value say on any diagram: a bit some box pins is one exactly when some box wants a one there. */
  ghost predicate DiagramAccepts(boxes: seq<Box>, w: nat)
    requires AllShaped(boxes)
  {
    forall i: nat :: PinnedByBox(boxes, i) ==> (Bit(w, i) <==> OneByBox(boxes, i))
  }

  lemma OneIsPinned(boxes: seq<Box>, i: nat)
    requires AllShaped(boxes) && OneByBox(boxes, i)
    ensures PinnedByBox(boxes, i)
  {
    var k :| 0 <= k < |boxes| && InBox(boxes[k], i) && DigitOf(boxes[k], i) == '1';
  }

  lemma MaskAccepts(boxes: seq<Box>, c: Constraint, w: nat)
    requires AllShaped(boxes) && IsConstraintOf(c, boxes)
    ensures And(w, c.mask) == c.value <==> DiagramAccepts(boxes, w)
  {
    hide PinnedByBox, OneByBox, Bit;
    MaskedEquality(w, c.mask, c.value);
    forall i: nat | OneByBox(boxes, i)
      ensures PinnedByBox(boxes, i)
    {
      OneIsPinned(boxes, i);
    }
  }

  /** Any diagram that can be read hands the bitdiffs fold fields it can use. */
  lemma DiagramUsable(boxes: seq<Box>, c: Constraint)
    requires AllShaped(boxes) && IsConstraintOf(c, boxes)
    ensures Usable(c)
  {
    AndBits(c.value, c.mask);
    forall i: nat | OneByBox(boxes, i)
      ensures PinnedByBox(boxes, i)
    {
      OneIsPinned(boxes, i);
    }
    Extensional(And(c.value, c.mask), c.value);
    forall n | n in c.fields
      ensures Contiguous(c.fields[n].mask)
    {
      var k :| LastNamed(boxes, n, k);
      FieldIsRun(c.fields[n], boxes[k]);
    }
  }

  /** A non-overlapping diagram hands the bitdiffs fold exactly the base it relies on. */
  lemma DiagramWellFormed(boxes: seq<Box>, c: Constraint)
    requires AllShaped(boxes) && DisjointBoxes(boxes) && IsConstraintOf(c, boxes)
    ensures WellFormed(c)
  {
    DiagramUsable(boxes, c);
    forall n | n in c.fields
      ensures c.fields[n].pinned == And(c.mask, c.fields[n].mask) && c.fields[n].ones == And(c.value, c.fields[n].mask)
    {
      var k :| LastNamed(boxes, n, k);
      FieldWellFormed(boxes, c, n, k);
    }
  }

  lemma FieldWellFormed(boxes: seq<Box>, c: Constraint, n: string, k: int)
    requires AllShaped(boxes) && DisjointBoxes(boxes) && IsConstraintOf(c, boxes)
    requires n in c.fields && LastNamed(boxes, n, k)
    ensures var f := c.fields[n]; f.pinned == And(c.mask, f.mask) && f.ones == And(c.value, f.mask)
  {
    var f, b := c.fields[n], boxes[k];
    assert IsFieldOf(f, b);
    AndBits(c.mask, f.mask);
    AndBits(c.value, f.mask);
    forall i: nat | InBox(b, i) { OnlyBox(boxes, k, i); }
    Extensional(f.pinned, And(c.mask, f.mask));
    Extensional(f.ones, And(c.value, f.mask));
  }

  lemma FieldIsRun(f: Field, b: Box)
    requires Shaped(b) && IsFieldOf(f, b)
    ensures Contiguous(f.mask)
  {
    forall i: nat { RunBit(b.width, Low(b), i); }
    Extensional(f.mask, Run(b.width, Low(b)));
    RunSize(b.width, Low(b));
  }

  /** `width` ones with `low` zeros below them. */
  function Run(width: nat, low: nat): nat
    decreases width + low
  {
    if low > 0 then 2 * Run(width, low - 1)
    else if width > 0 then 1 + 2 * Run(width - 1, 0)
    else 0
  }

  lemma {:induction false} RunBit(width: nat, low: nat, i: nat)
    ensures Bit(Run(width, low), i) <==> low <= i < low + width
    decreases width + low
  {
    if low > 0 {
      if i > 0 { RunBit(width, low - 1, i - 1); }
    } else if width > 0 {
      if i > 0 { RunBit(width - 1, 0, i - 1); }
    } else {
      ZeroBit(i);
    }
  }

  lemma {:induction false} RunSize(width: nat, low: nat)
    ensures PopCount(Run(width, low)) == width
    ensures width > 0 ==> Run(width, low) > 0 && BitLength(Run(width, low)) == low + width
    decreases width + low
  {
    if low > 0 {
      RunSize(width, low - 1);
    } else if width > 0 {
      RunSize(width - 1, 0);
    }
  }
}
