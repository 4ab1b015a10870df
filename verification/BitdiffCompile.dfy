/**
 Folding a bitdiffs predicate over a register diagram into `(mask, value, rejects)`, as
 `apply_bitdiffs` of scripts/aarch64_doccheck_2026_09.py does, and what the folded form means.

 The predicate has a direct meaning, `SpecHolds`, that reads each field digit by digit. The
 compiled form is evaluated by `WordMatches`. The two agree on every word unless two positive
 `==` terms pin one bit to different values; then the later one silently wins.
 */
module BitdiffCompile {
  import opened Options
  import opened Bits
  import opened BitScatter
  import opened BitdiffText

  /** A named field: its bits, the ones among the bits the diagram pins, and the pinned bits. */
  datatype Field = Field(mask: nat, ones: nat, pinned: nat)

  datatype Constraint = Constraint(mask: nat, value: nat, fields: map<string, Field>)

  /** The words whose bits under `mask` are `value`. */
  datatype Cube = Cube(mask: nat, value: nat)

  type Pattern = seq<seq<Cube>>

  datatype Variant = Variant(mask: nat, value: nat, rejects: seq<Pattern>)

  datatype Reason =
    | NotUnderstood(spec: string)
    | UnsupportedTerm(text: string)
    | UnknownField(name: string)
    | LiteralMisfit(conj: string)
    | NotEqualInNegation(conj: string)
    | PinnedYetConstrained(name: string)
    | NotEnumerable(conj: string)
    | ContradictsDiagram(conj: string)
    | NotFoldable(conj: string)

  // ---- the compiled form ----

  predicate CubeMatches(w: nat, c: Cube) {
    And(w, c.mask) == c.value
  }

  predicate AnyMatches(w: nat, cubes: seq<Cube>) {
    exists k :: 0 <= k < |cubes| && CubeMatches(w, cubes[k])
  }

  predicate PatternMatches(w: nat, p: Pattern) {
    forall k :: 0 <= k < |p| ==> AnyMatches(w, p[k])
  }

  /** `word_matches`. */
  predicate WordMatches(w: nat, v: Variant) {
    && And(w, v.mask) == v.value
    && forall k :: 0 <= k < |v.rejects| ==> !PatternMatches(w, v.rejects[k])
  }

  // ---- the direct meaning ----

  predicate Fits(lit: string, m: nat) {
    |lit| == PopCount(m) && forall k :: 0 <= k < |lit| ==> IsDigitChar(lit[k])
  }

  /** A literal fits when it has one character of `01xX` for each bit of the field. */
  lemma FitsExactly(lit: string, m: nat)
    ensures Fits(lit, m) <==> |lit| == PopCount(m) && forall c :: c in lit ==> c in "01xX"
  {
    assert forall k :: 0 <= k < |lit| ==> lit[k] in lit;
  }

  predicate DigitHolds(c: char, b: bool) {
    c == 'x' || c == 'X' || (c == '1') == b
  }

  /** The literal's characters, most significant first, against the field's bits from its top down. */
  predicate LiteralHolds(w: nat, m: nat, lit: string) {
    forall k: nat :: k < |lit| && k < BitLength(m) ==> DigitHolds(lit[k], Bit(w, BitLength(m) - 1 - k))
  }

  predicate AtomHolds(fields: map<string, Field>, w: nat, a: Atom)
    requires a.field in fields
  {
    var hit := exists k :: 0 <= k < |a.alts| && LiteralHolds(w, fields[a.field].mask, a.alts[k]);
    if a.op == Ne then !hit else hit
  }

  predicate TermKnown(fields: map<string, Field>, t: Term) {
    match t
    case Positive(a) => a.field in fields
    case Negated(atoms) => forall k :: 0 <= k < |atoms| ==> atoms[k].field in fields
  }

  predicate TermHolds(fields: map<string, Field>, w: nat, t: Term)
    requires TermKnown(fields, t)
  {
    match t
    case Positive(a) => AtomHolds(fields, w, a)
    case Negated(atoms) => !forall k :: 0 <= k < |atoms| ==> AtomHolds(fields, w, atoms[k])
  }

  predicate SpecHolds(fields: map<string, Field>, w: nat, ts: seq<Term>)
    requires forall k :: 0 <= k < |ts| ==> TermKnown(fields, ts[k])
  {
    forall k :: 0 <= k < |ts| ==> TermHolds(fields, w, ts[k])
  }

  // ---- what the script accepts ----

  predicate FieldFits(fields: map<string, Field>, a: Atom) {
    a.field in fields && a.alts != [] &&
    forall k :: 0 <= k < |a.alts| ==> Fits(a.alts[k], fields[a.field].mask)
  }

  predicate Unpinned(f: Field) {
    And(f.pinned, f.mask) == 0
  }

  /** Bit `b` of the word is named by a `0` or `1` of the literal. */
  predicate Pins(m: nat, lit: string, b: nat) {
    b < BitLength(m) && BitLength(m) - 1 - b < |lit| && lit[BitLength(m) - 1 - b] !in "xX"
  }

  predicate PinsOne(m: nat, lit: string, b: nat) {
    Pins(m, lit, b) && lit[BitLength(m) - 1 - b] == '1'
  }

  ghost predicate AgreesWithDiagram(f: Field, lit: string) {
    forall b: nat :: Pins(f.mask, lit, b) && Bit(f.pinned, b) ==> (Bit(f.ones, b) <==> PinsOne(f.mask, lit, b))
  }

  ghost predicate ReadablePositive(fields: map<string, Field>, a: Atom) {
    && FieldFits(fields, a)
    && var f := fields[a.field];
    match a.op
    case Eq => |a.alts| == 1 && AgreesWithDiagram(f, a.alts[0])
    case Ne => Unpinned(f)
    case In => Unpinned(f) && PopCount(f.mask) <= 8
  }

  predicate ReadableNegated(fields: map<string, Field>, a: Atom) {
    FieldFits(fields, a) && a.op != Ne
  }

  ghost predicate ReadableTerm(fields: map<string, Field>, t: Term) {
    match t
    case Positive(a) => ReadablePositive(fields, a)
    case Negated(atoms) => forall k :: 0 <= k < |atoms| ==> ReadableNegated(fields, atoms[k])
  }

  ghost predicate ReadableTerms(fields: map<string, Field>, ts: seq<Term>) {
    forall k :: 0 <= k < |ts| ==> ReadableTerm(fields, ts[k])
  }

  /** The exact condition under which a variant comes back. */
  ghost predicate Readable(fields: map<string, Field>, spec: string) {
    ReadSpec(spec).Some? && ReadableTerms(fields, ReadSpec(spec).value)
  }

  // ---- what a diagram supplies ----

  /** A run of adjacent bits. */
  ghost predicate Contiguous(m: nat) {
    m > 0 && forall b: nat :: BitLength(m) - PopCount(m) <= b < BitLength(m) ==> Bit(m, b)
  }

  /** What any diagram supplies. */
  ghost predicate Usable(c: Constraint) {
    And(c.value, c.mask) == c.value && forall n :: n in c.fields ==> Contiguous(c.fields[n].mask)
  }

  /** What a diagram without overlaps supplies: its fields repeat what its mask and value say. */
  ghost predicate WellFormed(c: Constraint) {
    && Usable(c)
    && forall n :: n in c.fields ==>
         var f := c.fields[n];
         f.pinned == And(c.mask, f.mask) && f.ones == And(c.value, f.mask)
  }

  // ---- literals ----

  ghost predicate IsCubeOf(c: Cube, m: nat, lit: string) {
    && (forall b: nat :: Bit(c.mask, b) <==> Pins(m, lit, b))
    && (forall b: nat :: Bit(c.value, b) <==> PinsOne(m, lit, b))
  }

  /** The cube of the first `i` characters. */
  ghost predicate CubeUpTo(vm: nat, vv: nat, m: nat, lit: string, i: nat) {
    && (forall b: nat :: Bit(vm, b) <==> Pins(m, lit, b) && BitLength(m) - 1 - b < i)
    && (forall b: nat :: Bit(vv, b) <==> PinsOne(m, lit, b) && BitLength(m) - 1 - b < i)
  }

  lemma CubeStep(vm: nat, vv: nat, m: nat, lit: string, i: nat)
    requires CubeUpTo(vm, vv, m, lit, i) && i < |lit| <= BitLength(m)
    ensures var bit := Pow2(BitLength(m) - 1 - i);
            && (lit[i] in "xX" ==> CubeUpTo(vm, vv, m, lit, i + 1))
            && (lit[i] !in "xX" && lit[i] != '1' ==> CubeUpTo(Or(vm, bit), vv, m, lit, i + 1))
            && (lit[i] == '1' ==> CubeUpTo(Or(vm, bit), Or(vv, bit), m, lit, i + 1))
  {
    hide Bit, BitLength, Or, Pow2;
    var n := BitLength(m) - 1 - i;
    Pow2Bits(n);
    OrBits(vm, Pow2(n));
    OrBits(vv, Pow2(n));
  }

  method LiteralCube(lit: string, m: nat) returns (c: Cube)
    requires Fits(lit, m)
    ensures IsCubeOf(c, m, lit)
  {
    PopCountBound(m);
    var top := BitLength(m) - 1;
    var vm: nat, vv: nat := 0, 0;
    ZeroBits();
    assert CubeUpTo(vm, vv, m, lit, 0);
    for i := 0 to |lit|
      invariant CubeUpTo(vm, vv, m, lit, i)
    {
      hide Bit, CubeUpTo, Or, BitLength;
      var bit: nat := top - i;
      CubeStep(vm, vv, m, lit, i);
      if lit[i] !in "xX" {
        vm := Or(vm, Pow2(bit));
        if lit[i] == '1' {
          vv := Or(vv, Pow2(bit));
        }
      }
    }
    c := Cube(vm, vv);
  }

  lemma CubeExact(w: nat, c: Cube, m: nat, lit: string)
    requires Fits(lit, m) && IsCubeOf(c, m, lit)
    ensures CubeMatches(w, c) <==> LiteralHolds(w, m, lit)
  {
    hide Bit, BitLength, PopCount;
    PopCountBound(m);
    MaskedEquality(w, c.mask, c.value);
    if CubeMatches(w, c) {
      forall k: nat | k < |lit| && k < BitLength(m)
        ensures DigitHolds(lit[k], Bit(w, BitLength(m) - 1 - k))
      {
        var b: nat := BitLength(m) - 1 - k;
        assert Bit(c.value, b) <==> Bit(w, b) && Bit(c.mask, b);
        assert IsDigitChar(lit[k]);
      }
    }
    if LiteralHolds(w, m, lit) {
      forall b: nat
        ensures Bit(c.value, b) <==> Bit(w, b) && Bit(c.mask, b)
      {
        if Pins(m, lit, b) {
          var k: nat := BitLength(m) - 1 - b;
          assert DigitHolds(lit[k], Bit(w, BitLength(m) - 1 - k));
        }
      }
    }
  }

  /** A fitting literal names only bits of its (contiguous) field. */
  lemma CubeInside(c: Cube, m: nat, lit: string)
    requires Contiguous(m) && Fits(lit, m) && IsCubeOf(c, m, lit)
    ensures And(c.mask, m) == c.mask
  {
    AndBits(c.mask, m);
    Extensional(And(c.mask, m), c.mask);
  }

  ghost predicate AreCubesOf(cubes: seq<Cube>, m: nat, alts: seq<string>) {
    |cubes| == |alts| && forall k :: 0 <= k < |alts| ==> Fits(alts[k], m) && IsCubeOf(cubes[k], m, alts[k])
  }

  /** `_lit`: one cube per alternative, or nothing when some alternative does not fit the field. */
  method LiteralCubes(alts: seq<string>, m: nat) returns (r: Option<seq<Cube>>)
    ensures r.Some? <==> forall k :: 0 <= k < |alts| ==> Fits(alts[k], m)
    ensures r.Some? ==> AreCubesOf(r.value, m, alts)
  {
    var out: seq<Cube> := [];
    for i := 0 to |alts|
      invariant |out| == i
      invariant forall k :: 0 <= k < i ==> Fits(alts[k], m) && IsCubeOf(out[k], m, alts[k])
    {
      if !Fits(alts[i], m) {
        return None;
      }
      var c := LiteralCube(alts[i], m);
      out := out + [c];
    }
    r := Some(out);
  }

  lemma AlternativesExact(w: nat, cubes: seq<Cube>, m: nat, alts: seq<string>)
    requires AreCubesOf(cubes, m, alts)
    ensures AnyMatches(w, cubes) <==> exists k :: 0 <= k < |alts| && LiteralHolds(w, m, alts[k])
  {
    forall k | 0 <= k < |alts|
      ensures CubeMatches(w, cubes[k]) <==> LiteralHolds(w, m, alts[k])
    {
      CubeExact(w, cubes[k], m, alts[k]);
    }
    if exists k :: 0 <= k < |alts| && LiteralHolds(w, m, alts[k]) {
      var k :| 0 <= k < |alts| && LiteralHolds(w, m, alts[k]);
      assert CubeMatches(w, cubes[k]);
    }
  }

  // ---- the complement of a positive `IN` ----

  /** How many set positions of `m` lie below `i`. */
  function Rank(m: nat, i: nat): nat {
    if i == 0 then 0 else m % 2 + Rank(m / 2, i - 1)
  }

  lemma {:induction false} RankStep(m: nat, i: nat)
    ensures Rank(m, i + 1) == Rank(m, i) + Digit(Bit(m, i))
  {
    if i > 0 { RankStep(m / 2, i - 1); }
  }

  lemma {:induction false} RankTotal(m: nat)
    ensures Rank(m, BitLength(m)) == PopCount(m)
  {
    if m > 0 { RankTotal(m / 2); }
  }

  lemma {:induction false} DepositBit(x: nat, m: nat, i: nat)
    ensures Bit(Deposit(x, m), i) <==> Bit(m, i) && Bit(x, Rank(m, i))
    decreases m
  {
    if m == 0 {
      ZeroBit(i);
    } else if i > 0 {
      DepositBit(if m % 2 == 1 then x / 2 else x, m / 2, i - 1);
    }
  }

  method Positions(m: nat) returns (ps: seq<nat>)
    ensures |ps| == PopCount(m)
    ensures forall j :: 0 <= j < |ps| ==> Bit(m, ps[j]) && Rank(m, ps[j]) == j
    ensures forall b: nat :: Bit(m, b) ==> Rank(m, b) < |ps| && ps[Rank(m, b)] == b
  {
    ps := [];
    for i := 0 to BitLength(m)
      invariant |ps| == Rank(m, i)
      invariant forall j :: 0 <= j < |ps| ==> ps[j] < i && Bit(m, ps[j]) && Rank(m, ps[j]) == j
      invariant forall b: nat :: b < i && Bit(m, b) ==> Rank(m, b) < |ps| && ps[Rank(m, b)] == b
    {
      RankStep(m, i);
      if Bit(m, i) {
        ps := ps + [i];
      }
    }
    RankTotal(m);
    if m > 0 { TopBit(m); } else { ZeroBits(); }
  }

  /** The inner loop of the complement: spread `fv` over the field's positions. */
  method Scatter(fv: nat, m: nat, positions: seq<nat>) returns (vv: nat)
    requires |positions| == PopCount(m)
    requires forall j :: 0 <= j < |positions| ==> Bit(m, positions[j]) && Rank(m, positions[j]) == j
    requires forall b: nat :: Bit(m, b) ==> Rank(m, b) < |positions| && positions[Rank(m, b)] == b
    ensures vv == Deposit(fv, m)
  {
    vv := 0;
    ZeroBits();
    for j := 0 to |positions|
      invariant forall b: nat :: Bit(vv, b) <==> Bit(m, b) && Rank(m, b) < j && Bit(fv, Rank(m, b))
    {
      if Bit(fv, j) {
        OrBits(vv, Pow2(positions[j]));
        Pow2Bits(positions[j]);
        vv := Or(vv, Pow2(positions[j]));
      }
      assert forall b: nat :: Bit(m, b) && Rank(m, b) == j ==> b == positions[j];
    }
    forall b: nat { DepositBit(fv, m, b); }
    Extensional(vv, Deposit(fv, m));
  }

  /** Matching a cube inside the field depends only on the field's bits. */
  lemma FieldBitsDecide(w: nat, m: nat, c: Cube)
    requires And(c.mask, m) == c.mask
    ensures CubeMatches(w, c) <==> CubeMatches(And(w, m), c)
  {
    AndBits(c.mask, m); AndBits(w, m); AndBits(w, c.mask); AndBits(And(w, m), c.mask);
    Extensional(And(w, c.mask), And(And(w, m), c.mask));
  }

  lemma FieldBitsDecideAny(w: nat, m: nat, cubes: seq<Cube>)
    requires forall k :: 0 <= k < |cubes| ==> And(cubes[k].mask, m) == cubes[k].mask
    ensures AnyMatches(w, cubes) <==> AnyMatches(And(w, m), cubes)
  {
    forall k | 0 <= k < |cubes|
      ensures CubeMatches(w, cubes[k]) <==> CubeMatches(And(w, m), cubes[k])
    {
      FieldBitsDecide(w, m, cubes[k]);
    }
  }

  /** The field values outside the listed alternatives, found by running over all of them. */
  method Complement(m: nat, alts: seq<Cube>) returns (comp: seq<Cube>)
    requires forall k :: 0 <= k < |alts| ==> And(alts[k].mask, m) == alts[k].mask
    ensures forall w: nat :: AnyMatches(w, comp) <==> !AnyMatches(w, alts)
    ensures |comp| <= Pow2(PopCount(m))
  {
    var positions := Positions(m);
    comp := [];
    ghost var from: seq<nat> := [];
    for fv := 0 to Pow2(PopCount(m))
      invariant |comp| <= fv && |from| == |comp|
      invariant forall k :: 0 <= k < |comp| ==> comp[k] == Cube(m, Deposit(from[k], m)) && !AnyMatches(Deposit(from[k], m), alts)
      invariant forall x: nat :: x < fv && !AnyMatches(Deposit(x, m), alts) ==> x in from
    {
      var vv := Scatter(fv, m, positions);
      if !AnyMatches(vv, alts) {
        comp := comp + [Cube(m, vv)];
        from := from + [fv];
      }
    }
    forall w: nat
      ensures AnyMatches(w, comp) <==> !AnyMatches(w, alts)
    {
      ComplementExact(w, m, alts, comp, from);
    }
  }

  lemma ComplementExact(w: nat, m: nat, alts: seq<Cube>, comp: seq<Cube>, from: seq<nat>)
    requires forall k :: 0 <= k < |alts| ==> And(alts[k].mask, m) == alts[k].mask
    requires |from| == |comp|
    requires forall k :: 0 <= k < |comp| ==> comp[k] == Cube(m, Deposit(from[k], m)) && !AnyMatches(Deposit(from[k], m), alts)
    requires forall x: nat :: x < Pow2(PopCount(m)) && !AnyMatches(Deposit(x, m), alts) ==> x in from
    ensures AnyMatches(w, comp) <==> !AnyMatches(w, alts)
  {
    FieldBitsDecideAny(w, m, alts);
    var x := Extract(w, m);
    ExtractBound(w, m);
    DepositOfExtract(w, m);
    if !AnyMatches(w, alts) {
      assert x in from;
      var k :| 0 <= k < |from| && from[k] == x;
      assert CubeMatches(w, comp[k]);
    }
  }
}
