/** `apply_bitdiffs`: the fold over the terms of one encoding, and its meaning on every word. */
module BitdiffFold {
  import opened Options
  import opened Bits
  import opened BitScatter
  import opened BitdiffText
  import opened BitdiffCompile
  import opened BitdiffPrint

  datatype Outcome<+T> = Ok(value: T) | Refused(reason: Reason)

  predicate IsPinning(t: Term) {
    t.Positive? && t.atom.op == Eq
  }

  // ---- one term ----

  /** What one positive conjunct contributes: a cube to pin, or a reject pattern (possibly none). */
  datatype Contribution = Pin(cube: Cube) | Reject(pattern: Pattern)

  ghost predicate Contributes(fields: map<string, Field>, a: Atom, c: Contribution)
    requires ReadablePositive(fields, a)
  {
    match c
    case Pin(cube) => a.op == Eq && IsCubeOf(cube, fields[a.field].mask, a.alts[0])
    case Reject(p) =>
      && a.op != Eq
      && forall w: nat :: AtomHolds(fields, w, a) <==> p == [] || !PatternMatches(w, p)
  }

  lemma SinglePattern(w: nat, cubes: seq<Cube>)
    ensures PatternMatches(w, [cubes]) <==> AnyMatches(w, cubes)
  {
    assert [cubes][0] == cubes;
  }

  /** `(vv ^ fbits) & fpinned & vm`: the diagram pins one of the literal's bits the other way. */
  predicate Contradicts(f: Field, c: Cube) {
    And(And(Xor(c.value, f.ones), f.pinned), c.mask) != 0
  }

  lemma ContradictsExact(f: Field, c: Cube, lit: string)
    requires IsCubeOf(c, f.mask, lit)
    ensures Contradicts(f, c) <==> !AgreesWithDiagram(f, lit)
  {
    var d := And(And(Xor(c.value, f.ones), f.pinned), c.mask);
    XorBits(c.value, f.ones);
    AndBits(Xor(c.value, f.ones), f.pinned);
    AndBits(And(Xor(c.value, f.ones), f.pinned), c.mask);
    ZeroBits();
    if AgreesWithDiagram(f, lit) {
      Extensional(d, 0);
    }
  }

  lemma AllInside(alts: seq<Cube>, m: nat, lits: seq<string>)
    requires Contiguous(m) && AreCubesOf(alts, m, lits)
    ensures forall k :: 0 <= k < |alts| ==> And(alts[k].mask, m) == alts[k].mask
  {
    hide And, Contiguous, Fits, IsCubeOf;
    forall k | 0 <= k < |alts|
      ensures And(alts[k].mask, m) == alts[k].mask
    {
      CubeInside(alts[k], m, lits[k]);
    }
  }

  lemma InMeans(fields: map<string, Field>, a: Atom, alts: seq<Cube>, comp: seq<Cube>)
    requires ReadablePositive(fields, a) && a.op == In && AreCubesOf(alts, fields[a.field].mask, a.alts)
    requires forall w: nat :: AnyMatches(w, comp) <==> !AnyMatches(w, alts)
    ensures Contributes(fields, a, Reject(if comp == [] then [] else [comp]))
  {
    hide AnyMatches, PatternMatches, Fits, IsCubeOf, And;
    forall w: nat
      ensures AtomHolds(fields, w, a) <==> !AnyMatches(w, comp)
      ensures PatternMatches(w, [comp]) <==> AnyMatches(w, comp)
      ensures comp == [] ==> !AnyMatches(w, comp)
    {
      AlternativesExact(w, alts, fields[a.field].mask, a.alts);
      SinglePattern(w, comp);
      NoneMatches(w, comp);
    }
  }

  lemma NoneMatches(w: nat, comp: seq<Cube>)
    ensures comp == [] ==> !AnyMatches(w, comp)
  {
  }

  lemma NeMeans(fields: map<string, Field>, a: Atom, alts: seq<Cube>)
    requires ReadablePositive(fields, a) && a.op == Ne && AreCubesOf(alts, fields[a.field].mask, a.alts)
    ensures Contributes(fields, a, Reject([alts]))
  {
    hide AnyMatches, PatternMatches, Fits, IsCubeOf, And;
    forall w: nat
      ensures AtomHolds(fields, w, a) <==> !PatternMatches(w, [alts])
    {
      AlternativesExact(w, alts, fields[a.field].mask, a.alts);
      SinglePattern(w, alts);
    }
  }

  /** The reason given for refusing a conjunct is what is wrong with it. */
  ghost predicate Explains(fields: map<string, Field>, conj: string, negated: bool, why: Reason) {
    var read := ReadAtom(conj);
    match why
    case UnsupportedTerm(t) => t == conj && read.None?
    case UnknownField(n) => read.Some? && n == read.value.field && n !in fields
    case LiteralMisfit(c) => c == conj && read.Some? && read.value.field in fields && !FieldFits(fields, read.value)
    case NotEqualInNegation(c) => c == conj && negated && read.Some? && FieldFits(fields, read.value) && read.value.op == Ne
    case PinnedYetConstrained(n) =>
      !negated && read.Some? && n == read.value.field && FieldFits(fields, read.value) && read.value.op != Eq && !Unpinned(fields[n])
    case NotEnumerable(c) =>
      c == conj && !negated && read.Some? && FieldFits(fields, read.value) && read.value.op == In && PopCount(fields[read.value.field].mask) > 8
    case ContradictsDiagram(c) =>
      && c == conj && !negated && read.Some? && FieldFits(fields, read.value) && read.value.op == Eq
      && exists k :: 0 <= k < |read.value.alts| && !AgreesWithDiagram(fields[read.value.field], read.value.alts[k])
    case NotFoldable(c) => c == conj && !negated && read.Some? && FieldFits(fields, read.value) && read.value.op == Eq && |read.value.alts| > 1
    case NotUnderstood(_) => false
  }

  method CompilePositive(base: Constraint, conj: string) returns (r: Outcome<Contribution>)
    requires Usable(base)
    ensures r.Ok? <==> ReadAtom(conj).Some? && ReadablePositive(base.fields, ReadAtom(conj).value)
    ensures r.Ok? ==> Contributes(base.fields, ReadAtom(conj).value, r.value)
    ensures r.Refused? ==> Explains(base.fields, conj, false, r.reason)
  {
    var read := ReadAtom(conj);
    if read.None? {
      return Refused(UnsupportedTerm(conj));
    }
    var a := read.value;
    if a.field !in base.fields {
      return Refused(UnknownField(a.field));
    }
    var f := base.fields[a.field];
    var cubes := LiteralCubes(a.alts, f.mask);
    if cubes.None? || cubes.value == [] {
      return Refused(LiteralMisfit(conj));
    }
    var alts := cubes.value;
    if a.op == In {
      if And(f.pinned, f.mask) != 0 {
        return Refused(PinnedYetConstrained(a.field));
      }
      if PopCount(f.mask) > 8 {
        return Refused(NotEnumerable(conj));
      }
      AllInside(alts, f.mask, a.alts);
      var comp := Complement(f.mask, alts);
      InMeans(base.fields, a, alts, comp);
      // Nothing is outside the listed values: no pattern at all.
      return Ok(Reject(if comp == [] then [] else [comp]));
    }
    if a.op == Ne {
      if And(f.pinned, f.mask) != 0 {
        return Refused(PinnedYetConstrained(a.field));
      }
      NeMeans(base.fields, a, alts);
      return Ok(Reject([alts]));
    }
    for k := 0 to |alts|
      invariant forall j :: 0 <= j < k ==> AgreesWithDiagram(f, a.alts[j])
    {
      ContradictsExact(f, alts[k], a.alts[k]);
      if Contradicts(f, alts[k]) {
        assert k == 0 || |a.alts| != 1;
        return Refused(ContradictsDiagram(conj));
      }
    }
    if |alts| != 1 {
      return Refused(NotFoldable(conj));
    }
    r := Ok(Pin(alts[0]));
  }

  ghost predicate AtomsRead(conjs: seq<string>, atoms: seq<Atom>) {
    |atoms| == |conjs| && forall k :: 0 <= k < |conjs| ==> ReadAtom(conjs[k]) == Some(atoms[k])
  }

  lemma {:induction false} ReadAtomsPointwise(conjs: seq<string>)
    ensures ReadAtoms(conjs).Some? ==> AtomsRead(conjs, ReadAtoms(conjs).value)
    ensures ReadAtoms(conjs).None? ==> exists k :: 0 <= k < |conjs| && ReadAtom(conjs[k]).None?
  {
    if conjs != [] {
      ReadAtomsPointwise(conjs[1..]);
      if ReadAtom(conjs[0]).Some? && ReadAtoms(conjs[1..]).None? {
        var k :| 0 <= k < |conjs[1..]| && ReadAtom(conjs[1..][k]).None?;
        assert ReadAtom(conjs[k + 1]).None?;
      }
    }
  }

  ghost predicate ConjunctDone(fields: map<string, Field>, conj: string, a: Atom, cubes: seq<Cube>) {
    ReadAtom(conj) == Some(a) && ReadableNegated(fields, a) && AreCubesOf(cubes, fields[a.field].mask, a.alts)
  }

  /** One conjunct of a negated term: its alternatives. */
  method CompileConjunct(base: Constraint, conj: string) returns (r: Outcome<seq<Cube>>)
    ensures r.Ok? <==> ReadAtom(conj).Some? && ReadableNegated(base.fields, ReadAtom(conj).value)
    ensures r.Ok? ==> ConjunctDone(base.fields, conj, ReadAtom(conj).value, r.value)
    ensures r.Refused? ==> Explains(base.fields, conj, true, r.reason)
  {
    var read := ReadAtom(conj);
    if read.None? {
      return Refused(UnsupportedTerm(conj));
    }
    var a := read.value;
    if a.field !in base.fields {
      return Refused(UnknownField(a.field));
    }
    var cubes := LiteralCubes(a.alts, base.fields[a.field].mask);
    if cubes.None? || cubes.value == [] {
      return Refused(LiteralMisfit(conj));
    }
    if a.op == Ne {
      return Refused(NotEqualInNegation(conj));
    }
    r := Ok(cubes.value);
  }

  ghost predicate AllReadableNegated(fields: map<string, Field>, atoms: seq<Atom>) {
    forall k :: 0 <= k < |atoms| ==> ReadableNegated(fields, atoms[k])
  }

  ghost predicate AllHold(fields: map<string, Field>, w: nat, atoms: seq<Atom>)
    requires AllReadableNegated(fields, atoms)
  {
    forall k :: 0 <= k < |atoms| ==> AtomHolds(fields, w, atoms[k])
  }

  /** Conjunct `k` of a negation is the first one that is refused. */
  ghost predicate FirstFault(fields: map<string, Field>, conjs: seq<string>, k: nat, why: Reason)
    requires k < |conjs|
  {
    && Explains(fields, conjs[k], true, why)
    && forall j :: 0 <= j < k ==> ReadAtom(conjs[j]).Some? && ReadableNegated(fields, ReadAtom(conjs[j]).value)
  }

  /** One negated term: every conjunct becomes one list of alternatives of a single pattern. */
  method CompileNegated(base: Constraint, conjs: seq<string>) returns (r: Outcome<Pattern>)
    ensures r.Ok? <==> ReadAtoms(conjs).Some? && AllReadableNegated(base.fields, ReadAtoms(conjs).value)
    ensures r.Ok? ==> forall w: nat :: PatternMatches(w, r.value) <==> AllHold(base.fields, w, ReadAtoms(conjs).value)
    ensures r.Refused? ==> exists k :: 0 <= k < |conjs| && FirstFault(base.fields, conjs, k, r.reason)
  {
    hide ReadAtom, ReadableNegated, AreCubesOf, AllHold, PatternMatches, Explains;
    ReadAtomsPointwise(conjs);
    var pattern: Pattern := [];
    ghost var atoms: seq<Atom> := [];
    for i := 0 to |conjs|
      invariant |pattern| == |atoms| == i
      invariant forall k :: 0 <= k < i ==> ConjunctDone(base.fields, conjs[k], atoms[k], pattern[k])
    {
      var cubes := CompileConjunct(base, conjs[i]);
      if cubes.Refused? {
        assert FirstFault(base.fields, conjs, i, cubes.reason);
        return Refused(cubes.reason);
      }
      pattern := pattern + [cubes.value];
      atoms := atoms + [ReadAtom(conjs[i]).value];
    }
    assert ReadAtoms(conjs).Some?;
    assert ReadAtoms(conjs).value == atoms;
    forall w: nat
      ensures PatternMatches(w, pattern) <==> AllHold(base.fields, w, atoms)
    {
      NegatedExact(base.fields, w, conjs, atoms, pattern);
    }
    r := Ok(pattern);
  }

  lemma NegatedExact(fields: map<string, Field>, w: nat, conjs: seq<string>, atoms: seq<Atom>, pattern: Pattern)
    requires |pattern| == |atoms| == |conjs| && AllReadableNegated(fields, atoms)
    requires forall k :: 0 <= k < |atoms| ==> ConjunctDone(fields, conjs[k], atoms[k], pattern[k])
    ensures PatternMatches(w, pattern) <==> AllHold(fields, w, atoms)
  {
    hide ReadAtom, AnyMatches, AreCubesOf;
    forall k | 0 <= k < |atoms|
      ensures AnyMatches(w, pattern[k]) <==> AtomHolds(fields, w, atoms[k])
    {
      assert ConjunctDone(fields, conjs[k], atoms[k], pattern[k]);
      AlternativesExact(w, pattern[k], fields[atoms[k].field].mask, atoms[k].alts);
    }
  }

  // ---- the fold ----

  ghost predicate PinsBit(fields: map<string, Field>, t: Term, b: nat)
    requires ReadableTerm(fields, t)
  {
    IsPinning(t) && Pins(fields[t.atom.field].mask, t.atom.alts[0], b)
  }

  ghost predicate PinsBitOne(fields: map<string, Field>, t: Term, b: nat)
    requires ReadableTerm(fields, t)
  {
    IsPinning(t) && PinsOne(fields[t.atom.field].mask, t.atom.alts[0], b)
  }

  /** Terms `i` and `j` are positive equalities that pin one bit to different values. */
  ghost predicate Clash(fields: map<string, Field>, s: Term, t: Term)
    requires ReadableTerm(fields, s) && ReadableTerm(fields, t)
  {
    exists b: nat :: PinsBit(fields, s, b) && PinsBit(fields, t, b) && PinsBitOne(fields, s, b) != PinsBitOne(fields, t, b)
  }

  /** No two positive equalities disagree: readable off the text before anything is folded. */
  ghost predicate Consistent(fields: map<string, Field>, ts: seq<Term>)
    requires ReadableTerms(fields, ts)
  {
    forall i, j :: 0 <= i < j < |ts| ==> !Clash(fields, ts[i], ts[j])
  }

  lemma ReadableIsKnown(fields: map<string, Field>, ts: seq<Term>)
    requires ReadableTerms(fields, ts)
    ensures forall k :: 0 <= k < |ts| ==> TermKnown(fields, ts[k])
  {
  }

  /** Term `k` is the last one that pins bit `b`. */
  ghost predicate LastPin(fields: map<string, Field>, ts: seq<Term>, k: int, b: nat)
    requires ReadableTerms(fields, ts)
  {
    && 0 <= k < |ts| && PinsBit(fields, ts[k], b)
    && forall j :: k < j < |ts| ==> !PinsBit(fields, ts[j], b)
  }

  ghost predicate PinnedByTerm(fields: map<string, Field>, ts: seq<Term>, b: nat)
    requires ReadableTerms(fields, ts)
  {
    exists k :: 0 <= k < |ts| && PinsBit(fields, ts[k], b)
  }

  /** Which bits the fold has pinned so far, and to what: the last term to pin a bit wins. */
  ghost predicate PinnedSoFar(base: Constraint, ts: seq<Term>, mask: nat, value: nat)
    requires ReadableTerms(base.fields, ts)
  {
    && And(value, mask) == value
    && (forall b: nat :: Bit(mask, b) <==> Bit(base.mask, b) || PinnedByTerm(base.fields, ts, b))
    && (forall b: nat :: Bit(base.mask, b) && !PinnedByTerm(base.fields, ts, b) ==> (Bit(value, b) <==> Bit(base.value, b)))
    && (forall k, b: nat :: LastPin(base.fields, ts, k, b) ==> (Bit(value, b) <==> PinsBitOne(base.fields, ts[k], b)))
  }

  /** The reject patterns hold exactly what the non-pinning terms forbid. */
  ghost predicate RejectsSoFar(fields: map<string, Field>, ts: seq<Term>, rejects: seq<Pattern>)
    requires ReadableTerms(fields, ts)
  {
    forall w: nat :: Survives(w, rejects) <==> OthersHold(fields, w, ts)
  }

  predicate Survives(w: nat, rejects: seq<Pattern>) {
    forall k :: 0 <= k < |rejects| ==> !PatternMatches(w, rejects[k])
  }

  ghost predicate OthersHold(fields: map<string, Field>, w: nat, ts: seq<Term>)
    requires ReadableTerms(fields, ts)
  {
    forall k :: 0 <= k < |ts| && !IsPinning(ts[k]) ==> TermHolds(fields, w, ts[k])
  }

  /** `mask |= vm; value = (value & ~vm) | (vv & vm)`. */
  function PinnedMask(mask: nat, c: Cube): nat {
    Or(mask, c.mask)
  }

  function PinnedValue(value: nat, c: Cube): nat {
    Or(AndNot(value, c.mask), And(c.value, c.mask))
  }

  lemma PinnedBits(mask: nat, value: nat, c: Cube)
    requires forall b: nat :: Bit(c.value, b) ==> Bit(c.mask, b)
    ensures forall b: nat :: Bit(PinnedMask(mask, c), b) <==> Bit(mask, b) || Bit(c.mask, b)
    ensures forall b: nat :: Bit(PinnedValue(value, c), b) <==> if Bit(c.mask, b) then Bit(c.value, b) else Bit(value, b)
  {
    OrBits(mask, c.mask);
    AndNotBits(value, c.mask);
    AndBits(c.value, c.mask);
    OrBits(AndNot(value, c.mask), And(c.value, c.mask));
  }

  lemma Submask(v: nat, m: nat)
    ensures And(v, m) == v <==> forall b: nat :: Bit(v, b) ==> Bit(m, b)
  {
    AndBits(v, m);
    if forall b: nat :: Bit(v, b) ==> Bit(m, b) {
      Extensional(And(v, m), v);
    }
  }

  lemma LastPinPrefix(fields: map<string, Field>, ts: seq<Term>, t: Term, k: int, b: nat)
    requires ReadableTerms(fields, ts + [t]) && ReadableTerms(fields, ts) && ReadableTerm(fields, t)
    requires LastPin(fields, ts + [t], k, b)
    ensures if PinsBit(fields, t, b) then k == |ts| else LastPin(fields, ts, k, b) && (ts + [t])[k] == ts[k]
  {
    var all := ts + [t];
    assert all[|ts|] == t;
    if k < |ts| {
      forall j | k < j < |ts|
        ensures !PinsBit(fields, ts[j], b)
      {
        assert all[j] == ts[j];
      }
    }
  }

  /** Pinning one more literal. */
  lemma PinStep(base: Constraint, ts: seq<Term>, t: Term, mask: nat, value: nat, c: Cube)
    requires Usable(base) && ReadableTerms(base.fields, ts + [t])
    requires ReadableTerms(base.fields, ts) && PinnedSoFar(base, ts, mask, value)
    requires IsPinning(t) && ReadableTerm(base.fields, t) && IsCubeOf(c, base.fields[t.atom.field].mask, t.atom.alts[0])
    ensures PinnedSoFar(base, ts + [t], PinnedMask(mask, c), PinnedValue(value, c))
  {
    var fields := base.fields;
    var f := fields[t.atom.field];
    var lit := t.atom.alts[0];
    var mask', value' := PinnedMask(mask, c), PinnedValue(value, c);
    var all := ts + [t];
    PinnedBits(mask, value, c);
    Submask(value, mask);
    Submask(value', mask');
    forall b: nat
      ensures PinnedByTerm(fields, all, b) <==> PinnedByTerm(fields, ts, b) || PinsBit(fields, t, b)
    {
      SnocPins(fields, ts, t, b);
    }
    forall k, b: nat | LastPin(fields, all, k, b)
      ensures Bit(value', b) <==> PinsBitOne(fields, all[k], b)
    {
      LastPinPrefix(fields, ts, t, k, b);
    }
  }

  lemma SnocPins(fields: map<string, Field>, ts: seq<Term>, t: Term, b: nat)
    requires ReadableTerms(fields, ts + [t]) && ReadableTerms(fields, ts) && ReadableTerm(fields, t)
    ensures PinnedByTerm(fields, ts + [t], b) <==> PinnedByTerm(fields, ts, b) || PinsBit(fields, t, b)
  {
    var all := ts + [t];
    if exists k :: 0 <= k < |ts| && PinsBit(fields, ts[k], b) {
      var k :| 0 <= k < |ts| && PinsBit(fields, ts[k], b);
      assert PinsBit(fields, all[k], b);
    }
    if PinsBit(fields, t, b) {
      assert PinsBit(fields, all[|ts|], b);
    }
  }

  /** A term that pins nothing leaves the pinned bits as they are. */
  lemma NoPinStep(base: Constraint, ts: seq<Term>, t: Term, mask: nat, value: nat)
    requires ReadableTerms(base.fields, ts + [t])
    requires ReadableTerms(base.fields, ts) && PinnedSoFar(base, ts, mask, value)
    requires !IsPinning(t) && ReadableTerm(base.fields, t)
    ensures PinnedSoFar(base, ts + [t], mask, value)
  {
    var all := ts + [t];
    forall b: nat
      ensures PinnedByTerm(base.fields, all, b) <==> PinnedByTerm(base.fields, ts, b)
    {
      SnocPins(base.fields, ts, t, b);
    }
    forall k, b: nat | LastPin(base.fields, all, k, b)
      ensures Bit(value, b) <==> PinsBitOne(base.fields, all[k], b)
    {
      LastPinPrefix(base.fields, ts, t, k, b);
    }
  }

  /** One more term's rejects; an absent pattern means the term forbids nothing. */
  lemma RejectStep(fields: map<string, Field>, ts: seq<Term>, t: Term, rejects: seq<Pattern>, more: seq<Pattern>)
    requires ReadableTerms(fields, ts + [t]) && ReadableTerms(fields, ts) && ReadableTerm(fields, t)
    requires RejectsSoFar(fields, ts, rejects) && |more| <= 1
    requires forall w: nat :: IsPinning(t) || TermHolds(fields, w, t) <==> more == [] || !PatternMatches(w, more[0])
    ensures RejectsSoFar(fields, ts + [t], rejects + more)
  {
    forall w: nat
      ensures Survives(w, rejects + more) <==> OthersHold(fields, w, ts + [t])
    {
      RejectStepAt(fields, ts, t, rejects, more, w);
    }
  }

  lemma RejectStepAt(fields: map<string, Field>, ts: seq<Term>, t: Term, rejects: seq<Pattern>, more: seq<Pattern>, w: nat)
    requires ReadableTerms(fields, ts + [t]) && ReadableTerms(fields, ts) && ReadableTerm(fields, t)
    requires RejectsSoFar(fields, ts, rejects) && |more| <= 1
    requires IsPinning(t) || TermHolds(fields, w, t) <==> more == [] || !PatternMatches(w, more[0])
    ensures Survives(w, rejects + more) <==> OthersHold(fields, w, ts + [t])
  {
    var all, both := ts + [t], rejects + more;
    assert all[|ts|] == t;
    assert forall k :: 0 <= k < |ts| ==> all[k] == ts[k];
    assert forall k :: 0 <= k < |rejects| ==> both[k] == rejects[k];
    assert OthersHold(fields, w, all) <==> OthersHold(fields, w, ts) && (IsPinning(t) || TermHolds(fields, w, t));
    if more != [] {
      assert both[|rejects|] == more[0];
      assert Survives(w, both) <==> Survives(w, rejects) && !PatternMatches(w, more[0]);
    } else {
      assert both == rejects;
    }
  }

  ghost predicate TermsRead(texts: seq<string>, ts: seq<Term>) {
    |ts| == |texts| && forall k :: 0 <= k < |texts| ==> ReadTerm(texts[k]) == Some(ts[k])
  }

  lemma {:induction false} ReadTermsPointwise(texts: seq<string>)
    ensures ReadTerms(texts).Some? ==> TermsRead(texts, ReadTerms(texts).value)
    ensures ReadTerms(texts).None? ==> exists k :: 0 <= k < |texts| && ReadTerm(texts[k]).None?
  {
    if texts != [] {
      ReadTermsPointwise(texts[1..]);
      if ReadTerm(texts[0]).Some? && ReadTerms(texts[1..]).None? {
        var k :| 0 <= k < |texts[1..]| && ReadTerm(texts[1..][k]).None?;
        assert ReadTerm(texts[k + 1]).None?;
      }
    }
  }

  /** What compiling one term hands to the fold. */
  ghost predicate TermCompiled(fields: map<string, Field>, t: Term, c: Contribution)
    requires ReadableTerm(fields, t)
  {
    match c
    case Pin(cube) => IsPinning(t) && IsCubeOf(cube, fields[t.atom.field].mask, t.atom.alts[0])
    case Reject(p) =>
      && !IsPinning(t)
      && forall w: nat :: TermHolds(fields, w, t) <==> (t.Positive? && p == []) || !PatternMatches(w, p)
  }

  ghost predicate ExplainsTerm(fields: map<string, Field>, text: string, why: Reason) {
    var body := NegationBody(text);
    if body.None? then Explains(fields, text, false, why)
    else
      var conjs := SplitTop(body.value);
      if conjs == [] then why == UnsupportedTerm(text) else exists k :: 0 <= k < |conjs| && FirstFault(fields, conjs, k, why)
  }

  /** A text is refused as a whole, or for what is wrong with its first term that cannot be used. */
  ghost predicate ExplainsSpec(fields: map<string, Field>, spec: string, why: Reason) {
    var texts := SplitTop(Strip(spec));
    if texts == [] then why == NotUnderstood(Strip(spec)) else exists k :: 0 <= k < |texts| && FirstBadTerm(fields, texts, k, why)
  }

  ghost predicate FirstBadTerm(fields: map<string, Field>, texts: seq<string>, k: nat, why: Reason)
    requires k < |texts|
  {
    && ExplainsTerm(fields, texts[k], why)
    && forall j :: 0 <= j < k ==> ReadTerm(texts[j]).Some? && ReadableTerm(fields, ReadTerm(texts[j]).value)
  }

  method CompileTerm(base: Constraint, text: string) returns (r: Outcome<Contribution>)
    requires Usable(base)
    ensures r.Ok? <==> ReadTerm(text).Some? && ReadableTerm(base.fields, ReadTerm(text).value)
    ensures r.Ok? ==> TermCompiled(base.fields, ReadTerm(text).value, r.value)
    ensures r.Ok? ==> (NegationBody(text).Some? <==> ReadTerm(text).value.Negated?)
    ensures r.Refused? ==> ExplainsTerm(base.fields, text, r.reason)
  {
    hide Explains, ReadAtom, AgreesWithDiagram;
    var body := NegationBody(text);
    if body.None? {
      r := CompilePositive(base, text);
    } else {
      var conjs := SplitTopLoop(body.value);
      if conjs == [] {
        return Refused(UnsupportedTerm(text));
      }
      var p := CompileNegated(base, conjs);
      r := match p case Ok(pattern) => Ok(Reject(pattern)) case Refused(why) => Refused(why);
    }
  }

  /** What is known after folding `ts`. */
  ghost predicate Folded(base: Constraint, ts: seq<Term>, v: Variant)
    requires ReadableTerms(base.fields, ts)
  {
    PinnedSoFar(base, ts, v.mask, v.value) && RejectsSoFar(base.fields, ts, v.rejects)
  }

  /** Fold one compiled term; `if negated or pattern: rejects.append(pattern)`. */
  method FoldTerm(base: Constraint, ghost ts: seq<Term>, ghost t: Term, isNegated: bool, v: Variant, c: Contribution)
    returns (v': Variant)
    requires Usable(base) && ReadableTerms(base.fields, ts) && ReadableTerm(base.fields, t)
    requires Folded(base, ts, v) && TermCompiled(base.fields, t, c) && isNegated == t.Negated?
    ensures ReadableTerms(base.fields, ts + [t]) && Folded(base, ts + [t], v')
  {
    match c
    case Pin(cube) =>
      v' := Variant(PinnedMask(v.mask, cube), PinnedValue(v.value, cube), v.rejects);
      PinStep(base, ts, t, v.mask, v.value, cube);
      RejectStep(base.fields, ts, t, v.rejects, []);
      assert v.rejects + [] == v.rejects;
    case Reject(p) =>
      var more := if isNegated || p != [] then [p] else [];
      v' := v.(rejects := v.rejects + more);
      NoPinStep(base, ts, t, v.mask, v.value);
      RejectStep(base.fields, ts, t, v.rejects, more);
  }

  lemma FoldedNothing(base: Constraint)
    requires Usable(base)
    ensures Folded(base, [], Variant(base.mask, base.value, []))
  {
  }

  /** `apply_bitdiffs`: the compiled variant, or a reason why the predicate was refused. */
  method ApplyBitdiffs(base: Constraint, spec: string, why: seq<Reason>) returns (r: Option<Variant>, why': seq<Reason>)
    requires Usable(base)
    ensures r.Some? <==> Readable(base.fields, spec)
    ensures r.Some? ==> Folded(base, ReadSpec(spec).value, r.value) && why' == why
    ensures r.None? ==> |why'| == |why| + 1 && why < why' && ExplainsSpec(base.fields, spec, why'[|why|])
  {
    hide ExplainsTerm, ReadTerm, Strip, SplitTop, ReadableTerm, TermCompiled, NegationBody, Usable;
    var s := Strip(spec);
    var v := Variant(base.mask, base.value, []);
    FoldedNothing(base);
    if s == "" {
      return Some(v), why;
    }
    var texts := SplitTopLoop(s);
    if texts == [] {
      return None, why + [NotUnderstood(s)];
    }
    ReadTermsPointwise(texts);
    ghost var ts: seq<Term> := [];
    hide Folded;
    for i := 0 to |texts|
      invariant |ts| == i && ReadableTerms(base.fields, ts)
      invariant forall k :: 0 <= k < i ==> ReadTerm(texts[k]) == Some(ts[k])
      invariant Folded(base, ts, v)
    {
      var c := CompileTerm(base, texts[i]);
      if c.Refused? {
        assert FirstBadTerm(base.fields, texts, i, c.reason);
        return None, why + [c.reason];
      }
      ghost var t := ReadTerm(texts[i]).value;
      v := FoldTerm(base, ts, t, NegationBody(texts[i]).Some?, v, c.value);
      ts := ts + [t];
    }
    assert ReadTerms(texts).Some?;
    assert ReadTerms(texts).value == ts;
    return Some(v), why;
  }

  // ---- the meaning of the compiled variant ----

  /** The meaning the source text has on top of the diagram. */
  ghost predicate SourceHolds(base: Constraint, w: nat, ts: seq<Term>)
    requires ReadableTerms(base.fields, ts)
  {
    And(w, base.mask) == base.value && SpecHolds(base.fields, w, ts)
  }

  lemma PinHolds(fields: map<string, Field>, w: nat, t: Term)
    requires ReadableTerm(fields, t) && IsPinning(t)
    ensures TermHolds(fields, w, t) <==> forall b: nat :: PinsBit(fields, t, b) ==> (Bit(w, b) <==> PinsBitOne(fields, t, b))
  {
    var m, lit := fields[t.atom.field].mask, t.atom.alts[0];
    assert TermHolds(fields, w, t) <==> LiteralHolds(w, m, lit);
    LiteralBitwise(w, m, lit);
  }

  lemma LiteralBitwise(w: nat, m: nat, lit: string)
    requires Fits(lit, m)
    ensures LiteralHolds(w, m, lit) <==> forall b: nat :: Pins(m, lit, b) ==> (Bit(w, b) <==> PinsOne(m, lit, b))
  {
    hide Bit, PopCount, BitLength;
    if LiteralHolds(w, m, lit) {
      forall b: nat | Pins(m, lit, b)
        ensures Bit(w, b) <==> PinsOne(m, lit, b)
      {
        var k: nat := BitLength(m) - 1 - b;
        assert DigitHolds(lit[k], Bit(w, BitLength(m) - 1 - k));
      }
    }
    if forall b: nat :: Pins(m, lit, b) ==> (Bit(w, b) <==> PinsOne(m, lit, b)) {
      forall k: nat | k < |lit| && k < BitLength(m)
        ensures DigitHolds(lit[k], Bit(w, BitLength(m) - 1 - k))
      {
        var b: nat := BitLength(m) - 1 - k;
        assert Pins(m, lit, b) ==> (Bit(w, b) <==> PinsOne(m, lit, b));
        assert IsDigitChar(lit[k]);
      }
    }
  }

  /** Inside the diagram's pinned bits a folded literal repeats what the diagram says. */
  lemma DiagramAgrees(base: Constraint, t: Term, b: nat)
    requires WellFormed(base) && ReadableTerm(base.fields, t) && PinsBit(base.fields, t, b) && Bit(base.mask, b)
    ensures PinsBitOne(base.fields, t, b) <==> Bit(base.value, b)
  {
    var f := base.fields[t.atom.field];
    assert Bit(f.mask, b);
    AndBits(base.mask, f.mask);
    AndBits(base.value, f.mask);
  }

  /** Every positive equality is met. */
  ghost predicate PinsHold(fields: map<string, Field>, w: nat, ts: seq<Term>)
    requires ReadableTerms(fields, ts)
  {
    forall k :: 0 <= k < |ts| && IsPinning(ts[k]) ==> TermHolds(fields, w, ts[k])
  }

  lemma PinsHoldBitwise(fields: map<string, Field>, w: nat, ts: seq<Term>)
    requires ReadableTerms(fields, ts)
    ensures PinsHold(fields, w, ts) <==>
            forall k, b: nat :: 0 <= k < |ts| && PinsBit(fields, ts[k], b) ==> (Bit(w, b) <==> PinsBitOne(fields, ts[k], b))
  {
    ReadableIsKnown(fields, ts);
    hide TermHolds, ReadableTerm, TermKnown, Pins, PinsOne;
    forall k | 0 <= k < |ts| && IsPinning(ts[k])
      ensures TermHolds(fields, w, ts[k]) <==>
              forall b: nat :: PinsBit(fields, ts[k], b) ==> (Bit(w, b) <==> PinsBitOne(fields, ts[k], b))
    {
      PinHolds(fields, w, ts[k]);
    }
  }

  lemma {:induction false} FindLastPin(fields: map<string, Field>, ts: seq<Term>, k: int, b: nat) returns (l: int)
    requires ReadableTerms(fields, ts) && 0 <= k < |ts| && PinsBit(fields, ts[k], b)
    ensures k <= l && LastPin(fields, ts, l, b)
    decreases |ts| - k
  {
    if j :| k < j < |ts| && PinsBit(fields, ts[j], b) {
      l := FindLastPin(fields, ts, j, b);
    } else {
      l := k;
    }
  }

  /** Two clashing equalities make the source predicate unsatisfiable. */
  lemma ClashIsUnsatisfiable(base: Constraint, ts: seq<Term>, w: nat)
    requires ReadableTerms(base.fields, ts) && !Consistent(base.fields, ts)
    ensures !SourceHolds(base, w, ts)
  {
    var i, j :| 0 <= i < j < |ts| && Clash(base.fields, ts[i], ts[j]);
    PinHolds(base.fields, w, ts[i]);
    PinHolds(base.fields, w, ts[j]);
  }

  /** The source text read with the last equality on a bit replacing the earlier ones. */
  ghost predicate LastWins(base: Constraint, w: nat, ts: seq<Term>)
    requires ReadableTerms(base.fields, ts)
  {
    && DiagramElsewhere(base, w, ts)
    && LastPinsHold(base.fields, w, ts)
    && OthersHold(base.fields, w, ts)
  }

  /** The diagram's own bits, where no equality speaks. */
  ghost predicate DiagramElsewhere(base: Constraint, w: nat, ts: seq<Term>)
    requires ReadableTerms(base.fields, ts)
  {
    forall b: nat :: Bit(base.mask, b) && !PinnedByTerm(base.fields, ts, b) ==> (Bit(w, b) <==> Bit(base.value, b))
  }

  ghost predicate LastPinsHold(fields: map<string, Field>, w: nat, ts: seq<Term>)
    requires ReadableTerms(fields, ts)
  {
    forall k, b: nat :: LastPin(fields, ts, k, b) ==> (Bit(w, b) <==> PinsBitOne(fields, ts[k], b))
  }

  /** What a compiled variant means, for every diagram and every predicate that compiles. */
  lemma CompiledMeaning(base: Constraint, ts: seq<Term>, v: Variant, w: nat)
    requires Usable(base) && ReadableTerms(base.fields, ts) && Folded(base, ts, v)
    ensures WordMatches(w, v) <==> LastWins(base, w, ts)
  {
    hide And, ReadableTerm, TermHolds, PatternMatches, PinnedSoFar, DiagramElsewhere, LastPinsHold;
    LastPinsMeaning(base, ts, v, w);
    assert Survives(w, v.rejects) <==> OthersHold(base.fields, w, ts);
  }

  lemma LastPinsMeaning(base: Constraint, ts: seq<Term>, v: Variant, w: nat)
    requires Usable(base) && ReadableTerms(base.fields, ts) && Folded(base, ts, v)
    ensures And(w, v.mask) == v.value <==> DiagramElsewhere(base, w, ts) && LastPinsHold(base.fields, w, ts)
  {
    hide ReadableTerm, PinsBit, PinsBitOne, LastPin, RejectsSoFar, Bit, Contiguous;
    MaskedEquality(w, v.mask, v.value);
    Submask(v.value, v.mask);
    Submask(base.value, base.mask);
    hide And, PinnedByTerm;
    forall b: nat | PinnedByTerm(base.fields, ts, b)
      ensures exists l :: LastPin(base.fields, ts, l, b)
    {
      var l := SomeLastPin(base.fields, ts, b);
    }
    forall k, b: nat | LastPin(base.fields, ts, k, b)
      ensures PinnedByTerm(base.fields, ts, b)
    {
      LastPinPins(base.fields, ts, k, b);
    }
  }

  lemma SomeLastPin(fields: map<string, Field>, ts: seq<Term>, b: nat) returns (l: int)
    requires ReadableTerms(fields, ts) && PinnedByTerm(fields, ts, b)
    ensures LastPin(fields, ts, l, b)
  {
    var k :| 0 <= k < |ts| && PinsBit(fields, ts[k], b);
    l := FindLastPin(fields, ts, k, b);
  }

  /** Without clashes the last-wins reading on a well-formed base is the plain one. */
  lemma ConsistentMeaning(base: Constraint, ts: seq<Term>, w: nat)
    requires WellFormed(base) && ReadableTerms(base.fields, ts) && Consistent(base.fields, ts)
    ensures LastWins(base, w, ts) <==> SourceHolds(base, w, ts)
  {
    ConsistentBits(base, ts, w);
    hide And, ReadableTerm, TermHolds;
  }

  lemma ConsistentBits(base: Constraint, ts: seq<Term>, w: nat)
    requires WellFormed(base) && ReadableTerms(base.fields, ts) && Consistent(base.fields, ts)
    ensures DiagramElsewhere(base, w, ts) && LastPinsHold(base.fields, w, ts) <==>
            And(w, base.mask) == base.value && PinsHold(base.fields, w, ts)
  {
    hide ReadableTerm, TermHolds, PinsBit, PinsBitOne, Clash, Bit;
    MaskedEquality(w, base.mask, base.value);
    Submask(base.value, base.mask);
    PinsHoldBitwise(base.fields, w, ts);
    hide And, PinsHold;
    forall k, b: nat | 0 <= k < |ts| && PinsBit(base.fields, ts[k], b)
      ensures exists l :: LastPin(base.fields, ts, l, b) && (PinsBitOne(base.fields, ts[l], b) <==> PinsBitOne(base.fields, ts[k], b))
    {
      var l := FindLastPin(base.fields, ts, k, b);
      if k < l { NoClashAt(base.fields, ts, k, l, b); }
    }
    forall k, b: nat | 0 <= k < |ts| && PinsBit(base.fields, ts[k], b) && Bit(base.mask, b)
      ensures PinsBitOne(base.fields, ts[k], b) <==> Bit(base.value, b)
    {
      DiagramAgrees(base, ts[k], b);
    }
    hide WellFormed, Consistent;
  }

  lemma NoClashAt(fields: map<string, Field>, ts: seq<Term>, k: int, l: int, b: nat)
    requires ReadableTerms(fields, ts) && Consistent(fields, ts) && 0 <= k < l < |ts|
    requires PinsBit(fields, ts[k], b) && PinsBit(fields, ts[l], b)
    ensures PinsBitOne(fields, ts[k], b) <==> PinsBitOne(fields, ts[l], b)
  {
    hide PinsBit, PinsBitOne;
    assert !Clash(fields, ts[k], ts[l]);
  }

  lemma LastPinPins(fields: map<string, Field>, ts: seq<Term>, k: int, b: nat)
    requires ReadableTerms(fields, ts) && LastPin(fields, ts, k, b)
    ensures 0 <= k < |ts| && PinsBit(fields, ts[k], b) && PinnedByTerm(fields, ts, b)
  {
  }

  /** Meaning is preserved: with no clashing equalities, compiled and source form agree on every word. */
  lemma MeaningPreserved(base: Constraint, ts: seq<Term>, v: Variant, w: nat)
    requires WellFormed(base) && ReadableTerms(base.fields, ts) && Folded(base, ts, v)
    requires Consistent(base.fields, ts)
    ensures WordMatches(w, v) <==> SourceHolds(base, w, ts)
  {
    hide WordMatches, LastWins, SourceHolds, Folded, Consistent, ReadableTerms;
    CompiledMeaning(base, ts, v, w);
    ConsistentMeaning(base, ts, w);
  }

  /**
   The exact boundary. Compiled and source form agree on every word precisely when no two
   positive equalities clash, or no word at all satisfies the text read with the last one winning.
   */
  lemma MeaningPreservedExactly(base: Constraint, ts: seq<Term>, v: Variant)
    requires WellFormed(base) && ReadableTerms(base.fields, ts) && Folded(base, ts, v)
    ensures (forall w: nat :: WordMatches(w, v) <==> SourceHolds(base, w, ts)) <==>
            Consistent(base.fields, ts) || forall w: nat :: !LastWins(base, w, ts)
  {
    hide WordMatches, SourceHolds, LastWins, Consistent, Folded, ReadableTerms;
    forall w: nat
      ensures WordMatches(w, v) <==> LastWins(base, w, ts)
    {
      CompiledMeaning(base, ts, v, w);
    }
    if Consistent(base.fields, ts) {
      forall w: nat
        ensures WordMatches(w, v) <==> SourceHolds(base, w, ts)
      {
        MeaningPreserved(base, ts, v, w);
      }
    } else {
      forall w: nat
        ensures !SourceHolds(base, w, ts)
      {
        ClashIsUnsatisfiable(base, ts, w);
      }
    }
  }

  // `f == 0 && f == 1` on a one-bit field nothing else constrains.

  function ClashBase(): Constraint {
    Constraint(0, 0, map["f" := Field(1, 0, 0)])
  }

  function ClashTerms(): seq<Term> {
    [Positive(Atom("f", Eq, ["0"])), Positive(Atom("f", Eq, ["1"]))]
  }

  lemma ClashTermsPin()
    ensures WellFormed(ClashBase()) && ReadableTerms(ClashBase().fields, ClashTerms())
    ensures forall k, b: nat :: 0 <= k < 2 ==> (PinsBit(ClashBase().fields, ClashTerms()[k], b) <==> b == 0)
    ensures PinsBitOne(ClashBase().fields, ClashTerms()[1], 0) && !PinsBitOne(ClashBase().fields, ClashTerms()[0], 0)
  {
    assert BitLength(1) == 1 && PopCount(1) == 1;
    ZeroBits();
  }

  /** The text of that clash reads as those terms, and the reader takes them. */
  lemma ClashText()
    ensures ReadSpec("f == 0 && f == 1") == Some(ClashTerms())
    ensures Readable(ClashBase().fields, "f == 0 && f == 1")
  {
    var ts := ClashTerms();
    var p: seq<string> := ["f == 0", "f == 1"];
    assert PrintTerm(ts[0]) == p[0] && PrintTerm(ts[1]) == p[1];
    assert PrintTerms(ts) == p;
    assert p[1..] == ["f == 1"];
    assert Join(p, " && ") == "f == 0" + " && " + "f == 1" == "f == 0 && f == 1";
    hide PrintTerms, Join, ReadSpec;
    SpecRoundTrip(ts);
    ClashTermsPin();
  }

  /** The later equality silently replaces the earlier one: a word with `f = 1` is accepted. */
  lemma LaterEqualityWins(v: Variant)
    requires ReadableTerms(ClashBase().fields, ClashTerms()) && Folded(ClashBase(), ClashTerms(), v)
    ensures WordMatches(1, v) && !SourceHolds(ClashBase(), 1, ClashTerms())
  {
    var base, ts := ClashBase(), ClashTerms();
    ClashTermsPin();
    hide ReadableTerm, PinsBit, PinsBitOne, WellFormed, ClashBase;
    assert Clash(base.fields, ts[0], ts[1]);
    ClashIsUnsatisfiable(base, ts, 1);
    assert LastPin(base.fields, ts, 1, 0);
    Submask(v.value, v.mask);
    Pow2Bits(0);
    assert Pow2(0) == 1;
    hide Bit;
    MaskedEquality(1, v.mask, v.value);
    assert Survives(1, v.rejects) <==> OthersHold(base.fields, 1, ts);
    assert forall b: nat :: Bit(v.mask, b) ==> b == 0 by { NothingElsePinned(v); }
  }

  lemma NothingElsePinned(v: Variant)
    requires ReadableTerms(ClashBase().fields, ClashTerms()) && Folded(ClashBase(), ClashTerms(), v)
    ensures forall b: nat :: Bit(v.mask, b) <==> b == 0
  {
    ClashTermsPin();
    ZeroBits();
    hide ReadableTerm, PinsBit, PinsBitOne;
    assert PinsBit(ClashBase().fields, ClashTerms()[0], 0);
  }
}
