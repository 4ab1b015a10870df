/**
 From instruction pages to verdicts: `encoding_variants` and the row loop of
 scripts/aarch64_doccheck_2026_09.py. A page is a list of instruction classes, each with a
 diagram and encodings that refine it; a golden word passes when some encoding documents it.
 */
module Doccheck {
  import opened Options
  import opened Bits
  import opened BitdiffText
  import opened BitdiffCompile
  import opened BitdiffFold
  import opened RegDiagram

  /** An encoding without its own diagram uses the one of its class. */
  datatype Encoding = Encoding(diagram: Option<seq<Box>>, bitdiffs: string)

  datatype IClass = IClass(diagram: Option<seq<Box>>, encodings: seq<Encoding>)

  /** The diagram of a class or encoding determines its constraint. */
  lemma ConstraintUnique(c: Constraint, d: Constraint, boxes: seq<Box>)
    requires AllShaped(boxes) && IsConstraintOf(c, boxes) && IsConstraintOf(d, boxes)
    ensures c == d
  {
    Extensional(c.mask, d.mask);
    Extensional(c.value, d.value);
    forall n | n in c.fields
      ensures n in d.fields && c.fields[n] == d.fields[n]
    {
      var k :| LastNamed(boxes, n, k);
      assert n in d.fields;
      FieldUnique(c.fields[n], d.fields[n], boxes[k]);
    }
    assert c.fields.Keys == d.fields.Keys;
    assert c.fields == d.fields;
  }

  lemma FieldUnique(f: Field, g: Field, b: Box)
    requires Shaped(b) && IsFieldOf(f, b) && IsFieldOf(g, b)
    ensures f == g
  {
    Extensional(f.mask, g.mask);
    Extensional(f.pinned, g.pinned);
    Extensional(f.ones, g.ones);
  }

  // ---- what a page documents ----

  /** The word meets the diagram and the predicate, and the predicate could be read. */
  ghost predicate EncodingDocuments(boxes: seq<Box>, spec: string, w: nat) {
    && AllShaped(boxes)
    && DiagramHolds(boxes, w)
    && exists c :: IsConstraintOf(c, boxes) && Readable(c.fields, spec) && SpecHolds(c.fields, w, ReadSpec(spec).value)
  }

  function DiagramOf(cls: IClass, j: nat): Option<seq<Box>>
    requires j < |cls.encodings|
  {
    if cls.encodings[j].diagram.Some? then cls.encodings[j].diagram else cls.diagram
  }

  ghost predicate ClassDocuments(cls: IClass, w: nat) {
    if cls.encodings == [] then
      cls.diagram.Some? && AllShaped(cls.diagram.value) && DiagramHolds(cls.diagram.value, w)
    else
      exists j :: 0 <= j < |cls.encodings| && DiagramOf(cls, j).Some? &&
                  EncodingDocuments(DiagramOf(cls, j).value, cls.encodings[j].bitdiffs, w)
  }

  ghost predicate PageDocuments(page: seq<IClass>, w: nat) {
    exists k :: 0 <= k < |page| && ClassDocuments(page[k], w)
  }

  /** Nothing about this encoding was refused: its diagram is unusable or its predicate was read. */
  ghost predicate EncodingRead(boxes: seq<Box>, spec: string) {
    AllShaped(boxes) ==> exists c :: IsConstraintOf(c, boxes) && Readable(c.fields, spec)
  }

  ghost predicate ClassRead(cls: IClass) {
    forall j :: 0 <= j < |cls.encodings| && DiagramOf(cls, j).Some? ==> EncodingRead(DiagramOf(cls, j).value, cls.encodings[j].bitdiffs)
  }

  ghost predicate PageRead(page: seq<IClass>) {
    forall k :: 0 <= k < |page| ==> ClassRead(page[k])
  }

  /** Diagrams tile the word without overlap, and no predicate pins one bit two ways. */
  ghost predicate Sound(boxes: seq<Box>, spec: string) {
    AllShaped(boxes) ==>
      && DisjointBoxes(boxes)
      && forall c :: IsConstraintOf(c, boxes) && Readable(c.fields, spec) ==> Consistent(c.fields, ReadSpec(spec).value)
  }

  ghost predicate SoundClass(cls: IClass) {
    && (cls.diagram.Some? ==> Sound(cls.diagram.value, ""))
    && forall j :: 0 <= j < |cls.encodings| && DiagramOf(cls, j).Some? ==>
         Sound(DiagramOf(cls, j).value, cls.encodings[j].bitdiffs)
  }

  ghost predicate SoundPage(page: seq<IClass>) {
    forall k :: 0 <= k < |page| ==> SoundClass(page[k])
  }

  // ---- what the compiled form of a page accepts ----

  /** The meaning of one encoding for any diagram and any readable predicate: the last equality on a bit wins. */
  ghost predicate EncodingAccepts(boxes: seq<Box>, spec: string, w: nat) {
    AllShaped(boxes) && exists c :: IsConstraintOf(c, boxes) && Readable(c.fields, spec) && LastWins(c, w, ReadSpec(spec).value)
  }

  ghost predicate ClassAccepts(cls: IClass, w: nat) {
    if cls.encodings == [] then
      cls.diagram.Some? && AllShaped(cls.diagram.value) && DiagramAccepts(cls.diagram.value, w)
    else
      exists j :: 0 <= j < |cls.encodings| && DiagramOf(cls, j).Some? &&
                  EncodingAccepts(DiagramOf(cls, j).value, cls.encodings[j].bitdiffs, w)
  }

  ghost predicate PageAccepts(page: seq<IClass>, w: nat) {
    exists k :: 0 <= k < |page| && ClassAccepts(page[k], w)
  }

  /**
   Which diagram an encoding refines: its own if it has one, whatever the class says, else the one of its
   class; with neither it contributes nothing and nothing about it counts as unread. A class without
   encodings stands for its diagram alone.
   */
  lemma DiagramChoice(classDiagram: Option<seq<Box>>, boxes: seq<Box>, spec: string, w: nat)
    ensures var own := IClass(classDiagram, [Encoding(Some(boxes), spec)]);
            && (ClassAccepts(own, w) <==> EncodingAccepts(boxes, spec, w))
            && (ClassDocuments(own, w) <==> EncodingDocuments(boxes, spec, w))
            && (ClassRead(own) <==> EncodingRead(boxes, spec))
    ensures var inherited := IClass(Some(boxes), [Encoding(None, spec)]);
            && (ClassAccepts(inherited, w) <==> EncodingAccepts(boxes, spec, w))
            && (ClassDocuments(inherited, w) <==> EncodingDocuments(boxes, spec, w))
            && (ClassRead(inherited) <==> EncodingRead(boxes, spec))
    ensures var neither := IClass(None, [Encoding(None, spec)]);
            !ClassAccepts(neither, w) && !ClassDocuments(neither, w) && ClassRead(neither)
    ensures var bare := IClass(Some(boxes), []);
            && (ClassAccepts(bare, w) <==> AllShaped(boxes) && DiagramAccepts(boxes, w))
            && (ClassDocuments(bare, w) <==> AllShaped(boxes) && DiagramHolds(boxes, w))
            && ClassRead(bare) && !ClassAccepts(IClass(None, []), w) && !ClassDocuments(IClass(None, []), w)
  {
    hide DiagramAccepts, DiagramHolds, EncodingAccepts, EncodingDocuments, EncodingRead;
    var own, inherited := IClass(classDiagram, [Encoding(Some(boxes), spec)]), IClass(Some(boxes), [Encoding(None, spec)]);
    assert DiagramOf(own, 0) == Some(boxes) && DiagramOf(inherited, 0) == Some(boxes);
    assert own.encodings[0].bitdiffs == spec && inherited.encodings[0].bitdiffs == spec;
  }

  /** The encodings of a class are alternatives: each adds its words, and all of them have to be read. */
  lemma EncodingsAlternate(d: Option<seq<Box>>, us: seq<Encoding>, vs: seq<Encoding>, w: nat)
    requires us != [] && vs != []
    ensures ClassAccepts(IClass(d, us + vs), w) <==> ClassAccepts(IClass(d, us), w) || ClassAccepts(IClass(d, vs), w)
    ensures ClassDocuments(IClass(d, us + vs), w) <==> ClassDocuments(IClass(d, us), w) || ClassDocuments(IClass(d, vs), w)
    ensures ClassRead(IClass(d, us + vs)) <==> ClassRead(IClass(d, us)) && ClassRead(IClass(d, vs))
  {
    hide EncodingAccepts, EncodingDocuments, EncodingRead;
    var all, left, right := IClass(d, us + vs), IClass(d, us), IClass(d, vs);
    forall j | 0 <= j < |us|
      ensures DiagramOf(all, j) == DiagramOf(left, j) && all.encodings[j] == us[j]
    {
    }
    forall j | 0 <= j < |vs|
      ensures DiagramOf(all, |us| + j) == DiagramOf(right, j) && all.encodings[|us| + j] == vs[j]
    {
    }
    forall j | |us| <= j < |us| + |vs|
      ensures DiagramOf(all, j) == DiagramOf(right, j - |us|) && all.encodings[j] == vs[j - |us|]
    {
    }
  }

  /** On a sound encoding that is what the diagram and the text say. */
  lemma EncodingSound(boxes: seq<Box>, spec: string, w: nat)
    requires Sound(boxes, spec)
    ensures EncodingAccepts(boxes, spec, w) <==> EncodingDocuments(boxes, spec, w)
  {
    if AllShaped(boxes) {
      hide AllShaped, DisjointBoxes, DiagramHolds, IsConstraintOf, Readable, LastWins, SpecHolds, Consistent;
      forall c | IsConstraintOf(c, boxes) && Readable(c.fields, spec)
        ensures LastWins(c, w, ReadSpec(spec).value) <==> DiagramHolds(boxes, w) && SpecHolds(c.fields, w, ReadSpec(spec).value)
      {
        DiagramWellFormed(boxes, c);
        ReadableOf(c.fields, spec);
        ConsistentMeaning(c, ReadSpec(spec).value, w);
        DiagramMeaning(boxes, c, w);
      }
    }
  }

  lemma ReadableOf(fields: map<string, Field>, spec: string)
    requires Readable(fields, spec)
    ensures ReadSpec(spec).Some? && ReadableTerms(fields, ReadSpec(spec).value)
  {
  }

  lemma ClassSound(cls: IClass, w: nat)
    requires SoundClass(cls)
    ensures ClassAccepts(cls, w) <==> ClassDocuments(cls, w)
  {
    hide EncodingAccepts, EncodingDocuments, DiagramHolds, DiagramAccepts;
    if cls.encodings == [] {
      if cls.diagram.Some? && AllShaped(cls.diagram.value) { DiagramSound(cls.diagram.value, w); }
    } else {
      forall j | 0 <= j < |cls.encodings| && DiagramOf(cls, j).Some?
        ensures EncodingAccepts(DiagramOf(cls, j).value, cls.encodings[j].bitdiffs, w) <==>
                EncodingDocuments(DiagramOf(cls, j).value, cls.encodings[j].bitdiffs, w)
      {
        EncodingSound(DiagramOf(cls, j).value, cls.encodings[j].bitdiffs, w);
      }
    }
  }

  lemma DiagramSound(boxes: seq<Box>, w: nat)
    requires AllShaped(boxes) && DisjointBoxes(boxes)
    ensures DiagramAccepts(boxes, w) <==> DiagramHolds(boxes, w)
  {
    if DiagramAccepts(boxes, w) {
      forall k, i: nat | 0 <= k < |boxes| && InBox(boxes[k], i)
        ensures DigitHolds(DigitOf(boxes[k], i), Bit(w, i))
      {
        ColumnsFill(boxes[k].cells, boxes[k].width);
        OnlyBox(boxes, k, i);
      }
    }
    if DiagramHolds(boxes, w) {
      forall i: nat | PinnedByBox(boxes, i)
        ensures Bit(w, i) <==> OneByBox(boxes, i)
      {
        var k :| 0 <= k < |boxes| && InBox(boxes[k], i) && IsConstant(DigitOf(boxes[k], i));
        OnlyBox(boxes, k, i);
        assert DigitHolds(DigitOf(boxes[k], i), Bit(w, i));
      }
    }
  }

  /** Without overlapping boxes and clashing equalities a page accepts exactly what it documents. */
  lemma PageSound(page: seq<IClass>, w: nat)
    requires SoundPage(page)
    ensures PageAccepts(page, w) <==> PageDocuments(page, w)
  {
    hide ClassAccepts, ClassDocuments, SoundClass;
    forall k | 0 <= k < |page|
      ensures ClassAccepts(page[k], w) <==> ClassDocuments(page[k], w)
    {
      ClassSound(page[k], w);
    }
  }

  // ---- variants ----

  predicate AnyVariant(w: nat, vs: seq<Variant>) {
    exists k :: 0 <= k < |vs| && WordMatches(w, vs[k])
  }

  lemma AnyVariantAppend(w: nat, us: seq<Variant>, vs: seq<Variant>)
    ensures AnyVariant(w, us + vs) <==> AnyVariant(w, us) || AnyVariant(w, vs)
  {
    var all := us + vs;
    if AnyVariant(w, us) {
      var k :| 0 <= k < |us| && WordMatches(w, us[k]);
      assert WordMatches(w, all[k]);
    }
    if AnyVariant(w, vs) {
      var k :| 0 <= k < |vs| && WordMatches(w, vs[k]);
      assert WordMatches(w, all[|us| + k]);
    }
  }

  /** One encoding over one diagram: at most one variant, matching exactly the accepted words. */
  method EncodingVariant(boxes: seq<Box>, spec: string, why: seq<Reason>) returns (vs: seq<Variant>, why': seq<Reason>)
    ensures forall w: nat :: AnyVariant(w, vs) <==> EncodingAccepts(boxes, spec, w)
    ensures why <= why' && (why == why' <==> EncodingRead(boxes, spec))
  {
    var base := DiagramConstraints(boxes);
    if base.None? {
      vs, why' := [], why;
      return;
    }
    DiagramUsable(boxes, base.value);
    ReadIsReadable(boxes, spec, base.value);
    hide IsConstraintOf, Folded, Usable, Readable, EncodingRead, EncodingAccepts, AnyVariant, ExplainsSpec;
    var v;
    v, why' := ApplyBitdiffs(base.value, spec, why);
    vs := if v.Some? then [v.value] else [];
    forall w: nat
      ensures AnyVariant(w, vs) <==> EncodingAccepts(boxes, spec, w)
    {
      EncodingExact(boxes, spec, base.value, v, w);
    }
  }

  lemma ReadIsReadable(boxes: seq<Box>, spec: string, base: Constraint)
    requires AllShaped(boxes) && IsConstraintOf(base, boxes)
    ensures EncodingRead(boxes, spec) <==> Readable(base.fields, spec)
  {
    forall c | IsConstraintOf(c, boxes)
      ensures c == base
    {
      ConstraintUnique(c, base, boxes);
    }
    hide IsConstraintOf, Readable, AllShaped;
  }

  lemma EncodingExact(boxes: seq<Box>, spec: string, base: Constraint, v: Option<Variant>, w: nat)
    requires AllShaped(boxes) && IsConstraintOf(base, boxes) && Usable(base)
    requires v.Some? <==> Readable(base.fields, spec)
    requires v.Some? ==> Folded(base, ReadSpec(spec).value, v.value)
    ensures AnyVariant(w, if v.Some? then [v.value] else []) <==> EncodingAccepts(boxes, spec, w)
  {
    forall c | IsConstraintOf(c, boxes)
      ensures c == base
    {
      ConstraintUnique(c, base, boxes);
    }
    if v.Some? {
      hide IsConstraintOf, Folded, LastWins, WordMatches, Usable;
      assert AnyVariant(w, [v.value]) <==> WordMatches(w, v.value) by {
        assert [v.value][0] == v.value;
      }
      CompiledMeaning(base, ReadSpec(spec).value, v.value, w);
    }
  }

  /** The diagram alone, for a class without encodings. */
  lemma BareClassExact(boxes: seq<Box>, c: Constraint, w: nat)
    requires AllShaped(boxes) && IsConstraintOf(c, boxes)
    ensures AnyVariant(w, [Variant(c.mask, c.value, [])]) <==> DiagramAccepts(boxes, w)
  {
    hide DiagramAccepts, IsConstraintOf;
    var v := Variant(c.mask, c.value, []);
    assert [v][0] == v;
    MaskAccepts(boxes, c, w);
  }

  method ClassVariants(cls: IClass, why: seq<Reason>) returns (vs: seq<Variant>, why': seq<Reason>)
    ensures forall w: nat :: AnyVariant(w, vs) <==> ClassAccepts(cls, w)
    ensures why <= why' && (why == why' <==> ClassRead(cls))
  {
    hide EncodingAccepts, EncodingRead, DiagramAccepts, WordMatches, AllShaped;
    vs, why' := [], why;
    if cls.encodings == [] {
      if cls.diagram.Some? {
        var c := DiagramConstraints(cls.diagram.value);
        if c.Some? {
          vs := [Variant(c.value.mask, c.value.value, [])];
          forall w: nat { BareClassExact(cls.diagram.value, c.value, w); }
        }
      }
      return;
    }
    for j := 0 to |cls.encodings|
      invariant why <= why'
      invariant why == why' <==> forall i :: 0 <= i < j && DiagramOf(cls, i).Some? ==> EncodingRead(DiagramOf(cls, i).value, cls.encodings[i].bitdiffs)
      invariant forall w: nat :: AnyVariant(w, vs) <==>
                  exists i :: 0 <= i < j && DiagramOf(cls, i).Some? && EncodingAccepts(DiagramOf(cls, i).value, cls.encodings[i].bitdiffs, w)
    {
      var diagram := DiagramOf(cls, j);
      if diagram.Some? {
        var more;
        more, why' := EncodingVariant(diagram.value, cls.encodings[j].bitdiffs, why');
        forall w: nat { AnyVariantAppend(w, vs, more); }
        vs := vs + more;
      }
    }
  }

  /** `encoding_variants`: the usable variants of a page match exactly the words it accepts. */
  method EncodingVariants(page: seq<IClass>, why: seq<Reason>) returns (vs: seq<Variant>, why': seq<Reason>)
    ensures forall w: nat :: AnyVariant(w, vs) <==> PageAccepts(page, w)
    ensures why <= why' && (why == why' <==> PageRead(page))
  {
    vs, why' := [], why;
    for k := 0 to |page|
      invariant why <= why' && (why == why' <==> forall i :: 0 <= i < k ==> ClassRead(page[i]))
      invariant forall w: nat :: AnyVariant(w, vs) <==> exists i :: 0 <= i < k && ClassAccepts(page[i], w)
    {
      var more;
      more, why' := ClassVariants(page[k], why');
      forall w: nat { AnyVariantAppend(w, vs, more); }
      vs := vs + more;
    }
  }

  // ---- the row loop ----

  /** A candidate file that does not parse is `None`; `alias` is the cross-mnemonic verdict. */
  datatype Row = Row(candidates: seq<Option<seq<IClass>>>, word: nat, alias: bool)

  /** Some candidate page documents the word. */
  ghost predicate RowDocumented(row: Row) {
    exists k :: 0 <= k < |row.candidates| && row.candidates[k].Some? && PageDocuments(row.candidates[k].value, row.word)
  }

  /** On sound pages a row is accepted if and only if its word is documented. */
  lemma RowSound(row: Row)
    requires SoundRow(row)
    ensures RowAccepted(row) <==> RowDocumented(row)
  {
    hide PageAccepts, PageDocuments, SoundPage;
    forall k | 0 <= k < |row.candidates| && row.candidates[k].Some?
      ensures PageAccepts(row.candidates[k].value, row.word) <==> PageDocuments(row.candidates[k].value, row.word)
    {
      PageSound(row.candidates[k].value, row.word);
    }
  }

  ghost predicate SoundRow(row: Row) {
    forall k :: 0 <= k < |row.candidates| && row.candidates[k].Some? ==> SoundPage(row.candidates[k].value)
  }

  ghost predicate RowAccepted(row: Row) {
    exists k :: 0 <= k < |row.candidates| && row.candidates[k].Some? && PageAccepts(row.candidates[k].value, row.word)
  }

  /** Candidate `k` is looked at: it parses, and no earlier one already accepts the word. */
  ghost predicate Visited(row: Row, k: int) {
    && 0 <= k < |row.candidates| && row.candidates[k].Some?
    && forall i :: 0 <= i < k && row.candidates[i].Some? ==> !PageAccepts(row.candidates[i].value, row.word)
  }

  /** Every page the verdict rests on was read in full. */
  ghost predicate RowRead(row: Row) {
    forall k :: Visited(row, k) ==> PageRead(row.candidates[k].value)
  }

  method MatchRow(row: Row) returns (matched: bool, unread: nat)
    ensures matched <==> RowAccepted(row)
    ensures unread == 0 <==> RowRead(row)
  {
    hide PageAccepts, PageRead;
    var why: seq<Reason> := [];
    for k := 0 to |row.candidates|
      invariant why == [] <==> forall i :: 0 <= i < k && Visited(row, i) ==> PageRead(row.candidates[i].value)
      invariant forall i :: 0 <= i < k && row.candidates[i].Some? ==> !PageAccepts(row.candidates[i].value, row.word)
    {
      if row.candidates[k].Some? {
        assert Visited(row, k);
        var vs;
        vs, why := EncodingVariants(row.candidates[k].value, why);
        if AnyVariant(row.word, vs) {
          assert forall i :: Visited(row, i) ==> i <= k;
          return true, |why|;
        }
      }
    }
    return false, |why|;
  }

  /** The row's word is accepted or vouched for by the alias table, on pages read in full. */
  ghost predicate Passes(row: Row) {
    row.candidates != [] && (RowAccepted(row) || row.alias) && RowRead(row)
  }

  /** The row's word is accepted or vouched for. */
  ghost predicate Matched(row: Row) {
    row.candidates != [] && (RowAccepted(row) || row.alias)
  }

  ghost function MatchedCount(rows: seq<Row>): nat {
    if rows == [] then 0 else MatchedCount(rows[..|rows| - 1]) + if Matched(rows[|rows| - 1]) then 1 else 0
  }

  /** `main`: the exit status is 0 exactly when every golden row passes; `validated` counts the matched ones. */
  method CheckGoldens(rows: seq<Row>) returns (exit: int, validated: nat)
    ensures exit == 0 || exit == 1
    ensures exit == 0 <==> forall k :: 0 <= k < |rows| ==> Passes(rows[k])
    ensures validated == MatchedCount(rows) && (exit == 0 ==> validated == |rows|)
  {
    hide RowAccepted, RowRead;
    validated := 0;
    var problems, unreadTotal := 0, 0;
    for k := 0 to |rows|
      invariant problems >= 0 && unreadTotal >= 0 && validated + problems == k && validated == MatchedCount(rows[..k])
      invariant unreadTotal == 0 && problems == 0 <==> forall i :: 0 <= i < k ==> Passes(rows[i])
    {
      assert rows[..k + 1][..k] == rows[..k];
      if rows[k].candidates == [] {
        problems := problems + 1;
        continue;
      }
      var matched, unread := MatchRow(rows[k]);
      unreadTotal := unreadTotal + unread;
      if matched || rows[k].alias {
        validated := validated + 1;
      } else {
        problems := problems + 1;
      }
    }
    assert rows[..|rows|] == rows;
    exit := if unreadTotal != 0 || problems != 0 then 1 else 0;
  }
}
