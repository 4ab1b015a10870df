/**
 Printing a bitdiffs predicate and reading it back: the splitter, the negation stripping, the
 nested split and the literal reader together undo the printer on every well-formed tree.
 */
module BitdiffPrint {
  import opened Options
  import opened BitdiffText

  predicate ValidIdent(f: string) {
    f != "" && IsIdentStart(f[0]) && forall k :: 0 <= k < |f| ==> IsIdentChar(f[k])
  }

  predicate ValidAlt(a: string) {
    a != "" && forall k :: 0 <= k < |a| ==> IsDigitChar(a[k])
  }

  predicate ValidAtom(a: Atom) {
    ValidIdent(a.field) && a.alts != [] && forall k :: 0 <= k < |a.alts| ==> ValidAlt(a.alts[k])
  }

  predicate ValidTerm(t: Term) {
    match t
    case Positive(a) => ValidAtom(a)
    case Negated(atoms) => atoms != [] && forall k :: 0 <= k < |atoms| ==> ValidAtom(atoms[k])
  }

  predicate ValidSpec(ts: seq<Term>) {
    forall k :: 0 <= k < |ts| ==> ValidTerm(ts[k])
  }

  function PrintLiteral(op: Op, alts: seq<string>): string {
    if op != In && |alts| == 1 then alts[0] else "{" + Join(alts, ", ") + "}"
  }

  function PrintOp(op: Op): string {
    match op
    case Eq => " == "
    case Ne => " != "
    case In => " IN "
  }

  function PrintAtom(a: Atom): string {
    a.field + PrintOp(a.op) + PrintLiteral(a.op, a.alts)
  }

  function PrintAtoms(atoms: seq<Atom>): seq<string> {
    seq(|atoms|, i requires 0 <= i < |atoms| => PrintAtom(atoms[i]))
  }

  function PrintTerm(t: Term): string {
    match t
    case Positive(a) => PrintAtom(a)
    case Negated(atoms) => "!(" + Join(PrintAtoms(atoms), " && ") + ")"
  }

  function PrintTerms(ts: seq<Term>): seq<string> {
    seq(|ts|, i requires 0 <= i < |ts| => PrintTerm(ts[i]))
  }

  function PrintSpec(ts: seq<Term>): string {
    Join(PrintTerms(ts), " && ")
  }

  // ---- trimming ----

  /** No blank at either end, and not empty. */
  predicate Tight(s: string) {
    s != "" && !IsSpace(s[0]) && !IsSpace(s[|s| - 1])
  }

  lemma StripTight(s: string)
    requires Tight(s)
    ensures StripLeft(s) == s && Strip(s) == s
    ensures StripLeft(" " + s) == s && Strip(" " + s) == s
    ensures Strip(s + " ") == s && Strip(" " + s + " ") == s
  {
    assert (" " + s)[1..] == s;
    assert (" " + s + " ")[1..] == s + " ";
    var t := s + " ";
    assert t[..|t| - 1] == s;
  }

  // ---- depth bookkeeping ----

  function Net(s: string): int {
    if s == "" then 0 else Delta(s[0]) + Net(s[1..])
  }

  /** No `&` or `|` outside every bracket when the scan starts at `depth`. */
  predicate Solid(s: string, depth: int) {
    s == "" ||
    var d := depth + Delta(s[0]);
    (d != 0 || (s[0] != '&' && s[0] != '|')) && Solid(s[1..], d)
  }

  /** The scan stays inside some bracket throughout. */
  predicate Deep(s: string, depth: int) {
    s == "" || (depth + Delta(s[0]) > 0 && Deep(s[1..], depth + Delta(s[0])))
  }

  lemma {:induction false} DeepIsSolid(s: string, depth: int)
    requires Deep(s, depth)
    ensures Solid(s, depth)
    decreases |s|
  {
    if s != "" { DeepIsSolid(s[1..], depth + Delta(s[0])); }
  }

  lemma {:induction false} NetConcat(a: string, b: string)
    ensures Net(a + b) == Net(a) + Net(b)
  {
    if a == "" {
      assert a + b == b;
    } else {
      assert (a + b)[1..] == a[1..] + b;
      NetConcat(a[1..], b);
    }
  }

  lemma {:induction false} SolidConcat(a: string, b: string, depth: int)
    requires Solid(a, depth) && Solid(b, depth + Net(a))
    ensures Solid(a + b, depth)
    decreases |a|
  {
    if a == "" {
      assert a + b == b;
    } else {
      assert (a + b)[1..] == a[1..] + b;
      SolidConcat(a[1..], b, depth + Delta(a[0]));
    }
  }

  lemma {:induction false} DeepConcat(a: string, b: string, depth: int)
    requires Deep(a, depth) && Deep(b, depth + Net(a))
    ensures Deep(a + b, depth)
    decreases |a|
  {
    if a == "" {
      assert a + b == b;
    } else {
      assert (a + b)[1..] == a[1..] + b;
      DeepConcat(a[1..], b, depth + Delta(a[0]));
    }
  }

  predicate PlainChar(c: char) {
    Delta(c) == 0 && c != '&' && c != '|'
  }

  lemma {:induction false} PlainText(s: string, depth: int)
    requires forall k :: 0 <= k < |s| ==> PlainChar(s[k])
    ensures Net(s) == 0 && Solid(s, depth) && (depth > 0 ==> Deep(s, depth))
    decreases |s|
  {
    if s != "" { PlainText(s[1..], depth); }
  }

  /** A conjunct sits at any depth without exposing a separator. */
  lemma AtomText(a: Atom, depth: int)
    requires ValidAtom(a) && depth >= 0
    ensures Net(PrintAtom(a)) == 0 && Solid(PrintAtom(a), depth) && Tight(PrintAtom(a))
    ensures depth > 0 ==> Deep(PrintAtom(a), depth)
  {
    var lit := PrintLiteral(a.op, a.alts);
    LiteralText(a.op, a.alts, depth);
    var head := a.field + PrintOp(a.op);
    forall k | 0 <= k < |head|
      ensures PlainChar(head[k])
    {
      assert k < |a.field| ==> IsIdentChar(head[k]);
    }
    PlainText(head, depth);
    NetConcat(head, lit);
    SolidConcat(head, lit, depth);
    if depth > 0 { DeepConcat(head, lit, depth); }
    assert PrintAtom(a)[0] == a.field[0];
    assert PrintAtom(a)[|PrintAtom(a)| - 1] == lit[|lit| - 1];
  }

  lemma LiteralText(op: Op, alts: seq<string>, depth: int)
    requires alts != [] && depth >= 0
    requires forall k :: 0 <= k < |alts| ==> ValidAlt(alts[k])
    ensures var lit := PrintLiteral(op, alts);
            Net(lit) == 0 && Solid(lit, depth) && (depth > 0 ==> Deep(lit, depth)) && Tight(lit)
  {
    if op != In && |alts| == 1 {
      assert ValidAlt(alts[0]);
      PlainText(alts[0], depth);
    } else {
      var body := Join(alts, ", ");
      CommaListIsPlain(alts);
      PlainText(body, depth + 1);
      Braced(body, depth);
    }
  }

  lemma Braced(body: string, depth: int)
    requires depth >= 0 && Net(body) == 0 && Deep(body, depth + 1)
    ensures var lit := "{" + body + "}";
            Net(lit) == 0 && Solid(lit, depth) && (depth > 0 ==> Deep(lit, depth)) && Tight(lit)
  {
    var open := "{" + body;
    assert open[1..] == body;
    DeepIsSolid(body, depth + 1);
    NetConcat(open, "}");
    SolidConcat(open, "}", depth);
    if depth > 0 { DeepConcat(open, "}", depth); }
  }

  lemma {:induction false} CommaListIsPlain(alts: seq<string>)
    requires forall k :: 0 <= k < |alts| ==> ValidAlt(alts[k])
    ensures forall k :: 0 <= k < |Join(alts, ", ")| ==> PlainChar(Join(alts, ", ")[k])
  {
    if |alts| > 1 {
      CommaListIsPlain(alts[1..]);
      assert ValidAlt(alts[0]);
    } else if |alts| == 1 {
      assert ValidAlt(alts[0]);
    }
  }

  lemma NegationText(body: string)
    requires Net(body) == 0 && Deep(body, 1)
    ensures var t := "!(" + body + ")";
            Net(t) == 0 && Solid(t, 0) && Tight(t)
  {
    var open := "!(" + body;
    assert open[1..] == "(" + body;
    assert open[1..][1..] == body;
    DeepIsSolid(body, 1);
    NetConcat(open, ")");
    SolidConcat(open, ")", 0);
  }

  lemma {:induction false} AtomListText(atoms: seq<Atom>)
    requires atoms != [] && forall k :: 0 <= k < |atoms| ==> ValidAtom(atoms[k])
    ensures var body := Join(PrintAtoms(atoms), " && ");
            Net(body) == 0 && Deep(body, 1) && Tight(body)
  {
    hide Net, Deep, Tight, ValidAtom, PrintAtom;
    AtomText(atoms[0], 1);
    var texts := PrintAtoms(atoms);
    if |atoms| > 1 {
      AtomListText(atoms[1..]);
      assert texts[1..] == PrintAtoms(atoms[1..]);
      var head := texts[0] + " && ";
      var rest := Join(texts[1..], " && ");
      TightSum(texts[0], " && ", rest);
      SeparatorText();
      NetConcat(texts[0], " && ");
      DeepConcat(texts[0], " && ", 1);
      NetConcat(head, rest);
      DeepConcat(head, rest, 1);
    }
  }

  lemma TightSum(a: string, b: string, c: string)
    requires Tight(a) && Tight(c)
    ensures Tight(a + b + c)
  {
  }

  lemma SeparatorText()
    ensures Net(" && ") == 0 && Deep(" && ", 1)
  {
    var s := " && ";
    assert s[1..] == "&& " && s[1..][1..] == "& " && s[1..][1..][1..] == " " && s[1..][1..][1..][1..] == "";
  }

  lemma TermText(t: Term)
    requires ValidTerm(t)
    ensures Net(PrintTerm(t)) == 0 && Solid(PrintTerm(t), 0) && Tight(PrintTerm(t))
  {
    match t
    case Positive(a) =>
      AtomText(a, 0);
    case Negated(atoms) =>
      AtomListText(atoms);
      NegationText(Join(PrintAtoms(atoms), " && "));
  }

  // ---- splitting what was joined ----

  lemma {:induction false} SkipSolid(t: string, rest: string, depth: int, cur: string)
    requires Solid(t, depth)
    ensures SplitRec(t + rest, depth, cur) == SplitRec(rest, depth + Net(t), cur + t)
    decreases |t|
  {
    if t == "" {
      assert t + rest == rest && cur + t == cur;
    } else {
      assert (t + rest)[1..] == t[1..] + rest;
      SkipSolid(t[1..], rest, depth + Delta(t[0]), cur + [t[0]]);
      assert cur + [t[0]] + t[1..] == cur + t;
    }
  }

  lemma {:induction false} SplitOfJoin(texts: seq<string>, cur: string)
    requires texts != [] && (cur == "" || cur == " ")
    requires forall k :: 0 <= k < |texts| ==> Net(texts[k]) == 0 && Solid(texts[k], 0) && Tight(texts[k])
    ensures var parts := SplitRec(Join(texts, " && "), 0, cur);
            parts.Some? && Trimmed(parts.value) == texts
    decreases |texts|
  {
    var t := texts[0];
    TrimmedFirst(t, cur);
    hide Strip, SplitRec, Trimmed, Solid, Net, Tight, Prepend;
    PrependSome(cur + t + " ", SplitRec(Join(texts[1..], " && "), 0, " "));
    if |texts| == 1 {
      SplitLast(t, cur);
      TrimmedOne(cur + t, t);
    } else {
      var rest := Join(texts[1..], " && ");
      JoinCons(texts);
      SplitStep(t, rest, cur);
      SplitOfJoin(texts[1..], " ");
      TrimmedCons(cur + t + " ", SplitRec(rest, 0, " ").value, t);
      assert [t] + texts[1..] == texts;
    }
  }

  lemma PrependSome(first: string, rest: Option<seq<string>>)
    ensures rest.Some? ==> Prepend([first], rest) == Some([first] + rest.value)
  {
  }

  lemma JoinCons(texts: seq<string>)
    requires |texts| > 1
    ensures Join(texts, " && ") == texts[0] + (" && " + Join(texts[1..], " && "))
  {
  }

  lemma SplitLast(t: string, cur: string)
    requires Net(t) == 0 && Solid(t, 0)
    ensures SplitRec(t, 0, cur) == Some([cur + t])
  {
    SkipSolid(t, "", 0, cur);
    assert t + "" == t;
  }

  lemma SplitStep(t: string, rest: string, cur: string)
    requires Net(t) == 0 && Solid(t, 0)
    ensures SplitRec(t + (" && " + rest), 0, cur) == Prepend([cur + t + " "], SplitRec(rest, 0, " "))
  {
    SkipSolid(t, " && " + rest, 0, cur);
    SplitSeparator(rest, cur + t);
  }

  lemma TrimmedFirst(t: string, cur: string)
    requires Tight(t) && (cur == "" || cur == " ")
    ensures Strip(cur + t) == t && Strip(cur + t + " ") == t
  {
    StripTight(t);
    assert "" + t == t;
  }

  lemma TrimmedOne(first: string, t: string)
    requires t != "" && Strip(first) == t
    ensures Trimmed([first]) == [t]
  {
    assert [first][1..] == [];
  }

  lemma TrimmedCons(first: string, rest: seq<string>, t: string)
    requires t != "" && Strip(first) == t
    ensures Trimmed([first] + rest) == [t] + Trimmed(rest)
  {
    assert ([first] + rest)[1..] == rest;
  }

  lemma SplitSeparator(rest: string, cur: string)
    ensures SplitRec(" && " + rest, 0, cur) == Prepend([cur + " "], SplitRec(rest, 0, " "))
  {
    var s := " && " + rest;
    assert s[1..] == "&& " + rest;
    assert s[1..][2..] == " " + rest;
    assert "&&" <= s[1..];
    assert (" " + rest)[1..] == rest;
    assert [' '] == " ";
    assert "" + [' '] == " ";
    assert SplitRec(" " + rest, 0, "") == SplitRec(rest, 0, " ");
  }

  lemma SplitTopOfJoin(texts: seq<string>)
    requires texts != []
    requires forall k :: 0 <= k < |texts| ==> Net(texts[k]) == 0 && Solid(texts[k], 0) && Tight(texts[k])
    ensures SplitTop(Join(texts, " && ")) == texts
  {
    SplitOfJoin(texts, "");
  }

  // ---- reading conjuncts back ----

  lemma {:induction false} IdentPrefix(f: string, rest: string)
    requires forall k :: 0 <= k < |f| ==> IsIdentChar(f[k])
    requires rest != "" && !IsIdentChar(rest[0])
    ensures IdentLength(f + rest) == |f|
  {
    if f == "" {
      assert f + rest == rest;
    } else {
      assert (f + rest)[1..] == f[1..] + rest;
      IdentPrefix(f[1..], rest);
    }
  }

  lemma {:induction false} NoSpaces(s: string)
    requires forall k :: 0 <= k < |s| ==> s[k] != ' '
    ensures RemoveSpaces(s) == s
  {
    if s != "" { NoSpaces(s[1..]); }
  }

  lemma {:induction false} SkipToComma(a: string, rest: string, cur: string)
    requires forall k :: 0 <= k < |a| ==> a[k] != ','
    ensures SplitCommas(a + rest, cur) == SplitCommas(rest, cur + a)
    decreases |a|
  {
    if a == "" {
      assert a + rest == rest && cur + a == cur;
    } else {
      assert (a + rest)[1..] == a[1..] + rest;
      SkipToComma(a[1..], rest, cur + [a[0]]);
      assert cur + [a[0]] + a[1..] == cur + a;
    }
  }

  lemma {:induction false} CommasOfJoin(alts: seq<string>, cur: string)
    requires alts != [] && (cur == "" || cur == " ")
    requires forall k :: 0 <= k < |alts| ==> ValidAlt(alts[k])
    ensures Trimmed(SplitCommas(Join(alts, ", "), cur)) == alts
    decreases |alts|
  {
    var a := alts[0];
    assert ValidAlt(a);
    assert Tight(a);
    TrimmedFirst(a, cur);
    hide Strip, Trimmed, SplitCommas, ValidAlt, Tight;
    if |alts| == 1 {
      CommasLast(a, cur);
      TrimmedOne(cur + a, a);
    } else {
      var rest := Join(alts[1..], ", ");
      assert Join(alts, ", ") == a + (", " + rest);
      CommasStep(a, rest, cur);
      CommasOfJoin(alts[1..], " ");
      TrimmedCons(cur + a, SplitCommas(rest, " "), a);
      assert [a] + alts[1..] == alts;
    }
  }

  lemma CommasLast(a: string, cur: string)
    requires ValidAlt(a)
    ensures SplitCommas(a, cur) == [cur + a]
  {
    SkipToComma(a, "", cur);
    assert a + "" == a;
  }

  lemma CommasStep(a: string, rest: string, cur: string)
    requires ValidAlt(a)
    ensures SplitCommas(a + (", " + rest), cur) == [cur + a] + SplitCommas(rest, " ")
  {
    SkipToComma(a, ", " + rest, cur);
    assert (", " + rest)[1..] == " " + rest;
    assert (" " + rest)[1..] == rest;
    assert "" + [' '] == " ";
  }

  lemma LiteralRoundTrip(op: Op, alts: seq<string>)
    requires alts != [] && forall k :: 0 <= k < |alts| ==> ValidAlt(alts[k])
    ensures LiteralAlts(PrintLiteral(op, alts)) == alts
  {
    var lit := PrintLiteral(op, alts);
    if op != In && |alts| == 1 {
      assert ValidAlt(alts[0]);
      assert IsDigitChar(lit[0]);
      NoSpaces(lit);
    } else {
      var body := Join(alts, ", ");
      assert lit[0] == '{' && lit[|lit| - 1] == '}';
      assert lit[1..|lit| - 1] == body;
      CommasOfJoin(alts, "");
    }
  }

  lemma OperatorRoundTrip(field: string, op: Op, alts: seq<string>)
    requires alts != [] && forall k :: 0 <= k < |alts| ==> ValidAlt(alts[k])
    ensures ReadOperator(field, PrintOp(op) + PrintLiteral(op, alts)) == Some(Atom(field, op, alts))
  {
    var lit := PrintLiteral(op, alts);
    LiteralText(op, alts, 0);
    OperatorRest(op, lit);
    StripTight(lit);
    LiteralRoundTrip(op, alts);
  }

  lemma AtomRoundTrip(a: Atom)
    requires ValidAtom(a)
    ensures ReadAtom(PrintAtom(a)) == Some(a)
    ensures NegationBody(PrintAtom(a)).None?
  {
    var s := PrintAtom(a);
    var after := PrintOp(a.op) + PrintLiteral(a.op, a.alts);
    AtomText(a, 0);
    StripTight(s);
    hide Strip, IdentLength, ReadOperator, PrintLiteral, Net, Solid, Deep;
    assert s == a.field + after;
    IdentPrefix(a.field, after);
    assert s[|a.field|..] == after && s[..|a.field|] == a.field;
    OperatorRoundTrip(a.field, a.op, a.alts);
  }

  /** What follows the field name, once the blank is dropped. */
  lemma OperatorRest(op: Op, lit: string)
    requires Tight(lit)
    ensures var r := StripLeft(PrintOp(op) + lit);
            && |r| == |lit| + 3 && r[2..] == " " + lit && IsSpace(r[2])
            && ("==" <= r <==> op == Eq) && ("!=" <= r <==> op == Ne)
            && (op == In ==> r[..2] == "IN")
  {
    var after := PrintOp(op) + lit;
    var r := after[1..];
    assert r[0] == PrintOp(op)[1] && r[1] == PrintOp(op)[2] && r[2] == ' ';
    assert StripLeft(after) == StripLeft(r) == r;
    assert r[2..] == " " + lit;
    assert "==" <= r <==> r[0] == '=' && r[1] == '=';
    assert "!=" <= r <==> r[0] == '!' && r[1] == '=';
  }

  lemma ReadAtomsCons(conjs: seq<string>, a: Atom, rest: seq<Atom>)
    requires conjs != [] && ReadAtom(conjs[0]) == Some(a) && ReadAtoms(conjs[1..]) == Some(rest)
    ensures ReadAtoms(conjs) == Some([a] + rest)
  {
    hide ReadAtom;
  }

  lemma {:induction false} AtomsRoundTrip(atoms: seq<Atom>)
    requires forall k :: 0 <= k < |atoms| ==> ValidAtom(atoms[k])
    ensures ReadAtoms(PrintAtoms(atoms)) == Some(atoms)
  {
    hide ReadAtom, PrintAtom, ValidAtom;
    if atoms != [] {
      AtomRoundTrip(atoms[0]);
      AtomsRoundTrip(atoms[1..]);
      assert PrintAtoms(atoms)[1..] == PrintAtoms(atoms[1..]);
      ReadAtomsCons(PrintAtoms(atoms), atoms[0], atoms[1..]);
      assert [atoms[0]] + atoms[1..] == atoms;
    }
  }

  lemma NegationRoundTrip(body: string)
    requires Tight(body)
    ensures NegationBody("!(" + body + ")") == Some(body)
  {
    StripTight(body);
    var s := "!(" + body + ")";
    assert s[1..] == "(" + body + ")";
    assert s[1..][1..|s| - 2] == body;
  }

  lemma TermRoundTrip(t: Term)
    requires ValidTerm(t)
    ensures ReadTerm(PrintTerm(t)) == Some(t)
  {
    hide ReadAtom, PrintAtom, ValidAtom, SplitTop, Net, Solid, Deep;
    match t
    case Positive(a) =>
      AtomRoundTrip(a);
    case Negated(atoms) =>
      var body := Join(PrintAtoms(atoms), " && ");
      AtomListText(atoms);
      NegationRoundTrip(body);
      forall k | 0 <= k < |atoms|
        ensures var x := PrintAtoms(atoms)[k]; Net(x) == 0 && Solid(x, 0) && Tight(x)
      {
        AtomText(atoms[k], 0);
      }
      SplitTopOfJoin(PrintAtoms(atoms));
      AtomsRoundTrip(atoms);
  }

  lemma ReadTermsCons(texts: seq<string>, t: Term, rest: seq<Term>)
    requires texts != [] && ReadTerm(texts[0]) == Some(t) && ReadTerms(texts[1..]) == Some(rest)
    ensures ReadTerms(texts) == Some([t] + rest)
  {
    hide ReadTerm;
  }

  lemma {:induction false} TermsRoundTrip(ts: seq<Term>)
    requires ValidSpec(ts)
    ensures ReadTerms(PrintTerms(ts)) == Some(ts)
  {
    hide ReadTerm, PrintTerm, ValidTerm;
    if ts != [] {
      TermRoundTrip(ts[0]);
      TermsRoundTrip(ts[1..]);
      assert PrintTerms(ts)[1..] == PrintTerms(ts[1..]);
      ReadTermsCons(PrintTerms(ts), ts[0], ts[1..]);
      assert [ts[0]] + ts[1..] == ts;
    }
  }

  /** Reading undoes printing on every well-formed predicate. */
  lemma SpecRoundTrip(ts: seq<Term>)
    requires ValidSpec(ts)
    ensures ReadSpec(PrintSpec(ts)) == Some(ts)
  {
    if ts != [] {
      var texts := PrintTerms(ts);
      forall k | 0 <= k < |texts|
        ensures Net(texts[k]) == 0 && Solid(texts[k], 0) && Tight(texts[k])
      {
        TermText(ts[k]);
      }
      SplitTopOfJoin(texts);
      TightJoin(texts);
      StripTight(PrintSpec(ts));
      TermsRoundTrip(ts);
    }
  }

  lemma {:induction false} TightJoin(texts: seq<string>)
    requires texts != [] && forall k :: 0 <= k < |texts| ==> Tight(texts[k])
    ensures Tight(Join(texts, " && "))
  {
    assert Tight(texts[0]);
    if |texts| > 1 { TightJoin(texts[1..]); }
  }

  /** A predicate with an `||` at the top level is never read. */
  lemma TopOrIsRefused(spec: string)
    requires HasTopOr(Strip(spec))
    ensures ReadSpec(spec).None?
  {
    SplitRefusesOr(Strip(spec));
  }

  /** Nor is a negation with an `||` directly inside it. */
  lemma NegatedOrIsRefused(term: string)
    requires NegationBody(term).Some? && HasTopOr(NegationBody(term).value)
    ensures ReadTerm(term).None?
  {
    SplitRefusesOr(NegationBody(term).value);
  }
}
