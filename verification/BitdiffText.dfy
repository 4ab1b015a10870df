/**
 The concrete syntax of an encoding's `bitdiffs` attribute, as scripts/aarch64_doccheck_2026_09.py
 reads it: a depth-tracking splitter on `&&`, negation stripping, and conjuncts of the shapes
 `f == lit`, `f != lit` and `f IN {..}`.
 */
module BitdiffText {
  import opened Options

  datatype Op = Eq | Ne | In

  /** One conjunct; `alts` are the literal's alternatives over the characters `01xX`. */
  datatype Atom = Atom(field: string, op: Op, alts: seq<string>)

  datatype Term = Positive(atom: Atom) | Negated(atoms: seq<Atom>)

  // ---- characters and trimming ----

  predicate IsSpace(c: char) {
    c == ' ' || '\t' <= c <= '\r' || 28 as char <= c <= 31 as char
  }

  predicate IsIdentStart(c: char) {
    'a' <= c <= 'z' || 'A' <= c <= 'Z' || c == '_'
  }

  predicate IsIdentChar(c: char) {
    IsIdentStart(c) || '0' <= c <= '9'
  }

  predicate IsDigitChar(c: char) {
    c == '0' || c == '1' || c == 'x' || c == 'X'
  }

  function StripLeft(s: string): string {
    if s != "" && IsSpace(s[0]) then StripLeft(s[1..]) else s
  }

  function StripRight(s: string): string {
    if s != "" && IsSpace(s[|s| - 1]) then StripRight(s[..|s| - 1]) else s
  }

  function Strip(s: string): string {
    StripRight(StripLeft(s))
  }

  function RemoveSpaces(s: string): string {
    if s == "" then "" else (if s[0] == ' ' then "" else [s[0]]) + RemoveSpaces(s[1..])
  }

  // ---- splitting on `&&` at depth zero ----

  function Delta(c: char): int {
    if c in "([{" then 1 else if c in ")]}" then -1 else 0
  }

  /** `None` when an `||` is met at depth zero; otherwise the pieces, the first one continuing `cur`. */
  function SplitRec(s: string, depth: int, cur: string): Option<seq<string>>
    decreases |s|
  {
    if s == "" then Some([cur])
    else
      var d := depth + Delta(s[0]);
      if d == 0 && "&&" <= s then
        Prepend([cur], SplitRec(s[2..], 0, ""))
      else if d == 0 && "||" <= s then None
      else SplitRec(s[1..], d, cur + [s[0]])
  }

  /** The non-blank pieces, trimmed. */
  function Trimmed(parts: seq<string>): seq<string> {
    if parts == [] then []
    else
      var t := Strip(parts[0]);
      (if t == "" then [] else [t]) + Trimmed(parts[1..])
  }

  function SplitTop(s: string): seq<string> {
    var parts := SplitRec(s, 0, "");
    if parts.None? then [] else Trimmed(parts.value)
  }

  function Prepend(pieces: seq<string>, rest: Option<seq<string>>): Option<seq<string>> {
    if rest.None? then None else Some(pieces + rest.value)
  }

  lemma PrependTwice(pieces: seq<string>, cur: string, rest: Option<seq<string>>)
    ensures Prepend(pieces, Prepend([cur], rest)) == Prepend(pieces + [cur], rest)
  {
    if rest.Some? {
      assert pieces + ([cur] + rest.value) == pieces + [cur] + rest.value;
    }
  }

  lemma PrependNothing(rest: Option<seq<string>>)
    ensures Prepend([], rest) == rest
  {
    if rest.Some? {
      assert [] + rest.value == rest.value;
    }
  }

  method SplitTopLoop(spec: string) returns (parts: seq<string>)
    ensures parts == SplitTop(spec)
  {
    var pieces: seq<string> := [];
    var depth := 0;
    var cur := "";
    var i := 0;
    assert spec[0..] == spec;
    PrependNothing(SplitRec(spec, 0, ""));
    while i < |spec|
      invariant 0 <= i <= |spec|
      invariant var rest := SplitRec(spec[i..], depth, cur);
                SplitRec(spec, 0, "") == Prepend(pieces, rest)
    {
      var ch := spec[i];
      var tail := spec[i..];
      assert tail[1..] == spec[i + 1..];
      if ch in "([{" {
        depth := depth + 1;
      } else if ch in ")]}" {
        depth := depth - 1;
      }
      if depth == 0 && "&&" <= tail {
        assert tail[2..] == spec[i + 2..];
        PrependTwice(pieces, cur, SplitRec(spec[i + 2..], 0, ""));
        pieces := pieces + [cur];
        cur := "";
        i := i + 2;
        continue;
      }
      if depth == 0 && "||" <= tail {
        return [];
      }
      cur := cur + [ch];
      i := i + 1;
    }
    parts := TrimLoop(pieces + [cur]);
  }

  method TrimLoop(pieces: seq<string>) returns (parts: seq<string>)
    ensures parts == Trimmed(pieces)
  {
    parts := [];
    for k := 0 to |pieces|
      invariant Trimmed(pieces) == parts + Trimmed(pieces[k..])
    {
      assert pieces[k..][1..] == pieces[k + 1..];
      var t := Strip(pieces[k]);
      if t != "" {
        parts := parts + [t];
      }
    }
  }

  function Join(parts: seq<string>, sep: string): string {
    if parts == [] then ""
    else if |parts| == 1 then parts[0]
    else parts[0] + sep + Join(parts[1..], sep)
  }

  /** Splitting loses nothing: the pieces joined by `&&` are the text again. */
  lemma {:induction false} SplitKeepsText(s: string, depth: int, cur: string)
    requires SplitRec(s, depth, cur).Some?
    ensures SplitRec(s, depth, cur).value != []
    ensures Join(SplitRec(s, depth, cur).value, "&&") == cur + s
    decreases |s|
  {
    if s == "" {
      assert cur + s == cur;
    } else {
      var d := depth + Delta(s[0]);
      if d == 0 && "&&" <= s {
        SplitKeepsText(s[2..], 0, "");
        var rest := SplitRec(s[2..], 0, "").value;
        var parts := [cur] + rest;
        assert parts[1..] == rest;
        assert Join(parts, "&&") == cur + "&&" + Join(rest, "&&");
        assert s == "&&" + s[2..];
        assert cur + "&&" + ("" + s[2..]) == cur + s;
      } else {
        SplitKeepsText(s[1..], d, cur + [s[0]]);
        assert cur + [s[0]] + s[1..] == cur + s;
      }
    }
  }

  /** Bracket depth after the first `n` characters. */
  function DepthAfter(s: string, n: nat): int
    requires n <= |s|
  {
    if n == 0 then 0 else DepthAfter(s, n - 1) + Delta(s[n - 1])
  }

  /** An `||` outside every bracket. */
  predicate HasTopOr(s: string) {
    exists k :: 0 <= k && k + 1 < |s| && s[k] == '|' && s[k + 1] == '|' && DepthAfter(s, k) == 0
  }

  /** The splitter gives up exactly on the texts with an `||` outside every bracket. */
  lemma SplitRefusesOr(s: string)
    ensures SplitRec(s, 0, "").None? <==> HasTopOr(s)
    ensures HasTopOr(s) ==> SplitTop(s) == []
  {
    SplitRefusesOrFrom(s, 0, 0, "");
    assert s[0..] == s;
  }

  ghost predicate TopOrFrom(s: string, n: nat)
  {
    exists k :: n <= k && k + 1 < |s| && s[k] == '|' && s[k + 1] == '|' && DepthAfter(s, k) == 0
  }

  lemma {:induction false} SplitRefusesOrFrom(s: string, n: nat, depth: int, cur: string)
    requires n <= |s| && depth == DepthAfter(s, n)
    ensures SplitRec(s[n..], depth, cur).None? <==> TopOrFrom(s, n)
    decreases |s| - n
  {
    var t := s[n..];
    if t == "" {
    } else {
      var d := depth + Delta(t[0]);
      assert d == DepthAfter(s, n + 1);
      assert t[1..] == s[n + 1..];
      if d == 0 && "&&" <= t {
        assert t[2..] == s[n + 2..];
        assert t[0] == '&' && t[1] == '&' && t[1] == s[n + 1];
        assert DepthAfter(s, n + 2) == 0;
        SplitRefusesOrFrom(s, n + 2, 0, "");
        assert TopOrFrom(s, n) <==> TopOrFrom(s, n + 2);
      } else if d == 0 && "||" <= t {
        assert t[0] == '|' && t[1] == '|' && t[1] == s[n + 1];
        assert DepthAfter(s, n) == 0;
      } else {
        SplitRefusesOrFrom(s, n + 1, d, cur + [t[0]]);
        assert TopOrFrom(s, n) <==> TopOrFrom(s, n + 1);
      }
    }
  }

  // ---- conjuncts ----

  function IdentLength(s: string): (n: nat)
    ensures n <= |s|
    ensures forall k :: 0 <= k < n ==> IsIdentChar(s[k])
    ensures n < |s| ==> !IsIdentChar(s[n])
  {
    if s != "" && IsIdentChar(s[0]) then 1 + IdentLength(s[1..]) else 0
  }

  /** Comma-separated pieces. */
  function SplitCommas(s: string, cur: string): seq<string>
    decreases |s|
  {
    if s == "" then [cur]
    else if s[0] == ',' then [cur] + SplitCommas(s[1..], "")
    else SplitCommas(s[1..], cur + [s[0]])
  }

  /** The alternatives spelled by `011`, `(0 1 1)` or `{00x, 010}`. */
  function LiteralAlts(lit: string): seq<string> {
    if |lit| >= 2 && lit[0] == '(' && lit[|lit| - 1] == ')' && ParenDigits(lit[1..|lit| - 1]) then
      [RemoveSpaces(Strip(lit[1..|lit| - 1]))]
    else if |lit| >= 2 && lit[0] == '{' && lit[|lit| - 1] == '}' then
      Trimmed(SplitCommas(lit[1..|lit| - 1], ""))
    else
      [RemoveSpaces(lit)]
  }

  predicate ParenDigits(s: string) {
    var t := Strip(s);
    t != "" && forall k :: 0 <= k < |t| ==> IsDigitChar(t[k]) || t[k] == ' '
  }

  /** `f == lit`, `f != lit` or `f IN {..}`; anything else is not a conjunct. */
  function ReadAtom(conj: string): Option<Atom> {
    var s := Strip(conj);
    var n := IdentLength(s);
    if n == 0 || !IsIdentStart(s[0]) then None else ReadOperator(s[..n], s[n..])
  }

  /** The operator and literal that follow the field name. */
  function ReadOperator(field: string, after: string): Option<Atom> {
    var r := StripLeft(after);
    if "==" <= r then Some(Atom(field, Eq, LiteralAlts(Strip(r[2..]))))
    else if "!=" <= r then Some(Atom(field, Ne, LiteralAlts(Strip(r[2..]))))
    else if |r| < |after| && |r| > 2 && r[..2] == "IN" && IsSpace(r[2]) then
      var b := StripLeft(r[2..]);
      if |b| >= 2 && b[0] == '{' && b[|b| - 1] == '}' then Some(Atom(field, In, LiteralAlts(b))) else None
    else None
  }

  /** The inside of `! ( .. )`, or `None` when the term is not a negation. */
  function NegationBody(term: string): Option<string> {
    if term == "" || term[0] != '!' then None
    else
      var r := StripLeft(term[1..]);
      if |r| >= 2 && r[0] == '(' && r[|r| - 1] == ')' then Some(Strip(r[1..|r| - 1])) else None
  }

  function ReadAtoms(conjs: seq<string>): Option<seq<Atom>> {
    if conjs == [] then Some([])
    else
      var a := ReadAtom(conjs[0]);
      var rest := ReadAtoms(conjs[1..]);
      if a.None? || rest.None? then None else Some([a.value] + rest.value)
  }

  function ReadTerm(term: string): Option<Term> {
    var body := NegationBody(term);
    if body.None? then
      var a := ReadAtom(term);
      if a.None? then None else Some(Positive(a.value))
    else
      var conjs := SplitTop(body.value);
      var atoms := ReadAtoms(conjs);
      if conjs == [] || atoms.None? then None else Some(Negated(atoms.value))
  }

  function ReadTerms(texts: seq<string>): Option<seq<Term>> {
    if texts == [] then Some([])
    else
      var t := ReadTerm(texts[0]);
      var rest := ReadTerms(texts[1..]);
      if t.None? || rest.None? then None else Some([t.value] + rest.value)
  }

  /** The whole attribute: blank text is the empty conjunction. */
  function ReadSpec(spec: string): Option<seq<Term>> {
    var s := Strip(spec);
    if s == "" then Some([])
    else
      var texts := SplitTop(s);
      if texts == [] then None else ReadTerms(texts)
  }
}
