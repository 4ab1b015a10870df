/**
 What the reader of `bitdiffs` texts takes, in terms of the text alone: every spacing and every
 spelling of a literal, and nothing besides (scripts/aarch64_doccheck_2026_09.py).
 */
module BitdiffReads {
  import opened Options
  import opened BitdiffText
  import opened BitdiffPrint

  predicate Blank(s: string) {
    forall k :: 0 <= k < |s| ==> IsSpace(s[k])
  }

  /** The character classes of blanks and digits, spelled out. */
  lemma CharacterClasses(c: char)
    ensures IsSpace(c) <==> c in " \t\n\r" || c as int in {11, 12, 28, 29, 30, 31}
    ensures IsDigitChar(c) <==> c in "01xX"
  {
  }

  // ---- trimming ----

  lemma {:induction false} StripLeftPadded(pre: string, t: string)
    requires Blank(pre) && (t == "" || !IsSpace(t[0]))
    ensures StripLeft(pre + t) == t
  {
    if pre == "" {
      assert pre + t == t;
    } else {
      assert (pre + t)[1..] == pre[1..] + t;
      StripLeftPadded(pre[1..], t);
    }
  }

  lemma {:induction false} StripRightPadded(t: string, post: string)
    requires Blank(post) && (t == "" || !IsSpace(t[|t| - 1]))
    ensures StripRight(t + post) == t
  {
    if post == "" {
      assert t + post == t;
    } else {
      var n := |post| - 1;
      var s := t + post;
      assert s[..|s| - 1] == t + post[..n];
      StripRightPadded(t, post[..n]);
    }
  }

  /** Exactly the blanks at both ends go. */
  lemma StripPadded(pre: string, t: string, post: string)
    requires Blank(pre) && Blank(post) && (t == "" || Tight(t))
    ensures Strip(pre + t + post) == t
  {
    if t == "" {
      assert pre + t + post == (pre + post) + "";
      StripLeftPadded(pre + post, "");
    } else {
      assert pre + t + post == pre + (t + post);
      StripLeftPadded(pre, t + post);
      StripRightPadded(t, post);
    }
  }

  lemma {:induction false} StripLeftSplits(s: string) returns (pre: string)
    ensures Blank(pre) && s == pre + StripLeft(s) && (StripLeft(s) == "" || !IsSpace(StripLeft(s)[0]))
  {
    if s != "" && IsSpace(s[0]) {
      var rest := StripLeftSplits(s[1..]);
      pre := [s[0]] + rest;
    } else {
      pre := "";
    }
  }

  lemma {:induction false} StripRightSplits(s: string) returns (post: string)
    ensures Blank(post) && s == StripRight(s) + post && (StripRight(s) == "" || !IsSpace(StripRight(s)[|StripRight(s)| - 1]))
  {
    if s != "" && IsSpace(s[|s| - 1]) {
      var rest := StripRightSplits(s[..|s| - 1]);
      post := rest + [s[|s| - 1]];
    } else {
      post := "";
    }
  }

  lemma StripSplits(s: string) returns (pre: string, post: string)
    ensures Blank(pre) && Blank(post) && s == pre + Strip(s) + post && (Strip(s) == "" || Tight(Strip(s)))
  {
    pre := StripLeftSplits(s);
    post := StripRightSplits(StripLeft(s));
    var t := Strip(s);
    assert s == pre + (t + post);
    if t != "" {
      assert StripLeft(s)[0] == t[0];
    }
  }

  // ---- literals ----

  /** Leaving out blanks, piece by piece. */
  lemma {:induction false} RemoveSpacesConcat(a: string, b: string)
    ensures RemoveSpaces(a + b) == RemoveSpaces(a) + RemoveSpaces(b) && RemoveSpaces(" ") == ""
  {
    if a == "" {
      assert a + b == b && RemoveSpaces(a) + RemoveSpaces(b) == RemoveSpaces(b);
    } else {
      assert (a + b)[1..] == a[1..] + b;
      RemoveSpacesConcat(a[1..], b);
      var first := if a[0] == ' ' then "" else [a[0]];
      assert first + (RemoveSpaces(a[1..]) + RemoveSpaces(b)) == first + RemoveSpaces(a[1..]) + RemoveSpaces(b);
    }
  }

  /** A literal without brackets is one alternative, its blanks left out. */
  lemma LiteralBare(lit: string)
    requires lit == "" || (lit[0] != '(' && lit[0] != '{')
    ensures LiteralAlts(lit) == [RemoveSpaces(lit)]
  {
  }

  /** So is one in parentheses, when only digits and blanks are inside. */
  lemma LiteralParenthesised(pre: string, digits: string, post: string)
    requires Blank(pre) && Blank(post) && Tight(digits)
    requires forall k :: 0 <= k < |digits| ==> IsDigitChar(digits[k]) || digits[k] == ' '
    ensures LiteralAlts("(" + (pre + digits + post) + ")") == [RemoveSpaces(digits)]
  {
    var lit := "(" + (pre + digits + post) + ")";
    assert lit[1..|lit| - 1] == pre + digits + post;
    StripPadded(pre, digits, post);
  }

  lemma {:induction false} SplitCommasJoined(pieces: seq<string>, cur: string)
    requires pieces != [] && forall k :: 0 <= k < |pieces| ==> ',' !in pieces[k]
    ensures SplitCommas(Join(pieces, ","), cur) == [cur + pieces[0]] + pieces[1..]
    decreases |pieces|
  {
    var p := pieces[0];
    assert forall k :: 0 <= k < |p| ==> p[k] in p;
    if |pieces| == 1 {
      SkipToComma(p, "", cur);
      assert p + "" == p;
    } else {
      var rest := Join(pieces[1..], ",");
      assert Join(pieces, ",") == p + ("," + rest);
      SkipToComma(p, "," + rest, cur);
      assert ("," + rest)[1..] == rest;
      SplitCommasJoined(pieces[1..], "");
      assert "" + pieces[1] == pieces[1];
    }
  }

  lemma {:induction false} TrimmedAll(pieces: seq<string>, alts: seq<string>)
    requires |pieces| == |alts| && forall k :: 0 <= k < |pieces| ==> Strip(pieces[k]) == alts[k] != ""
    ensures Trimmed(pieces) == alts
  {
    hide Strip;
    if pieces != [] {
      TrimmedAll(pieces[1..], alts[1..]);
      assert [alts[0]] + alts[1..] == alts;
    }
  }

  /** A list in braces: its pieces between the commas, each with any blanks around it. */
  lemma LiteralBraced(pieces: seq<string>, alts: seq<string>)
    requires pieces != [] && |pieces| == |alts| && (forall k :: 0 <= k < |pieces| ==> ',' !in pieces[k])
    requires forall k :: 0 <= k < |pieces| ==> Strip(pieces[k]) == alts[k] != ""
    ensures LiteralAlts("{" + Join(pieces, ",") + "}") == alts
  {
    hide Strip, Trimmed, SplitCommas;
    var body := Join(pieces, ",");
    var lit := "{" + body + "}";
    assert lit[1..|lit| - 1] == body;
    SplitCommasJoined(pieces, "");
    assert "" + pieces[0] == pieces[0];
    assert [pieces[0]] + pieces[1..] == pieces;
    TrimmedAll(pieces, alts);
  }

  // ---- conjuncts ----

  function OpText(op: Op): string {
    match op case Eq => "==" case Ne => "!=" case In => "IN"
  }

  /** `f == lit`, `f != lit` or `f IN {..}` with any spacing, the blanks around `IN` being required. */
  predicate AtomShape(conj: string, field: string, op: Op, lit: string, pads: seq<string>) {
    && |pads| == 4 && (forall k :: 0 <= k < 4 ==> Blank(pads[k]))
    && conj == pads[0] + (field + (pads[1] + (OpText(op) + (pads[2] + lit)))) + pads[3]
    && ValidIdent(field) && (lit == "" || Tight(lit))
    && (op == In ==> pads[1] != "" && pads[2] != "" && |lit| >= 2 && lit[0] == '{' && lit[|lit| - 1] == '}')
  }

  /** The reader takes every conjunct of that shape. */
  lemma AtomReads(conj: string, field: string, op: Op, lit: string, pads: seq<string>)
    requires AtomShape(conj, field, op, lit, pads)
    ensures ReadAtom(conj) == Some(Atom(field, op, LiteralAlts(lit)))
  {
    hide LiteralAlts;
    var after := pads[1] + (OpText(op) + (pads[2] + lit));
    var mid := field + after;
    AtomStrips(mid, field, op, lit, pads);
    var pad2 := if lit == "" then "" else pads[2];
    var rest := pads[1] + (OpText(op) + (pad2 + lit));
    assert Strip(conj) == field + rest;
    IdentPrefix(field, rest);
    assert (field + rest)[|field|..] == rest && (field + rest)[..|field|] == field;
    OperatorReads(field, op, lit, pads[1], pad2);
  }

  lemma AtomStrips(mid: string, field: string, op: Op, lit: string, pads: seq<string>)
    requires |pads| == 4 && AtomShape(pads[0] + mid + pads[3], field, op, lit, pads)
    requires mid == field + (pads[1] + (OpText(op) + (pads[2] + lit)))
    ensures Strip(pads[0] + mid + pads[3]) == field + (pads[1] + (OpText(op) + ((if lit == "" then "" else pads[2]) + lit)))
  {
    if lit == "" {
      var t := field + (pads[1] + (OpText(op) + ("" + lit)));
      assert pads[0] + mid + pads[3] == pads[0] + t + (pads[2] + pads[3]);
      assert t == (field + pads[1]) + OpText(op);
      StripPadded(pads[0], t, pads[2] + pads[3]);
    } else {
      assert mid[0] == field[0] && mid[|mid| - 1] == lit[|lit| - 1];
      StripPadded(pads[0], mid, pads[3]);
    }
  }

  lemma OperatorReads(field: string, op: Op, lit: string, pad1: string, pad2: string)
    requires Blank(pad1) && Blank(pad2) && (lit == "" || Tight(lit))
    requires op == In ==> pad1 != "" && pad2 != "" && |lit| >= 2 && lit[0] == '{' && lit[|lit| - 1] == '}'
    ensures ReadOperator(field, pad1 + (OpText(op) + (pad2 + lit))) == Some(Atom(field, op, LiteralAlts(lit)))
  {
    hide LiteralAlts;
    var tail := pad2 + lit;
    var r := OpText(op) + tail;
    StripLeftPadded(pad1, r);
    assert r[2..] == tail;
    assert r[0] == OpText(op)[0] && r[1] == OpText(op)[1];
    StripPadded(pad2, lit, "");
    assert pad2 + lit + "" == tail;
    StripLeftPadded(pad2, lit);
  }

  /** And nothing else: whatever it takes has that shape. */
  lemma AtomRead(conj: string) returns (op: Op, lit: string, pads: seq<string>)
    requires ReadAtom(conj).Some?
    ensures AtomShape(conj, ReadAtom(conj).value.field, op, lit, pads)
    ensures ReadAtom(conj).value.op == op && ReadAtom(conj).value.alts == LiteralAlts(lit)
  {
    hide LiteralAlts, ReadOperator, Strip, StripLeft;
    var pre, post := StripSplits(conj);
    var s := Strip(conj);
    var n := IdentLength(s);
    var field, after := s[..n], s[n..];
    assert s == field + after;
    var pad1, pad2;
    op, lit, pad1, pad2 := OperatorRead(field, after);
    if lit != "" {
      assert lit[|lit| - 1] == after[|after| - 1] == s[|s| - 1];
    }
    pads := [pre, pad1, pad2, post];
  }

  lemma OperatorRead(field: string, after: string) returns (op: Op, lit: string, pad1: string, pad2: string)
    requires ReadOperator(field, after).Some? && (after == "" || !IsSpace(after[|after| - 1]))
    ensures ReadOperator(field, after) == Some(Atom(field, op, LiteralAlts(lit)))
    ensures Blank(pad1) && Blank(pad2) && after == pad1 + (OpText(op) + (pad2 + lit)) && (lit == "" || !IsSpace(lit[0]))
    ensures op == In ==> pad1 != "" && pad2 != "" && |lit| >= 2 && lit[0] == '{' && lit[|lit| - 1] == '}'
  {
    hide LiteralAlts, Strip, StripLeft;
    pad1 := StripLeftSplits(after);
    var r := StripLeft(after);
    op := ReadOperator(field, after).value.op;
    var tail := r[2..];
    assert r == r[..2] + tail && r[..2] == OpText(op);
    pad2 := StripLeftSplits(tail);
    lit := StripLeft(tail);
    assert tail == "" || !IsSpace(tail[|tail| - 1]) by {
      if tail != "" { assert tail[|tail| - 1] == after[|after| - 1]; }
    }
    TailIsLiteral(tail);
    if op == In {
      assert IsSpace(tail[0]) && tail != lit;
    }
  }

  /** Where nothing has to be trimmed on the right, trimming on the left is all. */
  lemma TailIsLiteral(tail: string)
    requires tail == "" || !IsSpace(tail[|tail| - 1])
    ensures Strip(tail) == StripLeft(tail)
  {
    var pad := StripLeftSplits(tail);
    var lit := StripLeft(tail);
    if lit != "" {
      assert lit[|lit| - 1] == tail[|tail| - 1];
    }
  }

  // ---- negations and the whole text ----

  /** `! ( .. )` with any blanks. */
  lemma NegationReads(pad: string, pre: string, body: string, post: string)
    requires Blank(pad) && Blank(pre) && Blank(post) && (body == "" || Tight(body))
    ensures NegationBody("!" + (pad + ("(" + (pre + body + post) + ")"))) == Some(body)
  {
    var inner := "(" + (pre + body + post) + ")";
    var term := "!" + (pad + inner);
    assert term[1..] == pad + inner;
    StripLeftPadded(pad, inner);
    assert inner[1..|inner| - 1] == pre + body + post;
    StripPadded(pre, body, post);
  }

  lemma NegationRead(term: string) returns (pad: string, pre: string, post: string)
    requires NegationBody(term).Some?
    ensures var body := NegationBody(term).value;
            && Blank(pad) && Blank(pre) && Blank(post) && (body == "" || Tight(body))
            && term == "!" + (pad + ("(" + (pre + body + post) + ")"))
  {
    hide Strip, StripLeft;
    pad := StripLeftSplits(term[1..]);
    var r := StripLeft(term[1..]);
    pre, post := StripSplits(r[1..|r| - 1]);
    assert r == "(" + r[1..|r| - 1] + ")";
  }

  lemma {:induction false} SplitPieces(pieces: seq<string>, cur: string)
    requires pieces != [] && forall k :: 0 <= k < |pieces| ==> Net(pieces[k]) == 0 && Solid(pieces[k], 0)
    ensures SplitRec(Join(pieces, "&&"), 0, cur) == Some([cur + pieces[0]] + pieces[1..])
    decreases |pieces|
  {
    hide Solid, Net;
    var p := pieces[0];
    if |pieces| == 1 {
      SkipSolid(p, "", 0, cur);
      assert p + "" == p;
      assert [cur + p] + pieces[1..] == [cur + p];
    } else {
      var rest := Join(pieces[1..], "&&");
      assert Join(pieces, "&&") == p + ("&&" + rest);
      SkipSolid(p, "&&" + rest, 0, cur);
      var s := "&&" + rest;
      assert "&&" <= s && s[2..] == rest && Delta(s[0]) == 0;
      SplitPieces(pieces[1..], "");
      assert "" + pieces[1] == pieces[1] && [pieces[1]] + pieces[1..][1..] == pieces[1..];
      assert SplitRec(s, 0, cur + p) == Prepend([cur + p], SplitRec(rest, 0, ""));
    }
  }

  /**
   A text of any pieces joined by `&&`, whose brackets balance and which hide no other separator,
   is read piece by piece; blanks around the pieces do not matter.
   */
  lemma PiecesRead(pieces: seq<string>, texts: seq<string>)
    requires pieces != [] && |pieces| == |texts|
    requires forall k :: 0 <= k < |pieces| ==> Net(pieces[k]) == 0 && Solid(pieces[k], 0) && Strip(pieces[k]) == texts[k] != ""
    ensures SplitTop(Join(pieces, "&&")) == texts
  {
    hide Strip, SplitRec, Trimmed, Solid, Net;
    SplitPieces(pieces, "");
    assert "" + pieces[0] == pieces[0];
    assert [pieces[0]] + pieces[1..] == pieces;
    TrimmedAll(pieces, texts);
  }
}
