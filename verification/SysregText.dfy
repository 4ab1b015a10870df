/**
 The generated register table as text, scripts/aarch64_sysreg_table.py: rows as they are rendered
 and the row reader that the gate runs over the file, line by line.
 */
module SysregText {
  import opened Options
  import BitdiffText
  import BitdiffReads

  datatype Entry = Entry(name: string, enc: nat)

  /** `[a-z0-9_]`. */
  predicate IsNameChar(c: char) {
    'a' <= c <= 'z' || '0' <= c <= '9' || c == '_'
  }

  predicate LegalName(name: string) {
    name != "" && forall i :: 0 <= i < |name| ==> IsNameChar(name[i])
  }

  // ---- writing ----

  function HexChar(d: nat): (c: char)
    requires d < 16
    ensures IsNameChar(c) && HexDigit(c) == Some(d)
  {
    "0123456789abcdef"[d]
  }

  /** `{:04x}` of a number of at most four digits. */
  function Hex4(e: nat): string
    requires e < 65536
  {
    [HexChar(e / 4096), HexChar(e / 256 % 16), HexChar(e / 16 % 16), HexChar(e % 16)]
  }

  function RenderRow(row: Entry): string
    requires row.enc < 65536
  {
    "    (\"" + (row.name + ("\", 0x" + (Hex4(row.enc) + "),")))
  }

  // ---- reading ----

  function HexDigit(c: char): Option<nat> {
    if '0' <= c <= '9' then Some(c as int - '0' as int)
    else if 'a' <= c <= 'f' then Some(c as int - 'a' as int + 10)
    else None
  }

  /** The text after a fixed prefix. */
  function Strip(s: string, prefix: string): Option<string> {
    if |prefix| <= |s| && s[..|prefix|] == prefix then Some(s[|prefix|..]) else None
  }

  /** How many name characters the text begins with. */
  function NameLength(s: string): (n: nat)
    ensures n <= |s|
  {
    if s != "" && IsNameChar(s[0]) then 1 + NameLength(s[1..]) else 0
  }

  /** `0x` is gone already: four digits and the end of the row. */
  function ReadValue(s: string): Option<nat> {
    if |s| < 4 then None
    else
      var a, b, c, d := HexDigit(s[0]), HexDigit(s[1]), HexDigit(s[2]), HexDigit(s[3]);
      if a.None? || b.None? || c.None? || d.None? then None
      else
        var rest := Strip(s[4..], "),");
        if rest.None? || BitdiffText.StripLeft(rest.value) != "" then None
        else Some(4096 * a.value + 256 * b.value + 16 * c.value + d.value)
  }

  /** One line against the row pattern. */
  function ReadRow(line: string): Option<Entry> {
    var open := Strip(BitdiffText.StripLeft(line), "(\"");
    if open.None? then None
    else
      var n := NameLength(open.value);
      var comma := Strip(open.value[n..], "\",");
      if n == 0 || comma.None? then None
      else
        var hex := Strip(BitdiffText.StripLeft(comma.value), "0x");
        if hex.None? then None
        else
          var v := ReadValue(hex.value);
          if v.None? then None else Some(Entry(open.value[..n], v.value))
  }

  /** `parse_rust_table`: every row of the file, a later one replacing an earlier one of the same name. */
  function ReadTable(lines: seq<string>): map<string, nat> {
    if lines == [] then map[]
    else
      var before := ReadTable(lines[..|lines| - 1]);
      var row := ReadRow(lines[|lines| - 1]);
      if row.None? then before else before[row.value.name := row.value.enc]
  }

  // ---- the round trip ----

  lemma StripPrefix(prefix: string, t: string)
    ensures Strip(prefix + t, prefix) == Some(t)
  {
    assert (prefix + t)[..|prefix|] == prefix && (prefix + t)[|prefix|..] == t;
  }

  lemma {:induction false} NameEnds(name: string, t: string)
    requires (forall i :: 0 <= i < |name| ==> IsNameChar(name[i])) && t != "" && !IsNameChar(t[0])
    ensures NameLength(name + t) == |name|
  {
    if name == "" {
      assert name + t == t;
    } else {
      NameEnds(name[1..], t);
      assert (name + t)[1..] == name[1..] + t;
    }
  }

  /** The sixteen digits, and no other character. */
  lemma HexDigitExactly(c: char, d: nat)
    ensures HexDigit(c) == Some(d) <==> d < 16 && c == "0123456789abcdef"[d]
  {
  }

  predicate IsHex4(digits: string) {
    |digits| == 4 && forall k :: 0 <= k < 4 ==> HexDigit(digits[k]).Some?
  }

  function Hex4Value(digits: string): nat
    requires IsHex4(digits)
  {
    4096 * HexDigit(digits[0]).value + 256 * HexDigit(digits[1]).value + 16 * HexDigit(digits[2]).value + HexDigit(digits[3]).value
  }

  /** `("name", 0xhhhh),` with any blanks before, after, and behind the first comma. */
  ghost predicate RowShape(line: string, name: string, digits: string, pads: seq<string>) {
    && |pads| == 3 && (forall k :: 0 <= k < 3 ==> BitdiffReads.Blank(pads[k])) && LegalName(name) && IsHex4(digits)
    && line == pads[0] + ("(\"" + (name + ("\"," + (pads[1] + ("0x" + (digits + (")," + pads[2])))))))
  }

  /** The pattern takes every line of that shape. */
  lemma RowReads(line: string, name: string, digits: string, pads: seq<string>)
    requires RowShape(line, name, digits, pads)
    ensures ReadRow(line) == Some(Entry(name, Hex4Value(digits)))
  {
    hide BitdiffText.StripLeft, Strip, NameLength, ReadValue, Hex4Value, HexDigit;
    var tail := digits + (")," + pads[2]);
    var hex := "0x" + tail;
    var afterName := "\"," + (pads[1] + hex);
    var open := name + afterName;
    var quoted := "(\"" + open;
    BitdiffReads.StripLeftPadded(pads[0], quoted);
    StripPrefix("(\"", open);
    NameEnds(name, afterName);
    assert open[|name|..] == afterName && open[..|name|] == name;
    StripPrefix("\",", pads[1] + hex);
    BitdiffReads.StripLeftPadded(pads[1], hex);
    StripPrefix("0x", tail);
    ValueReads(digits, pads[2]);
  }

  lemma ValueReads(digits: string, pad: string)
    requires IsHex4(digits) && BitdiffReads.Blank(pad)
    ensures ReadValue(digits + (")," + pad)) == Some(Hex4Value(digits))
  {
    hide BitdiffText.StripLeft, Strip, HexDigit;
    var s := digits + (")," + pad);
    assert s[4..] == ")," + pad;
    StripPrefix("),", pad);
    BitdiffReads.StripLeftPadded(pad, "");
    assert pad + "" == pad;
  }

  /** And no other line. */
  lemma RowRead(line: string) returns (digits: string, pads: seq<string>)
    requires ReadRow(line).Some?
    ensures RowShape(line, ReadRow(line).value.name, digits, pads) && ReadRow(line).value.enc == Hex4Value(digits)
  {
    hide BitdiffText.StripLeft, Strip, NameLength, ReadValue, Hex4Value, HexDigit;
    var pad0 := BitdiffReads.StripLeftSplits(line);
    var quoted := BitdiffText.StripLeft(line);
    StripSplits(quoted, "(\"");
    var open := Strip(quoted, "(\"").value;
    var n := NameLength(open);
    NameIs(open);
    var afterName := open[n..];
    StripSplits(afterName, "\",");
    var comma := Strip(afterName, "\",").value;
    var pad1 := BitdiffReads.StripLeftSplits(comma);
    var hex := BitdiffText.StripLeft(comma);
    StripSplits(hex, "0x");
    var tail := Strip(hex, "0x").value;
    var pad2;
    digits, pad2 := ValueRead(tail);
    pads := [pad0, pad1, pad2];
    assert open == open[..n] + afterName;
  }

  lemma ValueRead(s: string) returns (digits: string, pad: string)
    requires ReadValue(s).Some?
    ensures IsHex4(digits) && BitdiffReads.Blank(pad) && s == digits + (")," + pad) && ReadValue(s) == Some(Hex4Value(digits))
  {
    hide BitdiffText.StripLeft, Strip, HexDigit;
    digits := s[..4];
    StripSplits(s[4..], "),");
    var rest := Strip(s[4..], "),").value;
    pad := BitdiffReads.StripLeftSplits(rest);
    assert rest == pad + "" == pad;
    assert s == digits + s[4..];
  }

  lemma StripSplits(s: string, prefix: string)
    ensures Strip(s, prefix).Some? ==> s == prefix + Strip(s, prefix).value
  {
  }

  lemma {:induction false} NameIs(s: string)
    ensures forall i :: 0 <= i < NameLength(s) ==> IsNameChar(s[i])
  {
    if s != "" && IsNameChar(s[0]) {
      NameIs(s[1..]);
    }
  }

  lemma ValueOfHex4(e: nat)
    requires e < 65536
    ensures IsHex4(Hex4(e)) && Hex4Value(Hex4(e)) == e
  {
    hide HexChar, HexDigit;
    Digits(e);
  }

  lemma Digits(e: nat)
    requires e < 65536
    ensures 4096 * (e / 4096) + 256 * (e / 256 % 16) + 16 * (e / 16 % 16) + e % 16 == e
  {
    var q, r := e / 256, e / 16;
    assert q / 16 == e / 4096 && r / 16 == q;
  }

  lemma ReadTablePush(lines: seq<string>, line: string)
    ensures ReadTable(lines + [line]) ==
            var row := ReadRow(line); if row.None? then ReadTable(lines) else ReadTable(lines)[row.value.name := row.value.enc]
  {
    assert (lines + [line])[..|lines|] == lines;
  }

  lemma RowLayout(row: Entry)
    requires row.enc < 65536
    ensures RenderRow(row) == "    " + ("(\"" + (row.name + ("\"," + (" " + ("0x" + (Hex4(row.enc) + (")," + "")))))))
  {
    hide Hex4;
    assert ")," + "" == "),";
    var hex := Hex4(row.enc) + "),";
    var afterName := "\"," + (" " + ("0x" + hex));
    assert "\", 0x" + hex == afterName;
    var open := row.name + afterName;
    assert "    (\"" + open == "    " + ("(\"" + open);
  }

  /** Reading a rendered row gives the row back. */
  lemma RowRoundTrip(row: Entry)
    requires LegalName(row.name) && row.enc < 65536
    ensures ReadRow(RenderRow(row)) == Some(row)
  {
    hide Hex4, Hex4Value, ReadRow, RenderRow, LegalName, IsHex4;
    RowLayout(row);
    ValueOfHex4(row.enc);
    RowReads(RenderRow(row), row.name, Hex4(row.enc), ["    ", " ", ""]);
  }

  /** A line that cannot begin a row: empty, or its first character is neither blank nor a parenthesis. */
  predicate Prose(line: string) {
    line == "" || (!BitdiffText.IsSpace(line[0]) && line[0] != '(')
  }

  lemma ProseIsSkipped(line: string)
    requires Prose(line)
    ensures ReadRow(line) == None
  {
    assert BitdiffText.StripLeft(line) == line;
  }

  function RenderRows(table: map<string, nat>, names: seq<string>): seq<string>
    requires forall i :: 0 <= i < |names| ==> names[i] in table && table[names[i]] < 65536
  {
    seq(|names|, i requires 0 <= i < |names| => RenderRow(Entry(names[i], table[names[i]])))
  }

  lemma {:induction false} ReadRows(head: seq<string>, table: map<string, nat>, names: seq<string>)
    requires forall i :: 0 <= i < |names| ==> LegalName(names[i]) && names[i] in table && table[names[i]] < 65536
    requires forall i :: 0 <= i < |head| ==> Prose(head[i])
    ensures ReadTable(head + RenderRows(table, names)) == map n | n in names :: table[n]
  {
    hide RenderRow, ReadRow, ReadTable, LegalName;
    if names == [] {
      assert head + RenderRows(table, names) == head;
      ReadProse([], head);
      assert [] + head == head;
      ReadNothing();
    } else {
      var k := |names| - 1;
      var front, last := names[..k], Entry(names[k], table[names[k]]);
      ReadRows(head, table, front);
      RowRoundTrip(last);
      ReadTablePush(head + RenderRows(table, front), RenderRow(last));
      assert head + RenderRows(table, names) == (head + RenderRows(table, front)) + [RenderRow(last)];
      assert names == front + [names[k]];
    }
  }

  lemma ReadNothing()
    ensures ReadTable([]) == map[]
  {
  }

  lemma {:induction false} ReadProse(rows: seq<string>, prose: seq<string>)
    requires forall i :: 0 <= i < |prose| ==> Prose(prose[i])
    ensures ReadTable(rows + prose) == ReadTable(rows)
  {
    hide ReadTable, ReadRow, Prose;
    if prose == [] {
      assert rows + prose == rows;
    } else {
      var k := |prose| - 1;
      ReadProse(rows, prose[..k]);
      ProseIsSkipped(prose[k]);
      ReadTablePush(rows + prose[..k], prose[k]);
      assert rows + prose == (rows + prose[..k]) + [prose[k]];
    }
  }

  /** The file read back is the table it was rendered from, whatever prose surrounds the rows. */
  lemma TableRoundTrip(head: seq<string>, table: map<string, nat>, names: seq<string>, tail: seq<string>)
    requires (forall n :: n in table ==> LegalName(n) && table[n] < 65536) && (forall n :: n in table <==> n in names)
    requires (forall i :: 0 <= i < |head| ==> Prose(head[i])) && (forall i :: 0 <= i < |tail| ==> Prose(tail[i]))
    ensures ReadTable(head + RenderRows(table, names) + tail) == table
  {
    assert forall i :: 0 <= i < |names| ==> names[i] in table;
    ReadRows(head, table, names);
    ReadProse(head + RenderRows(table, names), tail);
    assert (map n | n in names :: table[n]) == table;
  }
}
