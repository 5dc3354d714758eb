/** Worksheets as a writer prints them: row elements with c elements that hold an inline text, the index
    of a shared string, a number, a boolean, a formula's text or an error, or that are self-closed and
    hold nothing. */
module SheetPrint {
  import opened JsText
  import opened Tags
  import opened XmlText
  import opened SharedStrings
  import opened SheetCells
  import opened SheetRows
  import Decimals

  /** A run of digits. */
  type Numeral = s: string | s != "" && Decimals.AllDigits(s) witness "0"

  /** A number as it is written: -12, 0.5, 1.5E-7. An exponent has a sign, true for minus. */
  datatype Number = Number(negative: bool, whole: Numeral, fraction: Option<Numeral>, exponent: Option<(bool, Numeral)>)

  datatype Content =
    | Blank
    | Inline(text: string)
    | Shared(index: nat)
    | Numeric(number: Number)
    | Flag(on: bool)
    | Formula(text: string)
    | Error(code: string)

  datatype Written = Written(column: nat, content: Content)
  datatype WrittenRow = WrittenRow(line: nat, cells: seq<Written>)

  function Ref(column: nat, line: nat): string {
    WordOf(column + 1) + Decimals.Print(line)
  }

  function RefAttr(column: nat, line: nat): string {
    " r=\"" + Ref(column, line) + "\""
  }

  function TypeName(content: Content): string {
    match content
    case Blank => ""
    case Inline(_) => "inlineStr"
    case Shared(_) => "s"
    case Numeric(_) => ""
    case Flag(_) => "b"
    case Formula(_) => "str"
    case Error(_) => "e"
  }

  /** A number is written without a type. */
  function TypeAttr(content: Content): string {
    TypeAttrIn(TypeName(content), '"')
  }

  /** The type, if it is given, in quotes of either kind. */
  function TypeAttrIn(kind: string, quote: char): string {
    if kind == "" then "" else " " + (['t'] + ("=" + ([quote] + (kind + [quote]))))
  }

  function NumberText(number: Number): string {
    (if number.negative then "-" else "") + (number.whole + AfterWhole(number))
  }

  function AfterWhole(number: Number): string {
    (if number.fraction.Some? then "." + number.fraction.value else "") + ExponentText(number.exponent)
  }

  function ExponentText(exponent: Option<(bool, Numeral)>): string {
    if exponent.None? then "" else (if exponent.value.0 then "E-" else "E+") + exponent.value.1
  }

  /** What stands in the element that holds the value. */
  function Raw(content: Content): string {
    match content
    case Blank => ""
    case Inline(text) => Escaped(text, 0)
    case Shared(index) => Decimals.Print(index)
    case Numeric(number) => NumberText(number)
    case Flag(on) => if on then "1" else "0"
    case Formula(text) => Escaped(text, 0)
    case Error(code) => Escaped(code, 0)
  }

  function Inner(content: Content): string {
    match content
    case Blank => ""
    case Inline(_) => "<is>" + ("<t>" + (Raw(content) + ("</t>" + "</is>")))
    case _ => "<v>" + (Raw(content) + "</v>")
  }

  /** An opening tag of a cell. */
  function CellTag(attrs: string): string {
    "<c" + attrs + ">"
  }

  function PrintCell(cell: Written, line: nat): string {
    if cell.content.Blank? then CellTag(RefAttr(cell.column, line) + "/")
    else CellTag(RefAttr(cell.column, line) + TypeAttr(cell.content)) + (Inner(cell.content) + "</c>")
  }

  function PrintCells(cells: seq<Written>, line: nat): string {
    if cells == [] then "" else PrintCell(cells[0], line) + PrintCells(cells[1..], line)
  }

  function RowTag(line: nat): string {
    "<row r=\"" + Decimals.Print(line) + "\">"
  }

  function PrintRow(row: WrittenRow): string {
    RowTag(row.line) + (PrintCells(row.cells, row.line) + "</row>")
  }

  function PrintRows(rows: seq<WrittenRow>): string {
    if rows == [] then "" else PrintRow(rows[0]) + PrintRows(rows[1..])
  }

  function PrintSheet(rows: seq<WrittenRow>): string {
    "<sheetData>" + (PrintRows(rows) + "</sheetData>")
  }

  // ----- searching past printed text -----

  /** A search for `t` passes over `x`, whatever follows. */
  ghost predicate Passes(t: Tag, x: string) {
    forall w: string {:trigger Find(t, x + w)} :: Find(t, x + w) == Shift(|x|, Find(t, w))
  }

  /** A tag as written: '<' only in front, '>' only at the end. */
  predicate IsTagToken(v: string) {
    && |v| >= 2 && v[0] == '<' && v[|v| - 1] == '>'
    && (forall k | 1 <= k < |v| :: v[k] != '<')
    && (forall k | 0 <= k < |v| - 1 :: v[k] != '>')
  }

  /** No front part of `v` is matched by the pattern. */
  predicate Avoids(t: Tag, v: string) {
    forall n | 0 <= n <= |v| :: !IsTagText(t, v[..n])
  }

  lemma PassTag(t: Tag, v: string)
    requires IsTagToken(v) && Avoids(t, v)
    ensures Passes(t, v)
  {
    hide Find, IsTagText;
    forall w: string ensures Find(t, v + w) == Shift(|v|, Find(t, w)) {
      var s := v + w;
      assert forall k | 0 <= k < |v| :: s[k] == v[k];
      assert forall n | 0 <= n <= |v| :: s[0..n] == v[..n];
      forall i, n | 0 <= i < |v| ensures !MatchAt(t, s, i, n) {
        if MatchAt(t, s, i, n) { MatchShape(t, s, i, n); }
      }
      FindSkip(t, v, w);
    }
  }

  lemma PassText(t: Tag, z: string)
    requires Lacks(z, '<')
    ensures Passes(t, z)
  {
    hide Find, IsTagText;
    forall w: string ensures Find(t, z + w) == Shift(|z|, Find(t, w)) {
      assert forall k | 0 <= k < |z| :: (z + w)[k] == z[k];
      forall i, n | 0 <= i < |z| ensures !MatchAt(t, z + w, i, n) {
        if MatchAt(t, z + w, i, n) { MatchShape(t, z + w, i, n); }
      }
      FindSkip(t, z, w);
    }
  }

  lemma PassBoth(t: Tag, a: string, b: string)
    requires Passes(t, a) && Passes(t, b)
    ensures Passes(t, a + b)
  {
    hide Find;
    forall w: string ensures Find(t, (a + b) + w) == Shift(|a + b|, Find(t, w)) {
      assert (a + b) + w == a + (b + w);
      assert Find(t, a + (b + w)) == Shift(|a|, Find(t, b + w));
    }
  }

  /** Only a tag that starts with "</" can be matched by a closing pattern. */
  lemma AvoidsClosing(t: Tag, v: string)
    requires t.closes && |v| >= 2 && v[1] != '/'
    ensures Avoids(t, v)
  {
    forall n | 0 <= n <= |v| ensures !IsTagText(t, v[..n]) {
      if n >= 2 { assert v[..n][..2][1] == v[1]; }
    }
  }

  /** A closing tag of another name, without prefix, is not matched. */
  lemma AvoidsOther(t: Tag, name: string)
    requires t.closes && name != t.name && Lacks(name, '>') && Lacks(name, ':') && t.name != ""
    ensures Avoids(t, "</" + name + ">")
  {
    var v := "</" + name + ">";
    var m := |v| - 1 - |t.name|;
    assert v[2..|v| - 1] == name && v[..|v|] == v;
    assert forall k | 2 <= k < |v| - 1 :: v[k] == name[k - 2];
    assert forall k | 0 <= k < |v| - 1 :: v[k] != '>';
    if 2 < m { assert v[2..m][m - 3] == v[m - 1]; }
    forall n | 0 <= n <= |v| ensures !IsTagText(t, v[..n]) {
      if 0 < n { assert v[..n][n - 1] == v[n - 1]; }
    }
  }

  // ----- printed cells contain no other tags -----

  /** Text that stands within one tag. */
  predicate IsPlain(s: string) {
    Lacks(s, '<') && Lacks(s, '>')
  }

  lemma RefIsPlain(column: nat, line: nat)
    ensures IsPlain(Ref(column, line)) && Lacks(Ref(column, line), '"') && Lacks(Ref(column, line), 't')
    ensures Lacks(Ref(column, line), '/') && Lacks(Ref(column, line), '=') && Ref(column, line) != ""
  {
    hide WordOf, Decimals.Print;
    var w, d := WordOf(column + 1), Decimals.Print(line);
    assert forall k | 0 <= k < |w| :: 'A' <= w[k] <= 'Z';
    assert forall k | 0 <= k < |d| :: IsDigit(d[k]);
  }

  lemma AttrsArePlain(column: nat, line: nat, content: Content)
    ensures IsPlain(RefAttr(column, line)) && IsPlain(RefAttr(column, line) + "/")
    ensures IsPlain(RefAttr(column, line) + TypeAttr(content))
    ensures RefAttr(column, line) != "" && RefAttr(column, line)[0] == ' ' && Lacks(RefAttr(column, line), 't')
  {
    hide Ref, TypeAttr;
    RefIsPlain(column, line);
    TypeAttrIsPlain(content);
    LacksConcat(RefAttr(column, line), TypeAttr(content), '<');
    LacksConcat(RefAttr(column, line), TypeAttr(content), '>');
  }

  lemma TypeAttrIsPlain(content: Content)
    ensures IsPlain(TypeAttr(content))
  {
    hide TypeName;
    TypeNameIsPlain(content);
    QuotedIsPlain(TypeName(content));
  }

  lemma QuotedIsPlain(kind: string)
    requires IsPlain(kind)
    ensures IsPlain(" " + (['t'] + ("=" + (['"'] + (kind + ['"'])))))
  {
  }

  lemma TypeNameIsPlain(content: Content)
    ensures IsPlain(TypeName(content))
  {
  }

  lemma CellTagIsToken(attrs: string)
    requires IsPlain(attrs)
    ensures IsTagToken(CellTag(attrs)) && CellTag(attrs)[1] == 'c'
  {
  }

  lemma CellTagPasses(t: Tag, attrs: string)
    requires t.closes && IsPlain(attrs)
    ensures Passes(t, CellTag(attrs))
  {
    hide CellTag, Passes;
    CellTagIsToken(attrs);
    AvoidsClosing(t, CellTag(attrs));
    PassTag(t, CellTag(attrs));
  }

  lemma ClosingPasses(t: Tag, name: string)
    requires t.closes && name != t.name && t.name != "" && name in {"t", "v", "is", "c", "row"}
    ensures Passes(t, "</" + name + ">")
  {
    hide Passes;
    AvoidsOther(t, name);
    assert IsTagToken("</" + name + ">");
    PassTag(t, "</" + name + ">");
  }

  lemma OpeningPasses(t: Tag, name: string)
    requires t.closes && name in {"t", "v", "is", "sheetData"}
    ensures Passes(t, "<" + name + ">")
  {
    hide Passes;
    var v := "<" + name + ">";
    assert IsTagToken(v) && v[1] == name[0];
    AvoidsClosing(t, v);
    PassTag(t, v);
  }

  /** The characters of a number. */
  predicate NumberChar(c: char) {
    IsDigit(c) || c in "-.E+"
  }

  lemma NumberIsClean(number: Number)
    ensures forall k | 0 <= k < |NumberText(number)| :: NumberChar(NumberText(number)[k])
    ensures NumberText(number) != ""
  {
    assert forall k | 0 <= k < |ExponentText(number.exponent)| :: NumberChar(ExponentText(number.exponent)[k]);
    assert forall k | 0 <= k < |AfterWhole(number)| :: NumberChar(AfterWhole(number)[k]);
  }

  lemma RawIsClean(content: Content)
    ensures Lacks(Raw(content), '<') && Lacks(Raw(content), '>')
  {
    hide Escaped, Decimals.Print, NumberText;
    match content
    case Inline(text) => EscapedClean(text);
    case Formula(text) => EscapedClean(text);
    case Error(code) => EscapedClean(code);
    case Shared(index) =>
      assert forall k | 0 <= k < |Decimals.Print(index)| :: IsDigit(Decimals.Print(index)[k]);
    case Numeric(number) => NumberIsClean(number);
    case _ =>
  }

  lemma InnerPasses(t: Tag, content: Content)
    requires t in {C_CLOSE, ROW_CLOSE, SHEET_CLOSE}
    ensures Passes(t, Inner(content))
  {
    hide Passes, Raw;
    var d := Raw(content);
    RawIsClean(content);
    match content
    case Blank =>
      PassText(t, "");
    case Inline(_) =>
      TextPasses(t, d);
    case _ =>
      PassText(t, d);
      OpeningPasses(t, "v");
      ClosingPasses(t, "v");
      assert "<" + "v" + ">" == "<v>" && "</" + "v" + ">" == "</v>";
      PassBoth(t, d, "</v>");
      PassBoth(t, "<v>", d + "</v>");
  }

  lemma TextPasses(t: Tag, e: string)
    requires t in {C_CLOSE, ROW_CLOSE, SHEET_CLOSE} && Lacks(e, '<')
    ensures Passes(t, "<is>" + ("<t>" + (e + ("</t>" + "</is>"))))
  {
    hide Passes;
    PassText(t, e);
    OpeningPasses(t, "is");
    OpeningPasses(t, "t");
    ClosingPasses(t, "t");
    ClosingPasses(t, "is");
    assert "<" + "is" + ">" == "<is>" && "<" + "t" + ">" == "<t>";
    assert "</" + "t" + ">" == "</t>" && "</" + "is" + ">" == "</is>";
    PassBoth(t, "</t>", "</is>");
    PassBoth(t, e, "</t>" + "</is>");
    PassBoth(t, "<t>", e + ("</t>" + "</is>"));
    PassBoth(t, "<is>", "<t>" + (e + ("</t>" + "</is>")));
  }

  /** The tags that end a row or the sheet are not found within a printed cell; neither is the tag that
      ends a cell within a self-closed one. */
  lemma CellPasses(t: Tag, cell: Written, line: nat)
    requires t in {ROW_CLOSE, SHEET_CLOSE} || (t == C_CLOSE && cell.content.Blank?)
    ensures Passes(t, PrintCell(cell, line))
  {
    hide Passes, Inner, CellTag, RefAttr, TypeAttr;
    AttrsArePlain(cell.column, line, cell.content);
    if cell.content.Blank? {
      CellTagPasses(t, RefAttr(cell.column, line) + "/");
    } else {
      CellTagPasses(t, RefAttr(cell.column, line) + TypeAttr(cell.content));
      InnerPasses(t, cell.content);
      ClosingPasses(t, "c");
      assert "</" + "c" + ">" == "</c>";
      PassBoth(t, Inner(cell.content), "</c>");
      PassBoth(t, CellTag(RefAttr(cell.column, line) + TypeAttr(cell.content)), Inner(cell.content) + "</c>");
    }
  }

  lemma {:induction false} CellsPass(t: Tag, cells: seq<Written>, line: nat)
    requires t in {ROW_CLOSE, SHEET_CLOSE} || (t == C_CLOSE && forall k | 0 <= k < |cells| :: cells[k].content.Blank?)
    ensures Passes(t, PrintCells(cells, line))
  {
    hide Passes, PrintCell;
    if cells == [] {
      PassText(t, "");
    } else {
      CellPasses(t, cells[0], line);
      CellsPass(t, cells[1..], line);
      PassBoth(t, PrintCell(cells[0], line), PrintCells(cells[1..], line));
    }
  }

  lemma ClosingTagText(t: Tag)
    requires t.closes
    ensures IsTagText(t, "</" + t.name + ">")
  {
    var v := "</" + t.name + ">";
    assert v[..2] == "</" && v[2..2] == "" && v[2..|v| - 1] == t.name;
  }

  lemma OpeningTagText(t: Tag, end: string)
    requires !t.closes && |end| == 1 && Ends(t, end[0])
    ensures IsTagText(t, "<" + t.name + end)
  {
    var v := "<" + t.name + end;
    assert v[..1] == "<" && v[1..1] == "" && v[1..|v| - 1] == t.name;
  }

  /** A search that passes over `x` and finds its tag right behind. */
  lemma FoundBehind(t: Tag, x: string, v: string, rest: string)
    requires Passes(t, x) && IsTagText(t, v)
    ensures Find(t, x + (v + rest)) == At(|x|, |v|)
  {
    hide Find, IsTagText;
    assert (v + rest)[..|v|] == v;
    TagAt(t, v + rest, |v|);
    assert Find(t, x + (v + rest)) == Shift(|x|, Find(t, v + rest));
  }

  /** A search that passes over all there is finds nothing. */
  lemma NothingFound(t: Tag, x: string)
    requires Passes(t, x)
    ensures Find(t, x) == Nowhere
  {
    assert x + "" == x;
    assert Find(t, x + "") == Shift(|x|, Find(t, ""));
  }

  // ----- attributes of printed tags -----

  /** Nowhere in `p + s` does the name stand before '=', as far as it stands within `p`. */
  predicate LacksAttribute(p: string, s: string, name: char) {
    forall i | 0 <= i < |p| && i + 1 < |p + s| && p[i] == name :: (p + s)[i + 1] != '='
  }

  lemma {:induction false} AttributeSkip(p: string, s: string, afterWord: bool, name: char, quotes: string,
        digits: bool)
    requires |s| >= 3 && LacksAttribute(p, s, name)
    ensures Attribute(p + s, afterWord, name, quotes, digits)
         == Attribute(s, if p == "" then afterWord else IsWord(p[|p| - 1]), name, quotes, digits)
  {
    hide ValueRun;
    if p == "" {
      assert p + s == s;
    } else {
      var q := p[1..];
      assert (p + s)[1..] == q + s && (p + s)[0] == p[0];
      assert forall i | 0 <= i < |q| && i + 1 < |q + s| && q[i] == name ::
               q[i] == p[i + 1] && (q + s)[i + 1] == (p + s)[i + 2];
      AttributeSkip(q, s, IsWord(p[0]), name, quotes, digits);
    }
  }

  lemma {:induction false} AttributeNone(s: string, afterWord: bool, name: char, quotes: string, digits: bool)
    requires LacksAttribute(s, "", name)
    ensures Attribute(s, afterWord, name, quotes, digits) == None
  {
    hide ValueRun;
    assert s + "" == s;
    if |s| >= 3 {
      var q := s[1..];
      assert q + "" == q;
      assert forall i | 0 <= i < |q| && i + 1 < |q| && q[i] == name :: q[i] == s[i + 1] && q[i + 1] == s[i + 2];
      AttributeNone(q, IsWord(s[0]), name, quotes, digits);
    }
  }

  lemma {:induction false} ValueRunStops(v: string, q: char, rest: string, quotes: string, digits: bool)
    requires q in quotes && !IsDigit(q) && forall k | 0 <= k < |v| :: ValueChar(v[k], quotes, digits)
    ensures ValueRun(v + ([q] + rest), quotes, digits) == |v|
  {
    var s := v + ([q] + rest);
    if v != "" {
      assert s[0] == v[0] && s[1..] == v[1..] + ([q] + rest);
      ValueRunStops(v[1..], q, rest, quotes, digits);
    }
  }

  /** An attribute is found, with either kind of quote that is allowed. */
  lemma AttributeFound(name: char, q: char, v: string, rest: string, quotes: string, digits: bool)
    requires v != "" && q in quotes && !IsDigit(q) && forall k | 0 <= k < |v| :: ValueChar(v[k], quotes, digits)
    ensures Attribute([name] + ("=" + ([q] + (v + ([q] + rest)))), false, name, quotes, digits) == Some(v)
  {
    hide ValueRun;
    var s := [name] + ("=" + ([q] + (v + ([q] + rest))));
    ValueRunStops(v, q, rest, quotes, digits);
    assert s[3..] == v + ([q] + rest);
    assert s[0] == name && s[1] == '=' && s[2] == q && s[3 + |v|] == q;
    assert s[3..3 + |v|] == v;
  }

  /** An attribute without a value is none. */
  lemma EmptyAttribute(name: char, q: char, rest: string, quotes: string, digits: bool)
    requires q in quotes && !IsDigit(q) && name != '=' && name != q && Lacks(rest, name)
    ensures Attribute([name] + ("=" + ([q] + ([q] + rest))), false, name, quotes, digits) == None
  {
    hide ValueRun;
    var s, after := [name] + ("=" + ([q] + ([q] + rest))), "=" + ([q] + ([q] + rest));
    assert s[0] == name && s[1] == '=' && s[2] == q && s[3..] == [q] + rest && s[1..] == after;
    ValueRunStops("", q, rest, quotes, digits);
    assert "" + ([q] + rest) == [q] + rest;
    assert Lacks(after, name);
    AttributeNone(after, IsWord(s[0]), name, quotes, digits);
  }

  /** The reference of a printed cell. */
  lemma RefRead(column: nat, line: nat, tail: string)
    ensures Attribute(RefAttr(column, line) + tail, false, 'r', "\"", false) == Some(Ref(column, line))
  {
    hide Ref, Attribute;
    var ref := Ref(column, line);
    RefIsPlain(column, line);
    var s := ['r'] + ("=" + (['"'] + (ref + (['"'] + tail))));
    assert RefAttr(column, line) + tail == " " + s;
    AttributeSkip(" ", s, false, 'r', "\"", false);
    AttributeFound('r', '"', ref, tail, "\"", false);
  }

  /** Its column. */
  lemma ColumnRead(column: nat, line: nat, tail: string, inner: string)
    ensures ColumnOf(Cell(RefAttr(column, line) + tail, inner)) == column
  {
    hide Attribute, WordOf, RefAttr;
    RefRead(column, line, tail);
    RefColumn(column, line);
  }

  lemma RefColumn(column: nat, line: nat)
    ensures ColIndex(Ref(column, line)) == column
  {
    hide WordOf, Decimals.Print, WordValue;
    var w, d := WordOf(column + 1), Decimals.Print(line);
    assert !IsLetter(d[0]);
    WordInReference(w, d);
    ValueOfWord(column + 1);
  }

  /** The line number of a printed row. */
  lemma LineRead(line: nat, rest: string)
    ensures LineOf(RowTag(line) + rest) == line
  {
    hide Attribute, Decimals.Print, NumberValue;
    var d := Decimals.Print(line);
    var s := ['r'] + ("=" + (['"'] + (d + (['"'] + (">" + rest)))));
    assert RowTag(line) + rest == "<row " + s;
    assert "<row "[4] == ' ' && "<row "[1] == 'r' && "<row "[2] == 'o';
    AttributeSkip("<row ", s, false, 'r', "\"", true);
    AttributeFound('r', '"', d, ">" + rest, "\"", true);
    NumberRead(d);
    Decimals.ReadPrint(line);
  }

  lemma {:induction false} NumberRead(d: string)
    requires Decimals.AllDigits(d)
    ensures NumberValue(d, 10) == Decimals.Read(d)
  {
    if d != "" { NumberRead(d[..|d| - 1]); }
  }
}
