/** What reading printed worksheets gives back, cell by cell, row by row and in any chunking. */
module SheetReadBack {
  import opened JsText
  import opened Tags
  import opened XmlText
  import opened SharedStrings
  import opened SheetCells
  import opened SheetRows
  import opened SheetPrint
  import Decimals

  // ----- values of printed cells -----

  /** The name of a tag token ends at `n`. */
  predicate NameEndsAt(v: string, n: nat) {
    1 < n < |v| && (forall k | 1 <= k < n :: NameChar(v[k])) && !NameChar(v[n]) && v[n] != ':'
  }

  /** A search for elements passes over a tag of another name. */
  lemma ContentsPastTag(v: string, n: nat, rest: string, close: Tag)
    requires IsTagToken(v) && close.name != "" && v[1] != close.name[0]
    requires NameEndsAt(v, n) || (v[1] == '/' && close.name[0] != '/')
    ensures Contents(v + rest, close) == Contents(rest, close)
  {
    hide Contents, OpensName;
    var all := v + rest;
    assert forall k | 0 <= k < |v| :: all[k] == v[k];
    if v[1] == '/' { ClosingName(all, close.name); } else { OtherName(all, n, close.name); }
    ContentsOne(all, close);
    assert all[1..] == v[1..] + rest;
    ContentsSkip(v[1..], rest, close);
  }

  lemma CellTagSkipped(attrs: string, rest: string, close: Tag)
    requires attrs != "" && attrs[0] == ' ' && IsPlain(attrs) && close in {T_CLOSE, V_CLOSE}
    ensures Contents(CellTag(attrs) + rest, close) == Contents(rest, close)
  {
    CellTagIsToken(attrs);
    assert CellTag(attrs)[1] == 'c' && CellTag(attrs)[2] == ' ';
    ContentsPastTag(CellTag(attrs), 2, rest, close);
  }

  lemma CellEndSkipped(close: Tag)
    requires close in {T_CLOSE, V_CLOSE}
    ensures Contents("</c>", close) == []
  {
    hide Contents;
    ContentsPastTag("</c>", 0, "", close);
    assert "</c>" + "" == "</c>";
    ContentsNone(close);
  }

  /** The tag that closes the element that holds the value. */
  function CloseOf(content: Content): Tag {
    if content.Inline? then T_CLOSE else V_CLOSE
  }

  lemma InlineContents(e: string)
    requires Lacks(e, '<')
    ensures Contents("<is>" + ("<t>" + (e + ("</t>" + "</is>"))) + "</c>", T_CLOSE) == [e]
  {
    hide Contents, ElementAt;
    var end := "</is>" + "</c>";
    var all := "<t>" + e + "</t>" + end;
    assert "<is>" + ("<t>" + (e + ("</t>" + "</is>"))) + "</c>" == "<is>" + all;
    assert "<is>"[1] == 'i' && "<is>"[2] == 's' && "<is>"[3] == '>';
    ContentsPastTag("<is>", 3, all, T_CLOSE);
    TextElement(T_CLOSE, e, end);
    assert "<" + "t" + ">" == "<t>" && "</" + "t" + ">" == "</t>";
    ContentsElement(all, T_CLOSE);
    assert all[|"<t>" + e + "</t>"|..] == end;
    ContentsPastTag("</is>", 0, "</c>", T_CLOSE);
    CellEndSkipped(T_CLOSE);
  }

  lemma ValueContents(d: string)
    requires Lacks(d, '<')
    ensures Contents("<v>" + (d + "</v>") + "</c>", V_CLOSE) == [d]
  {
    hide Contents, ElementAt;
    var all := "<v>" + d + "</v>" + "</c>";
    assert "<v>" + (d + "</v>") + "</c>" == all;
    TextElement(V_CLOSE, d, "</c>");
    assert "<" + "v" + ">" == "<v>" && "</" + "v" + ">" == "</v>";
    ContentsElement(all, V_CLOSE);
    assert all[|"<v>" + d + "</v>"|..] == "</c>";
    CellEndSkipped(V_CLOSE);
  }

  lemma InnerContents(content: Content)
    requires !content.Blank?
    ensures Contents(Inner(content) + "</c>", CloseOf(content)) == [Raw(content)]
  {
    hide Contents, Raw;
    RawIsClean(content);
    if content.Inline? { InlineContents(Raw(content)); } else { ValueContents(Raw(content)); }
  }

  /** The reading of an index undoes its printing. */
  ghost predicate ReadsIndices(ctx: CellContext) {
    forall n: nat :: ctx.toIndex(Decimals.Print(n)) == n
  }

  /** What a cell stands for: its text trimmed, the shared string of its index, the words for a boolean, or
      the text that the program gives a number. A formula's text that looks like a decimal is taken for a
      number; a number with an exponent is not, and stays as written. */
  function TextOf(content: Content, ctx: CellContext): string {
    match content
    case Blank => ""
    case Inline(text) => Trim(text)
    case Shared(index) => if index < |ctx.shared| then ctx.shared[index] else ""
    case Numeric(number) => if number.exponent.None? then ctx.numberText(NumberText(number)) else NumberText(number)
    case Flag(on) => if on then "TRUE" else "FALSE"
    case Formula(text) => if IsDecimal(Trim(text)) then ctx.numberText(Trim(text)) else Trim(text)
    case Error(code) => Trim(code)
  }

  lemma {:induction false} DigitsRun(d: string, rest: string)
    requires Decimals.AllDigits(d) && (rest == "" || !IsDigit(rest[0]))
    ensures ValueRun(d + rest, "", true) == |d|
  {
    if d == "" {
      assert d + rest == rest;
    } else {
      assert (d + rest)[1..] == d[1..] + rest && (d + rest)[0] == d[0];
      assert Decimals.AllDigits(d[1..]);
      DigitsRun(d[1..], rest);
    }
  }

  lemma {:induction false} RunIsDigits(s: string)
    ensures Decimals.AllDigits(s[..ValueRun(s, "", true)])
  {
    if s != "" && IsDigit(s[0]) {
      RunIsDigits(s[1..]);
      var r := ValueRun(s[1..], "", true);
      assert s[..1 + r] == [s[0]] + s[1..][..r];
    }
  }

  /** The number pattern takes a number exactly when it is written without exponent. */
  lemma NumberLooksDecimal(number: Number)
    ensures IsDecimal(NumberText(number)) <==> number.exponent.None?
  {
    hide ValueRun, AfterWhole;
    var s, body := NumberText(number), number.whole + AfterWhole(number);
    assert IsDigit(number.whole[0]);
    assert body == if s[0] == '-' then s[1..] else s;
    WholeTaken(number);
  }

  /** The same of the number without its sign. */
  lemma WholeTaken(number: Number)
    ensures
      var body := number.whole + AfterWhole(number);
      var r := ValueRun(body, "", true);
      && r == |number.whole|
      && (number.exponent.None? <==>
            r == |body|
            || (body[r] == '.' && r + 1 < |body| && ValueRun(body[r + 1..], "", true) == |body| - r - 1))
  {
    hide ValueRun, ExponentText;
    var rest, e := AfterWhole(number), ExponentText(number.exponent);
    var body := number.whole + rest;
    ExponentFront(number.exponent);
    DigitsRun(number.whole, rest);
    assert body[|number.whole|..] == rest;
    if number.fraction.Some? {
      DigitsRun(number.fraction.value, e);
      assert rest == "." + (number.fraction.value + e);
      assert body[|number.whole| + 1..] == number.fraction.value + e;
    }
  }

  lemma ExponentFront(exponent: Option<(bool, Numeral)>)
    ensures ExponentText(exponent) == "" <==> exponent.None?
    ensures exponent.Some? ==> ExponentText(exponent)[0] == 'E'
  {
  }

  /** The number that a text taken by the pattern is. */
  lemma DecimalIsNumber(s: string) returns (number: Number)
    requires IsDecimal(s)
    ensures number.exponent.None? && NumberText(number) == s
  {
    hide ValueRun;
    var body := if s[0] == '-' then s[1..] else s;
    var whole, fraction := DecimalParts(body);
    number := Number(s[0] == '-', whole, fraction, None);
    assert s == (if number.negative then "-" else "") + body;
  }

  /** Its digits before the point and behind it. */
  lemma DecimalParts(body: string) returns (whole: Numeral, fraction: Option<Numeral>)
    requires
      var r := ValueRun(body, "", true);
      r > 0 && (r == |body| ||
        (body[r] == '.' && r + 1 < |body| && ValueRun(body[r + 1..], "", true) == |body| - r - 1))
    ensures forall negative :: whole + AfterWhole(Number(negative, whole, fraction, None)) == body
  {
    hide ValueRun;
    var r := ValueRun(body, "", true);
    RunIsDigits(body);
    whole, fraction := body[..r], None;
    if r < |body| {
      RunIsDigits(body[r + 1..]);
      assert body[r + 1..][..|body| - r - 1] == body[r + 1..];
      fraction := Some(body[r + 1..]);
      assert body[r..] == "." + body[r + 1..];
    }
  }

  /** The pattern takes the numbers without exponent and nothing else. */
  lemma DecimalsAreNumbers(s: string)
    ensures IsDecimal(s) <==> exists number: Number :: number.exponent.None? && NumberText(number) == s
  {
    hide IsDecimal, NumberText;
    if number: Number :| number.exponent.None? && NumberText(number) == s { NumberLooksDecimal(number); }
    if IsDecimal(s) { var number := DecimalIsNumber(s); }
  }

  /** The types a cell with this content may have: a number has "n" or none. */
  predicate IsTypeOf(kind: string, content: Content) {
    kind == TypeName(content) || (content.Numeric? && kind == "n")
  }

  /** The kind of a cell, with whatever stands in front of its type attribute. */
  lemma KindRead(xml: string, p: string, content: Content, kind: string, quote: char)
    requires !content.Blank? && IsTypeOf(kind, content) && quote in "\"'" && Lacks(p, 't')
    requires xml == p + (TypeAttrIn(kind, quote) + (">" + (Inner(content) + "</c>")))
    ensures OrElse(Attribute(xml, false, 't', "\"'", false), "") == kind
  {
    hide Attribute, Inner, Lacks;
    if kind == "" {
      var rest := ">" + (Inner(content) + "</c>");
      NumberLacksType(content);
      assert xml == p + rest;
      LacksConcat(p, rest, 't');
      LackedAttribute(xml, "");
      AttributeNone(xml, false, 't', "\"'", false);
    } else {
      hide TypeAttrIn;
      TypedKind(p, kind, quote, Inner(content) + "</c>");
    }
  }

  lemma LackedAttribute(p: string, s: string)
    requires Lacks(p, 't')
    ensures LacksAttribute(p, s, 't')
  {
  }

  lemma TypedKind(p: string, kind: string, quote: char, after: string)
    requires kind in {"inlineStr", "s", "b", "str", "e", "n"} && quote in "\"'" && Lacks(p, 't')
    ensures Attribute(p + (TypeAttrIn(kind, quote) + (">" + after)), false, 't', "\"'", false) == Some(kind)
  {
    hide Attribute, TypeAttrIn;
    var rest, front := ">" + after, p + " ";
    TypedXml(p, kind, quote, after);
    assert Lacks(front, 't');
    var tail := ['t'] + ("=" + ([quote] + (kind + ([quote] + rest))));
    LackedAttribute(front, tail);
    AttributeSkip(front, tail, false, 't', "\"'", false);
    AttributeFound('t', quote, kind, rest, "\"'", false);
  }

  lemma NumberLacksType(content: Content)
    requires content.Numeric?
    ensures Lacks(">" + (Inner(content) + "</c>"), 't')
  {
    hide NumberText;
    NumberIsClean(content.number);
  }

  /** A cell with a value, with whatever stands in front of its type attribute. */
  lemma ContentValue(xml: string, p: string, content: Content, kind: string, quote: char, ctx: CellContext)
    requires !content.Blank? && ReadsIndices(ctx) && Lacks(p, 't')
    requires IsTypeOf(kind, content) && quote in "\"'"
    requires xml == p + (TypeAttrIn(kind, quote) + (">" + (Inner(content) + "</c>")))
    requires Contents(xml, CloseOf(content)) == Contents(Inner(content) + "</c>", CloseOf(content))
    ensures CellValue(xml, ctx) == TextOf(content, ctx)
  {
    hide Contents, Attribute, Inner, TypeAttrIn, Escaped, Decimals.Print, DecodeXml, Trim, NumberText, IsDecimal;
    KindRead(xml, p, content, kind, quote);
    InnerContents(content);
    RawDecoded(content);
    match content
    case Inline(text) =>
      assert DecodeAll([Raw(content)], true) == [DecodeXml(Raw(content), true)];
      assert Concat([Trim(text)]) == Trim(text) + Concat([]) == Trim(text);
    case Shared(index) =>
      assert DecodeXml(Raw(content), true) == Decimals.Print(index);
    case Numeric(number) =>
      NumberLooksDecimal(number);
      NumberTrimmed(number);
    case Flag(on) =>
      assert DecodeXml(Raw(content), true) == if on then "1" else "0";
    case Formula(text) =>
      assert |kind| == 3 && DecodeXml(Raw(content), true) == Trim(text);
      TrimAgain(text);
    case Error(code) =>
      assert DecodeXml(Raw(content), true) == Trim(code);
  }

  /** The same of a cell as it is printed here. */
  lemma PrintedValue(xml: string, p: string, content: Content, ctx: CellContext)
    requires !content.Blank? && ReadsIndices(ctx) && Lacks(p, 't')
    requires xml == p + (TypeAttr(content) + (">" + (Inner(content) + "</c>")))
    requires Contents(xml, CloseOf(content)) == Contents(Inner(content) + "</c>", CloseOf(content))
    ensures CellValue(xml, ctx) == TextOf(content, ctx)
  {
    hide TypeAttrIn, Contents, CellValue, TextOf, Inner, ReadsIndices;
    ContentValue(xml, p, content, TypeName(content), '"', ctx);
  }

  lemma TrimAgain(s: string)
    ensures Trim(Trim(s)) == Trim(s)
  {
    TrimIsTrimmed(s);
    TrimIsTrimmed(Trim(s));
  }

  /** What the value element holds once decoded. */
  lemma RawDecoded(content: Content)
    requires !content.Blank?
    ensures DecodeXml(Raw(content), true) ==
      match content
      case Inline(text) => Trim(text)
      case Formula(text) => Trim(text)
      case Error(code) => Trim(code)
      case _ => Raw(content)
  {
    hide Escaped, DecodeXml, Trim, NumberText, Decimals.Print;
    match content
    case Inline(text) => DecodedTrimmed(text);
    case Formula(text) => DecodedTrimmed(text);
    case Error(code) => DecodedTrimmed(code);
    case Shared(index) => CleanDecoded(Decimals.Print(index));
    case Flag(on) => CleanDecoded(Raw(content));
    case Numeric(number) =>
      NumberIsClean(number);
      CleanDecoded(NumberText(number));
  }

  lemma NumberTrimmed(number: Number)
    ensures Trim(NumberText(number)) == NumberText(number)
  {
    hide NumberText, Trim;
    NumberIsClean(number);
    TrimIsTrimmed(NumberText(number));
  }

  lemma DecodedTrimmed(text: string)
    ensures DecodeXml(Escaped(text, 0), true) == Trim(text)
  {
    hide Escaped, Trim, Unescape, DecodeRefs, StripCdata;
    DecodeInvertsEscape(text);
  }

  lemma CleanDecoded(d: string)
    requires d != "" && forall k | 0 <= k < |d| :: NumberChar(d[k])
    ensures DecodeXml(d, true) == d
  {
    hide Escaped, Trim, DecodeXml;
    CleanNotEscaped(d);
    DecodedTrimmed(d);
    TrimIsTrimmed(d);
  }

  lemma {:induction false} CleanNotEscaped(d: string)
    requires forall k | 0 <= k < |d| :: NumberChar(d[k])
    ensures Escaped(d, 0) == d
  {
    if d != "" {
      assert NumberChar(d[0]);
      CleanNotEscaped(d[1..]);
    }
  }

  lemma BlankRead(column: nat, line: nat, ctx: CellContext)
    ensures ValueOf(Cell(RefAttr(column, line), ""), ctx) == ""
  {
    hide Contents, Attribute, RefAttr;
    var attrs := RefAttr(column, line);
    var xml := "<c " + attrs + ">" + "" + "</c>";
    AttrsArePlain(column, line, Blank);
    assert xml == CellTag(" " + attrs) + "</c>";
    CellTagSkipped(" " + attrs, "</c>", V_CLOSE);
    CellEndSkipped(V_CLOSE);
    assert Lacks(xml, 't');
    AttributeNone(xml, false, 't', "\"'", false);
  }

  // ----- scanning the cells of a printed row -----

  /** A closed cell is read up to its own closing tag. */
  lemma ClosedCell(attrs: string, inner: string, rest: string)
    requires attrs != "" && attrs[0] == ' ' && IsPlain(attrs) && Passes(C_CLOSE, inner)
    ensures Next(CellTag(attrs) + (inner + ("</c>" + rest))) == NextCell(Cell(attrs, inner), rest)
  {
    hide Find, OpensName, AttrText, Passes, IsTagText, IndexOf;
    var body := inner + ("</c>" + rest);
    var s, g := CellTag(attrs) + body, 2 + |attrs|;
    CellTagEnds(attrs, body);
    OpensCell(attrs, body);
    AttrsBehindName(attrs);
    ClosingTagText(C_CLOSE);
    assert "</" + "c" + ">" == "</c>";
    FoundBehind(C_CLOSE, inner, "</c>", rest);
    assert body[..|inner|] == inner;
    assert s[g + 1 + |inner| + 4..] == rest;
  }

  lemma CellTagEnds(attrs: string, body: string)
    requires IsPlain(attrs)
    ensures
      var s, g := CellTag(attrs) + body, 2 + |attrs|;
      IndexOf(s, '>') == g && s[..g] == "<c" + attrs && s[g + 1..] == body
  {
    var s, g := CellTag(attrs) + body, 2 + |attrs|;
    assert forall k | 0 <= k <= g :: s[k] == CellTag(attrs)[k];
    assert CellTag(attrs)[..g] == "<c" + attrs == s[..g];
    assert s[g] == '>' && forall k | 0 <= k < g :: s[k] != '>';
    assert IndexOf(s, '>') == g;
    assert |CellTag(attrs)| == g + 1 && s[g + 1..] == body;
  }

  lemma OpensCell(attrs: string, body: string)
    requires attrs != "" && attrs[0] == ' '
    ensures OpensName(CellTag(attrs) + body, "c")
  {
    var s := CellTag(attrs) + body;
    assert s[0] == '<' && s[1] == 'c' && s[2] == ' ';
    assert s[1..][0..1] == "c" && s[1..][1] == ' ';
    assert NamedAt(s[1..], 0, "c");
  }

  lemma CellsOne(s: string)
    requires s != "" && !OpensName(s, "c")
    ensures Cells(s) == Cells(s[1..])
  {
    hide OpensName, Find, AttrText;
    assert CellAt(s).NoElement?;
    assert Next(s) == Next(s[1..]);
  }

  lemma {:induction false} CellsSkip(p: string, s: string)
    requires Lacks(p, '<')
    ensures Cells(p + s) == Cells(s)
  {
    hide Cells, OpensName;
    if p == "" {
      assert p + s == s;
    } else {
      NotAnOpening(p + s, "c");
      CellsOne(p + s);
      assert (p + s)[1..] == p[1..] + s;
      CellsSkip(p[1..], s);
    }
  }

  /** The scan for cells passes over a tag of another name. */
  lemma CellsPastTag(v: string, n: nat, rest: string)
    requires IsTagToken(v) && v[1] != 'c' && (NameEndsAt(v, n) || v[1] == '/')
    ensures Cells(v + rest) == Cells(rest)
  {
    hide Cells, OpensName;
    var all := v + rest;
    assert forall k | 0 <= k < |v| :: all[k] == v[k];
    if v[1] == '/' { ClosingName(all, "c"); } else { OtherName(all, n, "c"); }
    CellsOne(all);
    assert all[1..] == v[1..] + rest;
    CellsSkip(v[1..], rest);
  }

  lemma CellsNext(s: string, cell: Cell, rest: string)
    requires Next(s) == NextCell(cell, rest)
    ensures Cells(s) == [cell] + Cells(rest)
  {
  }

  lemma RowEndHasNone()
    ensures Cells("</row>") == [] && Passes(C_CLOSE, "</row>")
  {
    hide Passes;
    assert "</row>" + "" == "</row>";
    CellsPastTag("</row>", 0, "");
    assert Next("") == NoCell;
    ClosingPasses(C_CLOSE, "row");
    assert "</" + "row" + ">" == "</row>";
  }

  // ----- what a row of printed cells is read as -----

  /** How many self-closed cells stand in front. */
  function BlankCount(cells: seq<Written>): (n: nat)
    ensures n <= |cells| && (forall k | 0 <= k < n :: cells[k].content.Blank?)
    ensures n < |cells| ==> !cells[n].content.Blank?
  {
    if cells == [] || !cells[0].content.Blank? then 0 else 1 + BlankCount(cells[1..])
  }

  /** The cells the pattern sees: a run of self-closed cells and the closed cell behind it are one
      cell, in the column of the first. Self-closed cells at the end stay as they are. */
  function Collapsed(cells: seq<Written>): (seen: seq<Written>)
    ensures |seen| <= |cells|
    decreases |cells|
  {
    var n := BlankCount(cells);
    if n == |cells| then cells
    else [Written(cells[0].column, cells[n].content)] + Collapsed(cells[n + 1..])
  }

  /** The cell that the pattern finds at the front. */
  function FirstSeen(cells: seq<Written>, line: nat): Cell
    requires cells != []
  {
    var n, ref := BlankCount(cells), RefAttr(cells[0].column, line);
    if n == |cells| then Cell(ref, "")
    else if n == 0 then Cell(ref + TypeAttr(cells[0].content), Inner(cells[0].content))
    else Cell(ref + "/", PrintCells(cells[1..n], line)
                         + (CellTag(RefAttr(cells[n].column, line) + TypeAttr(cells[n].content))
                            + Inner(cells[n].content)))
  }

  lemma {:induction false} CellsSplit(cells: seq<Written>, n: nat, line: nat)
    requires n <= |cells|
    ensures PrintCells(cells, line) == PrintCells(cells[..n], line) + PrintCells(cells[n..], line)
  {
    hide PrintCell;
    if n > 0 {
      CellsSplit(cells[1..], n - 1, line);
      assert cells[..n][1..] == cells[1..][..n - 1] && cells[1..][n - 1..] == cells[n..];
    }
  }

  lemma OneCell(cells: seq<Written>, line: nat)
    requires cells != []
    ensures PrintCells(cells, line) == PrintCell(cells[0], line) + PrintCells(cells[1..], line)
  {
  }

  lemma ClosedFirst(cells: seq<Written>, line: nat, rest: string)
    requires cells != [] && !cells[0].content.Blank?
    ensures Cells(PrintCells(cells, line) + rest)
            == [FirstSeen(cells, line)] + Cells(PrintCells(cells[1..], line) + rest)
  {
    hide Cells, Next, Passes, Inner, RefAttr, TypeAttr, PrintCells;
    var cell, after := cells[0], PrintCells(cells[1..], line) + rest;
    var attrs, inner := RefAttr(cell.column, line) + TypeAttr(cell.content), Inner(cell.content);
    AttrsArePlain(cell.column, line, cell.content);
    InnerPasses(C_CLOSE, cell.content);
    OneCell(cells, line);
    assert PrintCells(cells, line) + rest == CellTag(attrs) + (inner + ("</c>" + after));
    ClosedCell(attrs, inner, after);
    CellsNext(PrintCells(cells, line) + rest, FirstSeen(cells, line), after);
  }

  lemma RunFirst(cells: seq<Written>, line: nat, rest: string)
    requires 0 < BlankCount(cells) < |cells|
    ensures Cells(PrintCells(cells, line) + rest)
         == [FirstSeen(cells, line)] + Cells(PrintCells(cells[BlankCount(cells) + 1..], line) + rest)
  {
    hide Cells, Next, Passes, Inner, RefAttr, TypeAttr, PrintCells, CellTag;
    var n := BlankCount(cells);
    var after, blanks := PrintCells(cells[n + 1..], line) + rest, PrintCells(cells[1..n], line);
    var attrs := RefAttr(cells[0].column, line) + "/";
    var open, inner := CellTag(RefAttr(cells[n].column, line) + TypeAttr(cells[n].content)), Inner(cells[n].content);
    AttrsArePlain(cells[0].column, line, Blank);
    AttrsArePlain(cells[n].column, line, cells[n].content);
    CellsPass(C_CLOSE, cells[1..n], line);
    CellTagPasses(C_CLOSE, RefAttr(cells[n].column, line) + TypeAttr(cells[n].content));
    InnerPasses(C_CLOSE, cells[n].content);
    PassBoth(C_CLOSE, open, inner);
    PassBoth(C_CLOSE, blanks, open + inner);
    RunText(cells, line);
    Gathered(CellTag(attrs), blanks, open, inner, "</c>", PrintCells(cells[n + 1..], line), rest);
    ClosedCell(attrs, blanks + (open + inner), after);
    CellsNext(PrintCells(cells, line) + rest, FirstSeen(cells, line), after);
  }

  lemma Gathered(tag: string, blanks: string, open: string, inner: string, end: string, others: string, rest: string)
    ensures (tag + (blanks + (open + (inner + end) + others))) + rest
         == tag + ((blanks + (open + inner)) + (end + (others + rest)))
  {
  }

  lemma RunText(cells: seq<Written>, line: nat)
    requires 0 < BlankCount(cells) < |cells|
    ensures
      var n := BlankCount(cells);
      PrintCells(cells, line) == CellTag(RefAttr(cells[0].column, line) + "/")
        + (PrintCells(cells[1..n], line)
           + (CellTag(RefAttr(cells[n].column, line) + TypeAttr(cells[n].content)) + (Inner(cells[n].content) + "</c>")
              + PrintCells(cells[n + 1..], line)))
  {
    hide Inner, RefAttr, TypeAttr, PrintCells, CellTag, BlankCount;
    var n := BlankCount(cells);
    OneCell(cells, line);
    CellsSplit(cells[1..], n - 1, line);
    OneCell(cells[n..], line);
    assert cells[1..][..n - 1] == cells[1..n] && cells[1..][n - 1..] == cells[n..] && cells[n..][1..] == cells[n + 1..];
  }

  lemma BlankText(cell: Written, line: nat, after: string)
    requires cell.content.Blank?
    ensures PrintCell(cell, line) + after == "<c" + RefAttr(cell.column, line) + "/>" + after
  {
    hide RefAttr;
  }

  lemma SelfClosedFirst(attrs: string, after: string)
    requires IsPlain(attrs) && attrs != "" && attrs[0] == ' ' && Passes(C_CLOSE, after)
    ensures Cells("<c" + attrs + "/>" + after) == [Cell(attrs, "")] + Cells(after)
  {
    hide Cells, Next, Passes, Find;
    NothingFound(C_CLOSE, after);
    SelfClosedCell(attrs, after);
    CellsNext("<c" + attrs + "/>" + after, Cell(attrs, ""), after);
  }

  lemma BlankFirst(cells: seq<Written>, line: nat, rest: string)
    requires cells != [] && BlankCount(cells) == |cells| && Passes(C_CLOSE, rest)
    ensures Cells(PrintCells(cells, line) + rest)
            == [FirstSeen(cells, line)] + Cells(PrintCells(cells[1..], line) + rest)
  {
    hide Cells, Passes, RefAttr, PrintCells, PrintCell;
    var after := PrintCells(cells[1..], line) + rest;
    AttrsArePlain(cells[0].column, line, Blank);
    CellsPass(C_CLOSE, cells[1..], line);
    PassBoth(C_CLOSE, PrintCells(cells[1..], line), rest);
    OneCell(cells, line);
    assert PrintCells(cells, line) + rest == PrintCell(cells[0], line) + after;
    BlankText(cells[0], line, after);
    SelfClosedFirst(RefAttr(cells[0].column, line), after);
  }

  /** The cell found stands for the written one. */
  predicate ReadsAs(cell: Cell, written: Written, ctx: CellContext) {
    ColumnOf(cell) == written.column && ValueOf(cell, ctx) == TextOf(written.content, ctx)
  }

  lemma {:induction false} BlanksSkipped(blanks: seq<Written>, line: nat, rest: string, close: Tag)
    requires close in {T_CLOSE, V_CLOSE} && forall k | 0 <= k < |blanks| :: blanks[k].content.Blank?
    ensures Contents(PrintCells(blanks, line) + rest, close) == Contents(rest, close)
  {
    hide Contents, RefAttr, CellTag;
    if blanks == [] {
      assert "" + rest == rest;
    } else {
      var attrs, after := RefAttr(blanks[0].column, line) + "/", PrintCells(blanks[1..], line) + rest;
      AttrsArePlain(blanks[0].column, line, Blank);
      assert PrintCells(blanks, line) + rest == CellTag(attrs) + after;
      CellTagSkipped(attrs, after, close);
      BlanksSkipped(blanks[1..], line, rest, close);
    }
  }

  lemma {:induction false} BlanksLackType(blanks: seq<Written>, line: nat)
    requires forall k | 0 <= k < |blanks| :: blanks[k].content.Blank?
    ensures Lacks(PrintCells(blanks, line), 't')
  {
    hide RefAttr;
    if blanks != [] {
      AttrsArePlain(blanks[0].column, line, Blank);
      BlanksLackType(blanks[1..], line);
    }
  }

  lemma ClosedRead(cells: seq<Written>, line: nat, ctx: CellContext)
    requires cells != [] && !cells[0].content.Blank? && ReadsIndices(ctx)
    ensures ReadsAs(FirstSeen(cells, line), Written(cells[0].column, cells[0].content), ctx)
  {
    hide Inner, CellValue, Contents, RefAttr, TextOf, CellTag, ColIndex, TypeName, ReadsIndices;
    var content, ref := cells[0].content, RefAttr(cells[0].column, line);
    var rest := Inner(content) + "</c>";
    ColumnRead(cells[0].column, line, TypeAttr(content), Inner(content));
    AttrsArePlain(cells[0].column, line, content);
    var xml := "<c " + (ref + TypeAttr(content)) + ">" + Inner(content) + "</c>";
    assert xml == ("<c " + ref) + (TypeAttr(content) + (">" + rest));
    assert xml == CellTag(" " + (ref + TypeAttr(content))) + rest by { TagText(ref + TypeAttr(content), rest); }
    CellTagSkipped(" " + (ref + TypeAttr(content)), rest, CloseOf(content));
    PrintedValue(xml, "<c " + ref, content, ctx);
  }

  lemma TagText(attrs: string, rest: string)
    ensures CellTag(" " + attrs) + rest == "<c " + attrs + (">" + rest)
  {
  }

  /** The text of a cell, seen from its type attribute. */
  lemma TypedXml(front: string, kind: string, quote: char, rest: string)
    requires kind != ""
    ensures front + (TypeAttrIn(kind, quote) + (">" + rest))
         == (front + " ") + (['t'] + ("=" + ([quote] + (kind + ([quote] + (">" + rest))))))
  {
    Regrouped(['t'], "=", [quote], kind, ">" + rest);
    Spaced(front, ['t'] + ("=" + ([quote] + (kind + [quote]))), ">" + rest);
  }

  lemma Regrouped(a: string, b: string, q: string, kind: string, rest: string)
    ensures (a + (b + (q + (kind + q)))) + rest == a + (b + (q + (kind + (q + rest))))
  {
  }

  lemma Spaced(front: string, a: string, rest: string)
    ensures front + ((" " + a) + rest) == (front + " ") + (a + rest)
  {
  }

  /** The text of a run, as its tags follow each other and as seen from the type of the closed cell. */
  lemma RunXml(attrs: string, blanks: string, y: string, content: Content, inner: string)
    ensures
      var xml, rest := "<c " + attrs + ">" + (blanks + (CellTag(y + TypeAttr(content)) + inner)) + "</c>",
        inner + "</c>";
      && xml == CellTag(" " + attrs) + (blanks + (CellTag(y + TypeAttr(content)) + rest))
      && xml == ("<c " + attrs + ">" + blanks + "<c" + y) + (TypeAttr(content) + (">" + rest))
  {
    hide TypeAttr;
    var rest := inner + "</c>";
    var front := "<c " + attrs + ">" + blanks + "<c" + y;
    assert CellTag(y + TypeAttr(content)) + rest == "<c" + y + TypeAttr(content) + (">" + rest);
    TagText(attrs, blanks + (CellTag(y + TypeAttr(content)) + rest));
    assert front + TypeAttr(content) + (">" + rest) == front + (TypeAttr(content) + (">" + rest));
  }

  lemma RunContents(cells: seq<Written>, line: nat)
    requires 0 < BlankCount(cells) < |cells|
    ensures
      var n := BlankCount(cells);
      var content, y := cells[n].content, RefAttr(cells[n].column, line);
      var rest := Inner(content) + "</c>";
      Contents(CellTag(" " + (RefAttr(cells[0].column, line) + "/"))
                 + (PrintCells(cells[1..n], line) + (CellTag(y + TypeAttr(content)) + rest)), CloseOf(content))
      == Contents(rest, CloseOf(content))
  {
    hide Inner, Contents, RefAttr, CellTag, PrintCells, TypeAttr, BlankCount;
    var n := BlankCount(cells);
    var content, x, y := cells[n].content, RefAttr(cells[0].column, line), RefAttr(cells[n].column, line);
    var rest, blanks := Inner(content) + "</c>", PrintCells(cells[1..n], line);
    var after := CellTag(y + TypeAttr(content)) + rest;
    AttrsArePlain(cells[0].column, line, Blank);
    AttrsArePlain(cells[n].column, line, content);
    CellTagSkipped(" " + (x + "/"), blanks + after, CloseOf(content));
    BlanksSkipped(cells[1..n], line, after, CloseOf(content));
    CellTagSkipped(y + TypeAttr(content), rest, CloseOf(content));
  }

  lemma RunRead(cells: seq<Written>, line: nat, ctx: CellContext)
    requires 0 < BlankCount(cells) < |cells| && ReadsIndices(ctx)
    ensures ReadsAs(FirstSeen(cells, line), Written(cells[0].column, cells[BlankCount(cells)].content), ctx)
  {
    hide Inner, CellValue, Contents, RefAttr, TextOf, CellTag, ColIndex, TypeName, ReadsIndices, PrintCells, TypeAttr;
    hide BlankCount, ColumnOf;
    var n := BlankCount(cells);
    var content, x, y := cells[n].content, RefAttr(cells[0].column, line), RefAttr(cells[n].column, line);
    var blanks, inner := PrintCells(cells[1..n], line), Inner(content);
    var all := blanks + (CellTag(y + TypeAttr(content)) + inner);
    var p := "<c " + (x + "/") + ">" + blanks + "<c" + y;
    ColumnRead(cells[0].column, line, "/", all);
    RunPrefix(cells, line);
    RunXml(x + "/", blanks, y, content, inner);
    RunContents(cells, line);
    PrintedValue("<c " + (x + "/") + ">" + all + "</c>", p, content, ctx);
  }

  lemma RunPrefix(cells: seq<Written>, line: nat)
    requires 0 < BlankCount(cells) < |cells|
    ensures
      var n := BlankCount(cells);
      Lacks("<c " + (RefAttr(cells[0].column, line) + "/") + ">" + PrintCells(cells[1..n], line)
            + "<c" + RefAttr(cells[n].column, line), 't')
  {
    hide RefAttr, PrintCells, BlankCount;
    var n := BlankCount(cells);
    AttrsArePlain(cells[0].column, line, Blank);
    AttrsArePlain(cells[n].column, line, Blank);
    BlanksLackType(cells[1..n], line);
  }

  lemma BlankSeen(cells: seq<Written>, line: nat, ctx: CellContext)
    requires cells != [] && BlankCount(cells) == |cells|
    ensures ReadsAs(FirstSeen(cells, line), cells[0], ctx)
  {
    hide ColumnOf, ValueOf, RefAttr;
    assert RefAttr(cells[0].column, line) + "" == RefAttr(cells[0].column, line);
    ColumnRead(cells[0].column, line, "", "");
    BlankRead(cells[0].column, line, ctx);
  }

  /** The first collapsed cell, and the written cells behind it. */
  function FirstCollapsed(cells: seq<Written>): Written
    requires cells != []
  {
    var n := BlankCount(cells);
    if n == |cells| then cells[0] else Written(cells[0].column, cells[n].content)
  }

  function Behind(cells: seq<Written>): (others: seq<Written>)
    requires cells != []
    ensures |others| < |cells|
  {
    var n := BlankCount(cells);
    if n == |cells| then cells[1..] else cells[n + 1..]
  }

  lemma FirstCellRead(cells: seq<Written>, line: nat, ctx: CellContext)
    requires cells != [] && ReadsIndices(ctx)
    ensures Cells(PrintCells(cells, line) + "</row>")
         == [FirstSeen(cells, line)] + Cells(PrintCells(Behind(cells), line) + "</row>")
    ensures ReadsAs(FirstSeen(cells, line), FirstCollapsed(cells), ctx)
  {
    hide Cells, Passes, PrintCells, FirstSeen, ReadsAs, ReadsIndices;
    RowEndHasNone();
    var n := BlankCount(cells);
    if n == |cells| {
      BlankFirst(cells, line, "</row>");
      BlankSeen(cells, line, ctx);
    } else if n == 0 {
      ClosedFirst(cells, line, "</row>");
      ClosedRead(cells, line, ctx);
    } else {
      RunFirst(cells, line, "</row>");
      RunRead(cells, line, ctx);
    }
  }

  /** Every row of printed cells is read as the collapsed one. */
  lemma {:induction false} PrintedCellsRead(cells: seq<Written>, line: nat, ctx: CellContext)
      returns (all: seq<Cell>)
    requires ReadsIndices(ctx)
    ensures Cells(PrintCells(cells, line) + "</row>") == all && |all| == |Collapsed(cells)|
    ensures forall k | 0 <= k < |all| :: ReadsAs(all[k], Collapsed(cells)[k], ctx)
    decreases |cells|
  {
    hide Cells, PrintCells, FirstSeen, ReadsAs, ReadsIndices, FirstCollapsed, Behind;
    if cells == [] {
      RowEndHasNone();
      NoCells(line);
      all := [];
    } else {
      hide Collapsed;
      FirstCellRead(cells, line, ctx);
      CollapsedStep(cells);
      var others := PrintedCellsRead(Behind(cells), line, ctx);
      all := [FirstSeen(cells, line)] + others;
    }
  }

  lemma NoCells(line: nat)
    ensures PrintCells([], line) + "</row>" == "</row>"
  {
  }

  lemma CollapsedStep(cells: seq<Written>)
    requires cells != []
    ensures Collapsed(cells) == [FirstCollapsed(cells)] + Collapsed(Behind(cells))
  {
    if BlankCount(cells) == |cells| {
      assert BlankCount(cells[1..]) == |cells| - 1;
      assert cells == [cells[0]] + cells[1..];
    }
  }

  // ----- rows -----

  function WrittenWidth(cells: seq<Written>): nat {
    if cells == [] then 0 else
    var w, c := WrittenWidth(cells[..|cells| - 1]), cells[|cells| - 1].column;
    if c >= w then c + 1 else w
  }

  /** What the last cell in column `k` stands for, or the empty string. */
  function TextIn(cells: seq<Written>, k: nat, ctx: CellContext): string {
    if cells == [] then "" else
    var last := cells[|cells| - 1];
    if last.column == k then TextOf(last.content, ctx) else TextIn(cells[..|cells| - 1], k, ctx)
  }

  /** What the writer means: a dense row. */
  function Meant(row: WrittenRow, ctx: CellContext): SheetRow {
    SheetRow(row.line, seq(WrittenWidth(row.cells), k requires 0 <= k => TextIn(row.cells, k, ctx)))
  }

  /** The row as the pattern sees it. */
  function Seen(row: WrittenRow): WrittenRow {
    row.(cells := Collapsed(row.cells))
  }

  lemma {:induction false} CellsMeant(all: seq<Cell>, cells: seq<Written>, k: nat, ctx: CellContext)
    requires |all| == |cells| && forall i | 0 <= i < |all| :: ReadsAs(all[i], cells[i], ctx)
    ensures Width(all) == WrittenWidth(cells)
    ensures LastIn(all, k, ctx) == TextIn(cells, k, ctx)
  {
    hide ColumnOf, ValueOf, TextOf;
    if cells != [] {
      var n := |cells| - 1;
      CellsMeant(all[..n], cells[..n], k, ctx);
      assert ReadsAs(all[n], cells[n], ctx);
    }
  }

  /** Every printed row reads back as the dense row of its collapsed cells. */
  lemma PrintedRowRead(row: WrittenRow, ctx: CellContext)
    requires ReadsIndices(ctx)
    ensures RowOf(PrintRow(row), ctx) == Meant(Seen(row), ctx)
  {
    hide Cells, LineOf, PrintCells, LastIn, Width, TextIn, WrittenWidth, Collapsed, ReadsAs, ReadsIndices;
    var rest := PrintCells(row.cells, row.line) + "</row>";
    LineRead(row.line, rest);
    RowTagIsToken(row.line);
    CellsPastTag(RowTag(row.line), 4, rest);
    var all := PrintedCellsRead(row.cells, row.line, ctx);
    var seen := Collapsed(row.cells);
    forall k: nat ensures LastIn(all, k, ctx) == TextIn(seen, k, ctx) {
      CellsMeant(all, seen, k, ctx);
    }
    CellsMeant(all, seen, 0, ctx);
  }

  // ----- exactly when a row reads back as meant -----

  /** Self-closed cells come only after all others. */
  predicate BlanksLast(cells: seq<Written>) {
    forall i, j | 0 <= i < j < |cells| && cells[i].content.Blank? :: cells[j].content.Blank?
  }

  predicate Increasing(cells: seq<Written>) {
    forall i, j | 0 <= i < j < |cells| :: cells[i].column < cells[j].column
  }

  /** Every closed cell stands for a text. */
  predicate Filled(cells: seq<Written>, ctx: CellContext) {
    forall i | 0 <= i < |cells| && !cells[i].content.Blank? :: TextOf(cells[i].content, ctx) != ""
  }

  lemma {:induction false} CollapsedSame(cells: seq<Written>)
    requires BlanksLast(cells)
    ensures Collapsed(cells) == cells
    decreases |cells|
  {
    if BlankCount(cells) < |cells| {
      assert BlankCount(cells) == 0;
      CollapsedSame(cells[1..]);
    }
  }

  lemma {:induction false} CollapsedIncreasing(cells: seq<Written>)
    requires Increasing(cells)
    ensures Increasing(Collapsed(cells))
    ensures forall k | 0 <= k < |Collapsed(cells)| :: Collapsed(cells)[k].column >= cells[0].column
    decreases |cells|
  {
    var n := BlankCount(cells);
    if n < |cells| {
      CollapsedIncreasing(cells[n + 1..]);
    }
  }

  lemma FilledHead(cells: seq<Written>)
    requires cells != [] && !cells[0].content.Blank?
    ensures Collapsed(cells) == [cells[0]] + Collapsed(cells[1..])
  {
  }

  lemma {:induction false} CollapsedAt(cells: seq<Written>, f: nat)
    requires f < |cells| && forall k | 0 <= k < f :: !cells[k].content.Blank?
    ensures f < |Collapsed(cells)| && Collapsed(cells)[f] == FirstCollapsed(cells[f..])
  {
    hide Collapsed, FirstCollapsed, BlankCount;
    if f == 0 {
      CollapsedStep(cells);
      assert cells[0..] == cells;
    } else {
      FilledHead(cells);
      CollapsedAt(cells[1..], f - 1);
      assert cells[1..][f - 1..] == cells[f..];
    }
  }

  /** How many closed cells stand in front. */
  function FilledCount(cells: seq<Written>): (f: nat)
    ensures f <= |cells| && (forall k | 0 <= k < f :: !cells[k].content.Blank?)
    ensures f < |cells| ==> cells[f].content.Blank?
  {
    if cells == [] || cells[0].content.Blank? then 0 else 1 + FilledCount(cells[1..])
  }

  lemma BlanksAtEnd(cells: seq<Written>, f: nat)
    requires f <= |cells| && forall k | 0 <= k < f :: !cells[k].content.Blank?
    requires forall k | f <= k < |cells| :: cells[k].content.Blank?
    ensures BlanksLast(cells)
  {
  }

  /** A closed cell appears where the first self-closed one was written. */
  lemma CollapsedMoves(cells: seq<Written>) returns (f: nat, j: nat)
    requires !BlanksLast(cells)
    ensures f < |cells| && f < |Collapsed(cells)| && j < |cells|
    ensures cells[f].content.Blank? && Collapsed(cells)[f] == Written(cells[f].column, cells[j].content)
    ensures !cells[j].content.Blank?
  {
    hide Collapsed, FilledCount, BlankCount, BlanksLast;
    f := FilledCount(cells);
    var back := cells[f..];
    assert forall k | f <= k < |cells| :: cells[k] == back[k - f];
    var n := BlankCount(back);
    if n == |back| { BlanksAtEnd(cells, f); }
    j := f + n;
    CollapsedAt(cells, f);
  }

  lemma {:induction false} TextAt(cells: seq<Written>, i: nat, ctx: CellContext)
    requires Increasing(cells) && i < |cells|
    ensures TextIn(cells, cells[i].column, ctx) == TextOf(cells[i].content, ctx)
    ensures cells[i].column < WrittenWidth(cells)
  {
    hide TextOf;
    var n := |cells| - 1;
    if i < n { TextAt(cells[..n], i, ctx); }
  }

  /** With the columns in order and no closed cell empty, a row reads back as meant exactly when no
      closed cell follows a self-closed one. */
  lemma RowReadsBackIff(row: WrittenRow, ctx: CellContext)
    requires ReadsIndices(ctx) && Increasing(row.cells) && Filled(row.cells, ctx)
    ensures RowOf(PrintRow(row), ctx) == Meant(row, ctx) <==> BlanksLast(row.cells)
  {
    hide RowOf, PrintRow, TextIn, WrittenWidth, Collapsed, Increasing, ReadsIndices;
    PrintedRowRead(row, ctx);
    if BlanksLast(row.cells) {
      CollapsedSame(row.cells);
    } else {
      var seen := Collapsed(row.cells);
      var f, j := CollapsedMoves(row.cells);
      CollapsedIncreasing(row.cells);
      TextAt(row.cells, f, ctx);
      TextAt(seen, f, ctx);
      var k := row.cells[f].column;
      assert Meant(row, ctx).values[k] == "" && Meant(Seen(row), ctx).values[k] != "";
    }
  }

  /** In a row of a self-closed cell and a closed one, the text lands in the column of the first. */
  lemma BlankTakesNeighboursText(a: nat, b: nat, line: nat, content: Content, ctx: CellContext)
    requires ReadsIndices(ctx) && !content.Blank?
    ensures
      var read := RowOf(PrintRow(WrittenRow(line, [Written(a, Blank), Written(b, content)])), ctx);
      && |read.values| == a + 1
      && forall k | 0 <= k <= a :: read.values[k] == if k == a then TextOf(content, ctx) else ""
  {
    hide RowOf, PrintRow, TextOf, ReadsIndices;
    var cells, one := [Written(a, Blank), Written(b, content)], Written(a, content);
    PrintedRowRead(WrittenRow(line, cells), ctx);
    assert cells[1..] == [Written(b, content)];
    assert BlankCount(cells[1..]) == 0 && BlankCount(cells) == 1;
    assert cells[2..] == [] && Collapsed([]) == [];
    assert Collapsed(cells) == [one];
    assert [one][..0] == [];
    assert WrittenWidth([one]) == a + 1;
    forall k: nat ensures TextIn([one], k, ctx) == if k == a then TextOf(content, ctx) else "" {
    }
  }

  // ----- the row elements of a printed sheet -----

  lemma RowTagIsToken(line: nat)
    ensures IsTagToken(RowTag(line)) && NameEndsAt(RowTag(line), 4) && RowTag(line)[1] == 'r'
    ensures |RowTag(line)| > 6 && RowTag(line)[..5] == "<row " && RowTag(line)[|RowTag(line)| - 2] == '"'
  {
    hide Decimals.Print;
    var d := Decimals.Print(line);
    assert forall k | 0 <= k < |d| :: IsDigit(d[k]);
    assert RowTag(line) == "<row r=\"" + (d + "\">");
    assert "<row r=\""[4] == ' ' && "<row r=\""[1] == 'r' && "<row r=\""[2] == 'o' && "<row r=\""[3] == 'w';
  }

  lemma RowTagPasses(t: Tag, line: nat)
    requires t.closes
    ensures Passes(t, RowTag(line))
  {
    hide Passes, RowTag;
    RowTagIsToken(line);
    AvoidsClosing(t, RowTag(line));
    PassTag(t, RowTag(line));
  }

  lemma RowTagFound(s: string)
    requires |s| > 5 && s[..5] == "<row "
    ensures Find(ROW_OPEN, s) == At(0, 5)
  {
    hide Find, IsTagText;
    OpeningTagText(ROW_OPEN, " ");
    assert "<" + "row" + " " == "<row ";
    TagAt(ROW_OPEN, s, 5);
  }

  /** A printed row is the first row of the text, up to its end. */
  lemma PrintedRowFirst(row: WrittenRow, rest: string)
    ensures RowsIn(PrintRow(row) + rest) == [PrintRow(row)] + RowsIn(rest)
  {
    hide Find, RowsIn, Passes, RowLen, RowTag, PrintRow;
    var s := PrintRow(row) + rest;
    PrintedRowLength(row, rest);
    RowTagFound(s);
    assert "" + s == s;
    RowsBehind("", s);
    assert s[..|PrintRow(row)|] == PrintRow(row) && s[|PrintRow(row)|..] == rest;
  }

  /** A printed row starts with its tag and ends with its closing tag. */
  lemma PrintedRowLength(row: WrittenRow, rest: string)
    ensures
      var s := PrintRow(row) + rest;
      RowLen(s) == |PrintRow(row)| && |PrintRow(row)| > 5 && s[..5] == "<row "
  {
    hide Find, Passes, RowTag, PrintCells, IsTagText;
    var v, cells := RowTag(row.line), PrintCells(row.cells, row.line);
    var s := PrintRow(row) + rest;
    assert s == v + (cells + ("</row>" + rest)) && s == (v + cells) + ("</row>" + rest);
    RowTagIsToken(row.line);
    assert forall k | 0 <= k < |v| :: s[k] == v[k];
    assert IndexOf(s, '>') == |v| - 1;
    assert s[..5] == v[..5];
    RowEndFound(row, rest);
  }

  lemma RowEndFound(row: WrittenRow, rest: string)
    ensures
      var open := RowTag(row.line) + PrintCells(row.cells, row.line);
      Find(ROW_CLOSE, open + ("</row>" + rest)) == At(|open|, 6)
  {
    hide Find, Passes, RowTag, PrintCells, IsTagText;
    var v, cells := RowTag(row.line), PrintCells(row.cells, row.line);
    RowTagPasses(ROW_CLOSE, row.line);
    CellsPass(ROW_CLOSE, row.cells, row.line);
    PassBoth(ROW_CLOSE, v, cells);
    ClosingTagText(ROW_CLOSE);
    assert "</" + "row" + ">" == "</row>";
    FoundBehind(ROW_CLOSE, v + cells, "</row>", rest);
  }

  function Printed(rows: seq<WrittenRow>): (all: seq<string>)
    ensures |all| == |rows| && forall k | 0 <= k < |rows| :: all[k] == PrintRow(rows[k])
  {
    if rows == [] then [] else [PrintRow(rows[0])] + Printed(rows[1..])
  }

  lemma {:induction false} PrintedRowsFound(rows: seq<WrittenRow>)
    ensures RowsIn(PrintRows(rows)) == Printed(rows)
  {
    hide RowsIn, PrintRow;
    if rows == [] {
      NoRowsInNothing();
    } else {
      PrintedRowFirst(rows[0], PrintRows(rows[1..]));
      PrintedRowsFound(rows[1..]);
    }
  }

  lemma NoRowsInNothing()
    ensures RowsIn("") == []
  {
    FindNothing(ROW_OPEN);
    RowsNone("");
  }

  lemma {:induction false} RowsPass(rows: seq<WrittenRow>)
    ensures Passes(SHEET_CLOSE, PrintRows(rows))
  {
    hide Passes, PrintCells, RowTag;
    if rows == [] {
      PassText(SHEET_CLOSE, "");
    } else {
      var row := rows[0];
      RowTagPasses(SHEET_CLOSE, row.line);
      CellsPass(SHEET_CLOSE, row.cells, row.line);
      ClosingPasses(SHEET_CLOSE, "row");
      assert "</" + "row" + ">" == "</row>";
      PassBoth(SHEET_CLOSE, PrintCells(row.cells, row.line), "</row>");
      PassBoth(SHEET_CLOSE, RowTag(row.line), PrintCells(row.cells, row.line) + "</row>");
      RowsPass(rows[1..]);
      PassBoth(SHEET_CLOSE, PrintRow(row), PrintRows(rows[1..]));
    }
  }

  /** The row tag is not found within the opening tag of the sheet data. */
  lemma SheetTagHasNoRow()
    ensures Passes(ROW_OPEN, "<sheetData>")
  {
    hide Passes;
    var v := "<sheetData>";
    assert IsTagToken(v);
    forall n | 0 <= n <= |v| ensures !IsTagText(ROW_OPEN, v[..n]) {
      assert forall k | 0 <= k < |v| :: v[k] != ':' && v[k] != ' ';
      assert v[1] == 's';
      if n == 5 {
        assert v[..n][1..4][0] == v[1];
      } else if n > 5 {
        assert v[..n][1..n - 4][n - 6] == v[n - 5];
      }
    }
    PassTag(ROW_OPEN, v);
  }

  lemma FoundInFront(t: Tag, v: string, w: string)
    requires IsTagText(t, v)
    ensures Find(t, v + w) == At(0, |v|)
  {
    hide Find, IsTagText;
    assert (v + w)[..|v|] == v;
    TagAt(t, v + w, |v|);
  }

  lemma SheetStart(w: string)
    ensures Find(SHEET_OPEN, "<sheetData>" + w) == At(0, 11)
  {
    hide Find, IsTagText;
    SheetTagText();
    FoundInFront(SHEET_OPEN, "<sheetData>", w);
  }

  lemma SheetTagSpelled()
    ensures "<sheetData>" == "<" + SHEET_OPEN.name + ">"
  {
    SpelledTag(SHEET_OPEN.name, "<sheetData>");
  }

  lemma SpelledTag(name: string, v: string)
    requires |v| == |name| + 2 && v[0] == '<' && v[|v| - 1] == '>'
    requires forall k | 0 <= k < |name| :: v[k + 1] == name[k]
    ensures v == "<" + name + ">"
  {
  }

  lemma SheetTagText()
    ensures IsTagText(SHEET_OPEN, "<sheetData>")
  {
    hide IsTagText;
    SheetTagSpelled();
    OpeningTagText(SHEET_OPEN, ">");
  }

  lemma SheetEnd(body: string)
    requires Passes(SHEET_CLOSE, body)
    ensures UpToClose(body + "</sheetData>") == body
  {
    hide Find, Passes, IsTagText, IsPrefix;
    ClosingTagText(SHEET_CLOSE);
    var v := "</sheetData>";
    assert "</" + "sheetData" + ">" == v && v + "" == v;
    FoundBehind(SHEET_CLOSE, body, v, "");
    assert (body + v)[..|body|] == body;
  }

  lemma PrintedSheetFound(rows: seq<WrittenRow>)
    ensures SheetText(PrintSheet(rows)) == Printed(rows)
  {
    hide Find, RowsIn, Passes, PrintRows, Printed, UpToClose;
    var open, body := "<sheetData>", PrintRows(rows);
    var text := PrintSheet(rows);
    SheetStart(body + "</sheetData>");
    assert text == (open + body) + "</sheetData>" && text[0..] == text;
    OpeningPasses(SHEET_CLOSE, "sheetData");
    assert "<" + "sheetData" + ">" == open;
    RowsPass(rows);
    PassBoth(SHEET_CLOSE, open, body);
    SheetEnd(open + body);
    SheetTagHasNoRow();
    PassedFront(ROW_OPEN, open, body);
    RowsPast(open, body);
    PrintedRowsFound(rows);
  }

  lemma PassedFront(t: Tag, x: string, w: string)
    requires Passes(t, x)
    ensures Find(t, x + w) == Shift(|x|, Find(t, w))
  {
  }

  // ----- the round trip -----

  lemma CellTagsShort(cell: Written, line: nat)
    ensures ShortTags(PrintCell(cell, line), 11)
  {
    hide RefAttr, TypeAttr, Inner, ShortTags;
    var attrs := RefAttr(cell.column, line);
    AttrsArePlain(cell.column, line, cell.content);
    if cell.content.Blank? {
      ShortTag(CellTag(attrs + "/"), 2);
    } else {
      ShortTag(CellTag(attrs + TypeAttr(cell.content)), 2);
      ShortTag("</c>", 3);
      InnerShort(cell.content);
      ShortTagsConcat(Inner(cell.content), "</c>", 11);
      ShortTagsConcat(CellTag(attrs + TypeAttr(cell.content)), Inner(cell.content) + "</c>", 11);
    }
  }

  lemma InnerShort(content: Content)
    ensures ShortTags(Inner(content), 11)
  {
    hide Raw, ShortTags;
    var e := Raw(content);
    RawIsClean(content);
    match content
    case Blank =>
      NoTagsShort("");
    case Inline(_) =>
      ShortTag("<is>", 3);
      ShortTag("<t>", 2);
      ShortTag("</t>", 3);
      ShortTag("</is>", 4);
      NoTagsShort(e);
      ShortTagsConcat("</t>", "</is>", 11);
      ShortTagsConcat(e, "</t>" + "</is>", 11);
      ShortTagsConcat("<t>", e + ("</t>" + "</is>"), 11);
      ShortTagsConcat("<is>", "<t>" + (e + ("</t>" + "</is>")), 11);
    case _ =>
      ShortTag("<v>", 2);
      ShortTag("</v>", 3);
      NoTagsShort(e);
      ShortTagsConcat(e, "</v>", 11);
      ShortTagsConcat("<v>", e + "</v>", 11);
  }

  lemma ShortTag(v: string, k: nat)
    requires IsTagToken(v) && 1 <= k <= 11 && k < |v| && (v[k] == '>' || v[k] == ' ')
    ensures ShortTags(v, 11)
  {
  }

  lemma NoTagsShort(s: string)
    requires Lacks(s, '<')
    ensures ShortTags(s, 11)
  {
  }

  lemma {:induction false} CellsShort(cells: seq<Written>, line: nat)
    ensures ShortTags(PrintCells(cells, line), 11)
  {
    hide PrintCell, ShortTags;
    if cells == [] {
      NoTagsShort("");
    } else {
      CellTagsShort(cells[0], line);
      CellsShort(cells[1..], line);
      ShortTagsConcat(PrintCell(cells[0], line), PrintCells(cells[1..], line), 11);
    }
  }

  lemma {:induction false} RowsShort(rows: seq<WrittenRow>)
    ensures ShortTags(PrintRows(rows), 11)
  {
    hide PrintCells, RowTag, ShortTags;
    if rows == [] {
      NoTagsShort("");
    } else {
      var row := rows[0];
      RowTagIsToken(row.line);
      assert RowTag(row.line)[..5][4] == RowTag(row.line)[4];
      ShortTag(RowTag(row.line), 4);
      CellsShort(row.cells, row.line);
      ShortTag("</row>", 5);
      ShortTagsConcat(PrintCells(row.cells, row.line), "</row>", 11);
      ShortTagsConcat(RowTag(row.line), PrintCells(row.cells, row.line) + "</row>", 11);
      RowsShort(rows[1..]);
      ShortTagsConcat(PrintRow(row), PrintRows(rows[1..]), 11);
    }
  }

  lemma PrintedTagsFit(rows: seq<WrittenRow>)
    ensures TagsFit(PrintSheet(rows))
  {
    hide PrintRows, ShortTags, Fits;
    RowsShort(rows);
    ShortTag("<sheetData>", 10);
    ShortTag("</sheetData>", 11);
    ShortTagsConcat(PrintRows(rows), "</sheetData>", 11);
    ShortTagsConcat("<sheetData>", PrintRows(rows) + "</sheetData>", 11);
    ShortTagsFit(SHEET_OPEN, PrintSheet(rows), 11, SHEET_TAIL + 1);
    ShortTagsFit(SHEET_CLOSE, PrintSheet(rows), 11, ROW_TAIL + 1);
    ShortTagsFit(ROW_OPEN, PrintSheet(rows), 11, ROW_TAIL + 1);
  }

  /** However a printed sheet is cut into chunks, the row stream reads it: its tags fit into the kept
      tails, and each row comes back as the dense row of its collapsed cells. */
  lemma SheetRoundTrip(rows: seq<WrittenRow>, chunks: seq<string>, ctx: CellContext)
    requires Concat(chunks) == PrintSheet(rows) && ReadsIndices(ctx)
    ensures TagsFit(Concat(chunks))
    ensures
      var read := Map(RowReader(ctx), SheetText(Concat(chunks)));
      |read| == |rows| && forall k | 0 <= k < |rows| :: read[k] == Meant(Seen(rows[k]), ctx)
  {
    hide SheetText, PrintSheet, TagsFit, PrintRow, RowOf, Meant, Seen, ReadsIndices;
    PrintedTagsFit(rows);
    PrintedSheetFound(rows);
    forall k | 0 <= k < |rows| ensures RowOf(PrintRow(rows[k]), ctx) == Meant(Seen(rows[k]), ctx) {
      PrintedRowRead(rows[k], ctx);
    }
  }

  /** So a sheet with its columns in order and no closed cell empty reads back as meant, in any chunking,
      exactly when in no row a closed cell follows a self-closed one. */
  lemma SheetReadsBackIff(rows: seq<WrittenRow>, chunks: seq<string>, ctx: CellContext)
    requires Concat(chunks) == PrintSheet(rows) && ReadsIndices(ctx)
    requires forall k | 0 <= k < |rows| :: Increasing(rows[k].cells) && Filled(rows[k].cells, ctx)
    ensures
      var read := Map(RowReader(ctx), SheetText(Concat(chunks)));
      && |read| == |rows|
      && ((forall k | 0 <= k < |rows| :: read[k] == Meant(rows[k], ctx))
          <==> forall k | 0 <= k < |rows| :: BlanksLast(rows[k].cells))
  {
    hide SheetText, PrintSheet, TagsFit, PrintRow, RowOf, Meant, Increasing, Filled, BlanksLast, ReadsIndices, Printed;
    PrintedSheetFound(rows);
    PrintedAre(rows);
    var read := Map(RowReader(ctx), SheetText(Concat(chunks)));
    forall k | 0 <= k < |rows|
      ensures read[k] == Meant(rows[k], ctx) <==> BlanksLast(rows[k].cells)
    {
      RowReadsBackIff(rows[k], ctx);
    }
  }

  lemma PrintedAre(rows: seq<WrittenRow>)
    ensures |Printed(rows)| == |rows| && forall k | 0 <= k < |rows| :: Printed(rows)[k] == PrintRow(rows[k])
  {
  }

  /** Both parts of a workbook together: a printed table of shared strings and a sheet that refers to it,
      each cut into any chunks. With the table as read, an index stands for the trimmed text at its place. */
  lemma WorkbookRoundTrip(items: seq<string>, tableChunks: seq<string>, rows: seq<WrittenRow>, sheetChunks: seq<string>,
                          ctx: CellContext)
    requires Concat(tableChunks) == PrintItems(items) && Concat(sheetChunks) == PrintSheet(rows)
    requires ctx.shared == Map(SiText, SiItems(Concat(tableChunks))) && ReadsIndices(ctx)
    ensures Fits(SI_OPEN, Concat(tableChunks), SI_TAIL + 1) && TagsFit(Concat(sheetChunks))
    ensures
      var read := Map(RowReader(ctx), SheetText(Concat(sheetChunks)));
      |read| == |rows|
      && forall k | 0 <= k < |rows| :: read[k] == Meant(Seen(rows[k]), ctx.(shared := Map(Trim, items)))
  {
    hide SheetText, PrintSheet, PrintItems, TagsFit, SiItems, SiText, Meant, Seen, Fits, ReadsIndices, Trim;
    PrintParseRoundTrip(items, tableChunks);
    PrintedItemsReadBack(items);
    SheetRoundTrip(rows, sheetChunks, ctx);
  }
}
