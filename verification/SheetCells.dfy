/** The cells of one row: parseRow, cellValue and the column letters of a reference. */
module SheetCells {
  import opened JsText
  import opened Tags
  import opened XmlText

  // ----- column letters -----

  predicate IsLetter(c: char) {
    'A' <= c <= 'Z' || 'a' <= c <= 'z'
  }

  predicate IsColumnWord(w: string) {
    forall k | 0 <= k < |w| :: 'A' <= w[k] <= 'Z'
  }

  function LetterRun(s: string): (r: nat)
    ensures r <= |s|
    ensures forall k | 0 <= k < r :: IsLetter(s[k])
    ensures r < |s| ==> !IsLetter(s[r])
  {
    if s == "" || !IsLetter(s[0]) then 0 else
      var r := LetterRun(s[1..]);
      assert forall k | 1 <= k < 1 + r :: s[k] == s[1..][k - 1];
      1 + r
  }

  /** The leading letters of a reference, in upper case. */
  function ColumnWord(ref: string): (w: string)
    ensures IsColumnWord(w)
  {
    seq(LetterRun(ref), k requires 0 <= k < LetterRun(ref) =>
      if 'a' <= ref[k] <= 'z' then (ref[k] as int - 32) as char else ref[k])
  }

  function LetterValue(c: char): int {
    c as int - 64
  }

  /** The base-26 numeral with digits A = 1 up to Z = 26. */
  function WordValue(w: string): int {
    if w == "" then 0 else WordValue(w[..|w| - 1]) * 26 + LetterValue(w[|w| - 1])
  }

  /** The column number, counted from 0; a reference without letters gives 0. */
  function ColIndex(ref: string): nat {
    var n := WordValue(ColumnWord(ref));
    if n >= 1 then n - 1 else 0
  }

  method ColIndexFromRef(ref: string) returns (index: nat)
    ensures index == ColIndex(ref)
  {
    var letters := ColumnWord(ref);
    var n := 0;
    for i := 0 to |letters|
      invariant n == WordValue(letters[..i])
    {
      assert letters[..i + 1][..i] == letters[..i];
      n := n * 26 + LetterValue(letters[i]);
    }
    assert letters[..|letters|] == letters;
    index := if n - 1 > 0 then n - 1 else 0;
  }

  /** The word of the n-th column, the other way round. */
  function WordOf(n: nat): (w: string)
    ensures IsColumnWord(w)
  {
    if n == 0 then "" else WordOf((n - 1) / 26) + [('A' as int + (n - 1) % 26) as char]
  }

  lemma {:induction false} ValueOfWord(n: nat)
    ensures WordValue(WordOf(n)) == n
  {
    if n > 0 {
      var w := WordOf(n);
      ValueOfWord((n - 1) / 26);
      assert w[..|w| - 1] == WordOf((n - 1) / 26);
    }
  }

  lemma {:induction false} WordOfValue(w: string)
    requires IsColumnWord(w)
    ensures WordValue(w) >= 0 && (WordValue(w) == 0 <==> w == "")
    ensures WordOf(WordValue(w)) == w
  {
    if w != "" {
      var v, d := WordValue(w[..|w| - 1]), LetterValue(w[|w| - 1]);
      WordOfValue(w[..|w| - 1]);
      var n := v * 26 + d;
      assert 1 <= d <= 26;
      assert (n - 1) / 26 == v && (n - 1) % 26 == d - 1;
      assert w == w[..|w| - 1] + [w[|w| - 1]];
    }
  }

  lemma WordOfReference(w: string, tail: string)
    requires IsColumnWord(w) && (tail != "" ==> !IsLetter(tail[0]))
    ensures ColumnWord(w + tail) == w
  {
    var ref := w + tail;
    assert forall k | 0 <= k < |w| :: ref[k] == w[k];
    if tail != "" { assert ref[|w|] == tail[0]; }
    assert LetterRun(ref) == |w|;
  }

  lemma WordInReference(w: string, tail: string)
    requires IsColumnWord(w) && (tail != "" ==> !IsLetter(tail[0]))
    ensures ColIndex(w + tail) == if WordValue(w) >= 1 then WordValue(w) - 1 else 0
  {
    hide WordValue, ColumnWord;
    WordOfReference(w, tail);
  }

  /** The word, its letters in either case. */
  predicate Spells(v: string, w: string) {
    |v| == |w| && forall k | 0 <= k < |v| :: v[k] == w[k] || v[k] as int == w[k] as int + 32
  }

  /** The letter case of a reference does not matter. */
  lemma AnyCase(n: nat, v: string, tail: string)
    requires Spells(v, WordOf(n + 1)) && (tail != "" ==> !IsLetter(tail[0]))
    ensures ColIndex(v + tail) == n
  {
    hide WordOf, WordValue;
    var ref, w := v + tail, WordOf(n + 1);
    assert forall k | 0 <= k < |v| :: ref[k] == v[k] && IsLetter(ref[k]);
    if tail != "" { assert ref[|v|] == tail[0]; }
    assert LetterRun(ref) == |v|;
    assert ColumnWord(ref) == w;
    ValueOfWord(n + 1);
  }

  /** References and column numbers correspond one to one: every column has its word, and a
      non-empty upper-case word, whatever non-letter text follows it, is the word of its column. */
  lemma ColumnsAreBijective(n: nat, w: string, tail: string)
    requires IsColumnWord(w) && w != "" && (tail != "" ==> !IsLetter(tail[0]))
    ensures WordOf(n + 1) != "" && ColIndex(WordOf(n + 1)) == n
    ensures WordOf(ColIndex(w + tail) + 1) == w
  {
    hide WordValue, WordOf, ColIndex;
    ValueOfWord(n + 1);
    WordOfValue(WordOf(n + 1));
    WordInReference(WordOf(n + 1), "");
    assert WordOf(n + 1) + "" == WordOf(n + 1);
    WordOfValue(w);
    WordInReference(w, tail);
  }

  /** First by length, then alphabetically. */
  predicate Before(v: string, w: string) {
    |v| < |w| || (|v| == |w| && exists k :: 0 <= k < |v| && v[k] < w[k] && v[..k] == w[..k])
  }

  lemma {:induction false} ValueMonotone(v: string, w: string)
    requires IsColumnWord(v) && IsColumnWord(w) && Before(v, w)
    ensures WordValue(v) < WordValue(w)
  {
    WordOfValue(v);
    WordOfValue(w);
    if v != "" {
      var v', w' := v[..|v| - 1], w[..|w| - 1];
      if |v| == |w| {
        var k :| 0 <= k < |v| && v[k] < w[k] && v[..k] == w[..k];
        if k < |v| - 1 {
          assert v'[k] < w'[k] && v'[..k] == v[..k] && w'[..k] == w[..k];
          ValueMonotone(v', w');
        } else {
          assert v' == w';
        }
      } else {
        ValueMonotone(v', w');
      }
    }
  }

  lemma BeforeIsTotal(v: string, w: string)
    ensures v == w || Before(v, w) || Before(w, v)
  {
    if |v| == |w| && v != w {
      var k := FirstDifference(v, w);
      assert v[..k] == w[..k];
    }
  }

  function FirstDifference(v: string, w: string): (k: nat)
    requires |v| == |w| && v != w
    ensures k < |v| && v[k] != w[k] && forall j | 0 <= j < k :: v[j] == w[j]
  {
    if v[0] != w[0] then 0 else
      assert v == [v[0]] + v[1..] && w == [w[0]] + w[1..];
      var k := FirstDifference(v[1..], w[1..]);
      assert forall j | 1 <= j < k + 1 :: v[j] == v[1..][j - 1] && w[j] == w[1..][j - 1];
      1 + k
  }

  /** Column numbers grow with the words' length, and alphabetically within one length. */
  lemma ColumnsInOrder(v: string, w: string)
    requires IsColumnWord(v) && IsColumnWord(w) && v != "" && w != ""
    ensures ColIndex(v) < ColIndex(w) <==> Before(v, w)
  {
    hide WordValue, WordOf, ColIndex, Before;
    WordInReference(v, "");
    WordInReference(w, "");
    assert v + "" == v && w + "" == w;
    WordOfValue(v);
    WordOfValue(w);
    BeforeIsTotal(v, w);
    if Before(v, w) { ValueMonotone(v, w); }
    if Before(w, v) { ValueMonotone(w, v); }
  }

  // ----- cells -----

  predicate ValueChar(c: char, quotes: string, digits: bool) {
    if digits then IsDigit(c) else c !in quotes
  }

  function ValueRun(s: string, quotes: string, digits: bool): (r: nat)
    ensures r <= |s|
  {
    if s != "" && ValueChar(s[0], quotes, digits) then 1 + ValueRun(s[1..], quotes, digits) else 0
  }

  /** `\bname=Q(...+)Q`: the first attribute with this one-letter name, a non-empty value and a
      quote on either side. `afterWord` says whether a word character comes just before `s`. */
  function Attribute(s: string, afterWord: bool, name: char, quotes: string, digits: bool): Option<string> {
    if |s| < 3 then None
    else if !afterWord && s[0] == name && s[1] == '=' && s[2] in quotes
         && ValueRun(s[3..], quotes, digits) > 0
         && 3 + ValueRun(s[3..], quotes, digits) < |s|
         && s[3 + ValueRun(s[3..], quotes, digits)] in quotes
    then Some(s[3..3 + ValueRun(s[3..], quotes, digits)])
    else Attribute(s[1..], IsWord(s[0]), name, quotes, digits)
  }

  function OrElse(o: Option<string>, d: string): string {
    if o.Some? then o.value else d
  }

  /** What cellValue needs from outside: the shared strings, the index a decoded text stands
      for under Number() (negative when it is no non-negative integer), and the text that
      cellToString gives for a decimal number. */
  datatype CellContext = CellContext(shared: seq<string>, toIndex: string -> int, numberText: string -> string)

  /** `/^-?\d+(\.\d+)?$/` */
  predicate IsDecimal(s: string) {
    var body := if s != "" && s[0] == '-' then s[1..] else s;
    var r := ValueRun(body, "", true);
    r > 0 && (r == |body| ||
      (body[r] == '.' && r + 1 < |body| && ValueRun(body[r + 1..], "", true) == |body| - r - 1))
  }

  function CellValue(cellXml: string, ctx: CellContext): string {
    var kind := OrElse(Attribute(cellXml, false, 't', "\"'", false), "");
    if kind == "inlineStr" then Concat(DecodeAll(Contents(cellXml, T_CLOSE), true))
    else if Contents(cellXml, V_CLOSE) == [] then ""
    else
      var decoded := DecodeXml(Contents(cellXml, V_CLOSE)[0], true);
      if kind == "s" then
        var i := ctx.toIndex(decoded);
        if 0 <= i < |ctx.shared| then ctx.shared[i] else ""
      else if kind == "b" then (if decoded == "1" then "TRUE" else "FALSE")
      else if kind == "e" then decoded
      else if IsDecimal(decoded) then ctx.numberText(decoded)
      else Trim(decoded)
  }

  /** CELL_RE at the start of `s`: a c element, or else a self-closing c tag. */
  function CellAt(s: string): (e: Element)
    ensures e.Element? ==> 0 < e.len <= |s|
  {
    var e := ElementAt(s, C_CLOSE);
    var g := IndexOf(s, '>');
    if e.Element? then e
    else if OpensName(s, "c") && 0 < g < |s| && s[g - 1] == '/'
    then Element(AttrText(s[..g - 1], "c"), "", g + 1)
    else NoElement
  }

  datatype Cell = Cell(attrs: string, inner: string)
  datatype NextCell = NoCell | NextCell(cell: Cell, rest: string)

  /** The next match of the global cell pattern. */
  function Next(s: string): (n: NextCell)
    ensures n.NextCell? ==> |n.rest| < |s|
  {
    if s == "" then NoCell else
    var e := CellAt(s);
    if e.Element? then NextCell(Cell(e.attrs, e.inner), s[e.len..]) else Next(s[1..])
  }

  function Cells(s: string): seq<Cell>
    decreases |s|
  {
    match Next(s)
    case NoCell => []
    case NextCell(c, rest) => [c] + Cells(rest)
  }

  function ColumnOf(c: Cell): nat {
    ColIndex(OrElse(Attribute(c.attrs, false, 'r', "\"", false), ""))
  }

  function ValueOf(c: Cell, ctx: CellContext): string {
    CellValue("<c " + c.attrs + ">" + c.inner + "</c>", ctx)
  }

  /** A cell without reference stands in the first column, a row without number has line 0. */
  lemma WithoutReference(c: Cell, xml: string)
    ensures Attribute(c.attrs, false, 'r', "\"", false) == None ==> ColumnOf(c) == 0
    ensures Attribute(xml, false, 'r', "\"", true) == None ==> LineOf(xml) == 0
  {
    hide Attribute;
    assert NumberValue("0"[..0], 10) == 0;
  }

  /** One more than the highest column among the cells. */
  function Width(cells: seq<Cell>): nat {
    if cells == [] then 0 else
    var w, c := Width(cells[..|cells| - 1]), ColumnOf(cells[|cells| - 1]);
    if c >= w then c + 1 else w
  }

  /** The value of the last cell in column `k`, or the empty string. */
  function LastIn(cells: seq<Cell>, k: nat, ctx: CellContext): string {
    if cells == [] then ""
    else if ColumnOf(cells[|cells| - 1]) == k then ValueOf(cells[|cells| - 1], ctx)
    else LastIn(cells[..|cells| - 1], k, ctx)
  }

  datatype SheetRow = SheetRow(line: nat, values: seq<string>)

  function LineOf(xml: string): nat {
    NumberValue(OrElse(Attribute(xml, false, 'r', "\"", true), "0"), 10)
  }

  /** The dense row of a row element. */
  function RowOf(xml: string, ctx: CellContext): SheetRow {
    SheetRow(LineOf(xml), seq(Width(Cells(xml)), k requires 0 <= k => LastIn(Cells(xml), k, ctx)))
  }

  /** Fills a row up with empty strings until position `index` exists. */
  method PadTo(values: seq<string>, index: nat) returns (padded: seq<string>)
    ensures |padded| == if index >= |values| then index + 1 else |values|
    ensures forall k | 0 <= k < |padded| :: padded[k] == if k < |values| then values[k] else ""
  {
    padded := values;
    while |padded| <= index
      invariant |values| <= |padded| <= if index >= |values| then index + 1 else |values|
      invariant forall k | 0 <= k < |padded| :: padded[k] == if k < |values| then values[k] else ""
    {
      padded := padded + [""];
    }
  }

  /** `values` is the dense row of the cells found so far. */
  predicate IsDense(values: seq<string>, cells: seq<Cell>, ctx: CellContext) {
    |values| == Width(cells) && forall k | 0 <= k < |values| :: values[k] == LastIn(cells, k, ctx)
  }

  lemma AddCell(values: seq<string>, padded: seq<string>, cells: seq<Cell>, cell: Cell, ctx: CellContext)
    requires IsDense(values, cells, ctx)
    requires |padded| == if ColumnOf(cell) >= |values| then ColumnOf(cell) + 1 else |values|
    requires forall k | 0 <= k < |padded| :: padded[k] == if k < |values| then values[k] else ""
    ensures IsDense(padded[ColumnOf(cell) := ValueOf(cell, ctx)], cells + [cell], ctx)
  {
    hide ColumnOf, ValueOf;
    var more := cells + [cell];
    assert more[..|cells|] == cells;
    forall k | |values| <= k < |padded| ensures LastIn(cells, k, ctx) == "" {
      BeyondWidth(cells, k, ctx);
    }
    forall k | 0 <= k < |padded|
      ensures LastIn(more, k, ctx) == if k == ColumnOf(cell) then ValueOf(cell, ctx) else padded[k]
    {
    }
  }

  lemma CellsStep(s: string)
    ensures Next(s).NoCell? ==> Cells(s) == []
    ensures Next(s).NextCell? ==> Cells(s) == [Next(s).cell] + Cells(Next(s).rest)
  {
    hide Next;
  }

  /** parseRow: cells are written into a growing row as the pattern finds them. */
  method ParseRow(xml: string, ctx: CellContext) returns (row: SheetRow)
    ensures row == RowOf(xml, ctx)
  {
    hide Next, ValueOf, ColumnOf, LineOf, Cells, IsDense;
    var values: seq<string> := [];
    var maxIndex: int := -1;
    var rest := xml;
    ghost var found: seq<Cell> := [];
    var next := Next(rest);
    NothingIsDense(ctx);
    while next.NextCell?
      invariant next == Next(rest)
      invariant Cells(xml) == found + Cells(rest)
      invariant IsDense(values, found, ctx)
      invariant |values| == maxIndex + 1
      decreases |rest|
    {
      var cell := next.cell;
      var index := ColumnOf(cell);
      CellsStep(rest);
      var padded := PadTo(values, index);
      AddCell(values, padded, found, cell, ctx);
      values := padded[index := ValueOf(cell, ctx)];
      if index > maxIndex { maxIndex := index; }
      found := found + [cell];
      rest := next.rest;
      next := Next(rest);
    }
    CellsStep(rest);
    assert found == Cells(xml);
    DenseIsRow(xml, values, ctx);
    row := SheetRow(LineOf(xml), if maxIndex >= 0 then values[..maxIndex + 1] else values);
  }

  lemma NothingIsDense(ctx: CellContext)
    ensures IsDense([], [], ctx)
  {
  }

  lemma DenseIsRow(xml: string, values: seq<string>, ctx: CellContext)
    requires IsDense(values, Cells(xml), ctx)
    ensures RowOf(xml, ctx) == SheetRow(LineOf(xml), values)
  {
    hide Cells, LineOf, LastIn;
  }

  lemma {:induction false} BeyondWidth(cells: seq<Cell>, k: nat, ctx: CellContext)
    requires k >= Width(cells)
    ensures LastIn(cells, k, ctx) == ""
  {
    if cells != [] {
      BeyondWidth(cells[..|cells| - 1], k, ctx);
    }
  }

  /** Cell `i` is the last one in column `k`. */
  predicate IsLastIn(cells: seq<Cell>, i: int, k: nat) {
    && 0 <= i < |cells| && ColumnOf(cells[i]) == k
    && forall j | i < j < |cells| :: ColumnOf(cells[j]) != k
  }

  predicate NoneIn(cells: seq<Cell>, k: nat) {
    forall i | 0 <= i < |cells| :: ColumnOf(cells[i]) != k
  }

  /** The row is as wide as its highest column asks for, and each position holds the value of
      the last cell in that column, or the empty string where there is none. */
  lemma RowIsDense(xml: string, ctx: CellContext, cells: seq<Cell>, k: nat)
    requires cells == Cells(xml)
    ensures RowOf(xml, ctx).values == [] <==> cells == []
    ensures forall i | 0 <= i < |cells| :: ColumnOf(cells[i]) < |RowOf(xml, ctx).values|
    ensures cells != [] ==> exists i :: 0 <= i < |cells| && ColumnOf(cells[i]) == |RowOf(xml, ctx).values| - 1
    ensures k < |RowOf(xml, ctx).values| && NoneIn(cells, k) ==> RowOf(xml, ctx).values[k] == ""
    ensures k < |RowOf(xml, ctx).values| && !NoneIn(cells, k) ==>
              exists i :: IsLastIn(cells, i, k) && RowOf(xml, ctx).values[k] == ValueOf(cells[i], ctx)
  {
    hide Cells, ColumnOf, ValueOf, IsLastIn, NoneIn;
    WidthIsHighest(Cells(xml));
    LastIsLast(Cells(xml), k, ctx);
  }

  lemma {:induction false} WidthIsHighest(cells: seq<Cell>)
    ensures Width(cells) == 0 <==> cells == []
    ensures forall i | 0 <= i < |cells| :: ColumnOf(cells[i]) < Width(cells)
    ensures cells != [] ==> exists i :: 0 <= i < |cells| && ColumnOf(cells[i]) == Width(cells) - 1
  {
    hide ColumnOf;
    if cells != [] {
      var init := cells[..|cells| - 1];
      WidthIsHighest(init);
      assert forall i | 0 <= i < |init| :: cells[i] == init[i];
      if ColumnOf(cells[|cells| - 1]) >= Width(init) {
        assert ColumnOf(cells[|cells| - 1]) == Width(cells) - 1;
      } else {
        var i :| 0 <= i < |init| && ColumnOf(init[i]) == Width(init) - 1;
        assert ColumnOf(cells[i]) == Width(cells) - 1;
      }
    }
  }

  lemma {:induction false} LastIsLast(cells: seq<Cell>, k: nat, ctx: CellContext)
    ensures NoneIn(cells, k) ==> LastIn(cells, k, ctx) == ""
    ensures !NoneIn(cells, k) ==> exists i :: IsLastIn(cells, i, k) && LastIn(cells, k, ctx) == ValueOf(cells[i], ctx)
  {
    hide ColumnOf, ValueOf;
    if cells != [] {
      var init, last := cells[..|cells| - 1], cells[|cells| - 1];
      LastIsLast(init, k, ctx);
      assert forall j | 0 <= j < |cells| :: cells[j] == if j < |init| then init[j] else last;
      if ColumnOf(last) == k {
        assert IsLastIn(cells, |cells| - 1, k);
      } else if !NoneIn(init, k) {
        var i :| IsLastIn(init, i, k) && LastIn(init, k, ctx) == ValueOf(init[i], ctx);
        assert IsLastIn(cells, i, k);
      }
    }
  }

  /** A self-closing cell is read as an empty cell exactly when no closing cell tag follows it
      in the row. Otherwise the element alternative of the pattern wins, and the cell swallows
      everything up to that closing tag. */
  lemma SelfClosedCell(attrs: string, rest: string)
    requires Lacks(attrs, '>') && (attrs != "" ==> !IsWord(attrs[0]) && attrs[0] != ':' && attrs[0] != '.')
    ensures Find(C_CLOSE, rest).Nowhere? ==>
              Next("<c" + attrs + "/>" + rest) == NextCell(Cell(attrs, ""), rest)
    ensures Find(C_CLOSE, rest).At? ==>
              Next("<c" + attrs + "/>" + rest)
              == NextCell(Cell(attrs + "/", rest[..Find(C_CLOSE, rest).start]),
                          rest[Find(C_CLOSE, rest).start + Find(C_CLOSE, rest).len..])
  {
    hide Find, OpensName, AttrText, IndexOf, Lacks;
    var s, g := "<c" + attrs + "/>" + rest, 3 + |attrs|;
    SelfClosedTag(attrs, rest);
    AttrsBehindName(attrs);
    AttrsBehindName(attrs + "/");
    assert s[..g - 1] == "<c" + attrs;
    assert s[..g] == "<c" + (attrs + "/");
    assert s[g + 1..] == rest;
    var hit := Find(C_CLOSE, rest);
    if hit.At? {
      assert s[g + 1 + hit.start + hit.len..] == rest[hit.start + hit.len..];
    }
  }

  lemma SelfClosedTag(attrs: string, rest: string)
    requires Lacks(attrs, '>') && (attrs != "" ==> !IsWord(attrs[0]) && attrs[0] != ':' && attrs[0] != '.')
    ensures IndexOf("<c" + attrs + "/>" + rest, '>') == 3 + |attrs|
    ensures OpensName("<c" + attrs + "/>" + rest, "c")
    ensures ("<c" + attrs + "/>" + rest)[2 + |attrs|] == '/'
  {
    var s, g := "<c" + attrs + "/>" + rest, 3 + |attrs|;
    assert s[0] == '<' && s[1] == 'c' && s[g] == '>' && s[g - 1] == '/';
    assert forall k | 0 <= k < |attrs| :: s[2 + k] == attrs[k];
    var tail := s[1..];
    assert s[2] == if attrs == "" then '/' else attrs[0];
    assert tail[0..1] == "c";
    assert NamedAt(tail, 0, "c");
  }

  lemma AttrsBehindName(attrs: string)
    requires attrs != "" ==> !IsWord(attrs[0]) && attrs[0] != ':' && attrs[0] != '.'
    ensures AttrText("<c" + attrs, "c") == attrs
  {
    var tail := ("<c" + attrs)[1..];
    assert tail == "c" + attrs;
    assert tail[0] == 'c' && (attrs != "" ==> tail[1] == attrs[0]);
    assert Run(tail) == 1;
    assert PrefixLen(tail) == 0;
    assert tail[0..1] == "c";
    assert ("<c" + attrs)[2..] == attrs;
  }
}
