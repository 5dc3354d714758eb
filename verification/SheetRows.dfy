/** The row stream of a worksheet: sheetData, row and c elements (sections 18.3.1.80,
    18.3.1.73 and 18.3.1.4 of ECMA-376 Part 1), scanned chunk by chunk. */
module SheetRows {
  import opened JsText
  import opened Tags
  import opened SharedStrings
  import opened SheetCells

  /** Buffers without an opening sheetData tag, and without a row, are cut down to a tail. */
  const SHEET_BUFFER: nat := 2_000_000
  const SHEET_TAIL: nat := 256
  const ROW_BUFFER: nat := 8_000_000
  const ROW_TAIL: nat := 1024

  // ----- what a whole text contains -----

  /** `s` starts with an opening row tag; the length of the whole row, 0 while it is open.
      The self-closing pattern `^<(?:[\w.]+:)?row\b[^>]*\/>` matches when the first '>' has a
      '/' before it: the opening tag, already matched, holds no '>' before its last character. */
  function RowLen(s: string): (n: nat)
    ensures n <= |s|
    ensures n > 0 ==> s[n - 1] == '>'
  {
    var g := IndexOf(s, '>');
    if g == |s| then 0
    else if g > 0 && s[g - 1] == '/' then g + 1
    else match Find(ROW_CLOSE, s)
      case Nowhere => 0
      case At(i, n) => LastIsGt(ROW_CLOSE, s); i + n
  }

  lemma LastIsGt(t: Tag, s: string)
    requires t.closes && Find(t, s).At?
    ensures s[Find(t, s).start + Find(t, s).len - 1] == '>'
  {
    hide Find;
    FindIsLeftmost(t, s);
  }

  /** The sheet data end at the first closing tag, or go on. */
  function UpToClose(s: string): (r: string)
    ensures r <= s
  {
    match Find(SHEET_CLOSE, s)
    case Nowhere => s
    case At(e, _) => s[..e]
  }

  datatype FirstRow = NoRow | Row(start: nat, len: nat)

  /** The first row of a piece of sheet data; length 0 when it is not complete. */
  function RowIn(s: string): (f: FirstRow)
    ensures f.Row? ==> f.start + f.len <= |s| && f.start < |s|
  {
    match Find(ROW_OPEN, s)
    case Nowhere => NoRow
    case At(i, _) => Row(i, RowLen(s[i..]))
  }

  /** The complete row elements of a piece of sheet data, in order. */
  function RowsIn(s: string): seq<string>
    decreases |s|
  {
    match RowIn(s)
    case NoRow => []
    case Row(i, n) => if n == 0 then [] else [s[i..i + n]] + RowsIn(s[i + n..])
  }

  /** The rows of a whole worksheet text. */
  function SheetText(text: string): seq<string> {
    match Find(SHEET_OPEN, text)
    case Nowhere => []
    case At(i, _) => RowsIn(UpToClose(text[i..]))
  }

  /** No tag the scan looks for is longer than the tail it keeps. */
  predicate TagsFit(s: string) {
    && Fits(SHEET_OPEN, s, SHEET_TAIL + 1)
    && Fits(SHEET_CLOSE, s, ROW_TAIL + 1)
    && Fits(ROW_OPEN, s, ROW_TAIL + 1)
  }

  lemma TagsFitSuffix(z: string, w: string)
    requires TagsFit(z + w)
    ensures TagsFit(w)
  {
    hide Fits;
    FitsSuffix(SHEET_OPEN, z, w, SHEET_TAIL + 1);
    FitsSuffix(SHEET_CLOSE, z, w, ROW_TAIL + 1);
    FitsSuffix(ROW_OPEN, z, w, ROW_TAIL + 1);
  }

  lemma RowsNone(s: string)
    requires RowIn(s).NoRow? || RowIn(s).len == 0
    ensures RowsIn(s) == []
  {
    hide RowIn;
  }

  lemma RowsOne(s: string, i: nat, n: nat)
    requires RowIn(s) == Row(i, n) && n > 0
    ensures RowsIn(s) == [s[i..i + n]] + RowsIn(s[i + n..])
  {
    hide RowIn;
  }

  // ----- how the scan's steps relate to the whole text -----

  /** A row that is complete is complete whatever follows it. */
  lemma RowLenExtend(s: string, f: string)
    requires RowLen(s) > 0
    ensures RowLen(s + f) == RowLen(s)
  {
    hide Find;
    var g := IndexOf(s, '>');
    IndexOfExtend(s, f, '>');
    if !(g > 0 && s[g - 1] == '/') {
      FindExtend(ROW_CLOSE, s, f);
    }
  }

  lemma IndexOfExtend(s: string, f: string, c: char)
    requires IndexOf(s, c) < |s|
    ensures IndexOf(s + f, c) == IndexOf(s, c)
  {
    assert (s + f)[IndexOf(s, c)] == c;
  }

  /** Nor does the row depend on what is cut off behind it. */
  lemma RowLenRestrict(s: string)
    requires RowLen(s) > 0
    ensures RowLen(s[..RowLen(s)]) == RowLen(s)
  {
    hide Find;
    var n := RowLen(s);
    var v := s[..n];
    assert s == v + s[n..];
    var g := IndexOf(s, '>');
    assert v[n - 1] == '>';
    IndexOfExtend(v, s[n..], '>');
    if !(g > 0 && s[g - 1] == '/') {
      FindRestrict(ROW_CLOSE, s, n);
    }
  }

  lemma FindRestrict(t: Tag, s: string, n: nat)
    requires Find(t, s).At? && Find(t, s).start + Find(t, s).len <= n <= |s|
    ensures Find(t, s[..n]) == Find(t, s)
  {
    hide Find;
    FindIsLeftmost(t, s);
    FindIsLeftmost(t, s[..n]);
    var At(i, m) := Find(t, s);
    assert s == s[..n] + s[n..];
    MatchExtend(t, s[..n], s[n..], i, m);
    assert Find(t, s[..n]).At?;
    FindExtend(t, s[..n], s[n..]);
  }

  /** The opening tag lies within the complete row. */
  lemma OpenWithinRow(s: string, i: nat, n: nat)
    requires RowIn(s) == Row(i, n) && n > 0
    ensures Find(ROW_OPEN, s).start == i && Find(ROW_OPEN, s).len <= n
  {
    hide Find;
    FindIsLeftmost(ROW_OPEN, s);
    var m := Find(ROW_OPEN, s).len;
    if n < m {
      InsideTag(ROW_OPEN, s[i..i + m], n - 1);
    }
  }

  /** The text up to the end of the first row has that row, whatever follows. */
  lemma RowOfPrefix(s: string, i: nat, n: nat, f: string)
    requires RowIn(s) == Row(i, n) && n > 0
    ensures RowIn(s[..i + n] + f) == Row(i, n)
    ensures s[i + n - 1] == '>'
  {
    hide Find, RowLen;
    OpenWithinRow(s, i, n);
    var x := s[..i + n];
    FindRestrict(ROW_OPEN, s, i + n);
    FindExtend(ROW_OPEN, x, f);
    RowLenRestrict(s[i..]);
    assert s[i..][..n] == x[i..];
    RowLenExtend(x[i..], f);
    assert (x + f)[i..] == x[i..] + f;
    assert s[i..][n - 1] == s[i + n - 1];
  }

  /** Closing sheet data: a tag-free front stays in front. */
  lemma CloseSkip(z: string, w: string)
    requires Clear(SHEET_CLOSE, z, w)
    ensures UpToClose(z + w) == z + UpToClose(w)
  {
    hide Find, Clear;
    FindSkip(SHEET_CLOSE, z, w);
    var hit := Find(SHEET_CLOSE, w);
    if hit.At? {
      assert (z + w)[..|z| + hit.start] == z + w[..hit.start];
    }
  }

  /** The step that takes a row: the text up to its end gives the row, the rest the others. */
  lemma TakeRow(buf: string, i: nat, n: nat, later: string)
    requires RowIn(UpToClose(buf)) == Row(i, n) && n > 0
    ensures i + n <= |buf| && UpToClose(buf)[i..i + n] == buf[i..i + n]
    ensures RowsIn(UpToClose(buf + later)) == [buf[i..i + n]] + RowsIn(UpToClose(buf[i + n..] + later))
  {
    hide Find, RowIn, RowsIn, RowLen;
    var search := UpToClose(buf);
    var x, y := buf[..i + n], buf[i + n..];
    assert search[..i + n] == x;
    assert search[i..i + n] == buf[i..i + n] == x[i..];
    CutAppend(buf, i + n, later);
    NoMatchInPrefix(SHEET_CLOSE, x, y);
    RowOfPrefix(search, i, n, UpToClose(y + later));
    TakeFirst(x, y + later, i, n);
  }

  lemma TakeFirst(x: string, y: string, i: nat, n: nat)
    requires |x| == i + n && n > 0 && x[|x| - 1] == '>'
    requires RowIn(x + UpToClose(y)) == Row(i, n)
    requires NoMatchBefore(SHEET_CLOSE, x, |x|)
    ensures RowsIn(UpToClose(x + y)) == [x[i..]] + RowsIn(UpToClose(y))
  {
    hide RowIn, RowsIn, UpToClose, NoMatchBefore, Clear;
    ClearAfterGt(SHEET_CLOSE, x, y);
    CloseSkip(x, y);
    var u := UpToClose(y);
    RowsOne(x + u, i, n);
    KeepAppend(x, u, i, n);
  }

  /** Text that neither a row nor the end of the sheet data starts in can be dropped. */
  lemma SkipFront(z: string, w: string)
    requires Clear(SHEET_CLOSE, z, w) && Clear(ROW_OPEN, z, w)
    ensures RowsIn(UpToClose(z + w)) == RowsIn(UpToClose(w))
  {
    hide Find, Clear, RowsIn, RowLen, UpToClose;
    CloseSkip(z, w);
    var u := UpToClose(w);
    ClearPrefix(ROW_OPEN, z, w, u);
    FindSkip(ROW_OPEN, z, u);
    RowsPast(z, u);
  }

  lemma RowInIs(s: string)
    ensures RowIn(s) == var hit := Find(ROW_OPEN, s); if hit.Nowhere? then NoRow
            else Row(hit.start, RowLen(s[hit.start..]))
  {
  }

  /** The rows of a text whose first row tag is at the start of `back`. */
  lemma RowsBehind(front: string, back: string)
    requires Find(ROW_OPEN, front + back).At? && Find(ROW_OPEN, front + back).start == |front|
    ensures RowsIn(front + back)
         == if RowLen(back) == 0 then [] else [back[..RowLen(back)]] + RowsIn(back[RowLen(back)..])
  {
    hide Find, RowsIn, RowLen, RowIn;
    var s, n := front + back, RowLen(back);
    RowInIs(s);
    assert s[|front|..] == back;
    if n == 0 {
      RowsNone(s);
    } else {
      RowsOne(s, |front|, n);
      assert s[|front|..|front| + n] == back[..n];
      assert s[|front| + n..] == back[n..];
    }
  }

  /** Nor do the rows change when text that no row starts in is put in front. */
  lemma RowsPast(z: string, u: string)
    requires Find(ROW_OPEN, z + u) == Shift(|z|, Find(ROW_OPEN, u))
    ensures RowsIn(z + u) == RowsIn(u)
  {
    hide Find, RowsIn, RowLen, RowIn;
    var hit := Find(ROW_OPEN, u);
    if hit.Nowhere? {
      RowInIs(u);
      RowInIs(z + u);
      RowsNone(u);
      RowsNone(z + u);
    } else {
      var a, back := u[..hit.start], u[hit.start..];
      assert u == a + back && z + u == (z + a) + back;
      RowsBehind(a, back);
      RowsBehind(z + a, back);
    }
  }

  lemma ClearPrefix(t: Tag, z: string, w: string, u: string)
    requires Clear(t, z, w) && u <= w
    ensures Clear(t, z, u)
  {
    assert z + w == (z + u) + w[|u|..];
    forall i, n | 0 <= n <= |z + u| && 0 <= i < |z|
      ensures !MatchAt(t, z + u, i, n)
    {
      if i + n <= |z + u| { MatchExtend(t, z + u, w[|u|..], i, n); }
    }
  }

  /** Waiting for the rest of a row: what comes before it can go. */
  lemma DropBeforeRow(buf: string, i: nat, later: string)
    requires RowIn(UpToClose(buf)) == Row(i, 0)
    ensures i <= |buf|
    ensures RowsIn(UpToClose(buf + later)) == RowsIn(UpToClose(buf[i..] + later))
    ensures RowsIn(UpToClose(buf[i..])) == []
  {
    hide Find, RowsIn, RowLen, Clear;
    var search := UpToClose(buf);
    var z, w := buf[..i], buf[i..];
    assert buf == z + w && buf + later == z + (w + later);
    assert search == z + search[i..] && search[i] == w[0];
    NoMatchInPrefix(ROW_OPEN, z, search[i..]);
    NoMatchInPrefix(SHEET_CLOSE, z, w);
    ClearBeforeLt(ROW_OPEN, z, w + later);
    ClearBeforeLt(SHEET_CLOSE, z, w + later);
    SkipFront(z, w + later);
    ClearBeforeLt(ROW_OPEN, z, w);
    SkipFront(z, w);
    RowsNone(search);
  }

  /** Waiting for a row to start: a long buffer is cut down to its tail. */
  lemma DropWithoutRow(buf: string, later: string)
    requires Find(SHEET_CLOSE, buf) == Nowhere && Find(ROW_OPEN, buf) == Nowhere && |buf| > ROW_TAIL
    requires TagsFit(buf + later)
    ensures RowsIn(UpToClose(buf + later)) == RowsIn(UpToClose(buf[|buf| - ROW_TAIL..] + later))
  {
    hide Find, RowsIn, UpToClose, Fits, Clear;
    ClearByLength(SHEET_CLOSE, buf, later, ROW_TAIL);
    ClearByLength(ROW_OPEN, buf, later, ROW_TAIL);
    CutAppend(buf, |buf| - ROW_TAIL, later);
    SkipFront(buf[..|buf| - ROW_TAIL], buf[|buf| - ROW_TAIL..] + later);
  }

  /** Waiting for the sheet data to start. */
  lemma DropWithoutSheet(buf: string, later: string)
    requires Find(SHEET_OPEN, buf) == Nowhere && |buf| > SHEET_TAIL
    requires TagsFit(buf + later)
    ensures SheetText(buf + later) == SheetText(buf[|buf| - SHEET_TAIL..] + later)
  {
    hide Find, RowsIn, UpToClose, Fits, Clear, SheetText;
    ClearByLength(SHEET_OPEN, buf, later, SHEET_TAIL);
    CutAppend(buf, |buf| - SHEET_TAIL, later);
    SheetSkip(buf[..|buf| - SHEET_TAIL], buf[|buf| - SHEET_TAIL..] + later);
  }

  lemma SheetSkip(z: string, w: string)
    requires Clear(SHEET_OPEN, z, w)
    ensures SheetText(z + w) == SheetText(w)
  {
    hide Find, RowsIn, UpToClose, Clear;
    FindSkip(SHEET_OPEN, z, w);
    var hit := Find(SHEET_OPEN, w);
    if hit.At? {
      assert (z + w)[|z| + hit.start..] == w[hit.start..];
    }
  }

  /** Nothing in the text either, when a tail of it is all that is left. */
  lemma NoSheetInTail(buf: string, k: nat)
    requires Find(SHEET_OPEN, buf) == Nowhere && k <= |buf|
    ensures SheetText(buf[k..]) == []
  {
    TailHasNone(SHEET_OPEN, buf, k);
  }

  lemma TailHasNone(t: Tag, buf: string, k: nat)
    requires Find(t, buf) == Nowhere && k <= |buf|
    ensures Find(t, buf[k..]) == Nowhere
  {
    hide Find;
    FindIsLeftmost(t, buf);
    var z, w := buf[..k], buf[k..];
    assert buf == z + w;
    FindIsLeftmost(t, w);
    var hit := Find(t, w);
    if hit.At? {
      MatchShift(t, z, w, hit.start, hit.len);
    }
  }

  lemma NoRowInTail(buf: string, k: nat)
    requires Find(SHEET_CLOSE, buf) == Nowhere && Find(ROW_OPEN, buf) == Nowhere && k <= |buf|
    ensures RowsIn(UpToClose(buf[k..])) == []
  {
    hide Find, RowsIn, RowLen;
    TailHasNone(SHEET_CLOSE, buf, k);
    TailHasNone(ROW_OPEN, buf, k);
    RowsNone(buf[k..]);
  }

  /** Once the sheet data have started, the text before them can go. */
  lemma EnterSheet(buf: string, later: string)
    requires Find(SHEET_OPEN, buf).At?
    ensures SheetText(buf + later) == RowsIn(UpToClose(buf[Find(SHEET_OPEN, buf).start..] + later))
  {
    hide Find, RowsIn, UpToClose;
    FindExtend(SHEET_OPEN, buf, later);
    var i := Find(SHEET_OPEN, buf).start;
    assert (buf + later)[i..] == buf[i..] + later;
  }

  /** The end of the sheet data, with no row before it: nothing is left to find. */
  lemma LeaveSheet(buf: string, later: string)
    requires Find(SHEET_CLOSE, buf).At? && RowIn(UpToClose(buf)).NoRow?
    ensures RowsIn(UpToClose(buf + later)) == []
  {
    hide Find, RowsIn, RowIn;
    FindExtend(SHEET_CLOSE, buf, later);
    var e := Find(SHEET_CLOSE, buf).start;
    assert (buf + later)[..e] == buf[..e];
    RowsNone(UpToClose(buf));
  }

  lemma KeepTail(buf: string, k: nat, later: string)
    requires k <= |buf| && TagsFit(buf + later)
    ensures TagsFit(buf[k..] + later)
  {
    hide TagsFit;
    assert buf + later == buf[..k] + (buf[k..] + later);
    TagsFitSuffix(buf[..k], buf[k..] + later);
  }

  /** What remains of a buffer without an opening sheetData tag. */
  function ShortenedHead(buf: string): string {
    if |buf| > SHEET_BUFFER then buf[|buf| - SHEET_TAIL..] else buf
  }

  /** What remains of a buffer that no row starts in. */
  function ShortenedData(buf: string): string {
    if |buf| > ROW_BUFFER then buf[|buf| - ROW_TAIL..] else buf
  }

  lemma WaitForSheet(buf: string, later: string)
    requires Find(SHEET_OPEN, buf) == Nowhere && TagsFit(buf + later)
    ensures SheetText(buf + later) == SheetText(ShortenedHead(buf) + later)
    ensures SheetText(ShortenedHead(buf) + "") == []
    ensures TagsFit(ShortenedHead(buf) + later)
  {
    hide Find, SheetText, TagsFit;
    var k := if |buf| > SHEET_BUFFER then |buf| - SHEET_TAIL else 0;
    assert buf[k..] == ShortenedHead(buf) == ShortenedHead(buf) + "";
    if k > 0 { DropWithoutSheet(buf, later); }
    NoSheetInTail(buf, k);
    KeepTail(buf, k, later);
  }

  lemma WaitForRow(buf: string, later: string)
    requires Find(SHEET_CLOSE, buf) == Nowhere && Find(ROW_OPEN, buf) == Nowhere && TagsFit(buf + later)
    ensures RowsIn(UpToClose(buf + later)) == RowsIn(UpToClose(ShortenedData(buf) + later))
    ensures RowsIn(UpToClose(ShortenedData(buf) + "")) == []
    ensures TagsFit(ShortenedData(buf) + later)
  {
    hide Find, RowIn, RowsIn, UpToClose, TagsFit;
    var k := if |buf| > ROW_BUFFER then |buf| - ROW_TAIL else 0;
    assert buf[k..] == ShortenedData(buf) == ShortenedData(buf) + "";
    if k > 0 { DropWithoutRow(buf, later); }
    NoRowInTail(buf, k);
    KeepTail(buf, k, later);
  }

  lemma WaitForRowEnd(buf: string, i: nat, later: string)
    requires RowIn(UpToClose(buf)) == Row(i, 0) && TagsFit(buf + later)
    ensures i <= |buf|
    ensures RowsIn(UpToClose(buf + later)) == RowsIn(UpToClose(buf[i..] + later))
    ensures RowsIn(UpToClose(buf[i..] + "")) == []
    ensures TagsFit(buf[i..] + later)
  {
    hide Find, RowIn, RowsIn, UpToClose, TagsFit;
    DropBeforeRow(buf, i, later);
    KeepTail(buf, i, later);
    assert buf[i..] + "" == buf[i..];
  }

  /** The text searched for rows, and what the code puts back behind it. */
  lemma SearchAndRest(buf: string, k: nat)
    requires k <= |UpToClose(buf)|
    ensures UpToClose(buf) == if Find(SHEET_CLOSE, buf).At? then buf[..Find(SHEET_CLOSE, buf).start] else buf
    ensures UpToClose(buf)[k..] + (if Find(SHEET_CLOSE, buf).At? then buf[Find(SHEET_CLOSE, buf).start..] else "")
         == buf[k..]
  {
    hide Find;
  }

  // ----- the scanner -----

  /** parseRow with its context, as a function on row elements. */
  function RowReader(ctx: CellContext): string -> SheetRow {
    (xml: string) => RowOf(xml, ctx)
  }

  /** The buffer and the two flags that the generator and its inner generator share. */
  class SheetScanner {
    var buf: string
    var inSheetData: bool
    var done: bool

    constructor ()
      ensures buf == "" && !inSheetData && !done
    {
      buf, inSheetData, done := "", false, false;
    }

    /** The rows still to come, if `later` is what remains of the stream. */
    ghost function Pending(later: string): seq<string>
      reads this
    {
      if done then []
      else if inSheetData then RowsIn(UpToClose(buf + later))
      else SheetText(buf + later)
    }

    /** Looks for the start of the sheet data. */
    method FindSheet(ghost later: string)
      requires !done && !inSheetData && TagsFit(buf + later)
      modifies this
      ensures !done && |buf| <= old(|buf|) && TagsFit(buf + later)
      ensures Pending(later) == old(Pending(later))
      ensures !inSheetData ==> Pending("") == []
    {
      hide Find, RowsIn, UpToClose, SheetText, TagsFit;
      var start := Find(SHEET_OPEN, buf);
      if start.Nowhere? {
        WaitForSheet(buf, later);
        if |buf| > SHEET_BUFFER { buf := buf[|buf| - SHEET_TAIL..]; }
      } else {
        EnterSheet(buf, later);
        KeepTail(buf, start.start, later);
        inSheetData := true;
        buf := buf[start.start..];
      }
    }

    /** No row starts before the end of the sheet data, or of the buffer: leave the one, wait at the other. */
    method LeaveOrWait(ghost later: string)
      requires !done && inSheetData && TagsFit(buf + later) && Find(ROW_OPEN, UpToClose(buf)).Nowhere?
      modifies this
      ensures TagsFit(buf + later) && inSheetData
      ensures Pending("") == [] && old(Pending(later)) == Pending(later)
    {
      hide Find, RowsIn, UpToClose, SheetText, TagsFit, RowLen;
      SearchAndRest(buf, 0);
      if Find(SHEET_CLOSE, buf).At? {
        LeaveSheet(buf, later);
        KeepTail(buf, |buf|, later);
        assert buf[|buf|..] == "";
        done := true;
        buf := "";
      } else {
        WaitForRow(buf, later);
        if |buf| > ROW_BUFFER { buf := buf[|buf| - ROW_TAIL..]; }
      }
    }

    /** Takes the next complete row element out of the buffer, if there is one. */
    method TakeRowXml(ghost later: string) returns (xml: Option<string>)
      requires !done && inSheetData && TagsFit(buf + later)
      modifies this
      ensures TagsFit(buf + later) && inSheetData
      ensures xml.Some? ==> !done && |buf| < old(|buf|) && old(Pending(later)) == [xml.value] + Pending(later)
      ensures xml.None? ==> Pending("") == [] && old(Pending(later)) == Pending(later)
    {
      hide Find, RowsIn, RowIn, UpToClose, SheetText, TagsFit, RowLen;
      SearchAndRest(buf, 0);
      var endMatch := Find(SHEET_CLOSE, buf);
      var search := if endMatch.At? then buf[..endMatch.start] else buf;
      var rowStart := Find(ROW_OPEN, search);
      if rowStart.Nowhere? {
        LeaveOrWait(later);
        return None;
      }
      var start, len := rowStart.start, RowLen(search[rowStart.start..]);
      RowInIs(search);
      var after := if endMatch.At? then buf[endMatch.start..] else "";
      SearchAndRest(buf, start + len);
      assert search[start + len..] + after == buf[start + len..];
      if len == 0 {
        WaitForRowEnd(buf, start, later);
        buf := search[start..] + after;
        return None;
      }
      xml := Some(search[start..start + len]);
      TakeRow(buf, start, len, later);
      KeepTail(buf, start + len, later);
      buf := search[start + len..] + after;
    }

    /** Takes the rows that are complete in the buffer. Whatever follows, these rows and the
        ones still pending are together the rows that were pending before; on return no
        complete row is left in the buffer. Each turn that goes on makes the buffer shorter. */
    method Consume(ctx: CellContext, ghost later: string) returns (rows: seq<SheetRow>)
      requires TagsFit(buf + later)
      modifies this
      ensures old(Map(RowReader(ctx), Pending(later))) == rows + Map(RowReader(ctx), Pending(later))
      ensures Pending("") == []
      ensures TagsFit(buf + later)
      ensures old(done) ==> done
    {
      hide TagsFit, RowOf, Map, Pending;
      rows := [];
      if done { NothingPending(later); NothingPending(""); }
      while !done
        invariant TagsFit(buf + later)
        invariant old(Map(RowReader(ctx), Pending(later))) == rows + Map(RowReader(ctx), Pending(later))
        invariant done ==> Pending("") == []
        invariant old(done) ==> done
        decreases |buf|
      {
        if !inSheetData {
          FindSheet(later);
          if !inSheetData { return; }
        }
        var xml := TakeRowXml(later);
        if xml.None? { return; }
        MapCons(RowReader(ctx), xml.value, Pending(later));
        var row := ParseRow(xml.value, ctx);
        rows := rows + [row];
      }
    }

    /** The next chunk goes behind the buffer. */
    method Append(text: string, ghost later: string)
      requires !done
      modifies this`buf
      ensures buf == old(buf) + text && buf + later == old(buf) + (text + later)
      ensures Pending(later) == old(Pending(text + later))
    {
      hide RowsIn, UpToClose, SheetText;
      assert buf + (text + later) == (buf + text) + later;
      buf := buf + text;
    }

    lemma AtStart(later: string)
      requires buf == "" && !inSheetData && !done
      ensures Pending(later) == SheetText(later)
    {
      assert "" + later == later;
    }

    lemma NothingPending(later: string)
      requires done
      ensures Pending(later) == []
    {
    }
  }

  /** The row stream: however the text is cut into chunks, the rows are those of the whole
      text. The only other outcome is a refusal, and then the text is over the limit and
      the rows already delivered are the first ones of the whole text. */
  method IterateSheetRows(chunks: seq<string>, ctx: CellContext) returns (rows: seq<SheetRow>, refused: bool)
    requires TagsFit(Concat(chunks))
    ensures !refused ==> rows == Map(RowReader(ctx), SheetText(Concat(chunks)))
    ensures refused ==> |Concat(chunks)| > ENTRY_LIMIT && rows <= Map(RowReader(ctx), SheetText(Concat(chunks)))
  {
    hide SheetText, TagsFit, RowReader, Map, SheetScanner.Pending;
    var scanner := new SheetScanner();
    rows, refused := [], false;
    var seen, k := 0, 0;
    ghost var all := Map(RowReader(ctx), SheetText(Concat(chunks)));
    assert chunks[0..] == chunks && "" + Concat(chunks) == Concat(chunks);
    assert scanner.Pending(Concat(chunks)) == SheetText(Concat(chunks)) by { scanner.AtStart(Concat(chunks)); }
    while k < |chunks| && !scanner.done
      invariant 0 <= k <= |chunks|
      invariant seen + |Concat(chunks[k..])| == |Concat(chunks)|
      invariant TagsFit(scanner.buf + Concat(chunks[k..]))
      invariant all == rows + Map(RowReader(ctx), scanner.Pending(Concat(chunks[k..])))
      decreases |chunks| - k
    {
      var text := chunks[k];
      ghost var later := Concat(chunks[k + 1..]);
      ConcatFrom(chunks, k);
      seen := seen + |text|;
      if seen > ENTRY_LIMIT {
        refused := true;
        return;
      }
      scanner.Append(text, later);
      var more := scanner.Consume(ctx, later);
      rows := rows + more;
      k := k + 1;
    }
    ghost var later := Concat(chunks[k..]);
    assert k == |chunks| ==> later == "";
    var more := scanner.Consume(ctx, later);
    rows := rows + more;
    if scanner.done {
      scanner.NothingPending(later);
    }
  }
}
