/** The bounded extraction of physical rows, with its stop rule on runs of blank rows. */
module PhysicalRows {
  import opened JsText

  const PEEK_ROWS: nat := 20
  const MAX_TRAILING_EMPTY: nat := 10

  /** How many more physical rows than records are extracted at most. */
  const EXTRA_ROWS: nat := 50

  datatype PhysicalRow = PhysicalRow(line: nat, values: seq<string>)

  // ----- rows with data -----

  function ZeroRun(s: string): (r: nat)
    ensures r <= |s|
  {
    if s != "" && s[0] == '0' then 1 + ZeroRun(s[1..]) else 0
  }

  /** `/^0+(\.0+)?$/` */
  predicate IsZero(s: string) {
    var r := ZeroRun(s);
    r > 0 && (r == |s| || (s[r] == '.' && r + 1 < |s| && ZeroRun(s[r + 1..]) == |s| - r - 1))
  }

  function Upper(s: string): string {
    if s == "" then "" else
    [if 'a' <= s[0] <= 'z' then (s[0] as int - 32) as char else s[0]] + Upper(s[1..])
  }

  const FORMULA_ERRORS := {"#REF!", "#N/A!", "#VALUE!", "#NULL!", "#DIV/0!", "#NAME!", "#NUM!"}

  /** A cell without useful content: blank, a dash, a lone zero or a formula error. */
  predicate IsTrivialCell(value: string) {
    var t := Trim(value);
    t in {"", "-", "\U{2014}", "\U{2013}"} || IsZero(t) || Upper(t) in FORMULA_ERRORS
  }

  function Zeros(n: nat): string {
    if n == 0 then "" else "0" + Zeros(n - 1)
  }

  /** Zeros, and perhaps a point and zeros behind it. */
  ghost predicate IsZeroText(s: string) {
    exists n: nat, m: nat :: n > 0 && (s == Zeros(n) || (m > 0 && s == Zeros(n) + "." + Zeros(m)))
  }

  lemma {:induction false} ZerosCounted(s: string)
    ensures Zeros(ZeroRun(s)) == s[..ZeroRun(s)]
  {
    if s != "" && s[0] == '0' {
      ZerosCounted(s[1..]);
      assert s[..ZeroRun(s)] == "0" + s[1..][..ZeroRun(s[1..])];
    }
  }

  lemma {:induction false} ZerosRun(n: nat, rest: string)
    requires rest == "" || rest[0] != '0'
    ensures ZeroRun(Zeros(n) + rest) == n && |Zeros(n)| == n
  {
    if n == 0 {
      assert Zeros(n) + rest == rest;
    } else {
      ZerosRun(n - 1, rest);
      assert (Zeros(n) + rest)[1..] == Zeros(n - 1) + rest;
    }
  }

  lemma ZeroExactly(s: string)
    ensures IsZero(s) <==> IsZeroText(s)
  {
    hide ZeroRun, Zeros;
    if IsZero(s) {
      var r := ZeroRun(s);
      ZerosCounted(s);
      assert s == s[..r] + s[r..];
      if r == |s| {
        assert s == Zeros(r);
      } else {
        var m := |s| - r - 1;
        ZerosCounted(s[r + 1..]);
        assert s[r + 1..][..m] == s[r + 1..] && s == s[..r] + "." + s[r + 1..];
        assert m > 0 && s == Zeros(r) + "." + Zeros(m);
      }
    }
    if IsZeroText(s) {
      var n: nat, m: nat :| n > 0 && (s == Zeros(n) || (m > 0 && s == Zeros(n) + "." + Zeros(m)));
      if s == Zeros(n) {
        assert s + "" == s;
        ZerosRun(n, "");
      } else {
        assert s == Zeros(n) + ("." + Zeros(m)) && Zeros(m) + "" == Zeros(m);
        ZerosRun(n, "." + Zeros(m));
        ZerosRun(m, "");
        assert s[n + 1..] == Zeros(m);
      }
    }
  }

  /** The character, in either letter case. */
  predicate SameLetter(c: char, upper: char) {
    c == upper || ('A' <= upper <= 'Z' && c as int == upper as int + 32)
  }

  predicate SameLetters(s: string, upper: string) {
    |s| == |upper| && forall k | 0 <= k < |s| :: SameLetter(s[k], upper[k])
  }

  lemma {:induction false} UpperAt(s: string)
    ensures |Upper(s)| == |s|
    ensures forall k | 0 <= k < |s| :: Upper(s)[k] == if 'a' <= s[k] <= 'z' then (s[k] as int - 32) as char else s[k]
  {
    if s != "" { UpperAt(s[1..]); }
  }

  /** A cell is trivial exactly when it is blank, a dash, a zero or the name of a formula error, in any letter
      case, white space around it aside. */
  lemma TrivialExactly(value: string)
    ensures IsTrivialCell(value) <==> IsPlaceholder(value)
  {
    hide Trim, IsZero, Upper;
    var t := Trim(value);
    ZeroExactly(t);
    UpperAt(t);
    forall e | e in FORMULA_ERRORS ensures Upper(t) == e <==> SameLetters(t, e) {
      ErrorsAreUpper(e);
      UpperIs(t, e);
    }
  }

  lemma ErrorsAreUpper(e: string)
    requires e in FORMULA_ERRORS
    ensures forall k | 0 <= k < |e| :: !('a' <= e[k] <= 'z')
  {
  }

  lemma UpperIs(t: string, e: string)
    requires forall k | 0 <= k < |e| :: !('a' <= e[k] <= 'z')
    ensures Upper(t) == e <==> SameLetters(t, e)
  {
    hide Upper;
    UpperAt(t);
  }

  predicate HasData(values: seq<string>) {
    exists k :: 0 <= k < |values| && !IsTrivialCell(values[k])
  }

  /** What a cell must not be to count: blank, a dash, a zero or the name of a formula error. */
  ghost predicate IsPlaceholder(value: string) {
    || Trim(value) in {"", "-", "\U{2013}", "\U{2014}"} || IsZeroText(Trim(value))
    || exists e :: e in FORMULA_ERRORS && SameLetters(Trim(value), e)
  }

  /** A row has data exactly when some cell of it is more than a placeholder. */
  lemma DataExactly(values: seq<string>)
    ensures HasData(values) <==> exists v :: v in values && !IsPlaceholder(v)
  {
    hide IsTrivialCell, IsPlaceholder;
    forall v ensures IsTrivialCell(v) <==> IsPlaceholder(v) { TrivialExactly(v); }
    if v :| v in values && !IsPlaceholder(v) {
      var k :| 0 <= k < |values| && values[k] == v;
      assert !IsTrivialCell(values[k]);
    }
  }

  // ----- what is to be extracted -----

  /** The rows kept of those read so far: the first twenty as they are, then those with data. */
  function Kept(rows: seq<PhysicalRow>): seq<PhysicalRow> {
    if rows == [] then [] else
    var last := rows[|rows| - 1];
    Kept(rows[..|rows| - 1]) + (if |rows| <= PEEK_ROWS || HasData(last.values) then [last] else [])
  }

  function DataRows(rows: seq<PhysicalRow>): seq<PhysicalRow> {
    if rows == [] then [] else
    DataRows(rows[..|rows| - 1])
      + (if HasData(rows[|rows| - 1].values) then [rows[|rows| - 1]] else [])
  }

  /** How many blank rows stand at the end. */
  function BlankRun(rows: seq<PhysicalRow>): nat {
    if rows == [] || HasData(rows[|rows| - 1].values) then 0 else 1 + BlankRun(rows[..|rows| - 1])
  }

  function MaxWidth(rows: seq<PhysicalRow>): nat {
    if rows == [] then 0 else
    var w := MaxWidth(rows[..|rows| - 1]);
    if |rows[|rows| - 1].values| > w then |rows[|rows| - 1].values| else w
  }

  /** A data row arriving when the cap is reached. */
  predicate OverCap(rows: seq<PhysicalRow>, i: nat, cap: nat) {
    i < |rows| && HasData(rows[i].values) && |Kept(rows[..i])| >= cap
  }

  /** A blank row after the first twenty that closes a run of at least ten. */
  predicate ClosesBlankRun(rows: seq<PhysicalRow>, i: nat) {
    PEEK_ROWS <= i < |rows| && !HasData(rows[i].values) && BlankRun(rows[..i + 1]) >= MAX_TRAILING_EMPTY
  }

  lemma {:induction false} KeptOfPrefix(rows: seq<PhysicalRow>)
    ensures |rows| <= PEEK_ROWS ==> Kept(rows) == rows
    ensures |rows| > PEEK_ROWS ==> Kept(rows) == rows[..PEEK_ROWS] + DataRows(rows[PEEK_ROWS..])
  {
    hide HasData;
    if rows != [] {
      var init := rows[..|rows| - 1];
      KeptOfPrefix(init);
      if |rows| == PEEK_ROWS + 1 {
        assert rows[PEEK_ROWS..] == [rows[PEEK_ROWS]];
        assert DataRows([]) == [] && [rows[PEEK_ROWS]][..0] == [];
        assert init == rows[..PEEK_ROWS];
      } else if |rows| > PEEK_ROWS {
        assert init[..PEEK_ROWS] == rows[..PEEK_ROWS];
        assert rows[PEEK_ROWS..][..|rows| - PEEK_ROWS - 1] == init[PEEK_ROWS..];
      }
    }
  }

  /** One row more. */
  lemma OneMore(seen: seq<PhysicalRow>, row: PhysicalRow)
    ensures
      var more := seen + [row];
      && more[..|seen|] == seen && more[..|seen| + 1] == more && more[|seen|] == row
      && Kept(more) == Kept(seen) + (if |seen| < PEEK_ROWS || HasData(row.values) then [row] else [])
      && BlankRun(more) == (if HasData(row.values) then 0 else BlankRun(seen) + 1)
      && MaxWidth(more) == (if |row.values| > MaxWidth(seen) then |row.values| else MaxWidth(seen))
  {
    hide HasData;
    assert (seen + [row])[..|seen|] == seen;
  }

  /** Until twenty rows are kept, every row is. */
  lemma KeptCount(seen: seq<PhysicalRow>)
    ensures |Kept(seen)| >= PEEK_ROWS <==> |seen| >= PEEK_ROWS
  {
    KeptOfPrefix(seen);
  }

  // ----- what the counters mean -----

  /** The width is that of the widest row. */
  lemma {:induction false} WidthIsMax(rows: seq<PhysicalRow>)
    ensures forall k | 0 <= k < |rows| :: |rows[k].values| <= MaxWidth(rows)
    ensures MaxWidth(rows) > 0 ==> exists k | 0 <= k < |rows| :: |rows[k].values| == MaxWidth(rows)
  {
    if rows != [] {
      var init, n := rows[..|rows| - 1], |rows| - 1;
      WidthIsMax(init);
      if MaxWidth(rows) > 0 && |rows[n].values| < MaxWidth(rows) {
        var k :| 0 <= k < |init| && |init[k].values| == MaxWidth(init);
        assert |rows[k].values| == MaxWidth(rows);
      }
    }
  }

  lemma {:induction false} LastAreBlank(rows: seq<PhysicalRow>, n: nat)
    requires n <= |rows|
    ensures BlankRun(rows) >= n <==> forall j | |rows| - n <= j < |rows| :: !HasData(rows[j].values)
  {
    hide HasData;
    if n > 0 {
      var init := rows[..|rows| - 1];
      LastAreBlank(init, n - 1);
      assert forall j | 0 <= j < |init| :: init[j] == rows[j];
      if forall j | |rows| - n <= j < |rows| :: !HasData(rows[j].values) {
        assert forall j | |init| - (n - 1) <= j < |init| :: !HasData(init[j].values);
      }
    }
  }

  /** A row closes a run of blanks exactly when it comes after the first twenty and it and the nine rows before
      it are all blank. */
  lemma ClosesAfterTen(rows: seq<PhysicalRow>, i: nat)
    requires i < |rows|
    ensures ClosesBlankRun(rows, i) <==> i >= 20 && forall j | i - 9 <= j <= i :: !HasData(rows[j].values)
  {
    hide HasData, BlankRun;
    if i >= 20 {
      var seen := rows[..i + 1];
      LastAreBlank(seen, 10);
      assert forall j | 0 <= j <= i :: seen[j] == rows[j];
    }
  }

  // ----- the extractor -----

  datatype Signal = Ok | Stop

  /** The state record of the extraction, and the rows handed to the row callback. */
  class Extraction {
    const cap: nat
    var emitted: nat
    var emptyStreak: nat
    var columnCount: nat
    var truncated: bool
    var written: seq<PhysicalRow>

    constructor (maxImportRows: nat)
      ensures cap == maxImportRows + EXTRA_ROWS && !truncated
      ensures InStep([])
    {
      cap := maxImportRows + EXTRA_ROWS;
      emitted, emptyStreak, columnCount, truncated, written := 0, 0, 0, false, [];
    }

    /** The state after the rows `seen`, none of which stopped the extraction. */
    ghost predicate InStep(seen: seq<PhysicalRow>)
      reads this
    {
      && cap >= PEEK_ROWS + 30
      && emitted == |written| <= cap
      && written == Kept(seen)
      && emptyStreak == BlankRun(seen)
      && columnCount == MaxWidth(seen)
    }

    method EmitPhysicalRow(row: PhysicalRow, ghost seen: seq<PhysicalRow>) returns (next: Signal)
      requires InStep(seen) && !truncated
      modifies this
      ensures next == Ok ==> InStep(seen + [row]) && !truncated
      ensures next == Ok ==> !OverCap(seen + [row], |seen|, cap) && !ClosesBlankRun(seen + [row], |seen|)
      ensures next == Stop ==> written == old(written) && emitted == |written| && columnCount == MaxWidth(seen + [row])
      ensures next == Stop ==> if truncated then OverCap(seen + [row], |seen|, cap)
                               else ClosesBlankRun(seen + [row], |seen|)
    {
      hide HasData, Kept, BlankRun, MaxWidth;
      OneMore(seen, row);
      KeptCount(seen);
      columnCount := if |row.values| > columnCount then |row.values| else columnCount;
      var empty := !HasData(row.values);
      if empty {
        emptyStreak := emptyStreak + 1;
        if emitted >= PEEK_ROWS {
          if emptyStreak >= MAX_TRAILING_EMPTY { return Stop; }
          return Ok;
        }
      } else {
        emptyStreak := 0;
      }
      if emitted >= cap {
        truncated := true;
        return Stop;
      }
      written := written + [row];
      emitted := emitted + 1;
      return Ok;
    }
  }

  /** The extraction of a whole file, row by row until one stops it. `stop` rows were read
      before that one. An empty file is refused. */
  method ExtractPhysicalRows(rows: seq<PhysicalRow>, maxImportRows: nat)
      returns (written: seq<PhysicalRow>, columnCount: nat, truncated: bool, refused: bool, stop: nat)
    ensures stop <= |rows|
    ensures |rows[..stop]| <= PEEK_ROWS ==> written == rows[..stop]
    ensures stop > PEEK_ROWS ==> written == rows[..PEEK_ROWS] + DataRows(rows[PEEK_ROWS..stop])
    ensures |written| <= maxImportRows + EXTRA_ROWS
    ensures forall i | 0 <= i < stop :: !OverCap(rows, i, maxImportRows + EXTRA_ROWS) && !ClosesBlankRun(rows, i)
    ensures truncated <==> OverCap(rows, stop, maxImportRows + EXTRA_ROWS)
    ensures stop < |rows| && !truncated ==> ClosesBlankRun(rows, stop)
    ensures columnCount == MaxWidth(if stop < |rows| then rows[..stop + 1] else rows)
    ensures refused <==> rows == []
  {
    hide HasData, Kept, DataRows, BlankRun, MaxWidth;
    var state := new Extraction(maxImportRows);
    stop := 0;
    while stop < |rows|
      invariant stop <= |rows|
      invariant state.InStep(rows[..stop]) && !state.truncated
      invariant forall i | 0 <= i < stop :: !OverCap(rows, i, state.cap) && !ClosesBlankRun(rows, i)
    {
      assert rows[..stop] + [rows[stop]] == rows[..stop + 1];
      SameUpTo(rows, stop, state.cap);
      var next := state.EmitPhysicalRow(rows[stop], rows[..stop]);
      if next == Stop { break; }
      stop := stop + 1;
    }
    assert stop == |rows| ==> rows[..stop] == rows;
    KeptOfPrefix(rows[..stop]);
    assert stop > PEEK_ROWS
      ==> rows[..stop][..PEEK_ROWS] == rows[..PEEK_ROWS] && rows[..stop][PEEK_ROWS..] == rows[PEEK_ROWS..stop];
    written, columnCount, truncated := state.written, state.columnCount, state.truncated;
    refused := state.emitted == 0;
    KeptOfPrefix(rows[..0]);
    assert rows != [] ==> !OverCap(rows, 0, maxImportRows + EXTRA_ROWS) && !ClosesBlankRun(rows, 0);
  }

  /** Whether a row stops the extraction depends on the rows up to it only. */
  lemma SameUpTo(rows: seq<PhysicalRow>, i: nat, cap: nat)
    requires i < |rows|
    ensures OverCap(rows[..i + 1], i, cap) <==> OverCap(rows, i, cap)
    ensures ClosesBlankRun(rows[..i + 1], i) <==> ClosesBlankRun(rows, i)
  {
    assert rows[..i + 1][..i] == rows[..i] && rows[..i + 1][..i + 1] == rows[..i + 1];
  }

  /** The run counted at the end is a run of blank rows, with no blank row before it. */
  lemma {:induction false} BlankRunIsBlank(rows: seq<PhysicalRow>)
    ensures BlankRun(rows) <= |rows|
    ensures forall k | |rows| - BlankRun(rows) <= k < |rows| :: !HasData(rows[k].values)
    ensures BlankRun(rows) < |rows| ==> HasData(rows[|rows| - BlankRun(rows) - 1].values)
  {
    hide HasData;
    if rows != [] && !HasData(rows[|rows| - 1].values) {
      BlankRunIsBlank(rows[..|rows| - 1]);
    }
  }
}
