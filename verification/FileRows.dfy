/** Which lines of a parsed file an import takes, by their places in the file. */
module FileRows {
  import opened JsText
  import opened RowEdits
  import opened ImportCommit
  import opened SheetImport
  import opened ParseImport

  /** Places below n, in order. */
  predicate ArePlaces(at: seq<nat>, n: nat) {
    (forall i | 0 <= i < |at| :: at[i] < n) && forall i, j | 0 <= i < j < |at| :: at[i] < at[j]
  }

  /** A line below the header with some text. */
  predicate IsDataLine(row: PhysicalRow, headerRowIndex: nat) {
    headerRowIndex < row.line && exists v :: v in row.values && Trim(v) != ""
  }

  lemma TextIsSome(row: PhysicalRow, mapping: Mapping)
    ensures IsData(row, mapping) <==> IsDataLine(row, mapping.headerRowIndex)
  {
    hide Trim;
    if IsDataLine(row, mapping.headerRowIndex) {
      var v :| v in row.values && Trim(v) != "";
      var k :| 0 <= k < |row.values| && row.values[k] == v;
      assert Trim(row.values[k]) != "";
    }
  }

  lemma ExtendPlaces(before: seq<nat>, n: nat, take: bool) returns (at: seq<nat>)
    requires ArePlaces(before, n)
    ensures at == if take then before + [n] else before
    ensures ArePlaces(at, n + 1) && n !in before
    ensures forall k: nat :: k in at <==> k in before || (take && k == n)
  {
    at := if take then before + [n] else before;
  }

  /** The row made of the line at `k`: by the headers seen before it, from its values cut or filled up to the
      width. */
  function MadeOf(rows: seq<PhysicalRow>, k: nat, mapping: Mapping): JsonRow
    requires k < |rows|
  {
    mapping.toRow(HeadersSeen(rows[..k], mapping), Padded(rows[k].values, mapping.width), rows[k].line)
  }

  lemma MadeOfPrefix(rows: seq<PhysicalRow>, n: nat, k: nat, mapping: Mapping)
    requires k < n <= |rows|
    ensures MadeOf(rows[..n], k, mapping) == MadeOf(rows, k, mapping)
  {
    assert rows[..n][..k] == rows[..k];
  }

  lemma OneMoreLine(rows: seq<PhysicalRow>, mapping: Mapping)
    requires rows != []
    ensures
      var n, before := |rows| - 1, DataRows(rows[..|rows| - 1], mapping);
      DataRows(rows, mapping)
      == if IsDataLine(rows[n], mapping.headerRowIndex) then before + [MadeOf(rows, n, mapping)] else before
  {
    hide IsDataLine, IsData, HeadersSeen, Padded;
    TextIsSome(rows[|rows| - 1], mapping);
  }

  /** The data rows are made, in order, of exactly the lines below the header with some text. */
  lemma {:induction false} DataRowsAre(rows: seq<PhysicalRow>, mapping: Mapping) returns (at: seq<nat>)
    ensures ArePlaces(at, |rows|)
    ensures forall k | 0 <= k < |rows| :: k in at <==> IsDataLine(rows[k], mapping.headerRowIndex)
    ensures |DataRows(rows, mapping)| == |at|
    ensures forall m | 0 <= m < |at| :: DataRows(rows, mapping)[m] == MadeOf(rows, at[m], mapping)
  {
    hide IsDataLine, DataRows, MadeOf;
    if rows == [] {
      at := [];
      NoLines(mapping);
    } else {
      var init, n := rows[..|rows| - 1], |rows| - 1;
      var before := DataRowsAre(init, mapping);
      OneMoreLine(rows, mapping);
      at := ExtendPlaces(before, n, IsDataLine(rows[n], mapping.headerRowIndex));
      forall m | 0 <= m < |before| ensures MadeOf(rows, before[m], mapping) == MadeOf(init, before[m], mapping) {
        MadeOfPrefix(rows, n, before[m], mapping);
      }
      forall k | 0 <= k < |rows| ensures k in at <==> IsDataLine(rows[k], mapping.headerRowIndex) {
        if k < n { assert rows[k] == init[k]; }
      }
    }
  }

  lemma NoLines(mapping: Mapping)
    ensures DataRows([], mapping) == []
  {
  }

  /** In a file whose line numbers increase, every row below the header line is read by that line's headers. */
  lemma {:induction false} HeadersAre(rows: seq<PhysicalRow>, h: nat, n: nat, mapping: Mapping)
    requires h < n <= |rows| && rows[h].line == mapping.headerRowIndex
    requires forall i, j | 0 <= i < j < |rows| :: rows[i].line < rows[j].line
    ensures HeadersSeen(rows[..n], mapping) == HeaderNames(rows[h].values)
  {
    hide HeaderNames;
    assert rows[..n][n - 1] == rows[n - 1] && rows[..n][..n - 1] == rows[..n - 1];
    if n - 1 > h { HeadersAre(rows, h, n - 1, mapping); }
  }

  /** The line at `h` is the header, and every line below it has text; lines come in order. */
  ghost predicate IsTable(file: seq<PhysicalRow>, h: nat, mapping: Mapping) {
    && h < |file| && file[h].line == mapping.headerRowIndex
    && (forall i, j | 0 <= i < j < |file| :: file[i].line < file[j].line)
    && forall i | h < i < |file| :: exists v :: v in file[i].values && Trim(v) != ""
  }

  lemma TableLines(file: seq<PhysicalRow>, h: nat, mapping: Mapping, k: nat)
    requires IsTable(file, h, mapping) && k < |file|
    ensures IsDataLine(file[k], mapping.headerRowIndex) <==> h < k
  {
    hide Trim;
    if k < h { assert file[k].line < file[h].line; }
    if h < k { assert file[h].line < file[k].line; }
  }

  /** All lines below the header are data rows, each read by the header's names. */
  lemma TableRows(file: seq<PhysicalRow>, h: nat, mapping: Mapping)
    requires h < |file| && IsTable(file, h, mapping)
    ensures
      var data := DataRows(file, mapping);
      && |data| == |file| - 1 - h
      && forall i | h < i < |file| ::
           data[i - h - 1]
           == mapping.toRow(HeaderNames(file[h].values), Padded(file[i].values, mapping.width), file[i].line)
  {
    hide IsDataLine, HeaderNames, Padded, DataRows, HeadersSeen, MadeOf, IsTable;
    var at := DataRowsAre(file, mapping);
    var n := |file| - 1 - h;
    forall k | 0 <= k < |file| ensures k in at <==> h < k { TableLines(file, h, mapping, k); }
    AllPlaces(at, h, n);
    forall i | h < i < |file|
      ensures DataRows(file, mapping)[i - h - 1]
           == mapping.toRow(HeaderNames(file[h].values), Padded(file[i].values, mapping.width), file[i].line)
    {
      assert at[i - h - 1] == i;
      TableRow(file, h, i, mapping);
    }
  }

  lemma TableRow(file: seq<PhysicalRow>, h: nat, k: nat, mapping: Mapping)
    requires IsTable(file, h, mapping) && h < k < |file|
    ensures MadeOf(file, k, mapping)
         == mapping.toRow(HeaderNames(file[h].values), Padded(file[k].values, mapping.width), file[k].line)
  {
    hide HeaderNames, Padded, HeadersSeen;
    HeadersAre(file, h, k, mapping);
  }

  /** A header line, whatever stands above it, and below it `n` lines with text: when the quota does not stop
      the run, exactly these `n` are considered, up to the cap. */
  lemma HeaderAndRows(plan: seq<Row>, file: seq<PhysicalRow>, h: nat, mapping: Mapping, world: World,
                      rows: seq<Row>, outcome: ParseOutcome, considered: nat)
    requires IsTable(file, h, mapping) && Answers(plan, file, mapping, world, rows, outcome, considered)
    requires outcome.Done? && !outcome.quotaReached
    ensures
      var n := |file| - 1 - h;
      considered == if n <= world.limits.maxRowsPerTenant then n else world.limits.maxRowsPerTenant
  {
    hide HeaderNames, Padded, DataRows, HeadersSeen, WholeRun;
    TableRows(file, h, mapping);
  }

  lemma {:induction false} PlaceAtLeast(at: seq<nat>, h: nat, i: nat)
    requires i < |at| && (forall j, k | 0 <= j < k < |at| :: at[j] < at[k]) && forall k | 0 <= k < |at| :: h < at[k]
    ensures at[i] >= h + 1 + i
  {
    if i > 0 { PlaceAtLeast(at, h, i - 1); }
  }

  /** The places above h, in order. */
  lemma {:induction false} AllPlaces(at: seq<nat>, h: nat, n: nat)
    requires ArePlaces(at, h + n + 1) && (forall k | k in at :: h < k) && forall k: nat | h < k <= h + n :: k in at
    ensures |at| == n && forall k | 0 <= k < n :: at[k] == h + 1 + k
  {
    assert forall i | 0 <= i < |at| :: at[i] in at;
    if at != [] { PlaceAtLeast(at, h, |at| - 1); }
    assert |at| <= n;
    if n > 0 {
      var m := |at| - 1;
      assert h + n in at;
      var j :| 0 <= j < |at| && at[j] == h + n;
      assert at[m] in at;
      assert j == m;
      var init := at[..m];
      forall k: nat | h < k <= h + n - 1 ensures k in init {
        assert k in at;
        var i :| 0 <= i < |at| && at[i] == k;
        assert init[i] == k;
      }
      AllPlaces(init, h, n - 1);
    }
  }

  /** A data row goes on when no data row before it has the same key, trimmed, and it is neither invalid nor
      blank. A row without a key, or with a blank one, repeats none. */
  predicate GoesOn(data: seq<JsonRow>, k: nat, mapping: Mapping)
    requires k < |data|
  {
    && !mapping.isInvalid(data[k]) && !mapping.isBlank(data[k])
    && (data[k].externalKey.Some? && Trim(data[k].externalKey.value) != "" ==>
          forall j | 0 <= j < k && data[j].externalKey.Some? ::
            Trim(data[j].externalKey.value) != Trim(data[k].externalKey.value))
  }

  lemma GoesOnLast(data: seq<JsonRow>, mapping: Mapping)
    requires data != []
    ensures Accepts(SeenKeys(data[..|data| - 1]), data[|data| - 1], mapping) <==> GoesOn(data, |data| - 1, mapping)
  {
    hide Trim;
    var init, last := data[..|data| - 1], data[|data| - 1];
    var key := NotBlank(last.externalKey);
    if key.Some? && key.value in SeenKeys(init) {
      var j :| 0 <= j < |init| && NotBlank(init[j].externalKey).Some?
        && NotBlank(init[j].externalKey).value == key.value;
      assert data[j] == init[j];
    }
    if key.Some? && key.value !in SeenKeys(init) {
      forall j | 0 <= j < |init| && data[j].externalKey.Some? ensures Trim(data[j].externalKey.value) != key.value {
        assert data[j] == init[j];
        assert NotBlank(init[j].externalKey).Some? ==> NotBlank(init[j].externalKey).value in SeenKeys(init);
      }
    }
  }

  lemma OneMoreAccepted(data: seq<JsonRow>, mapping: Mapping)
    requires data != []
    ensures
      var n, before := |data| - 1, Accepted(data[..|data| - 1], mapping);
      Accepted(data, mapping) == if GoesOn(data, n, mapping) then before + [data[n]] else before
  {
    hide Accepts, GoesOn, SeenKeys;
    GoesOnLast(data, mapping);
  }

  /** The accepted rows are, in order, exactly the data rows that go on. */
  lemma {:induction false} AcceptedAre(data: seq<JsonRow>, mapping: Mapping) returns (at: seq<nat>)
    ensures ArePlaces(at, |data|)
    ensures forall k | 0 <= k < |data| :: k in at <==> GoesOn(data, k, mapping)
    ensures |Accepted(data, mapping)| == |at| && forall m | 0 <= m < |at| :: Accepted(data, mapping)[m] == data[at[m]]
  {
    hide GoesOn, Accepted;
    if data == [] {
      at := [];
      NoData(mapping);
    } else {
      var init, n := data[..|data| - 1], |data| - 1;
      var before := AcceptedAre(init, mapping);
      OneMoreAccepted(data, mapping);
      at := ExtendPlaces(before, n, GoesOn(data, n, mapping));
      forall k | 0 <= k < n ensures GoesOn(data, k, mapping) <==> GoesOn(init, k, mapping) {
        GoesOnPrefix(data, k, mapping);
      }
      assert forall m | 0 <= m < |before| :: init[before[m]] == data[before[m]];
    }
  }

  lemma NoData(mapping: Mapping)
    ensures Accepted([], mapping) == []
  {
  }

  lemma GoesOnPrefix(data: seq<JsonRow>, k: nat, mapping: Mapping)
    requires k < |data| - 1
    ensures GoesOn(data, k, mapping) <==> GoesOn(data[..|data| - 1], k, mapping)
  {
    hide Trim;
    assert forall j | 0 <= j <= k :: data[j] == data[..|data| - 1][j];
  }
}
