/** commitImportChunk: one transaction that upserts a chunk of rows into a plan by external key. */
module ImportCommit {
  import opened JsText
  import opened RowCells
  import opened ProjectRow
  import opened RowEdits
  import opened ExternalKeys

  datatype ImportRow = ImportRow(
    externalKey: Option<string>,
    title: string,
    description: Option<string>,
    unitId: Option<string>,
    responsibleId: Option<string>,
    responsibleName: Option<string>,
    status: Option<Status>,
    priority: Option<Priority>,
    dueDate: Option<Day>,
    values: Values)

  /** What stays the same during a commit: the columns and the day. */
  datatype Setup = Setup(byKey: KeyMap, rules: Rules, today: Day)

  /** byExternalKey: the row with the key, the last one if there were several. */
  function FindRow(rows: seq<Row>, key: Option<string>): (at: Option<nat>)
    ensures at.Some? ==> at.value < |rows| && IsKey(key) && rows[at.value].externalKey == key
    ensures at.None? && IsKey(key) ==> forall i | 0 <= i < |rows| :: rows[i].externalKey != key
  {
    if !IsKey(key) || rows == [] then None
    else if rows[|rows| - 1].externalKey == key then Some(|rows| - 1)
    else FindRow(rows[..|rows| - 1], key)
  }

  /** The fields an update names; an undefined one leaves the column alone. */
  function Touched(row: Row, input: ImportRow): Row {
    row.(
      deleted := false,
      title := input.title,
      description := if input.description.Some? then input.description else row.description,
      responsibleId := if input.responsibleId.Some? then input.responsibleId else row.responsibleId,
      responsibleName := if input.responsibleName.Some? then input.responsibleName else row.responsibleName,
      unitId := if input.unitId.Some? then input.unitId else row.unitId)
  }

  /** The update of a row; `existing` is the row as it was read before the transaction. */
  function Updating(row: Row, existing: Row, input: ImportRow, setup: Setup): Row {
    Projection(Touched(row, input), Merged(existing.cells, input.values, setup.byKey), Some(existing.status),
               setup.rules, setup.today)
  }

  /** A new row with the column defaults. */
  function Blank(input: ImportRow, key: string): Row {
    Row(Some(key), false, input.title, input.description, input.responsibleId, input.responsibleName, input.unitId,
        None, Or(input.status, PENDING), Or(input.priority, MEDIUM), input.dueDate, None, map[])
  }

  function Creating(input: ImportRow, key: string, setup: Setup): Row {
    Projection(Blank(input, key), Built(input.values, setup.byKey), None, setup.rules, setup.today)
  }

  /** The state of the loop: rows updated so far, rows to create, the allocator's number. */
  datatype Pass = Pass(rows: seq<Row>, toCreate: seq<Row>, highest: nat)

  function GivenKey(input: ImportRow): string {
    if input.externalKey.Some? then Trim(input.externalKey.value) else ""
  }

  function Step(pass: Pass, snapshot: seq<Row>, input: ImportRow, setup: Setup): Pass
    requires |pass.rows| == |snapshot|
  {
    var at := FindRow(snapshot, input.externalKey);
    if at.Some? then
      pass.(rows := pass.rows[at.value := Updating(pass.rows[at.value], snapshot[at.value], input, setup)])
    else if GivenKey(input) != "" then
      pass.(toCreate := pass.toCreate + [Creating(input, GivenKey(input), setup)])
    else
      pass.(toCreate := pass.toCreate + [Creating(input, GeneratedKey(pass.highest + 1), setup)],
            highest := pass.highest + 1)
  }

  function KeysIn(rows: seq<Row>): seq<Option<string>> {
    Map((r: Row) => r.externalKey, rows)
  }

  function PassOver(snapshot: seq<Row>, chunk: seq<ImportRow>, setup: Setup): (pass: Pass)
    ensures |pass.rows| == |snapshot|
    ensures pass.highest <= Highest(KeysIn(snapshot)) + |chunk|
  {
    if chunk == [] then Pass(snapshot, [], Highest(KeysIn(snapshot)))
    else Step(PassOver(snapshot, chunk[..|chunk| - 1], setup), snapshot, chunk[|chunk| - 1], setup)
  }

  /** The unique index on plan and external key; nulls do not count. */
  predicate UniqueKeys(rows: seq<Row>) {
    forall i, j | 0 <= i < j < |rows| && rows[i].externalKey.Some? :: rows[i].externalKey != rows[j].externalKey
  }

  /** The rows after a commit, or None when the database refuses it and rolls back. */
  function Committed(rows: seq<Row>, chunk: seq<ImportRow>, setup: Setup): Option<seq<Row>> {
    var pass := PassOver(rows, chunk, setup);
    if UniqueKeys(pass.rows + pass.toCreate) then Some(pass.rows + pass.toCreate) else None
  }

  /** The rows of one plan, and the number of rows in the tenant's other plans. */
  class PlanTable {
    var rows: seq<Row>
    const otherRows: nat

    constructor (rows: seq<Row>, otherRows: nat)
      ensures this.rows == rows && this.otherRows == otherRows
    {
      this.rows, this.otherRows := rows, otherRows;
    }

    /** The transaction: read the plan, go through the chunk, create the new rows at the end.
        `dbFails` stands for a failure of the database itself; either way a failed
        transaction leaves the rows as they were. */
    method CommitImportChunk(chunk: seq<ImportRow>, setup: Setup, dbFails: bool) returns (touched: Option<nat>)
      requires UniqueKeys(rows)
      requires Highest(KeysIn(rows)) + |chunk| < MAX_SAFE
      modifies this`rows
      ensures dbFails || Committed(old(rows), chunk, setup).None? ==> touched == None && rows == old(rows)
      ensures !dbFails && Committed(old(rows), chunk, setup).Some? ==>
                touched == Some(|chunk|) && rows == Committed(old(rows), chunk, setup).value
      ensures UniqueKeys(rows)
    {
      hide Projection, Merged, Built, FindRow, Trim, GeneratedKey, Highest, KeysIn, UniqueKeys;
      var planRows := rows;
      var nextExternalKey := new KeyAllocator(KeysIn(planRows));
      var updated, toCreate, count := planRows, [], 0;
      for index := 0 to |chunk|
        invariant fresh(nextExternalKey) && rows == planRows
        invariant count + |toCreate| == index
        invariant |updated| == |planRows|
        invariant PassOver(planRows, chunk[..index], setup) == Pass(updated, toCreate, nextExternalKey.highest)
        invariant nextExternalKey.highest <= Highest(KeysIn(planRows)) + index
      {
        var input := chunk[index];
        assert chunk[..index + 1][..index] == chunk[..index];
        var existing := FindRow(planRows, input.externalKey);
        if existing.Some? {
          var at := existing.value;
          updated := updated[at := Updating(updated[at], planRows[at], input, setup)];
          count := count + 1;
        } else {
          var key := GivenKey(input);
          if key == "" { key := nextExternalKey.Next(); }
          toCreate := toCreate + [Creating(input, key, setup)];
        }
      }
      assert chunk[..|chunk|] == chunk;
      if dbFails || !UniqueKeys(updated + toCreate) { return None; }
      rows := updated + toCreate;
      touched := Some(count + |toCreate|);
    }
  }

  // ----- settled rows -----

  /** Committing the row's input again would not change it. */
  predicate Settled(row: Row, input: ImportRow, setup: Setup) {
    Updating(row, row, input, setup) == row
  }

  lemma UpdatedIsSettled(row: Row, input: ImportRow, setup: Setup)
    requires WellKeyed(setup.rules.columns) && ReadsVocabulary(setup.rules.normalize)
    ensures Settled(Updating(row, row, input, setup), input, setup)
  {
    hide WellKeyed, ReadsVocabulary, WithDerived, Merged, Project, HasKey;
    var merged := Merged(row.cells, input.values, setup.byKey);
    var p := Project(merged, setup.rules.columns, Some(row.status), setup.today, setup.rules.normalize);
    var later := Updating(row, row, input, setup).status;
    StatusIsKept(merged, setup.rules, row.status, later, setup.today);
    SecondPass(row, input.values, setup.byKey, setup.rules, Some(row.status), Some(later), setup.today);
  }

  lemma CreatedIsSettled(input: ImportRow, key: string, setup: Setup)
    requires WellKeyed(setup.rules.columns) && ReadsVocabulary(setup.rules.normalize)
    requires DistinctTargets(input.values, setup.byKey)
    ensures Settled(Creating(input, key, setup), input, setup)
  {
    hide WellKeyed, ReadsVocabulary, WithDerived, Merged, Built, Project, HasKey, DistinctTargets;
    BuiltIsMerged(input.values, setup.byKey);
    var blank := Blank(input, key);
    var created := Creating(input, key, setup);
    SecondPass(blank, input.values, setup.byKey, setup.rules, None, Some(created.status), setup.today);
    NewStatusIsKept(Merged(map[], input.values, setup.byKey), setup);
  }

  /** A status projected for a new row is not a workflow status. */
  lemma NewStatusIsKept(merged: CellMap, setup: Setup)
    ensures
      var p := Project(merged, setup.rules.columns, None, setup.today, setup.rules.normalize);
      KeepWorkflow(Some(p.status), EnumOf(p.statusAtual)) == p.status
  {
    hide CellOf, IsCanceled, ParseDateOnly, Text;
  }

  /** The input with the key, the last one if there were several. */
  function InputFor(chunk: seq<ImportRow>, key: Option<string>): (input: Option<ImportRow>)
    ensures input.Some? ==> input.value in chunk && input.value.externalKey == key
    ensures input.None? ==> forall j | 0 <= j < |chunk| :: chunk[j].externalKey != key
  {
    if chunk == [] then None
    else if chunk[|chunk| - 1].externalKey == key then Some(chunk[|chunk| - 1])
    else InputFor(chunk[..|chunk| - 1], key)
  }

  predicate DistinctKeys(chunk: seq<ImportRow>) {
    && (forall i | 0 <= i < |chunk| :: IsKey(chunk[i].externalKey))
    && (forall i, j | 0 <= i < j < |chunk| :: chunk[i].externalKey != chunk[j].externalKey)
  }

  function AfterInput(row: Row, input: Option<ImportRow>, setup: Setup): Row {
    if input.Some? then Updating(row, row, input.value, setup) else row
  }

  /** The rows created for the inputs whose key the plan does not have. */
  function NewRows(rows: seq<Row>, chunk: seq<ImportRow>, setup: Setup): seq<Row> {
    if chunk == [] then [] else
    var last := chunk[|chunk| - 1];
    var before := NewRows(rows, chunk[..|chunk| - 1], setup);
    if FindRow(rows, last.externalKey).Some? then before else before + [Creating(last, GivenKey(last), setup)]
  }

  /** What a pass over distinct keys does: each row named by the chunk is updated by the one input
      that names it, the others are as they were, the inputs that name no row are new rows. */
  predicate Upserts(pass: Pass, rows: seq<Row>, chunk: seq<ImportRow>, setup: Setup) {
    && |pass.rows| == |rows|
    && (forall i | 0 <= i < |rows| :: pass.rows[i] == AfterInput(rows[i], InputFor(chunk, rows[i].externalKey), setup))
    && pass.toCreate == NewRows(rows, chunk, setup)
  }

  lemma KeysKept(row: Row, existing: Row, input: ImportRow, key: string, setup: Setup)
    ensures Updating(row, existing, input, setup).externalKey == row.externalKey
    ensures Creating(input, key, setup).externalKey == Some(key)
    ensures !Updating(row, existing, input, setup).deleted && !Creating(input, key, setup).deleted
  {
    hide Project, WithDerived, Merged, Built;
  }

  predicate HasGivenKeys(chunk: seq<ImportRow>) {
    forall i | 0 <= i < |chunk| :: IsKey(chunk[i].externalKey) && GivenKey(chunk[i]) == chunk[i].externalKey.value
  }

  lemma {:induction false} PassUpserts(rows: seq<Row>, chunk: seq<ImportRow>, setup: Setup)
    requires UniqueKeys(rows) && DistinctKeys(chunk) && HasGivenKeys(chunk)
    ensures Upserts(PassOver(rows, chunk, setup), rows, chunk, setup)
  {
    hide Updating, Creating, GivenKey, Highest, KeysIn;
    if chunk != [] {
      var k := |chunk| - 1;
      PassUpserts(rows, chunk[..k], setup);
      var at := FindRow(rows, chunk[k].externalKey);
      if at.Some? {
        assert InputFor(chunk[..k], rows[at.value].externalKey).None?;
      }
    }
  }

  lemma {:induction false} NewRowAt(rows: seq<Row>, chunk: seq<ImportRow>, m: nat, setup: Setup)
    requires DistinctKeys(chunk) && HasGivenKeys(chunk)
    requires m < |NewRows(rows, chunk, setup)|
    ensures
      var new' := NewRows(rows, chunk, setup)[m];
      var input := InputFor(chunk, new'.externalKey);
      FindRow(rows, new'.externalKey).None? && input.Some?
        && new' == Creating(input.value, GivenKey(input.value), setup)
  {
    hide Creating, GivenKey, FindRow;
    if chunk != [] {
      var k := |chunk| - 1;
      KeysKept(Blank(chunk[k], ""), Blank(chunk[k], ""), chunk[k], GivenKey(chunk[k]), setup);
      if m < |NewRows(rows, chunk[..k], setup)| { NewRowAt(rows, chunk[..k], m, setup); }
    }
  }

  lemma {:induction false} NewRowFor(rows: seq<Row>, chunk: seq<ImportRow>, j: nat, setup: Setup) returns (m: nat)
    requires HasGivenKeys(chunk)
    requires j < |chunk| && FindRow(rows, chunk[j].externalKey).None?
    ensures m < |NewRows(rows, chunk, setup)| && NewRows(rows, chunk, setup)[m].externalKey == chunk[j].externalKey
  {
    hide Creating, GivenKey, FindRow;
    var k := |chunk| - 1;
    if j == k {
      KeysKept(Blank(chunk[k], ""), Blank(chunk[k], ""), chunk[k], GivenKey(chunk[k]), setup);
      m := |NewRows(rows, chunk[..k], setup)|;
    } else {
      m := NewRowFor(rows, chunk[..k], j, setup);
    }
  }

  lemma {:induction false} NewKeysDiffer(rows: seq<Row>, chunk: seq<ImportRow>, setup: Setup)
    requires DistinctKeys(chunk) && HasGivenKeys(chunk)
    ensures UniqueKeys(NewRows(rows, chunk, setup))
  {
    hide Creating, GivenKey, FindRow;
    if chunk != [] {
      var k := |chunk| - 1;
      var before := NewRows(rows, chunk[..k], setup);
      NewKeysDiffer(rows, chunk[..k], setup);
      KeysKept(Blank(chunk[k], ""), Blank(chunk[k], ""), chunk[k], GivenKey(chunk[k]), setup);
      forall m | 0 <= m < |before| ensures before[m].externalKey != chunk[k].externalKey {
        NewRowAt(rows, chunk[..k], m, setup);
      }
    }
  }

  // ----- how many rows a commit adds -----

  function ChunkKeys(chunk: seq<ImportRow>): set<Option<string>> {
    set i | 0 <= i < |chunk| :: chunk[i].externalKey
  }

  function PlanKeys(rows: seq<Row>): set<Option<string>> {
    set i | 0 <= i < |rows| :: rows[i].externalKey
  }

  lemma ChunkKeysGrow(chunk: seq<ImportRow>)
    requires DistinctKeys(chunk) && chunk != []
    ensures ChunkKeys(chunk) == ChunkKeys(chunk[..|chunk| - 1]) + {chunk[|chunk| - 1].externalKey}
    ensures chunk[|chunk| - 1].externalKey !in ChunkKeys(chunk[..|chunk| - 1])
  {
  }

  lemma {:induction false} NewRowsCount(rows: seq<Row>, chunk: seq<ImportRow>, setup: Setup)
    requires DistinctKeys(chunk)
    ensures |NewRows(rows, chunk, setup)| == |ChunkKeys(chunk) - PlanKeys(rows)|
  {
    hide Creating, GivenKey, FindRow;
    if chunk == [] {
      assert ChunkKeys(chunk) - PlanKeys(rows) == {};
    } else {
      hide ChunkKeys;
      var k := |chunk| - 1;
      var init, key := chunk[..k], chunk[k].externalKey;
      NewRowsCount(rows, init, setup);
      ChunkKeysGrow(chunk);
      if FindRow(rows, key).Some? {
        assert key in PlanKeys(rows);
        assert ChunkKeys(chunk) - PlanKeys(rows) == ChunkKeys(init) - PlanKeys(rows);
      } else {
        assert key !in PlanKeys(rows);
        assert ChunkKeys(chunk) - PlanKeys(rows) == (ChunkKeys(init) - PlanKeys(rows)) + {key};
      }
    }
  }

  // ----- the second commit -----

  lemma Appended(rows: seq<Row>, chunk: seq<ImportRow>, setup: Setup) returns (after: seq<Row>)
    requires UniqueKeys(rows) && DistinctKeys(chunk) && HasGivenKeys(chunk)
    ensures Committed(rows, chunk, setup) == Some(after) && UniqueKeys(after)
    ensures after == PassOver(rows, chunk, setup).rows + NewRows(rows, chunk, setup)
    ensures Upserts(PassOver(rows, chunk, setup), rows, chunk, setup)
  {
    hide Updating, Creating, GivenKey, FindRow, PassOver, NewRows, InputFor;
    PassUpserts(rows, chunk, setup);
    NewKeysDiffer(rows, chunk, setup);
    var pass := PassOver(rows, chunk, setup);
    var new' := NewRows(rows, chunk, setup);
    after := pass.rows + new';
    forall i | 0 <= i < |rows| ensures pass.rows[i].externalKey == rows[i].externalKey {
      var input := InputFor(chunk, rows[i].externalKey);
      if input.Some? { KeysKept(rows[i], rows[i], input.value, "", setup); }
    }
    forall m | 0 <= m < |new'|
      ensures IsKey(new'[m].externalKey) && forall i | 0 <= i < |rows| :: rows[i].externalKey != new'[m].externalKey
    {
      NewRowAt(rows, chunk, m, setup);
    }
  }

  /** In the plan after a commit every input has its row. */
  lemma EveryInputSettled(rows: seq<Row>, chunk: seq<ImportRow>, setup: Setup, after: seq<Row>, j: nat)
        returns (at: nat)
    requires UniqueKeys(rows) && DistinctKeys(chunk) && HasGivenKeys(chunk)
    requires WellKeyed(setup.rules.columns) && ReadsVocabulary(setup.rules.normalize)
    requires forall i | 0 <= i < |chunk| :: DistinctTargets(chunk[i].values, setup.byKey)
    requires Committed(rows, chunk, setup) == Some(after) && j < |chunk|
    ensures at < |after| && IsRowOf(after[at], chunk[j], setup)
    ensures IsKey(chunk[j].externalKey)
  {
    hide Updating, Creating, GivenKey, PassOver, NewRows, WellKeyed, ReadsVocabulary, DistinctTargets, Settled,
         Committed, UniqueKeys;
    var also := Appended(rows, chunk, setup);
    OnlyInput(chunk, j);
    var found := FindRow(rows, chunk[j].externalKey);
    if found.Some? {
      at := found.value;
      KeysKept(rows[at], rows[at], chunk[j], "", setup);
      UpdatedIsSettled(rows[at], chunk[j], setup);
    } else {
      var m := NewRowFor(rows, chunk, j, setup);
      NewRowAt(rows, chunk, m, setup);
      at := |rows| + m;
      KeysKept(Blank(chunk[j], ""), Blank(chunk[j], ""), chunk[j], GivenKey(chunk[j]), setup);
      CreatedIsSettled(chunk[j], GivenKey(chunk[j]), setup);
    }
  }

  lemma OnlyInput(chunk: seq<ImportRow>, j: nat)
    requires DistinctKeys(chunk) && j < |chunk|
    ensures InputFor(chunk, chunk[j].externalKey) == Some(chunk[j])
  {
  }

  /** The row is the input's, is active, and has taken up what the input says. */
  predicate IsRowOf(row: Row, input: ImportRow, setup: Setup) {
    row.externalKey == input.externalKey && !row.deleted && Settled(row, input, setup)
  }

  predicate HasSettledRow(rows: seq<Row>, input: ImportRow, setup: Setup) {
    IsKey(input.externalKey)
    && exists at | 0 <= at < |rows| :: IsRowOf(rows[at], input, setup)
  }

  lemma SettledRowFound(rows: seq<Row>, input: ImportRow, setup: Setup)
    requires UniqueKeys(rows) && HasSettledRow(rows, input, setup)
    ensures
      var at := FindRow(rows, input.externalKey);
      at.Some? && Updating(rows[at.value], rows[at.value], input, setup) == rows[at.value]
  {
    hide Updating;
    var at :| 0 <= at < |rows| && IsRowOf(rows[at], input, setup);
    assert FindRow(rows, input.externalKey) == Some(at);
  }

  /** A pass over settled inputs changes nothing and creates nothing. */
  lemma {:induction false} SettledPass(rows: seq<Row>, chunk: seq<ImportRow>, setup: Setup)
    requires UniqueKeys(rows)
    requires forall j | 0 <= j < |chunk| :: HasSettledRow(rows, chunk[j], setup)
    ensures PassOver(rows, chunk, setup) == Pass(rows, [], Highest(KeysIn(rows)))
  {
    hide Updating, Creating, GivenKey, KeysIn, Highest, UniqueKeys, HasSettledRow, FindRow;
    if chunk != [] {
      SettledPass(rows, chunk[..|chunk| - 1], setup);
      SettledRowFound(rows, chunk[|chunk| - 1], setup);
    }
  }

  /** Committing a chunk of distinct trimmed keys succeeds, leaves an active row for every input, adds as many rows
      as the chunk has keys the plan did not have, and committing it again on the same day changes nothing. */
  lemma CommitTwice(rows: seq<Row>, chunk: seq<ImportRow>, setup: Setup)
    requires UniqueKeys(rows) && WellKeyed(setup.rules.columns) && ReadsVocabulary(setup.rules.normalize)
    requires DistinctKeys(chunk)
    requires forall i | 0 <= i < |chunk| :: Trim(chunk[i].externalKey.value) == chunk[i].externalKey.value
    requires forall i | 0 <= i < |chunk| :: DistinctTargets(chunk[i].values, setup.byKey)
    ensures
      var once := Committed(rows, chunk, setup);
      && once.Some?
      && |once.value| == |rows| + |ChunkKeys(chunk) - PlanKeys(rows)|
      && Committed(once.value, chunk, setup) == once
      && forall j | 0 <= j < |chunk| :: HasSettledRow(once.value, chunk[j], setup)
  {
    hide Updating, Creating, PassOver, NewRows, WellKeyed, ReadsVocabulary, DistinctTargets, Settled, UniqueKeys, Trim;
    hide ChunkKeys, PlanKeys;
    assert HasGivenKeys(chunk);
    hide DistinctKeys;
    var after := Appended(rows, chunk, setup);
    NewRowsCount(rows, chunk, setup);
    forall j | 0 <= j < |chunk|
      ensures HasSettledRow(after, chunk[j], setup)
    {
      var at := EveryInputSettled(rows, chunk, setup, after, j);
    }
    SettledPass(after, chunk, setup);
    assert after + [] == after;
  }

  // ----- rows named several times in one chunk -----

  /** Every update of a row starts from the cells read before the transaction, so of all inputs that
      name it the last one alone decides about its cells. */
  lemma {:induction false} LastInputDecides(rows: seq<Row>, chunk: seq<ImportRow>, i: nat, setup: Setup)
    requires UniqueKeys(rows) && i < |rows| && IsKey(rows[i].externalKey)
    ensures PassOver(rows, chunk, setup).rows[i].cells
         == AfterInput(rows[i], InputFor(chunk, rows[i].externalKey), setup).cells
  {
    hide Updating, Creating, GivenKey, Highest, KeysIn;
    if chunk != [] {
      var k := |chunk| - 1;
      LastInputDecides(rows, chunk[..k], i, setup);
      var at := FindRow(rows, chunk[k].externalKey);
      if at == Some(i) {
        SameCells(PassOver(rows, chunk[..k], setup).rows[i], rows[i], chunk[k], setup);
      } else if at.Some? {
        assert rows[at.value].externalKey != rows[i].externalKey;
      }
    }
  }

  lemma SameCells(row: Row, existing: Row, input: ImportRow, setup: Setup)
    ensures Updating(row, existing, input, setup).cells == Updating(existing, existing, input, setup).cells
  {
    hide Project, WithDerived, Merged;
  }

  /** Input `k` gives a value to a column that is not derived, and input `m` is the last one that names
      the row. The value survives exactly when `m` gives the same value again, or does not mention the
      column and the row had that value already. */
  lemma EarlierValueSurvives(rows: seq<Row>, chunk: seq<ImportRow>, i: nat, k: nat, m: nat, id: ColumnId, setup: Setup)
    requires UniqueKeys(rows) && i < |rows| && IsKey(rows[i].externalKey)
    requires k < m < |chunk| && InputFor(chunk, rows[i].externalKey) == Some(chunk[m])
    requires chunk[k].externalKey == rows[i].externalKey && id !in DerivedIds(setup.rules.columns)
    requires LastFor(chunk[k].values, setup.byKey, id).Some?
    requires !IsEmptyCell(LastFor(chunk[k].values, setup.byKey, id).value)
    ensures
      var given, last := LastFor(chunk[k].values, setup.byKey, id), LastFor(chunk[m].values, setup.byKey, id);
      CellAt(PassOver(rows, chunk, setup).rows[i].cells, id) == given
      <==> last == given || (last.None? && CellAt(rows[i].cells, id) == given)
  {
    hide LastFor, IsEmptyCell, Merged, FindRow, PassOver, InputFor, DerivedIds, UniqueKeys;
    LastInputDecides(rows, chunk, i, setup);
    UpdatedCell(rows[i], chunk[m], id, setup);
    MergedAt(rows[i].cells, chunk[m].values, setup.byKey, id);
  }

  /** Outside the derived columns an update leaves the merged cells. */
  lemma UpdatedCell(row: Row, input: ImportRow, id: ColumnId, setup: Setup)
    requires id !in DerivedIds(setup.rules.columns)
    ensures CellAt(Updating(row, row, input, setup).cells, id)
            == CellAt(Merged(row.cells, input.values, setup.byKey), id)
  {
    hide Merged, Project, WithDerived, DerivedIds, PatchOf;
    var merged := Merged(row.cells, input.values, setup.byKey);
    var p := Project(merged, setup.rules.columns, Some(row.status), setup.today, setup.rules.normalize);
    DerivedAgree(merged, setup.rules.columns, p);
    var derived := WithDerived(merged, setup.rules.columns, p);
    if id in derived || id in merged { assert CellAt(derived, id) == CellAt(merged, id); }
  }

  lemma {:induction false} OneRowCommits(row: Row, chunk: seq<ImportRow>, setup: Setup)
    requires IsKey(row.externalKey) && forall k | 0 <= k < |chunk| :: chunk[k].externalKey == row.externalKey
    ensures PassOver([row], chunk, setup).toCreate == []
    ensures Committed([row], chunk, setup) == Some(PassOver([row], chunk, setup).rows)
  {
    hide Updating, Creating, GivenKey, Highest, KeysIn;
    var rows := PassOver([row], chunk, setup).rows;
    assert |rows| == 1 && rows + [] == rows;
    if chunk != [] {
      OneRowCommits(row, chunk[..|chunk| - 1], setup);
      assert FindRow([row], row.externalKey) == Some(0);
    }
  }

  /** A plan and a chunk that lose a cell: two inputs for one row, about different columns. */
  lemma RepeatedKeyLosesCells(row: Row, first: ImportRow, second: ImportRow, setup: Setup)
    requires row.externalKey == first.externalKey == second.externalKey == Some("A-0001") && row.cells == map[]
    requires setup.byKey == map["cause" := "cause", "effect" := "effect"] && setup.rules.columns == []
    requires first.values == [("cause", Str("rust"))] && second.values == [("effect", Str("leak"))]
    ensures
      var one, two := Committed([row], [first], setup), Committed([row], [first, second], setup);
      && one.Some? && |one.value| == 1 && CellAt(one.value[0].cells, "cause") == Some(Str("rust"))
      && two.Some? && |two.value| == 1 && CellAt(two.value[0].cells, "cause") == None
  {
    hide PassOver, Committed, Updating, Trim, InputFor, LastFor, Merged;
    LastOne(first);
    LastOfTwo(first, second);
    forall chunk, last | (chunk == [first] && last == first) || (chunk == [first, second] && last == second)
      ensures Committed([row], chunk, setup).Some? && |Committed([row], chunk, setup).value| == 1
      ensures CellAt(Committed([row], chunk, setup).value[0].cells, "cause")
           == CellAt(Merged(row.cells, last.values, setup.byKey), "cause")
    {
      OneRowCommits(row, chunk, setup);
      assert |PassOver([row], chunk, setup).rows| == 1;
      LastInputDecides([row], chunk, 0, setup);
      UpdatedCell(row, last, "cause", setup);
    }
    OneValue("cause", Str("rust"), setup.byKey, "cause");
    OneValue("effect", Str("leak"), setup.byKey, "cause");
    MergedAt(row.cells, first.values, setup.byKey, "cause");
    MergedAt(row.cells, second.values, setup.byKey, "cause");
    TrimIsTrimmed("rust");
  }

  lemma LastOne(input: ImportRow)
    ensures InputFor([input], input.externalKey) == Some(input)
  {
  }

  lemma LastOfTwo(first: ImportRow, second: ImportRow)
    ensures InputFor([first, second], second.externalKey) == Some(second)
  {
  }

  lemma OneValue(key: string, raw: Json, byKey: KeyMap, id: ColumnId)
    ensures LastFor([(key, raw)], byKey, id) == if key in byKey && byKey[key] == id then Some(raw) else None
  {
    assert [(key, raw)][..0] == [];
  }
}
