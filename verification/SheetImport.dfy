/** importJson: rows are prepared, cut to the quota that is left, and committed in batches; a batch
    the database refuses is added row by row. */
module SheetImport {
  import opened JsText
  import opened RowCells
  import opened ProjectRow
  import opened RowEdits
  import opened ExternalKeys
  import opened ImportCommit
  import CommitKeys

  const BATCH: nat := 100

  // ----- quotas -----

  datatype Limits = Limits(maxRowsPerTenant: nat, maxRowsPerSheet: nat)

  /** The rows that are not soft-deleted. */
  function Active(rows: seq<Row>): nat {
    if rows == [] then 0
    else Active(rows[..|rows| - 1]) + if rows[|rows| - 1].deleted then 0 else 1
  }

  function Left(limit: nat, used: nat): nat {
    if used < limit then limit - used else 0
  }

  /** Soft-deleted rows count against the tenant. */
  function RemainingRows(rows: seq<Row>, env: Env): nat {
    Left(env.limits.maxRowsPerTenant, |rows| + env.otherRows)
  }

  function RemainingSheetRows(rows: seq<Row>, env: Env): nat {
    Left(env.limits.maxRowsPerSheet, Active(rows))
  }

  function Remaining(rows: seq<Row>, env: Env): nat {
    var tenant, sheet := RemainingRows(rows, env), RemainingSheetRows(rows, env);
    if tenant < sheet then tenant else sheet
  }

  // ----- what happens to the rows -----

  /** Where adding one row fails, if it does: before anything is written, after the row is
      created, or after its cells are written. */
  datatype RowFault = NoFault | FailsAtOnce | FailsOnceCreated | FailsOnceFilled

  /** Where the database fails by itself: at the batch and at the row that start at a position. */
  datatype Faults = Faults(commitFails: nat -> bool, rowFault: nat -> RowFault)

  /** What an import depends on. */
  datatype Env = Env(setup: Setup, limits: Limits, otherRows: nat, faults: Faults)

  datatype Tally = Tally(rows: seq<Row>, imported: nat, skipped: nat)

  /** addRow as the fallback calls it: no external key and no responsible name are passed on. */
  function AddedRow(rows: seq<Row>, input: ImportRow, fault: RowFault, env: Env): (seq<Row>, bool) {
    if fault.FailsAtOnce? || RemainingRows(rows, env) < 1 || RemainingSheetRows(rows, env) < 1 then (rows, false)
    else
      var row := Blank(input.(responsibleName := None), GeneratedKey(Highest(KeysIn(rows)) + 1));
      if fault.FailsOnceCreated? then (rows + [row], false)
      else if input.values == [] then (rows + [row], fault.NoFault?)
      else (rows + [Upserted(row, input.values, env.setup.byKey, env.setup.rules, env.setup.today)], fault.NoFault?)
  }

  /** The rows of a slice one by one; a row that fails is skipped. */
  function RowByRow(start: Tally, slice: seq<ImportRow>, offset: nat, env: Env): Tally {
    if slice == [] then start else
    var k := |slice| - 1;
    var before := RowByRow(start, slice[..k], offset, env);
    var (rows, ok) := AddedRow(before.rows, slice[k], env.faults.rowFault(offset + k), env);
    if ok then Tally(rows, before.imported + 1, before.skipped) else Tally(rows, before.imported, before.skipped + 1)
  }

  function AfterBatch(start: Tally, slice: seq<ImportRow>, offset: nat, env: Env): Tally {
    var committed := if env.faults.commitFails(offset) then None else Committed(start.rows, slice, env.setup);
    if committed.Some? then Tally(committed.value, start.imported + |slice|, start.skipped)
    else RowByRow(start, slice, offset, env)
  }

  function AfterBatches(start: Tally, prepared: seq<ImportRow>, env: Env): Tally
    decreases |prepared|
  {
    if prepared == [] then start else
    var offset := (|prepared| - 1) / BATCH * BATCH;
    AfterBatch(AfterBatches(start, prepared[..offset], env), prepared[offset..], offset, env)
  }

  // ----- preparing -----

  datatype JsonRow = JsonRow(
    title: string,
    externalKey: Option<string>,
    description: Option<string>,
    status: Option<string>,
    priority: Option<string>,
    dueDate: Option<string>,
    responsibleId: Option<string>,
    unitId: Option<string>,
    values: Values)

  /** How the words of a row are read: the status and priority tables, the due date, the matching
      of the assignee to a member, and whether the row counts as blank. */
  datatype Reader = Reader(
    statusOf: string -> Option<Status>,
    priorityOf: string -> Option<Priority>,
    dueDateOf: JsonRow -> Option<Day>,
    memberOf: JsonRow -> Option<string>,
    assigneeOf: JsonRow -> Option<string>,
    isBlank: JsonRow -> bool)

  /** The trimmed text, or nothing. */
  function NotBlank(text: Option<string>): Option<string> {
    if text.Some? && Trim(text.value) != "" then Some(Trim(text.value)) else None
  }

  predicate IsGiven(text: Option<string>) {
    text.Some? && text.value != ""
  }

  /** The row as it will be committed; None when it is skipped: no title, an unknown status, or blank. */
  function Prepare(row: JsonRow, reader: Reader): Option<ImportRow> {
    var status := if IsGiven(row.status) then reader.statusOf(row.status.value) else Some(PENDING);
    var priority := if IsGiven(row.priority) then reader.priorityOf(row.priority.value) else Some(MEDIUM);
    if Trim(row.title) == "" || status.None? || reader.isBlank(row) then None
    else Some(ImportRow(
      NotBlank(row.externalKey),
      row.title,
      row.description,
      row.unitId,
      if row.responsibleId.Some? then row.responsibleId else reader.memberOf(row),
      reader.assigneeOf(row),
      status,
      Some(Or(priority, MEDIUM)),
      reader.dueDateOf(row),
      row.values))
  }

  function PreparedRows(rows: seq<JsonRow>, reader: Reader): (prepared: seq<ImportRow>)
    ensures |prepared| <= |rows|
  {
    if rows == [] then [] else
    var row := Prepare(rows[|rows| - 1], reader);
    PreparedRows(rows[..|rows| - 1], reader) + if row.Some? then [row.value] else []
  }

  datatype JsonOutcome = QuotaError | Imported(imported: nat, skipped: nat, quotaReached: bool)

  /** The rows of the plan and the answer after importJson. */
  function AfterJson(rows: seq<Row>, input: seq<JsonRow>, replace: bool, reader: Reader, env: Env)
      : (seq<Row>, JsonOutcome)
  {
    var start := if replace then [] else rows;
    var prepared := PreparedRows(input, reader);
    var remaining := Remaining(start, env);
    if remaining == 0 then (start, QuotaError) else
    var kept := if |prepared| > remaining then prepared[..remaining] else prepared;
    var after := AfterBatches(Tally(start, 0, |input| - |kept|), kept, env);
    (after.rows, Imported(after.imported, after.skipped, |prepared| > remaining))
  }

  // ----- the keys stay unique and their numbers small -----

  /** The keys of the inputs carry numbers up to `top`. */
  predicate NumbersUpTo(inputs: seq<ImportRow>, top: nat) {
    forall i | 0 <= i < |inputs| :: KeyNumber(Some(GivenKey(inputs[i]))) <= top
  }

  lemma {:induction false} HighestUpTo(keys: seq<Option<string>>, top: nat)
    requires forall k | k in keys :: KeyNumber(k) <= top
    ensures Highest(keys) <= top
  {
    hide KeyNumber;
    if keys != [] { HighestUpTo(keys[..|keys| - 1], top); }
  }

  lemma NumberOfRow(rows: seq<Row>, i: nat)
    requires i < |rows|
    ensures KeyNumber(rows[i].externalKey) <= Highest(KeysIn(rows))
  {
    CommitKeys.MapAt(rows);
    HighestBounds(KeysIn(rows), i);
  }

  lemma RowsUpTo(rows: seq<Row>, top: nat)
    requires forall i | 0 <= i < |rows| :: KeyNumber(rows[i].externalKey) <= top
    ensures Highest(KeysIn(rows)) <= top
  {
    hide KeyNumber, Highest;
    CommitKeys.MapAt(rows);
    HighestUpTo(KeysIn(rows), top);
  }

  lemma NumberOfNew(rows: seq<Row>, chunk: seq<ImportRow>, key: Option<string>, top: nat)
    requires Highest(KeysIn(rows)) <= top && NumbersUpTo(chunk, top)
    requires key in CommitKeys.Somes(CommitKeys.Brought(rows, chunk) + CommitKeys.Drawn(rows, chunk))
    ensures KeyNumber(key) <= top + |chunk|
  {
    hide KeyNumber, GeneratedKey, Highest, GivenKey, FindRow;
    if key.value in CommitKeys.Drawn(rows, chunk) {
      var n :| Highest(KeysIn(rows)) < n <= Highest(KeysIn(rows)) + CommitKeys.DrawCount(rows, chunk)
        && key.value == GeneratedKey(n);
      KeyNumberOfGenerated(n);
      DrawsAtMost(rows, chunk);
    }
  }

  lemma {:induction false} DrawsAtMost(rows: seq<Row>, chunk: seq<ImportRow>)
    ensures CommitKeys.DrawCount(rows, chunk) <= |chunk|
  {
    if chunk != [] { DrawsAtMost(rows, chunk[..|chunk| - 1]); }
  }

  lemma CommittedNumbers(rows: seq<Row>, chunk: seq<ImportRow>, setup: Setup, top: nat)
    requires Highest(KeysIn(rows)) <= top && NumbersUpTo(chunk, top)
    requires Committed(rows, chunk, setup).Some?
    ensures Highest(KeysIn(Committed(rows, chunk, setup).value)) <= top + |chunk|
  {
    hide KeyNumber, Highest, KeysIn, UniqueKeys, PassOver, NumbersUpTo;
    var pass := PassOver(rows, chunk, setup);
    var after := pass.rows + pass.toCreate;
    CommitKeys.PassKeys(rows, chunk, setup);
    forall i | 0 <= i < |after| ensures KeyNumber(after[i].externalKey) <= top + |chunk| {
      if i < |rows| {
        NumberOfRow(rows, i);
      } else {
        assert after[i].externalKey in PlanKeys(pass.toCreate);
        NumberOfNew(rows, chunk, after[i].externalKey, top);
      }
    }
    RowsUpTo(after, top + |chunk|);
  }

  /** A row added alone comes last, under a key of its own. */
  lemma AddedRowKeys(rows: seq<Row>, input: ImportRow, fault: RowFault, env: Env)
    requires UniqueKeys(rows)
    ensures
      var after := AddedRow(rows, input, fault, env).0;
      && UniqueKeys(after)
      && Highest(KeysIn(after)) <= Highest(KeysIn(rows)) + 1
      && (after == rows || (|after| == |rows| + 1 && after[..|rows|] == rows
          && after[|rows|].externalKey == Some(GeneratedKey(Highest(KeysIn(rows)) + 1))
          && !after[|rows|].deleted))
  {
    hide Highest, KeysIn, GeneratedKey, KeyNumber, UniqueKeys, Merged, Project, WithDerived;
    var n := Highest(KeysIn(rows)) + 1;
    var after := AddedRow(rows, input, fault, env).0;
    if after != rows {
      var row := after[|rows|];
      assert after == rows + [row] && row.externalKey == Some(GeneratedKey(n));
      CommitKeys.DrawnIsFresh(rows, [], n);
      CommitKeys.UniqueAppend(rows, row);
      forall i | 0 <= i < |after| ensures KeyNumber(after[i].externalKey) <= n {
        if i < |rows| { NumberOfRow(rows, i); } else { KeyNumberOfGenerated(n); }
      }
      RowsUpTo(after, n);
    }
  }

  // ----- how much the plan grows -----

  lemma {:induction false} ActiveAppend(rows: seq<Row>, more: seq<Row>)
    ensures Active(rows + more) == Active(rows) + Active(more)
  {
    if more == [] {
      assert rows + more == rows;
    } else {
      var k := |more| - 1;
      assert (rows + more)[..|rows| + k] == rows + more[..k];
      ActiveAppend(rows, more[..k]);
    }
  }

  lemma {:induction false} ActiveAtMost(rows: seq<Row>)
    ensures Active(rows) <= |rows|
  {
    if rows != [] { ActiveAtMost(rows[..|rows| - 1]); }
  }

  /** Active counts the rows that are not soft-deleted. */
  lemma {:induction false} ActiveCounts(rows: seq<Row>)
    ensures Active(rows) == |set i | 0 <= i < |rows| && !rows[i].deleted|
  {
    var all := set i | 0 <= i < |rows| && !rows[i].deleted;
    if rows == [] {
      assert all == {};
    } else {
      var init, n := rows[..|rows| - 1], |rows| - 1;
      ActiveCounts(init);
      var before := set i | 0 <= i < |init| && !init[i].deleted;
      assert all == if rows[n].deleted then before else before + {n};
    }
  }

  /** Restoring one row adds at most one active row. */
  lemma {:induction false} ActiveUpdate(rows: seq<Row>, i: nat, row: Row)
    requires i < |rows|
    ensures Active(rows[i := row]) <= Active(rows) + 1
  {
    var k := |rows| - 1;
    if i == k {
      assert rows[i := row][..k] == rows[..k];
    } else {
      assert rows[i := row][..k] == rows[..k][i := row];
      ActiveUpdate(rows[..k], i, row);
    }
  }

  /** A pass adds at most one active row for each input, new or restored. */
  lemma {:induction false} PassGrowth(rows: seq<Row>, chunk: seq<ImportRow>, setup: Setup)
    ensures
      var pass := PassOver(rows, chunk, setup);
      |pass.toCreate| <= |chunk| && Active(pass.rows) + |pass.toCreate| <= Active(rows) + |chunk|
  {
    hide Updating, Creating, Active, FindRow, GivenKey, GeneratedKey;
    if chunk != [] {
      var init, last := chunk[..|chunk| - 1], chunk[|chunk| - 1];
      PassGrowth(rows, init, setup);
      var at := FindRow(rows, last.externalKey);
      if at.Some? {
        var before := PassOver(rows, init, setup);
        ActiveUpdate(before.rows, at.value, Updating(before.rows[at.value], rows[at.value], last, setup));
      }
    }
  }

  lemma CommitGrowth(rows: seq<Row>, chunk: seq<ImportRow>, setup: Setup)
    requires Committed(rows, chunk, setup).Some?
    ensures
      var after := Committed(rows, chunk, setup).value;
      |after| <= |rows| + |chunk| && Active(after) <= Active(rows) + |chunk|
  {
    hide PassOver, Active, UniqueKeys;
    var pass := PassOver(rows, chunk, setup);
    PassGrowth(rows, chunk, setup);
    ActiveAppend(pass.rows, pass.toCreate);
    ActiveAtMost(pass.toCreate);
  }

  lemma AddedRowGrowth(rows: seq<Row>, input: ImportRow, fault: RowFault, env: Env)
    ensures
      var after := AddedRow(rows, input, fault, env).0;
      |after| <= |rows| + 1 && Active(after) <= Active(rows) + 1
  {
    hide Highest, KeysIn, GeneratedKey, Upserted;
    var after := AddedRow(rows, input, fault, env).0;
    if after != rows {
      ActiveAppend(rows, after[|rows|..]);
      ActiveAtMost(after[|rows|..]);
    }
  }

  /** What every stretch of an import keeps: each input is counted once, as imported or skipped,
      and adds at most one row and one active row; keys stay unique. */
  predicate Progress(before: Tally, after: Tally, inputs: nat) {
    && after.imported + after.skipped == before.imported + before.skipped + inputs
    && before.imported <= after.imported && before.skipped <= after.skipped
    && |after.rows| <= |before.rows| + inputs
    && Active(after.rows) <= Active(before.rows) + inputs
    && (UniqueKeys(before.rows) ==> UniqueKeys(after.rows))
  }

  lemma {:induction false} RowByRowProgress(start: Tally, slice: seq<ImportRow>, offset: nat, env: Env)
    ensures Progress(start, RowByRow(start, slice, offset, env), |slice|)
  {
    hide AddedRow, Active, UniqueKeys, Highest, KeysIn, GeneratedKey;
    if slice != [] {
      var k := |slice| - 1;
      RowByRowProgress(start, slice[..k], offset, env);
      var before := RowByRow(start, slice[..k], offset, env);
      AddedRowGrowth(before.rows, slice[k], env.faults.rowFault(offset + k), env);
      if UniqueKeys(before.rows) { AddedRowKeys(before.rows, slice[k], env.faults.rowFault(offset + k), env); }
    }
  }

  lemma BatchProgress(start: Tally, slice: seq<ImportRow>, offset: nat, env: Env)
    ensures Progress(start, AfterBatch(start, slice, offset, env), |slice|)
  {
    hide RowByRow, Active, PassOver;
    RowByRowProgress(start, slice, offset, env);
    if Committed(start.rows, slice, env.setup).Some? { CommitGrowth(start.rows, slice, env.setup); }
  }

  lemma {:induction false} BatchesProgress(start: Tally, prepared: seq<ImportRow>, env: Env)
    ensures Progress(start, AfterBatches(start, prepared, env), |prepared|)
    decreases |prepared|
  {
    hide AfterBatch, Active, UniqueKeys;
    if prepared != [] {
      var offset := (|prepared| - 1) / BATCH * BATCH;
      BatchesProgress(start, prepared[..offset], env);
      BatchProgress(AfterBatches(start, prepared[..offset], env), prepared[offset..], offset, env);
    }
  }

  /** Every row handed to importJson is counted once; and after an import that was let through, the
      plan's active rows and the tenant's rows are within their limits, whatever failed and whichever
      rows were restored or added one by one. A refused import writes no row. */
  lemma JsonWithinQuota(rows: seq<Row>, input: seq<JsonRow>, replace: bool, reader: Reader, env: Env)
    ensures
      var (after, outcome) := AfterJson(rows, input, replace, reader, env);
      && (outcome.Imported? ==>
            && outcome.imported + outcome.skipped == |input|
            && Active(after) <= env.limits.maxRowsPerSheet
            && |after| + env.otherRows <= env.limits.maxRowsPerTenant)
      && (outcome.QuotaError? ==> after == if replace then [] else rows)
      && (outcome.QuotaError? <==>
            var start := if replace then [] else rows;
            Active(start) >= env.limits.maxRowsPerSheet || |start| + env.otherRows >= env.limits.maxRowsPerTenant)
  {
    hide Active, AfterBatches, UniqueKeys, PreparedRows;
    var start := if replace then [] else rows;
    var prepared, remaining := PreparedRows(input, reader), Remaining(start, env);
    if remaining > 0 {
      var kept := if |prepared| > remaining then prepared[..remaining] else prepared;
      BatchesProgress(Tally(start, 0, |input| - |kept|), kept, env);
    }
  }

  // ----- imports of rows without keys -----

  predicate Keyless(inputs: seq<ImportRow>) {
    forall i | 0 <= i < |inputs| :: inputs[i].externalKey == None
  }

  /** A pass over rows without keys makes every one of them a new, active row. */
  lemma {:induction false} KeylessPass(rows: seq<Row>, chunk: seq<ImportRow>, setup: Setup)
    requires Keyless(chunk)
    ensures
      var pass := PassOver(rows, chunk, setup);
      pass.rows == rows && |pass.toCreate| == |chunk| && Active(pass.toCreate) == |chunk|
  {
    hide Updating, Creating, KeysIn, Highest, GeneratedKey;
    if chunk != [] {
      var init, last := chunk[..|chunk| - 1], chunk[|chunk| - 1];
      KeylessPass(rows, init, setup);
      var before := PassOver(rows, init, setup);
      var key := GeneratedKey(before.highest + 1);
      KeysKept(Blank(last, key), Blank(last, key), last, key, setup);
      assert (before.toCreate + [Creating(last, key, setup)])[..|chunk| - 1] == before.toCreate;
    }
  }

  lemma KeylessCommit(rows: seq<Row>, chunk: seq<ImportRow>, setup: Setup)
    requires UniqueKeys(rows) && Keyless(chunk) && Highest(KeysIn(rows)) + |chunk| < MAX_SAFE
    ensures
      var committed := Committed(rows, chunk, setup);
      && committed.Some? && UniqueKeys(committed.value)
      && |committed.value| == |rows| + |chunk| && Active(committed.value) == Active(rows) + |chunk|
  {
    hide PassOver, Active, UniqueKeys, KeysIn, Highest;
    NothingBrought(rows, chunk);
    CommitKeys.CommitsUnlessKeysClash(rows, chunk, setup);
    KeylessPass(rows, chunk, setup);
    ActiveAppend(rows, PassOver(rows, chunk, setup).toCreate);
  }

  lemma NothingBrought(rows: seq<Row>, chunk: seq<ImportRow>)
    requires Keyless(chunk)
    ensures CommitKeys.NoClash(rows, chunk)
  {
    hide Highest, KeysIn, CommitKeys.Drawn;
    assert forall i | 0 <= i < |chunk| :: !CommitKeys.BringsKey(rows, chunk[i]);
    assert CommitKeys.Brought(rows, chunk) == {};
  }

  /** When the database does not fail, rows without keys are all imported, each as one more active row. */
  lemma {:induction false} KeylessBatches(start: Tally, prepared: seq<ImportRow>, env: Env)
    requires UniqueKeys(start.rows) && Keyless(prepared) && Highest(KeysIn(start.rows)) + |prepared| < MAX_SAFE
    requires forall at | 0 <= at < |prepared| :: !env.faults.commitFails(at)
    ensures
      var after := AfterBatches(start, prepared, env);
      && UniqueKeys(after.rows) && Highest(KeysIn(after.rows)) <= Highest(KeysIn(start.rows)) + |prepared|
      && |after.rows| == |start.rows| + |prepared| && Active(after.rows) == Active(start.rows) + |prepared|
      && after.imported == start.imported + |prepared| && after.skipped == start.skipped
    decreases |prepared|
  {
    hide RowByRow, Active, UniqueKeys, KeysIn, Highest, Committed, NumbersUpTo;
    if prepared != [] {
      var offset := (|prepared| - 1) / BATCH * BATCH;
      KeylessBatches(start, prepared[..offset], env);
      var before := AfterBatches(start, prepared[..offset], env);
      KeylessNumbers(prepared[offset..], Highest(KeysIn(before.rows)));
      KeylessCommit(before.rows, prepared[offset..], env.setup);
      CommittedNumbers(before.rows, prepared[offset..], env.setup, Highest(KeysIn(before.rows)));
    }
  }

  lemma KeylessNumbers(inputs: seq<ImportRow>, top: nat)
    requires Keyless(inputs)
    ensures NumbersUpTo(inputs, top)
  {
  }

  // ----- what the fallback does to keys -----

  predicate FreshlyDrawn(key: Option<string>, highest: nat) {
    KeyNumber(key) > highest && key == Some(GeneratedKey(KeyNumber(key)))
  }

  /** Rows added one by one never meet the rows of the plan: the plan keeps every row as it was, and
      each added row has a freshly drawn key, also when its input named a row of the plan. */
  lemma {:induction false} FallbackOnlyAppends(start: Tally, slice: seq<ImportRow>, offset: nat, env: Env)
    requires UniqueKeys(start.rows) && Highest(KeysIn(start.rows)) + |slice| < MAX_SAFE
    ensures
      var after := RowByRow(start, slice, offset, env).rows;
      && UniqueKeys(after) && |start.rows| <= |after| && after[..|start.rows|] == start.rows
      && Highest(KeysIn(start.rows)) <= Highest(KeysIn(after))
      && forall m | |start.rows| <= m < |after| :: FreshlyDrawn(after[m].externalKey, Highest(KeysIn(start.rows)))
  {
    hide AddedRow, Highest, KeysIn, GeneratedKey, UniqueKeys, KeyNumber;
    if slice != [] {
      var k := |slice| - 1;
      FallbackOnlyAppends(start, slice[..k], offset, env);
      var before := RowByRow(start, slice[..k], offset, env).rows;
      var after := RowByRow(start, slice, offset, env).rows;
      AddedRowKeys(before, slice[k], env.faults.rowFault(offset + k), env);
      if after != before {
        assert after[..|start.rows|] == before[..|start.rows|];
        HighestOfMore(before, after);
        KeyNumberOfGenerated(Highest(KeysIn(before)) + 1);
        forall m | |start.rows| <= m < |after|
          ensures FreshlyDrawn(after[m].externalKey, Highest(KeysIn(start.rows)))
        {
          if m < |before| { assert after[m] == after[..|before|][m] == before[m]; }
        }
      }
    }
  }

  /** The row was created for the input under the key, and filled with its values unless it has none or
      adding it failed before. */
  predicate IsAddedFrom(row: Row, input: ImportRow, key: string, fault: RowFault, env: Env) {
    var blank := Blank(input.(responsibleName := None), key);
    row == if fault.FailsOnceCreated? || input.values == [] then blank
           else Upserted(blank, input.values, env.setup.byKey, env.setup.rules, env.setup.today)
  }

  lemma AddedFrom(rows: seq<Row>, input: ImportRow, fault: RowFault, env: Env)
    ensures
      var after := AddedRow(rows, input, fault, env).0;
      after != rows ==>
        after != [] && IsAddedFrom(after[|after| - 1], input, GeneratedKey(Highest(KeysIn(rows)) + 1), fault, env)
  {
    hide Highest, KeysIn, GeneratedKey, Upserted, Remaining;
  }

  /** When one row is added: unless it fails at once or a quota is used up, also when it fails later. */
  lemma AddedExactly(rows: seq<Row>, input: ImportRow, fault: RowFault, env: Env)
    ensures
      var (after, ok) := AddedRow(rows, input, fault, env);
      && (after == rows <==> fault.FailsAtOnce? || Remaining(rows, env) == 0)
      && (after != rows ==> |after| == |rows| + 1)
      && (ok <==> fault.NoFault? && Remaining(rows, env) > 0)
  {
    hide Highest, KeysIn, GeneratedKey, Upserted, Active;
  }

  /** With room for all of them and no failure at once, the fallback adds every input of the batch as
      a row of its own, under the next keys in order, whatever keys the inputs have. */
  lemma {:induction false} FallbackAddsAll(start: Tally, slice: seq<ImportRow>, offset: nat, env: Env)
    requires UniqueKeys(start.rows) && Highest(KeysIn(start.rows)) + |slice| < MAX_SAFE
    requires |slice| <= Remaining(start.rows, env)
    requires forall at | offset <= at < offset + |slice| :: !env.faults.rowFault(at).FailsAtOnce?
    ensures
      var after := RowByRow(start, slice, offset, env).rows;
      var highest := Highest(KeysIn(start.rows));
      && |after| == |start.rows| + |slice| && after[..|start.rows|] == start.rows
      && (forall m | |start.rows| <= m < |after| ::
            && after[m].externalKey == Some(GeneratedKey(highest + 1 + m - |start.rows|))
            && IsAddedFrom(after[m], slice[m - |start.rows|], GeneratedKey(highest + 1 + m - |start.rows|),
                           env.faults.rowFault(offset + m - |start.rows|), env))
      && UniqueKeys(after) && Highest(KeysIn(after)) == highest + |slice|
      && Active(after) <= Active(start.rows) + |slice|
  {
    hide AddedRow, Highest, KeysIn, GeneratedKey, UniqueKeys, KeyNumber, Active, IsAddedFrom;
    if slice != [] {
      var k := |slice| - 1;
      FallbackAddsAll(start, slice[..k], offset, env);
      var before := RowByRow(start, slice[..k], offset, env).rows;
      var after := RowByRow(start, slice, offset, env).rows;
      AddedExactly(before, slice[k], env.faults.rowFault(offset + k), env);
      AddedRowKeys(before, slice[k], env.faults.rowFault(offset + k), env);
      AddedRowGrowth(before, slice[k], env.faults.rowFault(offset + k), env);
      AddedFrom(before, slice[k], env.faults.rowFault(offset + k), env);
      assert after[..|start.rows|] == before[..|start.rows|];
      forall m | |start.rows| <= m < |before| ensures after[m] == before[m] {
        assert after[..|before|][m] == before[m];
      }
      NumberOfRow(after, |before|);
      KeyNumberOfGenerated(Highest(KeysIn(before)) + 1);
    }
  }

  /** The places of the slice where nothing fails. */
  function CleanPlaces(n: nat, offset: nat, env: Env): set<nat> {
    set k: nat | offset <= k < offset + n && IsClean(k, env)
  }

  predicate IsClean(at: nat, env: Env) {
    env.faults.rowFault(at).NoFault?
  }

  lemma OneMorePlace(n: nat, offset: nat, env: Env)
    ensures |CleanPlaces(n + 1, offset, env)|
         == |CleanPlaces(n, offset, env)| + if env.faults.rowFault(offset + n).NoFault? then 1 else 0
  {
    var before, after := CleanPlaces(n, offset, env), CleanPlaces(n + 1, offset, env);
    assert after == if env.faults.rowFault(offset + n).NoFault? then before + {offset + n} else before;
  }

  /** With room for all of them, the fallback counts exactly those inputs as imported whose adding does not
      fail, and the others as skipped. */
  lemma {:induction false} FallbackCounts(start: Tally, slice: seq<ImportRow>, offset: nat, env: Env)
    requires |slice| <= Remaining(start.rows, env)
    ensures
      var after, clean := RowByRow(start, slice, offset, env), |CleanPlaces(|slice|, offset, env)|;
      && after.imported == start.imported + clean && after.skipped == start.skipped + |slice| - clean
      && |after.rows| <= |start.rows| + |slice| && Active(after.rows) <= Active(start.rows) + |slice|
  {
    hide AddedRow, Active, CleanPlaces;
    if slice == [] {
      assert |CleanPlaces(0, offset, env)| == 0 by { NoPlaces(offset, env); }
    } else {
      var k := |slice| - 1;
      FallbackCounts(start, slice[..k], offset, env);
      var before := RowByRow(start, slice[..k], offset, env).rows;
      AddedExactly(before, slice[k], env.faults.rowFault(offset + k), env);
      AddedRowGrowth(before, slice[k], env.faults.rowFault(offset + k), env);
      OneMorePlace(k, offset, env);
    }
  }

  lemma NoPlaces(offset: nat, env: Env)
    ensures CleanPlaces(0, offset, env) == {}
  {
  }

  /** A batch that is refused although its keys differ, and what becomes of it: the plan has A-0001, the
      file A-0001, A-0002 and a row without key. The draw for the last one clashes with A-0002; the
      fallback then adds the plan's own row again as A-0002 and gives the file's A-0002 the key A-0003. */
  lemma FallbackDuplicates(row: Row, slice: seq<ImportRow>, env: Env)
    requires row.externalKey == Some("A-0001") && |slice| == 3
    requires slice[0].externalKey == Some("A-0001") && slice[1].externalKey == Some("A-0002")
             && slice[2].externalKey == None
    requires 3 <= Remaining([row], env)
    requires forall at | 0 <= at < 3 :: env.faults.rowFault(at) == NoFault
    ensures
      var after := AfterBatch(Tally([row], 0, 0), slice, 0, env).rows;
      && Committed([row], slice, env.setup) == None
      && |after| == 4 && after[0] == row
      && IsAddedFrom(after[1], slice[0], "A-0002", NoFault, env) && after[1].externalKey == Some("A-0002")
      && IsAddedFrom(after[2], slice[1], "A-0003", NoFault, env) && after[2].externalKey == Some("A-0003")
      && IsAddedFrom(after[3], slice[2], "A-0004", NoFault, env) && after[3].externalKey == Some("A-0004")
  {
    hide RowByRow, Remaining, Committed, CommitKeys.NoClash, Trim, Highest, KeysIn, GeneratedKey, IsAddedFrom;
    SmallKeys();
    HighestOfOne(row, 1);
    ClashOfThree(row, slice, env.setup);
    assert 1 + 3 < MAX_SAFE;
    FallbackAddsAll(Tally([row], 0, 0), slice, 0, env);
    var after := RowByRow(Tally([row], 0, 0), slice, 0, env).rows;
    assert after[..1][0] == row;
  }

  lemma SmallKeys()
    ensures GeneratedKey(1) == "A-0001" && GeneratedKey(2) == "A-0002"
    ensures GeneratedKey(3) == "A-0003" && GeneratedKey(4) == "A-0004"
  {
    hide GeneratedKey;
    CommitKeys.SmallKey(1, "1");
    CommitKeys.SmallKey(2, "2");
    CommitKeys.SmallKey(3, "3");
    CommitKeys.SmallKey(4, "4");
    assert "A-000" + "1" == "A-0001" && "A-000" + "2" == "A-0002";
    assert "A-000" + "3" == "A-0003" && "A-000" + "4" == "A-0004";
  }

  lemma HighestOfOne(row: Row, n: nat)
    requires row.externalKey == Some(GeneratedKey(n))
    ensures Highest(KeysIn([row])) == n && UniqueKeys([row])
  {
    hide GeneratedKey, KeyNumber;
    KeyNumberOfGenerated(n);
    NumberOfRow([row], 0);
    RowsUpTo([row], n);
  }

  lemma ClashOfThree(row: Row, slice: seq<ImportRow>, setup: Setup)
    requires row.externalKey == Some("A-0001") && |slice| == 3 && Highest(KeysIn([row])) == 1
    requires slice[0].externalKey == Some("A-0001") && slice[1].externalKey == Some("A-0002")
             && slice[2].externalKey == None
    ensures Committed([row], slice, setup) == None
  {
    hide Highest, KeysIn, Trim, Committed;
    TrimIsTrimmed("A-0002");
    SmallKeys();
    assert FindRow([row], Some("A-0001")) == Some(0) && FindRow([row], Some("A-0002")) == None;
    assert slice[..2][..1] == slice[..1] && slice[..1][..0] == [];
    assert CommitKeys.DrawCount([row], slice[..1]) == 0;
    assert CommitKeys.DrawCount([row], slice[..2]) == 0;
    assert CommitKeys.DrawCount([row], slice) == 1;
    assert CommitKeys.BringsKey([row], slice[1]) && GivenKey(slice[1]) in CommitKeys.Brought([row], slice);
    assert GeneratedKey(2) in CommitKeys.Drawn([row], slice);
    CommitKeys.CommitsUnlessKeysClash([row], slice, setup);
  }

  lemma HighestOfMore(before: seq<Row>, after: seq<Row>)
    requires |before| <= |after| && after[..|before|] == before
    ensures Highest(KeysIn(before)) <= Highest(KeysIn(after))
  {
    hide KeyNumber, Highest, KeysIn;
    forall i | 0 <= i < |before| ensures KeyNumber(before[i].externalKey) <= Highest(KeysIn(after)) {
      assert before[i] == after[i];
      NumberOfRow(after, i);
    }
    RowsUpTo(before, Highest(KeysIn(after)));
  }

  // ----- the operations -----

  lemma {:induction false} RowByRowNumbers(start: Tally, slice: seq<ImportRow>, offset: nat, env: Env)
    requires UniqueKeys(start.rows)
    ensures Highest(KeysIn(RowByRow(start, slice, offset, env).rows)) <= Highest(KeysIn(start.rows)) + |slice|
    ensures UniqueKeys(RowByRow(start, slice, offset, env).rows)
  {
    hide AddedRow, UniqueKeys, Highest, KeysIn;
    if slice != [] {
      var k := |slice| - 1;
      RowByRowNumbers(start, slice[..k], offset, env);
      AddedRowKeys(RowByRow(start, slice[..k], offset, env).rows, slice[k], env.faults.rowFault(offset + k), env);
    }
  }

  method AddRow(table: PlanTable, input: ImportRow, fault: RowFault, env: Env) returns (ok: bool)
    requires env.otherRows == table.otherRows && Highest(KeysIn(table.rows)) + 1 < MAX_SAFE
    modifies table`rows
    ensures (table.rows, ok) == AddedRow(old(table.rows), input, fault, env)
  {
    hide Highest, Upserted;
    if fault.FailsAtOnce? { return false; }
    if 1 > RemainingRows(table.rows, env) { return false; }
    if 1 > RemainingSheetRows(table.rows, env) { return false; }
    var allocator := new KeyAllocator(KeysIn(table.rows));
    var key := allocator.Next();
    var row := Blank(input.(responsibleName := None), key);
    var at := |table.rows|;
    ghost var before := table.rows;
    table.rows := table.rows + [row];
    if fault.FailsOnceCreated? { return false; }
    if input.values != [] {
      table.rows := table.rows[at := Upserted(row, input.values, env.setup.byKey, env.setup.rules, env.setup.today)];
      assert table.rows == before + [Upserted(row, input.values, env.setup.byKey, env.setup.rules, env.setup.today)];
    }
    return fault.NoFault?;
  }

  /** The fallback: the rows of a refused slice, one at a time. */
  method AddRowByRow(table: PlanTable, slice: seq<ImportRow>, offset: nat, env: Env) returns (added: nat, failed: nat)
    requires UniqueKeys(table.rows)
    requires env.otherRows == table.otherRows && Highest(KeysIn(table.rows)) + |slice| < MAX_SAFE
    modifies table`rows
    ensures Tally(table.rows, added, failed) == RowByRow(Tally(old(table.rows), 0, 0), slice, offset, env)
  {
    hide Highest, AddedRow, UniqueKeys, KeysIn;
    ghost var start := Tally(table.rows, 0, 0);
    added, failed := 0, 0;
    for k := 0 to |slice|
      invariant Tally(table.rows, added, failed) == RowByRow(start, slice[..k], offset, env)
    {
      RowByRowNumbers(start, slice[..k], offset, env);
      assert slice[..k + 1][..k] == slice[..k];
      var ok := AddRow(table, slice[k], env.faults.rowFault(offset + k), env);
      if ok { added := added + 1; } else { failed := failed + 1; }
    }
    assert slice[..|slice|] == slice;
  }

  method PrepareRows(rows: seq<JsonRow>, reader: Reader) returns (prepared: seq<ImportRow>, skipped: nat)
    ensures prepared == PreparedRows(rows, reader) && skipped == |rows| - |prepared|
  {
    hide Trim;
    prepared, skipped := [], 0;
    for k := 0 to |rows|
      invariant prepared == PreparedRows(rows[..k], reader) && skipped == k - |prepared|
    {
      assert rows[..k + 1][..k] == rows[..k];
      var row := rows[k];
      if Trim(row.title) == "" {
        skipped := skipped + 1;
        continue;
      }
      var status := Some(PENDING);
      if IsGiven(row.status) { status := reader.statusOf(row.status.value); }
      var priority := Some(MEDIUM);
      if IsGiven(row.priority) { priority := reader.priorityOf(row.priority.value); }
      if IsGiven(row.status) && status.None? {
        skipped := skipped + 1;
        continue;
      }
      if reader.isBlank(row) {
        skipped := skipped + 1;
        continue;
      }
      var responsibleId := row.responsibleId;
      if responsibleId.None? { responsibleId := reader.memberOf(row); }
      prepared := prepared + [ImportRow(
        NotBlank(row.externalKey), row.title, row.description, row.unitId, responsibleId, reader.assigneeOf(row),
        status, Some(Or(priority, MEDIUM)), reader.dueDateOf(row), row.values)];
    }
    assert rows[..|rows|] == rows;
  }

  lemma {:induction false} RowByRowAdds(start: Tally, slice: seq<ImportRow>, offset: nat, env: Env)
    ensures
      var alone, after := RowByRow(Tally(start.rows, 0, 0), slice, offset, env), RowByRow(start, slice, offset, env);
      after == Tally(alone.rows, start.imported + alone.imported, start.skipped + alone.skipped)
  {
    hide AddedRow;
    if slice != [] { RowByRowAdds(start, slice[..|slice| - 1], offset, env); }
  }

  lemma BatchNumbers(start: Tally, slice: seq<ImportRow>, offset: nat, env: Env, top: nat)
    requires UniqueKeys(start.rows) && Highest(KeysIn(start.rows)) <= top && NumbersUpTo(slice, top)
    ensures Highest(KeysIn(AfterBatch(start, slice, offset, env).rows)) <= top + |slice|
  {
    hide Highest, KeysIn, Committed, UniqueKeys, RowByRow, NumbersUpTo;
    if Committed(start.rows, slice, env.setup).Some? { CommittedNumbers(start.rows, slice, env.setup, top); }
    RowByRowNumbers(start, slice, offset, env);
  }

  lemma {:induction false} PreparedNumbers(rows: seq<JsonRow>, reader: Reader, top: nat)
    requires forall k | 0 <= k < |rows| :: KeyNumber(NotBlank(rows[k].externalKey)) <= top
    ensures NumbersUpTo(PreparedRows(rows, reader), top)
  {
    hide KeyNumber, Trim, Prepare;
    if rows != [] {
      var last := rows[|rows| - 1];
      PreparedNumbers(rows[..|rows| - 1], reader, top);
      if Prepare(last, reader).Some? { PreparedKey(last, reader); }
    }
  }

  /** A prepared key is trimmed already. */
  lemma PreparedKey(row: JsonRow, reader: Reader)
    requires Prepare(row, reader).Some?
    ensures
      var input := Prepare(row, reader).value;
      && input.externalKey == NotBlank(row.externalKey)
      && (input.externalKey.Some? ==> IsKey(input.externalKey) && GivenKey(input) == input.externalKey.value)
      && KeyNumber(Some(GivenKey(input))) == KeyNumber(NotBlank(row.externalKey))
  {
    hide Trim;
    if row.externalKey.Some? {
      TrimIsTrimmed(row.externalKey.value);
      TrimIsTrimmed(Trim(row.externalKey.value));
    }
  }

  lemma BatchAdds(start: Tally, slice: seq<ImportRow>, offset: nat, env: Env)
    ensures
      var alone, after := AfterBatch(Tally(start.rows, 0, 0), slice, offset, env),
        AfterBatch(start, slice, offset, env);
      after == Tally(alone.rows, start.imported + alone.imported, start.skipped + alone.skipped)
  {
    hide Committed, RowByRow;
    RowByRowAdds(start, slice, offset, env);
  }

  lemma NoBatches(start: Tally, env: Env)
    ensures AfterBatches(start, [], env) == start
  {
  }

  lemma NextBatch(start: Tally, prepared: seq<ImportRow>, offset: nat, end: nat, env: Env)
    requires offset % BATCH == 0 && offset < end <= |prepared| && end <= offset + BATCH
    ensures AfterBatches(start, prepared[..end], env)
         == AfterBatch(AfterBatches(start, prepared[..offset], env), prepared[offset..end], offset, env)
  {
    hide AfterBatch;
    assert (end - 1) / BATCH * BATCH == offset;
    assert prepared[..end][..offset] == prepared[..offset] && prepared[..end][offset..] == prepared[offset..end];
  }

  /** One round of the batch loop. */
  method ImportBatch(table: PlanTable, slice: seq<ImportRow>, offset: nat, env: Env, ghost top: nat)
      returns (added: nat, failed: nat)
    requires UniqueKeys(table.rows) && env.otherRows == table.otherRows
    requires Highest(KeysIn(table.rows)) <= top && top + |slice| < MAX_SAFE && NumbersUpTo(slice, top)
    modifies table`rows
    ensures Tally(table.rows, added, failed) == AfterBatch(Tally(old(table.rows), 0, 0), slice, offset, env)
    ensures UniqueKeys(table.rows) && Highest(KeysIn(table.rows)) <= top + |slice|
  {
    hide Highest, KeysIn, UniqueKeys, Committed, RowByRow, NumbersUpTo;
    ghost var start := Tally(table.rows, 0, 0);
    BatchNumbers(start, slice, offset, env, top);
    RowByRowNumbers(start, slice, offset, env);
    var created := table.CommitImportChunk(slice, env.setup, env.faults.commitFails(offset));
    if created.Some? {
      added, failed := created.value, 0;
    } else {
      added, failed := AddRowByRow(table, slice, offset, env);
    }
  }

  lemma SliceNumbers(prepared: seq<ImportRow>, offset: nat, end: nat, top: nat, more: nat)
    requires offset <= end <= |prepared| && NumbersUpTo(prepared, top) && top <= more
    ensures NumbersUpTo(prepared[offset..end], more)
  {
    hide KeyNumber, GivenKey;
  }

  lemma {:induction false} BatchesAdd(start: Tally, prepared: seq<ImportRow>, env: Env)
    ensures
      var alone, after := AfterBatches(Tally(start.rows, 0, 0), prepared, env), AfterBatches(start, prepared, env);
      after == Tally(alone.rows, start.imported + alone.imported, start.skipped + alone.skipped)
    decreases |prepared|
  {
    hide AfterBatch;
    if prepared != [] {
      var offset := (|prepared| - 1) / BATCH * BATCH;
      BatchesAdd(start, prepared[..offset], env);
      BatchAdds(AfterBatches(start, prepared[..offset], env), prepared[offset..], offset, env);
      BatchAdds(AfterBatches(Tally(start.rows, 0, 0), prepared[..offset], env), prepared[offset..], offset, env);
    }
  }

  /** The batch loop. */
  method ImportBatches(table: PlanTable, prepared: seq<ImportRow>, env: Env, ghost top: nat)
      returns (added: nat, failed: nat)
    requires UniqueKeys(table.rows) && env.otherRows == table.otherRows
    requires Highest(KeysIn(table.rows)) <= top && top + |prepared| < MAX_SAFE && NumbersUpTo(prepared, top)
    modifies table`rows
    ensures Tally(table.rows, added, failed) == AfterBatches(Tally(old(table.rows), 0, 0), prepared, env)
    ensures UniqueKeys(table.rows) && Highest(KeysIn(table.rows)) <= top + |prepared|
  {
    hide UniqueKeys, Highest, KeysIn, AfterBatch, AfterBatches, NumbersUpTo;
    ghost var start := Tally(table.rows, 0, 0);
    var offset: nat := 0;
    ghost var done: nat := 0;
    added, failed := 0, 0;
    NoBatches(start, env);
    while offset < |prepared|
      invariant offset % BATCH == 0 && done == (if offset < |prepared| then offset else |prepared|)
      invariant UniqueKeys(table.rows) && Highest(KeysIn(table.rows)) <= top + done
      invariant Tally(table.rows, added, failed) == AfterBatches(start, prepared[..done], env)
    {
      ghost var before := Tally(table.rows, added, failed);
      var end := if offset + BATCH < |prepared| then offset + BATCH else |prepared|;
      var slice := prepared[offset..end];
      SliceNumbers(prepared, offset, end, top, top + done);
      NextBatch(start, prepared, offset, end, env);
      BatchAdds(before, slice, offset, env);
      var more, less := ImportBatch(table, slice, offset, env, top + done);
      added, failed := added + more, failed + less;
      offset, done := offset + BATCH, end;
    }
    assert prepared[..done] == prepared;
  }

  lemma NoRows()
    ensures UniqueKeys([]) && Highest(KeysIn([])) == 0
  {
    assert KeysIn([]) == [];
  }

  /** importJson. `top` bounds the numbers of the keys of the plan and of the input. */
  method ImportJson(table: PlanTable, input: seq<JsonRow>, replace: bool, reader: Reader, env: Env, ghost top: nat)
      returns (outcome: JsonOutcome)
    requires UniqueKeys(table.rows) && env.otherRows == table.otherRows
    requires Highest(KeysIn(table.rows)) <= top && top + |input| < MAX_SAFE
    requires forall k | 0 <= k < |input| :: KeyNumber(NotBlank(input[k].externalKey)) <= top
    modifies table`rows
    ensures (table.rows, outcome) == AfterJson(old(table.rows), input, replace, reader, env)
    ensures UniqueKeys(table.rows) && Highest(KeysIn(table.rows)) <= top + |input|
  {
    hide KeyNumber, NotBlank, Trim, PreparedRows, Active, AfterBatches, NumbersUpTo, UniqueKeys, Highest, KeysIn;
    NoRows();
    if replace { table.rows := []; }
    var prepared, skipped := PrepareRows(input, reader);
    PreparedNumbers(input, reader, top);
    var remaining := Remaining(table.rows, env);
    if remaining <= 0 { return QuotaError; }
    var quotaReached := false;
    if |prepared| > remaining {
      skipped := skipped + |prepared| - remaining;
      quotaReached := true;
      SliceNumbers(prepared, 0, remaining, top, top);
      prepared := prepared[..remaining];
    }
    BatchesAdd(Tally(table.rows, 0, skipped), prepared, env);
    var added, failed := ImportBatches(table, prepared, env, top);
    outcome := Imported(added, skipped + failed, quotaReached);
  }
}
