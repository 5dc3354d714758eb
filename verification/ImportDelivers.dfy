/** What an import delivers: which rows of the input are taken, what of them is prepared, and what the
    plan's rows say of them afterwards. */
module ImportDelivers {
  import opened JsText
  import opened RowCells
  import opened ProjectRow
  import opened RowEdits
  import opened ExternalKeys
  import opened ImportCommit
  import opened CommitRows
  import opened SheetImport
  import opened ParseImport
  import opened ImportTwice

  // ----- which rows are prepared -----

  /** A row without title, with a status that cannot be read, or a blank one. */
  predicate IsSkipped(row: JsonRow, reader: Reader) {
    || Trim(row.title) == ""
    || (row.status.Some? && row.status.value != "" && reader.statusOf(row.status.value).None?)
    || reader.isBlank(row)
  }

  /** The rows that are not skipped, in order. */
  function Importable(rows: seq<JsonRow>, reader: Reader): seq<JsonRow> {
    if rows == [] then [] else
    var before, last := Importable(rows[..|rows| - 1], reader), rows[|rows| - 1];
    if IsSkipped(last, reader) then before else before + [last]
  }

  /** A text that was submitted. */
  predicate IsSubmittedText(text: Option<string>) {
    text.Some? && text.value != ""
  }

  /** The input carries what the row says. */
  predicate CarriesOver(input: ImportRow, row: JsonRow, reader: Reader) {
    && input.title == row.title && input.description == row.description && input.unitId == row.unitId
    && input.values == row.values && input.dueDate == reader.dueDateOf(row)
    && input.responsibleName == reader.assigneeOf(row)
    && (row.responsibleId.Some? ==> input.responsibleId == row.responsibleId)
    && (row.responsibleId.None? ==> input.responsibleId == reader.memberOf(row))
    && input.status.Some? && input.priority.Some?
    && (IsSubmittedText(row.status) ==> input.status == reader.statusOf(row.status.value))
    && (!IsSubmittedText(row.status) ==> input.status == Some(PENDING))
    && (IsSubmittedText(row.priority) && reader.priorityOf(row.priority.value).Some? ==>
          input.priority == reader.priorityOf(row.priority.value))
    && (!IsSubmittedText(row.priority) || reader.priorityOf(row.priority.value).None? ==>
          input.priority == Some(MEDIUM))
    && (if row.externalKey.Some? && Trim(row.externalKey.value) != ""
        then input.externalKey == Some(Trim(row.externalKey.value)) else input.externalKey == None)
  }

  lemma PrepareCarries(row: JsonRow, reader: Reader)
    ensures Prepare(row, reader).None? <==> IsSkipped(row, reader)
    ensures Prepare(row, reader).Some? ==> CarriesOver(Prepare(row, reader).value, row, reader)
  {
    hide Trim;
  }

  /** The prepared inputs are the rows that are not skipped, each carrying over what its row says. */
  lemma {:induction false} PreparedCarry(rows: seq<JsonRow>, reader: Reader)
    ensures
      var prepared, taken := PreparedRows(rows, reader), Importable(rows, reader);
      |prepared| == |taken| && forall k | 0 <= k < |taken| :: CarriesOver(prepared[k], taken[k], reader)
  {
    hide Prepare, IsSkipped, CarriesOver;
    if rows != [] {
      PreparedCarry(rows[..|rows| - 1], reader);
      PrepareCarries(rows[|rows| - 1], reader);
    }
  }

  // ----- what arrives -----

  /** The plan's row says what the row of the input says: it is active, under its key; its title and its
      assignee are the given ones unless the plan has a column for them, and then what that column's cell
      says; what else was given is there, and so is each value that is not blank in its column. */
  ghost predicate Arrived(after: Row, row: JsonRow, reader: Reader, setup: Setup) {
    && row.externalKey.Some? && after.externalKey == Some(Trim(row.externalKey.value)) && !after.deleted
    && (row.description.Some? ==> after.description == row.description)
    && (row.unitId.Some? ==> after.unitId == row.unitId)
    && (row.responsibleId.Some? ==> after.responsibleId == row.responsibleId)
    && (row.responsibleId.None? && reader.memberOf(row).Some? ==> after.responsibleId == reader.memberOf(row))
    && (!HasColumn(setup.rules.columns, "acoes") ==> after.title == row.title)
    && (!HasColumn(setup.rules.columns, "responsavel_solucao") && reader.assigneeOf(row).Some? ==>
          after.responsibleName == reader.assigneeOf(row))
    && (forall c | c in setup.rules.columns :: FollowsOrGiven(c, after, row, setup))
    && forall id | id !in DerivedIds(setup.rules.columns) && LastFor(row.values, setup.byKey, id).Some? ::
         CellAt(after.cells, id) == Stored(LastFor(row.values, setup.byKey, id).value)
  }

  /** What a column of the plan is about says what its cell says, the title what was given when its cell
      has no text. */
  predicate FollowsOrGiven(c: CanonicalColumn, after: Row, row: JsonRow, setup: Setup) {
    ColumnFollowed(c, after, after.(title := row.title), setup.rules.normalize)
  }

  lemma SettledArrived(after: Row, input: ImportRow, row: JsonRow, reader: Reader, setup: Setup)
    requires IsRowOf(after, input, setup) && CarriesOver(input, row, reader) && WellKeyed(setup.rules.columns)
    requires IsKey(input.externalKey)
    ensures Arrived(after, row, reader, setup)
  {
    hide Updating, WellKeyed, Merged, AgreeOff, ShowsText, ShowsTitle, ShowsPriority, ParseDateOnly, HasColumn, Trim,
         StatusShown, LastFor, DerivedIds;
    UpdatingFollows(after, after, input, setup);
    forall c | c in setup.rules.columns ensures FollowsOrGiven(c, after, row, setup) {
      assert ColumnFollowed(c, after, Touched(after, input), setup.rules.normalize);
    }
    forall id | id !in DerivedIds(setup.rules.columns) && LastFor(row.values, setup.byKey, id).Some?
      ensures CellAt(after.cells, id) == Stored(LastFor(row.values, setup.byKey, id).value)
    {
      MergedStores(after.cells, row.values, setup.byKey, id);
      AgreesAt(after.cells, Merged(after.cells, row.values, setup.byKey), DerivedIds(setup.rules.columns), id);
    }
  }

  ghost predicate HasArrived(rows: seq<Row>, row: JsonRow, reader: Reader, setup: Setup) {
    exists at | 0 <= at < |rows| :: Arrived(rows[at], row, reader, setup)
  }

  lemma SettledHasArrived(rows: seq<Row>, input: ImportRow, row: JsonRow, reader: Reader, setup: Setup)
    requires HasSettledRow(rows, input, setup) && CarriesOver(input, row, reader) && WellKeyed(setup.rules.columns)
    ensures HasArrived(rows, row, reader, setup)
  {
    hide IsRowOf, Arrived, CarriesOver, WellKeyed;
    var at :| 0 <= at < |rows| && IsRowOf(rows[at], input, setup);
    SettledArrived(rows[at], input, row, reader, setup);
  }

  /** After an import of rows with keys of their own, every row that is not skipped and for which there is
      room has arrived. */
  lemma JsonArrives(rows: seq<Row>, input: seq<JsonRow>, reader: Reader, env: Env)
    requires UniqueKeys(rows) && RowsRepeatable(input, reader, env.setup) && Steady(env.setup) && NeverFails(env.faults)
    ensures
      var after, taken := AfterJson(rows, input, false, reader, env).0, Importable(input, reader);
      forall k | 0 <= k < |taken| && k < Remaining(rows, env) :: HasArrived(after, taken[k], reader, env.setup)
  {
    hide UniqueKeys, RowsRepeatable, AfterJson, PreparedRows, Importable, Remaining, HasSettledRow, HasArrived,
         CarriesOver;
    hide Active, InputFor, WellKeyed, ReadsVocabulary;
    JsonExtends(rows, input, reader, env);
    PreparedCarry(input, reader);
    var after, taken := AfterJson(rows, input, false, reader, env).0, Importable(input, reader);
    var kept := WithRoom(rows, PreparedRows(input, reader), env);
    forall k | 0 <= k < |taken| && k < Remaining(rows, env) ensures HasArrived(after, taken[k], reader, env.setup) {
      assert HasSettledRow(after, kept[k], env.setup);
      SettledHasArrived(after, kept[k], taken[k], reader, env.setup);
    }
  }

  // ----- a whole file -----

  /** A flush that does not stop settles all its rows. */
  lemma FlushSettles(run: Run, chunk: seq<JsonRow>, mapping: Mapping, world: World)
    requires UniqueKeys(run.rows) && mapping.upsertByKey && WorldNeverFails(world)
    requires RowsRepeatable(chunk, world.reader, world.setup) && Steady(world.setup)
    requires !Stopped(Flushed(run, chunk, mapping, world))
    ensures AllSettled(Flushed(run, chunk, mapping, world).rows, PreparedRows(chunk, world.reader), world.setup)
    ensures !Stopped(run)
  {
    hide UniqueKeys, RowsRepeatable, Steady, PreparedRows, Active, InputFor, HasSettledRow, AfterBatches;
    Sticky(run, chunk, mapping, world);
    FlushExtends(run, chunk, mapping, world);
    if chunk == [] { assert PreparedRows(chunk, world.reader) == [] by { NothingPrepared(world.reader); } }
  }

  lemma NothingPrepared(reader: Reader)
    ensures PreparedRows([], reader) == []
  {
  }

  lemma {:induction false} StaysStopped(run: Run, rest: seq<JsonRow>, mapping: Mapping, world: World)
    requires Stopped(run)
    ensures FromHere(run, rest, mapping, world) == run
    decreases |rest|
  {
    hide Flushed;
    if |rest| < FLUSH_SIZE {
      Sticky(run, rest, mapping, world);
    } else {
      Sticky(run, rest[..FLUSH_SIZE], mapping, world);
      StaysStopped(run, rest[FLUSH_SIZE..], mapping, world);
    }
  }

  lemma {:induction false} RunSettles(run: Run, rest: seq<JsonRow>, mapping: Mapping, world: World)
    requires UniqueKeys(run.rows) && mapping.upsertByKey && WorldNeverFails(world)
    requires RowsRepeatable(rest, world.reader, world.setup) && Steady(world.setup)
    requires !Stopped(FromHere(run, rest, mapping, world))
    ensures AllSettled(FromHere(run, rest, mapping, world).rows, PreparedRows(rest, world.reader), world.setup)
    decreases |rest|
  {
    hide UniqueKeys, RowsRepeatable, Steady, Flushed, AllSettled, PreparedRows, Active, InputFor, HasSettledRow,
         Stopped;
    if |rest| < FLUSH_SIZE {
      FlushSettles(run, rest, mapping, world);
    } else {
      var chunk, more := rest[..FLUSH_SIZE], rest[FLUSH_SIZE..];
      assert chunk + more == rest;
      RowsRepeatableParts(chunk, more, world.reader, world.setup);
      PreparedOfBoth(chunk, more, world.reader);
      var mid := Flushed(run, chunk, mapping, world);
      if Stopped(mid) { StaysStopped(mid, more, mapping, world); }
      FlushSettles(run, chunk, mapping, world);
      FlushExtends(run, chunk, mapping, world);
      RunSettles(mid, more, mapping, world);
      RunExtends(mid, more, mapping, world);
      assert DistinctKeys(PreparedRows(rest, world.reader)) by { RepeatableKeys(rest, world.reader, world.setup); }
      AllSettledAll(mid.rows, FromHere(run, rest, mapping, world).rows, PreparedRows(chunk, world.reader),
                    PreparedRows(more, world.reader), world.setup);
    }
  }

  lemma RepeatableKeys(rows: seq<JsonRow>, reader: Reader, setup: Setup)
    requires RowsRepeatable(rows, reader, setup)
    ensures DistinctKeys(PreparedRows(rows, reader))
  {
    hide PreparedRows, DistinctTargets;
  }

  /** When a file is imported by key, with a key in every row, and the run ends without meeting the quota,
      then every accepted row that is not skipped has arrived in the plan. */
  lemma FileArrives(plan: seq<Row>, data: seq<JsonRow>, mapping: Mapping, world: World)
    requires UniqueKeys(plan) && mapping.upsertByKey && Steady(world.setup) && WorldNeverFails(world)
    requires Keyed(Accepted(data, mapping), world.reader, world.setup)
    requires !Stopped(WholeRun(plan, data, mapping, world))
    ensures
      var after, taken := WholeRun(plan, data, mapping, world).rows, Importable(Accepted(data, mapping), world.reader);
      forall k | 0 <= k < |taken| :: HasArrived(after, taken[k], world.reader, world.setup)
  {
    hide UniqueKeys, RowsRepeatable, Keyed, AfterAll, FromHere, Accepted, NotBlank, WorldNeverFails, PreparedRows,
         Importable;
    hide HasSettledRow, HasArrived, CarriesOver, WellKeyed, ReadsVocabulary, Stopped;
    var accepted := Accepted(data, mapping);
    AcceptedKeysDiffer(data, mapping);
    KeyedRepeatable(accepted, world.reader, world.setup);
    assert accepted[0..] == accepted;
    AllFromHere(Begin(plan), accepted, 0, mapping, world);
    RunSettles(Begin(plan), accepted, mapping, world);
    PreparedCarry(accepted, world.reader);
    var after, taken := WholeRun(plan, data, mapping, world).rows, Importable(accepted, world.reader);
    forall k | 0 <= k < |taken| ensures HasArrived(after, taken[k], world.reader, world.setup) {
      var input := PreparedRows(accepted, world.reader)[k];
      assert HasSettledRow(after, input, world.setup);
      SettledHasArrived(after, input, taken[k], world.reader, world.setup);
    }
  }

  // ----- rows added alone -----

  /** A row added alone starts as the input says, without its assignee, under the next key. Unless it has no
      values or adding it fails in between, its cells are then those values, its native columns say what
      their cells say and its status follows from them. */
  lemma AddedRowSays(row: Row, input: ImportRow, key: string, fault: RowFault, env: Env)
    requires IsAddedFrom(row, input, key, fault, env) && WellKeyed(env.setup.rules.columns)
    ensures
      var start := Started(input.(responsibleName := None), key);
      if fault.FailsOnceCreated? || input.values == [] then row == start
      else
        && NativesFollow(row, start, env.setup.rules)
        && StatusShown(row, Merged(map[], input.values, env.setup.byKey), Some(start.status), env.setup.rules,
          env.setup.today)
        && forall id | id !in DerivedIds(env.setup.rules.columns) ::
             var v := LastFor(input.values, env.setup.byKey, id);
             CellAt(row.cells, id) == if v.Some? then Stored(v.value) else None
  {
    hide NativesFollow, StatusShown, Merged, WellKeyed, DerivedIds, LastFor, AgreeOff, Trim, Project, WithDerived,
         PatchOf;
    var start, setup := Started(input.(responsibleName := None), key), env.setup;
    assert start == Blank(input.(responsibleName := None), key);
    if !fault.FailsOnceCreated? && input.values != [] {
      var merged := Merged(map[], input.values, setup.byKey);
      UpsertFollows(start, input.values, setup.byKey, setup.rules, setup.today);
      DerivedAgree(merged, setup.rules.columns,
                   Project(merged, setup.rules.columns, Some(start.status), setup.today, setup.rules.normalize));
      forall id | id !in DerivedIds(setup.rules.columns)
        ensures
          var v := LastFor(input.values, setup.byKey, id);
          CellAt(row.cells, id) == if v.Some? then Stored(v.value) else None
      {
        MergedStores(map[], input.values, setup.byKey, id);
        AgreesAt(row.cells, merged, DerivedIds(setup.rules.columns), id);
      }
    }
  }
}
