/** Importing the same keyed rows a second time on the same day, over a whole import: batches, the
    quota, and the flushes of a parsed file. */
module ImportTwice {
  import opened JsText
  import opened RowCells
  import opened ProjectRow
  import opened RowEdits
  import opened ExternalKeys
  import opened ImportCommit
  import opened SheetImport
  import opened ParseImport

  /** The columns' keys and the reading of cells fit the vocabulary of status words. */
  predicate Steady(setup: Setup) {
    WellKeyed(setup.rules.columns) && ReadsVocabulary(setup.rules.normalize)
  }

  /** Every input has a key of its own and names no column twice. */
  predicate Repeatable(inputs: seq<ImportRow>, setup: Setup) {
    && DistinctKeys(inputs) && HasGivenKeys(inputs)
    && forall i | 0 <= i < |inputs| :: DistinctTargets(inputs[i].values, setup.byKey)
  }

  predicate AllSettled(rows: seq<Row>, inputs: seq<ImportRow>, setup: Setup) {
    forall j | 0 <= j < |inputs| :: HasSettledRow(rows, inputs[j], setup)
  }

  /** The plan has lost no row and no active row, and whatever was settled still is, but for what the
      inputs name. */
  ghost predicate Extends(rows: seq<Row>, after: seq<Row>, inputs: seq<ImportRow>, setup: Setup) {
    && UniqueKeys(after) && |rows| <= |after| && Active(rows) <= Active(after)
    && forall input | HasSettledRow(rows, input, setup) && InputFor(inputs, input.externalKey).None? ::
         HasSettledRow(after, input, setup)
  }

  // ----- one commit -----

  lemma {:induction false} ActiveKept(rows: seq<Row>, after: seq<Row>)
    requires |rows| == |after|
    requires forall i | 0 <= i < |rows| && !rows[i].deleted :: !after[i].deleted
    ensures Active(rows) <= Active(after)
  {
    if rows != [] { ActiveKept(rows[..|rows| - 1], after[..|rows| - 1]); }
  }

  /** A commit leaves the rows of all other keys settled. */
  lemma OthersStaySettled(rows: seq<Row>, chunk: seq<ImportRow>, input: ImportRow, setup: Setup)
    requires UniqueKeys(rows) && DistinctKeys(chunk) && HasGivenKeys(chunk)
    requires HasSettledRow(rows, input, setup) && InputFor(chunk, input.externalKey).None?
    ensures Committed(rows, chunk, setup).Some? && HasSettledRow(Committed(rows, chunk, setup).value, input, setup)
  {
    hide PassOver, NewRows, InputFor, Settled, Committed, UniqueKeys, DistinctKeys, HasGivenKeys;
    var after := Appended(rows, chunk, setup);
    var at :| 0 <= at < |rows| && IsRowOf(rows[at], input, setup);
    assert after[at] == AfterInput(rows[at], InputFor(chunk, rows[at].externalKey), setup) == rows[at];
  }

  lemma CommitExtends(rows: seq<Row>, chunk: seq<ImportRow>, setup: Setup)
    requires UniqueKeys(rows) && Repeatable(chunk, setup) && Steady(setup)
    ensures
      var after := Committed(rows, chunk, setup);
      after.Some? && Extends(rows, after.value, chunk, setup) && AllSettled(after.value, chunk, setup)
  {
    hide PassOver, NewRows, InputFor, HasSettledRow, Committed, UniqueKeys, DistinctKeys, HasGivenKeys, DistinctTargets;
    hide WellKeyed, ReadsVocabulary, Active, Updating;
    var after := Appended(rows, chunk, setup);
    var kept := PassOver(rows, chunk, setup).rows;
    forall i | 0 <= i < |rows| && !rows[i].deleted ensures !kept[i].deleted {
      var input := InputFor(chunk, rows[i].externalKey);
      if input.Some? { KeysKept(rows[i], rows[i], input.value, "", setup); }
    }
    ActiveKept(rows, kept);
    ActiveAppend(kept, NewRows(rows, chunk, setup));
    forall input | HasSettledRow(rows, input, setup) && InputFor(chunk, input.externalKey).None?
      ensures HasSettledRow(after, input, setup)
    {
      OthersStaySettled(rows, chunk, input, setup);
    }
    forall j | 0 <= j < |chunk| ensures HasSettledRow(after, chunk[j], setup) {
      var at := EveryInputSettled(rows, chunk, setup, after, j);
      HasRow(after, at, chunk[j], setup);
    }
  }

  lemma HasRow(rows: seq<Row>, at: nat, input: ImportRow, setup: Setup)
    requires at < |rows| && IsRowOf(rows[at], input, setup) && IsKey(input.externalKey)
    ensures HasSettledRow(rows, input, setup)
  {
  }

  lemma SettledCommit(rows: seq<Row>, chunk: seq<ImportRow>, setup: Setup)
    requires UniqueKeys(rows) && AllSettled(rows, chunk, setup)
    ensures Committed(rows, chunk, setup) == Some(rows)
  {
    hide PassOver, HasSettledRow, UniqueKeys;
    SettledPass(rows, chunk, setup);
    assert rows + [] == rows;
  }

  // ----- all batches -----

  /** No transaction fails by itself. */
  ghost predicate NeverFails(faults: Faults) {
    forall at :: !faults.commitFails(at)
  }

  lemma ExtendsAll(rows: seq<Row>, mid: seq<Row>, after: seq<Row>, first: seq<ImportRow>, second: seq<ImportRow>,
        setup: Setup)
    requires Extends(rows, mid, first, setup) && Extends(mid, after, second, setup)
    ensures Extends(rows, after, first + second, setup)
  {
    hide HasSettledRow, UniqueKeys, Active;
    forall input | HasSettledRow(rows, input, setup) && InputFor(first + second, input.externalKey).None?
      ensures HasSettledRow(after, input, setup)
    {
      InputOfBoth(first, second, input.externalKey);
    }
  }

  lemma InputOfBoth(first: seq<ImportRow>, second: seq<ImportRow>, key: Option<string>)
    ensures InputFor(first + second, key).None? <==> InputFor(first, key).None? && InputFor(second, key).None?
  {
    var all := first + second;
    assert forall i | 0 <= i < |first| :: all[i] == first[i];
    assert forall i | 0 <= i < |second| :: all[|first| + i] == second[i];
    assert forall i | 0 <= i < |all| :: all[i] in first || all[i] in second;
  }

  /** Of inputs with different keys, those settled before stay settled when the others are. */
  lemma AllSettledAll(mid: seq<Row>, after: seq<Row>, first: seq<ImportRow>, second: seq<ImportRow>, setup: Setup)
    requires DistinctKeys(first + second)
    requires AllSettled(mid, first, setup) && Extends(mid, after, second, setup) && AllSettled(after, second, setup)
    ensures AllSettled(after, first + second, setup)
  {
    hide HasSettledRow, UniqueKeys, Active;
    var all := first + second;
    forall j | 0 <= j < |all| ensures HasSettledRow(after, all[j], setup) {
      if j < |first| {
        assert forall i | 0 <= i < |second| :: second[i] == all[|first| + i];
        assert InputFor(second, all[j].externalKey).None?;
        assert HasSettledRow(mid, first[j], setup);
      } else {
        assert HasSettledRow(after, second[j - |first|], setup);
      }
    }
  }

  lemma RepeatableParts(first: seq<ImportRow>, second: seq<ImportRow>, setup: Setup)
    requires Repeatable(first + second, setup)
    ensures Repeatable(first, setup) && Repeatable(second, setup)
  {
    hide DistinctTargets, GivenKey;
    var all := first + second;
    assert forall i | 0 <= i < |first| :: all[i] == first[i];
    assert forall i | 0 <= i < |second| :: all[|first| + i] == second[i];
  }

  lemma {:induction false} BatchesExtend(start: Tally, prepared: seq<ImportRow>, env: Env)
    requires UniqueKeys(start.rows) && Repeatable(prepared, env.setup) && Steady(env.setup) && NeverFails(env.faults)
    ensures
      var after := AfterBatches(start, prepared, env);
      && Extends(start.rows, after.rows, prepared, env.setup) && AllSettled(after.rows, prepared, env.setup)
      && after == Tally(after.rows, start.imported + |prepared|, start.skipped)
    decreases |prepared|
  {
    hide HasSettledRow, UniqueKeys, Active, Repeatable, Steady, InputFor, Committed, RowByRow;
    if prepared != [] {
      var offset := (|prepared| - 1) / BATCH * BATCH;
      var first, slice := prepared[..offset], prepared[offset..];
      assert first + slice == prepared;
      RepeatableParts(first, slice, env.setup);
      BatchesExtend(start, first, env);
      var mid, after := AfterBatches(start, first, env), AfterBatches(start, prepared, env);
      CommitExtends(mid.rows, slice, env.setup);
      ExtendsAll(start.rows, mid.rows, after.rows, first, slice, env.setup);
      assert DistinctKeys(first + slice) by { KeysDiffer(prepared, env.setup); }
      AllSettledAll(mid.rows, after.rows, first, slice, env.setup);
    }
  }

  lemma KeysDiffer(inputs: seq<ImportRow>, setup: Setup)
    requires Repeatable(inputs, setup)
    ensures DistinctKeys(inputs)
  {
    hide DistinctTargets, GivenKey;
  }

  /** Batches of settled inputs change no row. */
  lemma {:induction false} SettledBatches(start: Tally, prepared: seq<ImportRow>, env: Env)
    requires UniqueKeys(start.rows) && AllSettled(start.rows, prepared, env.setup) && NeverFails(env.faults)
    ensures AfterBatches(start, prepared, env) == Tally(start.rows, start.imported + |prepared|, start.skipped)
    decreases |prepared|
  {
    hide HasSettledRow, UniqueKeys, Committed, RowByRow;
    if prepared != [] {
      var offset := (|prepared| - 1) / BATCH * BATCH;
      SettledBatches(start, prepared[..offset], env);
      SettledCommit(start.rows, prepared[offset..], env.setup);
    }
  }

  // ----- importJson -----

  /** The prepared rows for which there is room. */
  function WithRoom(rows: seq<Row>, prepared: seq<ImportRow>, env: Env): (kept: seq<ImportRow>)
    ensures kept <= prepared
  {
    if |prepared| > Remaining(rows, env) then prepared[..Remaining(rows, env)] else prepared
  }

  /** The inputs importJson commits have trimmed keys. */
  lemma {:induction false} PreparedGiven(rows: seq<JsonRow>, reader: Reader)
    requires DistinctKeys(PreparedRows(rows, reader))
    ensures HasGivenKeys(PreparedRows(rows, reader))
  {
    hide GivenKey, Prepare, NotBlank;
    if rows != [] {
      var init, last := rows[..|rows| - 1], rows[|rows| - 1];
      var prepared := PreparedRows(rows, reader);
      assert forall i | 0 <= i < |PreparedRows(init, reader)| :: prepared[i] == PreparedRows(init, reader)[i];
      PreparedGiven(init, reader);
      if Prepare(last, reader).Some? { PreparedKey(last, reader); }
    }
  }

  /** The rows of an import can be repeated: they have keys, all different, and name no column twice. */
  predicate RowsRepeatable(input: seq<JsonRow>, reader: Reader, setup: Setup) {
    var prepared := PreparedRows(input, reader);
    DistinctKeys(prepared) && forall i | 0 <= i < |prepared| :: DistinctTargets(prepared[i].values, setup.byKey)
  }

  lemma JsonExtends(rows: seq<Row>, input: seq<JsonRow>, reader: Reader, env: Env)
    requires UniqueKeys(rows) && RowsRepeatable(input, reader, env.setup) && Steady(env.setup) && NeverFails(env.faults)
    ensures
      var (after, _) := AfterJson(rows, input, false, reader, env);
      var prepared := PreparedRows(input, reader);
      && Extends(rows, after, prepared, env.setup)
      && AllSettled(after, WithRoom(rows, prepared, env), env.setup)
      && Remaining(after, env) <= Remaining(rows, env)
  {
    hide HasSettledRow, UniqueKeys, Active, Steady, InputFor, DistinctKeys, DistinctTargets, HasGivenKeys,
         AfterBatches, PreparedRows;
    var prepared := PreparedRows(input, reader);
    PreparedGiven(input, reader);
    var kept := WithRoom(rows, prepared, env);
    var rest := prepared[|kept|..];
    assert kept + rest == prepared;
    RepeatableParts(kept, rest, env.setup);
    BatchesExtend(Tally(rows, 0, |input| - |kept|), kept, env);
    var after := AfterJson(rows, input, false, reader, env).0;
    forall settled | HasSettledRow(rows, settled, env.setup) && InputFor(prepared, settled.externalKey).None?
      ensures HasSettledRow(after, settled, env.setup)
    {
      InputOfBoth(kept, rest, settled.externalKey);
    }
  }

  predicate Stops(outcome: JsonOutcome) {
    outcome.QuotaError? || outcome.quotaReached
  }

  /** With no more room than before, rows that are settled already are not changed. */
  lemma JsonAgain(rows: seq<Row>, later: seq<Row>, input: seq<JsonRow>, reader: Reader, env: Env, again: Env)
    requires UniqueKeys(later) && NeverFails(again.faults) && again == env.(faults := again.faults)
    requires AllSettled(later, WithRoom(rows, PreparedRows(input, reader), env), env.setup)
    requires Remaining(later, env) <= Remaining(rows, env)
    ensures
      var (after, outcome) := AfterJson(later, input, false, reader, again);
      after == later && (Stops(AfterJson(rows, input, false, reader, env).1) ==> Stops(outcome))
  {
    hide HasSettledRow, UniqueKeys, Active, AfterBatches, PreparedRows;
    var prepared := PreparedRows(input, reader);
    var kept := WithRoom(later, prepared, again);
    SettledBatches(Tally(later, 0, |input| - |kept|), kept, again);
  }

  /** A second importJson of the same keyed rows on the same day leaves the plan as the first one left
      it, also when the quota cut or refused one of them. */
  lemma JsonTwice(rows: seq<Row>, input: seq<JsonRow>, reader: Reader, env: Env, again: Env)
    requires UniqueKeys(rows) && RowsRepeatable(input, reader, env.setup) && Steady(env.setup)
    requires NeverFails(env.faults) && NeverFails(again.faults) && again == env.(faults := again.faults)
    ensures
      var once := AfterJson(rows, input, false, reader, env);
      var twice := AfterJson(once.0, input, false, reader, again);
      twice.0 == once.0 && (Stops(once.1) ==> Stops(twice.1))
  {
    hide UniqueKeys, RowsRepeatable, Steady, AfterJson, AllSettled, WithRoom, Remaining, PreparedRows, Active,
         InputFor, HasSettledRow;
    JsonExtends(rows, input, reader, env);
    JsonAgain(rows, AfterJson(rows, input, false, reader, env).0, input, reader, env, again);
  }

  // ----- importFromParse -----

  ghost predicate WorldNeverFails(world: World) {
    forall flush :: NeverFails(world.faults(flush))
  }

  predicate Stopped(run: Run) {
    run.failed || run.quotaReached
  }

  /** The run from here on: full chunks first, then the rest. */
  function FromHere(run: Run, rest: seq<JsonRow>, mapping: Mapping, world: World): Run
    decreases |rest|
  {
    if |rest| < FLUSH_SIZE then Flushed(run, rest, mapping, world)
    else FromHere(Flushed(run, rest[..FLUSH_SIZE], mapping, world), rest[FLUSH_SIZE..], mapping, world)
  }

  lemma {:induction false} AllFromHere(start: Run, accepted: seq<JsonRow>, n: nat, mapping: Mapping, world: World)
    requires n * FLUSH_SIZE <= |accepted|
    ensures AfterAll(start, accepted, mapping, world)
         == FromHere(AfterChunks(start, accepted, n, mapping, world), accepted[n * FLUSH_SIZE..], mapping, world)
    decreases |accepted| - n * FLUSH_SIZE
  {
    hide Flushed;
    var rest := accepted[n * FLUSH_SIZE..];
    if |rest| >= FLUSH_SIZE {
      AllFromHere(start, accepted, n + 1, mapping, world);
      assert rest[FLUSH_SIZE..] == accepted[(n + 1) * FLUSH_SIZE..];
      assert rest[..FLUSH_SIZE] == accepted[n * FLUSH_SIZE..(n + 1) * FLUSH_SIZE];
    } else {
      assert n == |accepted| / FLUSH_SIZE;
    }
  }

  lemma {:induction false} PreparedOfBoth(first: seq<JsonRow>, second: seq<JsonRow>, reader: Reader)
    ensures PreparedRows(first + second, reader) == PreparedRows(first, reader) + PreparedRows(second, reader)
  {
    hide Prepare;
    if second == [] {
      assert first + second == first;
    } else {
      var k := |second| - 1;
      assert (first + second)[..|first| + k] == first + second[..k];
      PreparedOfBoth(first, second[..k], reader);
    }
  }

  lemma RowsRepeatableParts(first: seq<JsonRow>, second: seq<JsonRow>, reader: Reader, setup: Setup)
    requires RowsRepeatable(first + second, reader, setup)
    ensures RowsRepeatable(first, reader, setup) && RowsRepeatable(second, reader, setup)
  {
    hide PreparedRows, DistinctTargets;
    PreparedOfBoth(first, second, reader);
    var a, b := PreparedRows(first, reader), PreparedRows(second, reader);
    assert forall i | 0 <= i < |a| :: (a + b)[i] == a[i];
    assert forall i | 0 <= i < |b| :: (a + b)[|a| + i] == b[i];
  }

  /** What a flush of keyed rows keeps, and what it settles when it is not skipped. */
  lemma FlushExtends(run: Run, chunk: seq<JsonRow>, mapping: Mapping, world: World)
    requires UniqueKeys(run.rows) && mapping.upsertByKey && WorldNeverFails(world)
    requires RowsRepeatable(chunk, world.reader, world.setup) && Steady(world.setup)
    ensures
      var after, prepared := Flushed(run, chunk, mapping, world), PreparedRows(chunk, world.reader);
      && Extends(run.rows, after.rows, prepared, world.setup)
      && NoRoomier(run.rows, after.rows, world)
      && (!Stopped(run) && chunk != [] ==>
            AllSettled(after.rows, WithRoom(run.rows, prepared, EnvOf(world, run.flushes)), world.setup))
  {
    hide UniqueKeys, RowsRepeatable, Steady, AfterJson, AllSettled, PreparedRows, Active, InputFor, HasSettledRow;
    if !Stopped(run) && chunk != [] { JsonExtends(run.rows, chunk, world.reader, EnvOf(world, run.flushes)); }
  }

  /** In the second plan there is no more room than in the first. */
  predicate NoRoomier(rows: seq<Row>, later: seq<Row>, world: World) {
    Remaining(later, EnvOf(world, 0)) <= Remaining(rows, EnvOf(world, 0))
  }

  lemma {:induction false} RunExtends(run: Run, rest: seq<JsonRow>, mapping: Mapping, world: World)
    requires UniqueKeys(run.rows) && mapping.upsertByKey && WorldNeverFails(world)
    requires RowsRepeatable(rest, world.reader, world.setup) && Steady(world.setup)
    ensures
      var after := FromHere(run, rest, mapping, world);
      Extends(run.rows, after.rows, PreparedRows(rest, world.reader), world.setup)
        && NoRoomier(run.rows, after.rows, world)
    decreases |rest|
  {
    hide UniqueKeys, RowsRepeatable, Steady, Flushed, AllSettled, PreparedRows, Active, InputFor, HasSettledRow,
         Remaining;
    if |rest| < FLUSH_SIZE {
      FlushExtends(run, rest, mapping, world);
    } else {
      var chunk, more := rest[..FLUSH_SIZE], rest[FLUSH_SIZE..];
      assert chunk + more == rest;
      RowsRepeatableParts(chunk, more, world.reader, world.setup);
      PreparedOfBoth(chunk, more, world.reader);
      FlushExtends(run, chunk, mapping, world);
      var mid := Flushed(run, chunk, mapping, world);
      RunExtends(mid, more, mapping, world);
      ExtendsAll(run.rows, mid.rows, FromHere(run, rest, mapping, world).rows,
                 PreparedRows(chunk, world.reader), PreparedRows(more, world.reader), world.setup);
    }
  }

  /** A flush of the first run, done once more in the plan that run ends with. */
  lemma FlushAgain(first: Run, second: Run, chunk: seq<JsonRow>, mapping: Mapping, world: World, again: World)
    requires mapping.upsertByKey && UniqueKeys(second.rows) && NoRoomier(first.rows, second.rows, world)
    requires again == world.(faults := again.faults) && WorldNeverFails(again)
    requires Stopped(first) ==> Stopped(second)
    requires !Stopped(first) && chunk != [] ==>
               AllSettled(second.rows,
                 WithRoom(first.rows, PreparedRows(chunk, world.reader), EnvOf(world, first.flushes)), world.setup)
    ensures
      var once, twice := Flushed(first, chunk, mapping, world), Flushed(second, chunk, mapping, again);
      twice.rows == second.rows && (Stopped(once) ==> Stopped(twice))
  {
    hide UniqueKeys, AfterJson, AllSettled, PreparedRows, Active, HasSettledRow;
    if !Stopped(second) && chunk != [] {
      var env := EnvOf(world, first.flushes);
      JsonAgain(first.rows, second.rows, chunk, world.reader, env, EnvOf(again, second.flushes));
    }
  }

  lemma {:induction false} RunAgain(first: Run, second: Run, rest: seq<JsonRow>, mapping: Mapping, world: World,
        again: World)
    requires UniqueKeys(first.rows) && mapping.upsertByKey
    requires again == world.(faults := again.faults) && WorldNeverFails(world) && WorldNeverFails(again)
    requires RowsRepeatable(rest, world.reader, world.setup) && Steady(world.setup)
    requires second.rows == FromHere(first, rest, mapping, world).rows
    requires Stopped(first) ==> Stopped(second)
    ensures
      var once, twice := FromHere(first, rest, mapping, world), FromHere(second, rest, mapping, again);
      twice.rows == once.rows && (Stopped(once) ==> Stopped(twice))
    decreases |rest|
  {
    hide UniqueKeys, RowsRepeatable, Steady, Flushed, AllSettled, PreparedRows, Active, InputFor, HasSettledRow,
         Remaining;
    hide WithRoom, Stopped;
    RunExtends(first, rest, mapping, world);
    if |rest| < FLUSH_SIZE {
      FlushExtends(first, rest, mapping, world);
      FlushAgain(first, second, rest, mapping, world, again);
    } else {
      var chunk, more := rest[..FLUSH_SIZE], rest[FLUSH_SIZE..];
      assert chunk + more == rest;
      RowsRepeatableParts(chunk, more, world.reader, world.setup);
      FlushExtends(first, chunk, mapping, world);
      var mid := Flushed(first, chunk, mapping, world);
      RunExtends(mid, more, mapping, world);
      if !Stopped(first) { KeptStaysSettled(first, chunk, more, second.rows, mapping, world); }
      FlushAgain(first, second, chunk, mapping, world, again);
      RunAgain(mid, Flushed(second, chunk, mapping, again), more, mapping, world, again);
    }
  }

  /** What a flush settles is still settled when the later rows have been imported. */
  lemma KeptStaysSettled(run: Run, chunk: seq<JsonRow>, more: seq<JsonRow>, after: seq<Row>, mapping: Mapping,
        world: World)
    requires RowsRepeatable(chunk + more, world.reader, world.setup)
    requires
      var mid := Flushed(run, chunk, mapping, world);
      var kept := WithRoom(run.rows, PreparedRows(chunk, world.reader), EnvOf(world, run.flushes));
      && AllSettled(mid.rows, kept, world.setup)
      && Extends(mid.rows, after, PreparedRows(more, world.reader), world.setup)
    ensures AllSettled(after, WithRoom(run.rows, PreparedRows(chunk, world.reader), EnvOf(world, run.flushes)),
            world.setup)
  {
    hide UniqueKeys, Flushed, PreparedRows, Active, InputFor, HasSettledRow, Remaining, DistinctTargets;
    PreparedOfBoth(chunk, more, world.reader);
    var a, b := PreparedRows(chunk, world.reader), PreparedRows(more, world.reader);
    var kept := WithRoom(run.rows, a, EnvOf(world, run.flushes));
    forall j | 0 <= j < |kept| ensures HasSettledRow(after, kept[j], world.setup) {
      assert kept[j] == (a + b)[j];
      assert forall i | 0 <= i < |b| :: b[i] == (a + b)[|a| + i];
      NoInput(b, kept[j].externalKey);
    }
  }

  lemma NoInput(inputs: seq<ImportRow>, key: Option<string>)
    requires forall i | 0 <= i < |inputs| :: inputs[i].externalKey != key
    ensures InputFor(inputs, key).None?
  {
  }

  /** Each accepted row that is not skipped has a key and names no column twice. */
  predicate Keyed(accepted: seq<JsonRow>, reader: Reader, setup: Setup) {
    forall k | 0 <= k < |accepted| && Prepare(accepted[k], reader).Some? ::
      NotBlank(accepted[k].externalKey).Some? && DistinctTargets(accepted[k].values, setup.byKey)
  }

  lemma {:induction false} PreparedFrom(rows: seq<JsonRow>, reader: Reader, i: nat) returns (k: nat)
    requires i < |PreparedRows(rows, reader)|
    ensures k < |rows| && Prepare(rows[k], reader) == Some(PreparedRows(rows, reader)[i])
  {
    hide Prepare;
    k := |rows| - 1;
    if i < |PreparedRows(rows[..k], reader)| { k := PreparedFrom(rows[..k], reader, i); }
  }

  /** The rows the run accepts can be repeated as soon as they have keys. */
  lemma {:induction false} KeyedRepeatable(rows: seq<JsonRow>, reader: Reader, setup: Setup)
    requires Keyed(rows, reader, setup)
    requires forall i, j | 0 <= i < j < |rows| && NotBlank(rows[i].externalKey).Some? ::
               NotBlank(rows[i].externalKey) != NotBlank(rows[j].externalKey)
    ensures RowsRepeatable(rows, reader, setup)
  {
    hide Prepare, NotBlank, DistinctTargets;
    if rows != [] {
      var init, last := rows[..|rows| - 1], rows[|rows| - 1];
      KeyedRepeatable(init, reader, setup);
      if Prepare(last, reader).Some? {
        var before := PreparedRows(init, reader);
        PreparedKey(last, reader);
        PreparedValues(last, reader);
        forall i | 0 <= i < |before| ensures before[i].externalKey != NotBlank(last.externalKey) {
          var k := PreparedFrom(init, reader, i);
          PreparedKey(init[k], reader);
          assert init[k] == rows[k];
        }
      }
    }
  }

  lemma PreparedValues(row: JsonRow, reader: Reader)
    requires Prepare(row, reader).Some?
    ensures Prepare(row, reader).value.values == row.values
  {
    hide NotBlank, Trim;
  }

  /** Importing a file by key a second time on the same day leaves the plan as the first import left it,
      and stops early if the first one did. */
  lemma FileTwice(plan: seq<Row>, data: seq<JsonRow>, mapping: Mapping, world: World, again: World)
    requires UniqueKeys(plan) && mapping.upsertByKey && Steady(world.setup)
    requires Keyed(Accepted(data, mapping), world.reader, world.setup)
    requires again == world.(faults := again.faults) && WorldNeverFails(world) && WorldNeverFails(again)
    ensures
      var once := WholeRun(plan, data, mapping, world);
      var twice := WholeRun(once.rows, data, mapping, again);
      twice.rows == once.rows && (Stopped(once) ==> Stopped(twice))
  {
    hide UniqueKeys, RowsRepeatable, Steady, Keyed, AfterAll, FromHere, Accepted, NotBlank, WorldNeverFails;
    var accepted := Accepted(data, mapping);
    AcceptedKeysDiffer(data, mapping);
    KeyedRepeatable(accepted, world.reader, world.setup);
    var once := WholeRun(plan, data, mapping, world);
    assert accepted[0..] == accepted;
    AllFromHere(Begin(plan), accepted, 0, mapping, world);
    AllFromHere(Begin(once.rows), accepted, 0, mapping, again);
    RunAgain(Begin(plan), Begin(once.rows), accepted, mapping, world, again);
  }
}
