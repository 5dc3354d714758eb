/** What a commit makes of the rows: which fields of the inputs the plan's rows and the new rows have
    afterwards. */
module CommitRows {
  import opened JsText
  import opened RowCells
  import opened ProjectRow
  import opened RowEdits
  import opened ExternalKeys
  import opened ImportCommit

  // ----- rows the chunk names -----

  /** The value of the last input for this key that has one, else the old value. */
  function LastGiven<T>(chunk: seq<ImportRow>, key: Option<string>, get: ImportRow -> Option<T>, old': Option<T>)
      : (r: Option<T>)
    ensures (forall k | 0 <= k < |chunk| && chunk[k].externalKey == key :: get(chunk[k]).None?) ==> r == old'
  {
    if chunk == [] then old' else
    var last := chunk[|chunk| - 1];
    if last.externalKey == key && get(last).Some? then get(last) else LastGiven(chunk[..|chunk| - 1], key, get, old')
  }

  function Descriptions(input: ImportRow): Option<string> { input.description }
  function ResponsibleIds(input: ImportRow): Option<string> { input.responsibleId }
  function ResponsibleNames(input: ImportRow): Option<string> { input.responsibleName }
  function UnitIds(input: ImportRow): Option<string> { input.unitId }

  /** The row, restored, with the last input's title and of the other fields what was given last. */
  function Taken(row: Row, chunk: seq<ImportRow>): Row {
    var last := InputFor(chunk, row.externalKey);
    row.(
      deleted := last.None? && row.deleted,
      title := if last.Some? then last.value.title else row.title,
      description := LastGiven(chunk, row.externalKey, Descriptions, row.description),
      responsibleId := LastGiven(chunk, row.externalKey, ResponsibleIds, row.responsibleId),
      responsibleName := LastGiven(chunk, row.externalKey, ResponsibleNames, row.responsibleName),
      unitId := LastGiven(chunk, row.externalKey, UnitIds, row.unitId))
  }

  lemma TakenStep(row: Row, chunk: seq<ImportRow>)
    requires chunk != []
    ensures
      var init, last := chunk[..|chunk| - 1], chunk[|chunk| - 1];
      Taken(row, chunk)
      == if last.externalKey == row.externalKey then Touched(Taken(row, init), last) else Taken(row, init)
  {
  }

  /** The two rows differ at most where a column of the plan decides. */
  predicate SameStart(a: Row, b: Row, columns: seq<CanonicalColumn>) {
    && a.title == b.title && AbsentKept(columns, a, b)
  }

  lemma FollowsFrom(after: Row, a: Row, b: Row, rules: Rules)
    requires NativesFollow(after, a, rules) && SameStart(a, b, rules.columns)
    ensures NativesFollow(after, b, rules)
  {
    hide ShowsTitle, ShowsText, ShowsPriority, HasColumn, ParseDateOnly;
    forall c | c in rules.columns ensures ColumnFollowed(c, after, b, rules.normalize) {
      assert ColumnFollowed(c, after, a, rules.normalize);
    }
  }

  /** A row named by the chunk: its native columns are the ones given last, unless a column of the plan is
      about them; then they say what its cell says. Its other cells are its cells from before the commit
      merged with the last input's values, and its status follows from those. A row that is not named is as
      it was. */
  ghost predicate IsUpdated(after: Row, row: Row, chunk: seq<ImportRow>, setup: Setup) {
    var last := InputFor(chunk, row.externalKey);
    if last.None? then after == row
    else NativesFollow(after, Taken(row, chunk), setup.rules)
         && AgreeOff(after.cells, Merged(row.cells, last.value.values, setup.byKey), DerivedIds(setup.rules.columns))
         && StatusShown(after, Merged(row.cells, last.value.values, setup.byKey), Some(row.status), setup.rules,
           setup.today)
  }

  lemma UpdatingFollows(row: Row, existing: Row, input: ImportRow, setup: Setup)
    requires WellKeyed(setup.rules.columns)
    ensures NativesFollow(Updating(row, existing, input, setup), Touched(row, input), setup.rules)
    ensures AgreeOff(Updating(row, existing, input, setup).cells, Merged(existing.cells, input.values, setup.byKey),
                     DerivedIds(setup.rules.columns))
    ensures StatusShown(Updating(row, existing, input, setup), Merged(existing.cells, input.values, setup.byKey),
                        Some(existing.status), setup.rules, setup.today)
  {
    hide StatusShown, WellKeyed, NativesFollow, Merged, Project, WithDerived, AgreeOff, DerivedIds, PatchOf;
    var merged := Merged(existing.cells, input.values, setup.byKey);
    ProjectionFollows(Touched(row, input), merged, Some(existing.status), setup.rules, setup.today);
    ProjectionShowsStatus(Touched(row, input), merged, Some(existing.status), setup.rules, setup.today);
    DerivedAgree(merged, setup.rules.columns,
                 Project(merged, setup.rules.columns, Some(existing.status), setup.today, setup.rules.normalize));
  }

  lemma TouchedFromTaken(before: Row, row: Row, init: seq<ImportRow>, input: ImportRow, setup: Setup)
    requires IsUpdated(before, row, init, setup)
    ensures SameStart(Touched(before, input), Touched(Taken(row, init), input), setup.rules.columns)
  {
    hide HasColumn, ColumnFollowed, AgreeOff, Merged, DerivedIds, StatusShown;
  }

  lemma {:induction false} UpdatedRows(rows: seq<Row>, chunk: seq<ImportRow>, i: nat, setup: Setup)
    requires UniqueKeys(rows) && i < |rows| && IsKey(rows[i].externalKey) && WellKeyed(setup.rules.columns)
    ensures IsUpdated(PassOver(rows, chunk, setup).rows[i], rows[i], chunk, setup)
  {
    hide Updating, Creating, GivenKey, Highest, KeysIn, Taken, NativesFollow, Merged, AgreeOff, WellKeyed, Touched;
    hide StatusShown, DerivedIds;
    if chunk != [] {
      var k := |chunk| - 1;
      UpdatedRows(rows, chunk[..k], i, setup);
      TakenStep(rows[i], chunk);
      var before := PassOver(rows, chunk[..k], setup).rows[i];
      var at := FindRow(rows, chunk[k].externalKey);
      if at == Some(i) {
        UpdatingFollows(before, rows[i], chunk[k], setup);
        TouchedFromTaken(before, rows[i], chunk[..k], chunk[k], setup);
        FollowsFrom(Updating(before, rows[i], chunk[k], setup), Touched(before, chunk[k]), Taken(rows[i], chunk),
          setup.rules);
      } else if at.Some? {
        assert rows[at.value].externalKey != rows[i].externalKey;
      }
    }
  }

  /** A row without a key is never changed. */
  lemma {:induction false} KeylessKept(rows: seq<Row>, chunk: seq<ImportRow>, i: nat, setup: Setup)
    requires i < |rows| && !IsKey(rows[i].externalKey)
    ensures PassOver(rows, chunk, setup).rows[i] == rows[i]
  {
    hide Updating, Creating, GivenKey, Highest, KeysIn;
    if chunk != [] { KeylessKept(rows, chunk[..|chunk| - 1], i, setup); }
  }

  // ----- new rows -----

  predicate NamesRow(rows: seq<Row>, input: ImportRow) {
    IsKey(input.externalKey) && exists i | 0 <= i < |rows| :: rows[i].externalKey == input.externalKey
  }

  /** The inputs that name no row of the plan. */
  function NewInputs(rows: seq<Row>, chunk: seq<ImportRow>): seq<ImportRow> {
    if chunk == [] then [] else
    var before, last := NewInputs(rows, chunk[..|chunk| - 1]), chunk[|chunk| - 1];
    if NamesRow(rows, last) then before else before + [last]
  }

  predicate BringsNone(input: ImportRow) {
    input.externalKey.None? || Trim(input.externalKey.value) == ""
  }

  /** How many of the inputs bring no key. */
  function KeylessCount(inputs: seq<ImportRow>): nat {
    if inputs == [] then 0
    else KeylessCount(inputs[..|inputs| - 1]) + if BringsNone(inputs[|inputs| - 1]) then 1 else 0
  }

  /** The key of the new input at `m`: its own, trimmed, or the next number's. */
  function KeyAt(rows: seq<Row>, inputs: seq<ImportRow>, m: nat): string
    requires m < |inputs|
  {
    if BringsNone(inputs[m]) then GeneratedKey(Highest(KeysIn(rows)) + KeylessCount(inputs[..m + 1]))
    else Trim(inputs[m].externalKey.value)
  }

  /** A new row before the plan's columns speak: the input's fields and the defaults. */
  function Started(input: ImportRow, key: string): Row {
    Row(externalKey := Some(key), deleted := false, title := input.title, description := input.description,
        responsibleId := input.responsibleId, responsibleName := input.responsibleName, unitId := input.unitId,
        unitName := None, dueDate := input.dueDate, completedAt := None, cells := map[],
        status := match input.status { case Some(s) => s case None => PENDING },
        priority := match input.priority { case Some(p) => p case None => MEDIUM })
  }

  /** Every field of a new row is the input's or the default, unless a column of the plan is about it; then
      it says what its cell says. Its other cells are built from the input's values. */
  ghost predicate IsCreated(after: Row, input: ImportRow, key: string, setup: Setup) {
    && NativesFollow(after, Started(input, key), setup.rules)
    && AgreeOff(after.cells, Built(input.values, setup.byKey), DerivedIds(setup.rules.columns))
    && StatusShown(after, Built(input.values, setup.byKey), None, setup.rules, setup.today)
  }

  lemma CreatingFollows(input: ImportRow, key: string, setup: Setup)
    requires WellKeyed(setup.rules.columns)
    ensures IsCreated(Creating(input, key, setup), input, key, setup)
  {
    hide StatusShown, WellKeyed, NativesFollow, Built, Project, WithDerived, AgreeOff, DerivedIds, PatchOf;
    var built := Built(input.values, setup.byKey);
    ProjectionFollows(Blank(input, key), built, None, setup.rules, setup.today);
    ProjectionShowsStatus(Blank(input, key), built, None, setup.rules, setup.today);
    DerivedAgree(built, setup.rules.columns,
                 Project(built, setup.rules.columns, None, setup.today, setup.rules.normalize));
  }

  lemma FindsNamed(rows: seq<Row>, input: ImportRow)
    ensures FindRow(rows, input.externalKey).Some? <==> NamesRow(rows, input)
  {
  }

  /** One new row for each input that names no row, in the inputs' order, under its own or the next key. */
  ghost predicate AllCreated(created: seq<Row>, rows: seq<Row>, inputs: seq<ImportRow>, setup: Setup) {
    && |created| == |inputs|
    && forall m | 0 <= m < |inputs| :: IsCreated(created[m], inputs[m], KeyAt(rows, inputs, m), setup)
  }

  lemma OneMoreCreated(created: seq<Row>, rows: seq<Row>, inputs: seq<ImportRow>, input: ImportRow, key: string,
                       setup: Setup)
    requires AllCreated(created, rows, inputs, setup) && WellKeyed(setup.rules.columns)
    requires key == KeyAt(rows, inputs + [input], |inputs|)
    ensures AllCreated(created + [Creating(input, key, setup)], rows, inputs + [input], setup)
  {
    hide Creating, IsCreated, WellKeyed, KeylessCount, GeneratedKey, Trim;
    var more := inputs + [input];
    CreatingFollows(input, key, setup);
    forall m | 0 <= m < |inputs| ensures KeyAt(rows, more, m) == KeyAt(rows, inputs, m) {
      assert more[..m + 1] == inputs[..m + 1];
    }
  }

  lemma {:induction false} KeyOfNext(rows: seq<Row>, before: seq<ImportRow>, input: ImportRow)
    ensures
      var inputs := before + [input];
      && KeylessCount(inputs) == KeylessCount(before) + (if BringsNone(input) then 1 else 0)
      && KeyAt(rows, inputs, |before|)
         == if BringsNone(input) then GeneratedKey(Highest(KeysIn(rows)) + KeylessCount(before) + 1)
            else GivenKey(input)
  {
    hide Highest, KeysIn, GeneratedKey, Trim;
    var inputs := before + [input];
    assert inputs[..|before|] == before && inputs[..|before| + 1] == inputs;
  }

  lemma KeylessGivesNone(input: ImportRow)
    ensures BringsNone(input) <==> GivenKey(input) == ""
  {
    hide Trim;
  }

  lemma {:induction false} NewStep(pass: Pass, rows: seq<Row>, before: seq<ImportRow>, input: ImportRow, setup: Setup)
    requires |pass.rows| == |rows| && pass.highest == Highest(KeysIn(rows)) + KeylessCount(before)
    ensures
      var after, inputs := Step(pass, rows, input, setup), before + [input];
      if NamesRow(rows, input) then after.toCreate == pass.toCreate && after.highest == pass.highest
      else after.toCreate == pass.toCreate + [Creating(input, KeyAt(rows, inputs, |before|), setup)]
           && after.highest == Highest(KeysIn(rows)) + KeylessCount(inputs)
  {
    hide Updating, Creating, Highest, KeysIn, FindRow, NamesRow, GeneratedKey, GivenKey, BringsNone, KeyAt,
         KeylessCount;
    FindsNamed(rows, input);
    KeylessGivesNone(input);
    KeyOfNext(rows, before, input);
  }

  lemma {:induction false} CreatedRows(rows: seq<Row>, chunk: seq<ImportRow>, setup: Setup)
    requires WellKeyed(setup.rules.columns)
    ensures
      var pass, inputs := PassOver(rows, chunk, setup), NewInputs(rows, chunk);
      && pass.highest == Highest(KeysIn(rows)) + KeylessCount(inputs)
      && AllCreated(pass.toCreate, rows, inputs, setup)
  {
    hide Step, Creating, Highest, KeysIn, AllCreated, WellKeyed, NamesRow, KeyAt, KeylessCount;
    if chunk == [] {
      NoneCreated(rows, setup);
    } else {
      var init, last := chunk[..|chunk| - 1], chunk[|chunk| - 1];
      CreatedRows(rows, init, setup);
      var pass, before := PassOver(rows, init, setup), NewInputs(rows, init);
      NewStep(pass, rows, before, last, setup);
      if !NamesRow(rows, last) {
        OneMoreCreated(pass.toCreate, rows, before, last, KeyAt(rows, before + [last], |before|), setup);
      }
    }
  }

  lemma NoneCreated(rows: seq<Row>, setup: Setup)
    ensures AllCreated([], rows, [], setup) && KeylessCount([]) == 0
  {
  }

  /** What a commit leaves behind: the plan's rows, each as it was or updated, and behind them a row for
      every input that names none. */
  lemma CommittedRows(rows: seq<Row>, chunk: seq<ImportRow>, setup: Setup)
    requires UniqueKeys(rows) && WellKeyed(setup.rules.columns) && Committed(rows, chunk, setup).Some?
    ensures
      var after, inputs := Committed(rows, chunk, setup).value, NewInputs(rows, chunk);
      && |after| == |rows| + |inputs|
      && (forall i | 0 <= i < |rows| ::
            if IsKey(rows[i].externalKey) then IsUpdated(after[i], rows[i], chunk, setup) else after[i] == rows[i])
      && AllCreated(after[|rows|..], rows, inputs, setup)
  {
    hide PassOver, UniqueKeys, WellKeyed, IsUpdated, IsCreated, NewInputs, KeyAt, IsKey;
    var pass := PassOver(rows, chunk, setup);
    CreatedRows(rows, chunk, setup);
    forall i | 0 <= i < |rows|
      ensures if IsKey(rows[i].externalKey) then IsUpdated(pass.rows[i], rows[i], chunk, setup)
              else pass.rows[i] == rows[i]
    {
      if IsKey(rows[i].externalKey) { UpdatedRows(rows, chunk, i, setup); } else { KeylessKept(rows, chunk, i, setup); }
    }
    assert Committed(rows, chunk, setup).value == pass.rows + pass.toCreate;
  }
}
