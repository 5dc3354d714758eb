/** Edits of a stored row: upsertFieldValues, and resolve as a native update and a cell upsert.
    Each edit merges values into the cells and derives the native columns from them again. */
module RowEdits {
  import opened JsText
  import opened RowCells
  import opened ProjectRow

  datatype Row = Row(
    externalKey: Option<string>,
    deleted: bool,
    title: string,
    description: Option<string>,
    responsibleId: Option<string>,
    responsibleName: Option<string>,
    unitId: Option<string>,
    unitName: Option<string>,
    status: Status,
    priority: Priority,
    dueDate: Option<Day>,
    completedAt: Option<Day>,
    cells: CellMap)

  /** The plan's canonical columns and the header normalisation: the same for every edit. */
  datatype Rules = Rules(columns: seq<CanonicalColumn>, normalize: string -> string)

  function Or<T>(patch: Option<T>, old': T): T {
    if patch.Some? then patch.value else old'
  }

  function Patched(row: Row, cells: CellMap, patch: NativePatch): Row {
    row.(
      cells := cells,
      title := Or(patch.title, row.title),
      status := Or(patch.status, row.status),
      priority := Or(patch.priority, row.priority),
      dueDate := Or(patch.dueDate, row.dueDate),
      completedAt := Or(patch.completedAt, row.completedAt),
      responsibleName := Or(patch.responsibleName, row.responsibleName),
      unitName := Or(patch.unitName, row.unitName))
  }

  /** The row with these cells, projected on the day `today`. */
  function Projection(row: Row, cells: CellMap, current: Option<Status>, rules: Rules, today: Day): Row {
    var p := Project(cells, rules.columns, current, today, rules.normalize);
    Patched(row, WithDerived(cells, rules.columns, p), PatchOf(rules.columns, p))
  }

  function Upserted(row: Row, values: Values, byKey: KeyMap, rules: Rules, today: Day): Row {
    Projection(row, Merged(row.cells, values, byKey), Some(row.status), rules, today)
  }

  // ----- projecting the same again -----

  lemma SameCell(a: CellMap, b: CellMap, columns: seq<CanonicalColumn>, key: string)
    requires WellKeyed(columns) && AgreeOff(a, b, DerivedIds(columns))
    requires key != "status_atual" && key != "status_final"
    ensures CellOf(a, columns, key) == CellOf(b, columns, key)
  {
    hide WellKeyed, CellOf, IdOf;
    CellOfById(a, columns, key);
    CellOfById(b, columns, key);
    DifferentIds(columns, key, "status_atual");
    DifferentIds(columns, key, "status_final");
  }

  /** What does not read the derived cells projects the same, up to a kept workflow status. */
  lemma SameProjection(a: CellMap, b: CellMap, rules: Rules, currentA: Option<Status>, currentB: Option<Status>,
        today: Day)
    requires WellKeyed(rules.columns) && AgreeOff(a, b, DerivedIds(rules.columns))
    requires IsCanceled(a, rules.columns, rules.normalize) <==> IsCanceled(b, rules.columns, rules.normalize)
    ensures
      var p := Project(b, rules.columns, currentB, today, rules.normalize);
      Project(a, rules.columns, currentA, today, rules.normalize)
      == p.(status := KeepWorkflow(currentA, EnumOf(p.statusAtual)))
  {
    hide WellKeyed, CellOf, AgreeOff, IsCanceled, DerivedIds, Text, ParseDateOnly;
    var columns := rules.columns;
    SameCell(a, b, columns, "prazo");
    SameCell(a, b, columns, "data_conclusao");
    SameCell(a, b, columns, "acoes");
    SameCell(a, b, columns, "prioridade");
    SameCell(a, b, columns, "responsavel_solucao");
    SameCell(a, b, columns, "unidade");
  }

  /** ... and gives the same cells. */
  lemma SameWithDerived(a: CellMap, b: CellMap, columns: seq<CanonicalColumn>, p: Projected)
    requires AgreeOff(a, b, DerivedIds(columns))
    ensures WithDerived(a, columns, p) == WithDerived(b, columns, p)
  {
    hide IdOf;
    var x, y := WithDerived(a, columns, p), WithDerived(b, columns, p);
    forall id | id in x.Keys + y.Keys
      ensures CellAt(x, id) == CellAt(y, id)
    {
      if id !in DerivedIds(columns) && id in a.Keys + b.Keys { assert CellAt(a, id) == CellAt(b, id); }
    }
    assert forall id :: id in x <==> CellAt(x, id).Some?;
    assert forall id :: id in y <==> CellAt(y, id).Some?;
  }

  lemma DerivedNotEmpty(cells: CellMap, rules: Rules, current: Option<Status>, today: Day)
    requires NoEmptyCells(cells)
    ensures NoEmptyCells(WithDerived(cells, rules.columns,
            Project(cells, rules.columns, current, today, rules.normalize)))
  {
    hide IdOf, IsCanceled, ParseDateOnly, CellOf, Trim;
    var p := Project(cells, rules.columns, current, today, rules.normalize);
    WordsNotEmpty();
  }

  lemma WordsNotEmpty()
    ensures forall w | w in {ON_TIME, LATE, DONE, CANCELLED, NO_DUE_DATE, DONE_ON_TIME, DONE_LATE,
                           DONE_FINAL, CANCELLED_FINAL} :: Trim(w) != ""
  {
    forall w | w in {ON_TIME, LATE, DONE, CANCELLED, NO_DUE_DATE, DONE_ON_TIME, DONE_LATE, DONE_FINAL, CANCELLED_FINAL}
      ensures Trim(w) != ""
    {
      TrimIsTrimmed(w);
    }
  }

  lemma WordsTrimmed(w: string)
    requires w in {ON_TIME, LATE, DONE, CANCELLED, NO_DUE_DATE}
    ensures Trim(w) == w
  {
    TrimIsTrimmed(w);
  }

  /** The derived status cell says cancelled exactly when the row was projected as cancelled. */
  lemma DerivedSaysCanceled(cells: CellMap, rules: Rules, current: Option<Status>, today: Day)
    requires WellKeyed(rules.columns) && ReadsVocabulary(rules.normalize)
    ensures
      var p := Project(cells, rules.columns, current, today, rules.normalize);
      IsCanceled(WithDerived(cells, rules.columns, p), rules.columns, rules.normalize)
      <==> IsCanceled(cells, rules.columns, rules.normalize)
  {
    hide WellKeyed, CellOf, IdOf, ParseDateOnly, Trim;
    var p := Project(cells, rules.columns, current, today, rules.normalize);
    var derived := WithDerived(cells, rules.columns, p);
    CellOfById(cells, rules.columns, "status_atual");
    CellOfById(derived, rules.columns, "status_atual");
    DifferentIds(rules.columns, "status_atual", "status_final");
    WordsTrimmed(p.statusAtual);
  }

  /** A second merge of the same values reads the same cancellation. */
  lemma CancellationStays(row: Row, values: Values, byKey: KeyMap, rules: Rules, current: Option<Status>, today: Day)
    requires WellKeyed(rules.columns) && ReadsVocabulary(rules.normalize)
    ensures
      var once := Merged(row.cells, values, byKey);
      var derived := WithDerived(once, rules.columns, Project(once, rules.columns, current, today, rules.normalize));
      IsCanceled(Merged(derived, values, byKey), rules.columns, rules.normalize)
      <==> IsCanceled(once, rules.columns, rules.normalize)
  {
    hide WellKeyed, CellOf, WithDerived, Project, Merged, ReadsVocabulary, IsEmptyCell;
    var once := Merged(row.cells, values, byKey);
    var derived := WithDerived(once, rules.columns, Project(once, rules.columns, current, today, rules.normalize));
    var twice := Merged(derived, values, byKey);
    CellOfById(once, rules.columns, "status_atual");
    CellOfById(twice, rules.columns, "status_atual");
    CellOfById(derived, rules.columns, "status_atual");
    DerivedSaysCanceled(once, rules, current, today);
    MergedIsFilled(row.cells, values, byKey);
    DerivedNotEmpty(once, rules, current, today);
    var id := IdOf(rules.columns, "status_atual");
    if id.Some? {
      MergedAt(row.cells, values, byKey, id.value);
      MergedAt(derived, values, byKey, id.value);
    }
  }

  lemma StatusNotInCells(cells: CellMap, columns: seq<CanonicalColumn>, p: Projected, status: Status)
    ensures WithDerived(cells, columns, p.(status := status)) == WithDerived(cells, columns, p)
  {
  }

  /** The cells and the projection of a second pass over the result of a first. */
  lemma SecondPass(row: Row, values: Values, byKey: KeyMap, rules: Rules, current: Option<Status>,
        later: Option<Status>, today: Day)
    requires WellKeyed(rules.columns) && ReadsVocabulary(rules.normalize)
    ensures
      var once := Merged(row.cells, values, byKey);
      var p := Project(once, rules.columns, current, today, rules.normalize);
      var derived := WithDerived(once, rules.columns, p);
      var twice := Merged(derived, values, byKey);
      var q := Project(twice, rules.columns, later, today, rules.normalize);
      && q == p.(status := KeepWorkflow(later, EnumOf(p.statusAtual)))
      && WithDerived(twice, rules.columns, q) == derived
  {
    hide WellKeyed, ReadsVocabulary, WithDerived, Merged, IsCanceled, CellOf, ParseDateOnly, AgreeOff, NoEmptyCells;
    var once := Merged(row.cells, values, byKey);
    var p := Project(once, rules.columns, current, today, rules.normalize);
    var derived := WithDerived(once, rules.columns, p);
    MergedIsFilled(row.cells, values, byKey);
    DerivedNotEmpty(once, rules, current, today);
    DerivedAgree(once, rules.columns, p);
    MergeAgain(row.cells, derived, values, byKey, DerivedIds(rules.columns));
    CancellationStays(row, values, byKey, rules, current, today);
    SameProjection(Merged(derived, values, byKey), once, rules, later, current, today);
    SameWithDerived(Merged(derived, values, byKey), once, rules.columns,
      p.(status := KeepWorkflow(later, EnumOf(p.statusAtual))));
    StatusNotInCells(once, rules.columns, p, KeepWorkflow(later, EnumOf(p.statusAtual)));
  }

  /** Repeating an edit on the same day changes nothing. */
  lemma UpsertTwice(row: Row, values: Values, byKey: KeyMap, rules: Rules, today: Day)
    requires WellKeyed(rules.columns) && ReadsVocabulary(rules.normalize)
    ensures
      var once := Upserted(row, values, byKey, rules, today);
      Upserted(once, values, byKey, rules, today) == once
  {
    hide WellKeyed, ReadsVocabulary, WithDerived, Merged, Project, HasKey;
    var merged := Merged(row.cells, values, byKey);
    var p := Project(merged, rules.columns, Some(row.status), today, rules.normalize);
    var once := Upserted(row, values, byKey, rules, today);
    StatusIsKept(merged, rules, row.status, once.status, today);
    SecondPass(row, values, byKey, rules, Some(row.status),
      Some(if DefinesStatus(rules.columns) then p.status else row.status), today);
  }

  /** The projected status survives being projected again; so does any status it kept. */
  lemma StatusIsKept(cells: CellMap, rules: Rules, current: Status, later: Status, today: Day)
    requires later == current || later == Project(cells, rules.columns, Some(current), today, rules.normalize).status
    ensures
      var p := Project(cells, rules.columns, Some(current), today, rules.normalize);
      KeepWorkflow(Some(later), EnumOf(p.statusAtual)) == p.status
  {
    hide CellOf, IsCanceled, ParseDateOnly, Text;
  }

  // ----- rows in step with their cells -----

  predicate HasDateColumns(columns: seq<CanonicalColumn>) {
    HasKey(columns, "status_atual") && HasKey(columns, "prazo") && HasKey(columns, "data_conclusao")
  }

  function CellFor(row: Row, rules: Rules, key: string): Option<Json> {
    var id := IdOf(rules.columns, key);
    if id.Some? then CellAt(row.cells, id.value) else None
  }

  /** The native status is what the status cell says, or a workflow status over an open one;
      the native dates are what the date cells say. */
  predicate InStep(row: Row, rules: Rules) {
    var word := CellFor(row, rules, "status_atual");
    && word.Some? && word.value.Str?
    && (row.status == EnumOf(word.value.s) || (IsWorkflow(row.status) && EnumOf(word.value.s).PENDING?))
    && row.dueDate == ParseDateOnly(CellFor(row, rules, "prazo"))
    && row.completedAt == ParseDateOnly(CellFor(row, rules, "data_conclusao"))
  }

  lemma UpsertInStep(row: Row, values: Values, byKey: KeyMap, rules: Rules, today: Day)
    requires WellKeyed(rules.columns) && HasDateColumns(rules.columns)
    ensures InStep(Upserted(row, values, byKey, rules, today), rules)
    ensures AgreeOff(Upserted(row, values, byKey, rules, today).cells, Merged(row.cells, values, byKey),
                     DerivedIds(rules.columns))
  {
    hide WellKeyed, CellOf, IdOf, ParseDateOnly, IsCanceled, Merged, Text;
    var columns, merged := rules.columns, Merged(row.cells, values, byKey);
    var p := Project(merged, columns, Some(row.status), today, rules.normalize);
    DerivedAgree(merged, columns, p);
    CellOfById(merged, columns, "prazo");
    CellOfById(merged, columns, "data_conclusao");
    DifferentIds(columns, "status_atual", "status_final");
    DifferentIds(columns, "prazo", "status_atual");
    DifferentIds(columns, "prazo", "status_final");
    DifferentIds(columns, "data_conclusao", "status_atual");
    DifferentIds(columns, "data_conclusao", "status_final");
  }

  predicate IsClosed(status: Status) {
    status.COMPLETED? || status.CANCELED?
  }

  /** The native columns of an edited row agree with each other and with the final status: only a
      closed row has one, a completed row says whether it was on time by its two dates, a delayed
      row is overdue today, and any other open row is not and has no completion date. */
  lemma StatusFollowsDates(row: Row, values: Values, byKey: KeyMap, rules: Rules, today: Day)
    requires WellKeyed(rules.columns) && HasDateColumns(rules.columns) && HasKey(rules.columns, "status_final")
    ensures
      var after := Upserted(row, values, byKey, rules, today);
      var final := CellFor(after, rules, "status_final");
      && (final.Some? <==> IsClosed(after.status))
      && (after.status.CANCELED? ==> final == Some(Str(CANCELLED_FINAL)))
      && (after.status.COMPLETED? ==> after.completedAt.Some?)
      && (after.status.COMPLETED? ==> (final == Some(Str(DONE_FINAL)) <==> after.dueDate.None?))
      && (after.status.COMPLETED? ==>
            (final == Some(Str(DONE_ON_TIME)) <==>
               after.dueDate.Some? && after.completedAt.value <= after.dueDate.value))
      && (after.status.DELAYED? ==> after.dueDate.Some? && after.dueDate.value < today)
      && (!IsClosed(after.status) ==> after.completedAt.None?)
      && (!IsClosed(after.status) && !after.status.DELAYED? ==> after.dueDate.Some? ==> today <= after.dueDate.value)
  {
    hide WellKeyed, CellOf, IdOf, ParseDateOnly, IsCanceled, Merged, Text;
    DifferentIds(rules.columns, "status_atual", "status_final");
  }

  datatype Edit = Edit(values: Values, byKey: KeyMap, today: Day)

  /** A row after a sequence of edits. */
  function Edited(row: Row, edits: seq<Edit>, rules: Rules): Row {
    if edits == [] then row else
    var last := edits[|edits| - 1];
    Upserted(Edited(row, edits[..|edits| - 1], rules), last.values, last.byKey, rules, last.today)
  }

  /** After every step of every sequence of edits: the row is in step with its cells, the cells
      that are not derived are the merged ones, and doing the step again changes nothing. */
  lemma EveryEditInStep(row: Row, edits: seq<Edit>, k: nat, rules: Rules)
    requires WellKeyed(rules.columns) && HasDateColumns(rules.columns) && ReadsVocabulary(rules.normalize)
    requires k < |edits|
    ensures
      var before, after, step := Edited(row, edits[..k], rules), Edited(row, edits[..k + 1], rules), edits[k];
      && InStep(after, rules)
      && AgreeOff(after.cells, Merged(before.cells, step.values, step.byKey), DerivedIds(rules.columns))
      && Upserted(after, step.values, step.byKey, rules, step.today) == after
  {
    hide WellKeyed, HasDateColumns, ReadsVocabulary, InStep, AgreeOff, Upserted;
    assert edits[..k + 1][..k] == edits[..k];
    var before := Edited(row, edits[..k], rules);
    UpsertInStep(before, edits[k].values, edits[k].byKey, rules, edits[k].today);
    UpsertTwice(before, edits[k].values, edits[k].byKey, rules, edits[k].today);
  }

  /** A workflow status survives an edit exactly as long as the row is neither cancelled nor
      completed nor, on that day, overdue. */
  lemma WorkflowSurvives(row: Row, values: Values, byKey: KeyMap, rules: Rules, today: Day)
    requires IsWorkflow(row.status) && DefinesStatus(rules.columns)
    ensures
      var merged := Merged(row.cells, values, byKey);
      var due := ParseDateOnly(CellOf(merged, rules.columns, "prazo"));
      Upserted(row, values, byKey, rules, today).status == row.status
      <==> !IsCanceled(merged, rules.columns, rules.normalize)
           && ParseDateOnly(CellOf(merged, rules.columns, "data_conclusao")).None?
           && (due.Some? ==> today <= due.value)
  {
    hide CellOf, IsCanceled, ParseDateOnly, Merged, Text, WithDerived;
  }

  // ----- native columns follow the cells -----

  predicate HasColumn(columns: seq<CanonicalColumn>, key: string) {
    exists c :: c in columns && c.canonicalKey == Some(key)
  }

  /** A native text is the cell's, trimmed; blank text and other values give null. */
  predicate ShowsText(native: Option<string>, cell: Option<Json>) {
    match cell
    case Some(Str(s)) => native == if Trim(s) == "" then None else Some(Trim(s))
    case _ => native == None
  }

  /** The title is the cell's text, trimmed; without text it stays. */
  predicate ShowsTitle(title: string, old': string, cell: Option<Json>) {
    match cell
    case Some(Str(s)) => title == if Trim(s) == "" then old' else Trim(s)
    case _ => title == old'
  }

  /** The priority is the one the normalised text names, MEDIUM when it names none. */
  predicate ShowsPriority(priority: Priority, normalize: string -> string, cell: Option<Json>) {
    var word := normalize(match cell case Some(Str(s)) => Trim(s) case _ => "");
    && (priority.CRITICAL? <==> word in {"critica", "critical"})
    && (priority.HIGH? <==> word in {"alta", "high"})
    && (priority.LOW? <==> word in {"baixa", "low"})
  }

  /** What the column is about says what its cell says. */
  predicate ColumnFollowed(c: CanonicalColumn, after: Row, row: Row, normalize: string -> string) {
    var cell, key := CellAt(after.cells, c.id), c.canonicalKey;
    && (key == Some("acoes") ==> ShowsTitle(after.title, row.title, cell))
    && (key == Some("prioridade") ==> ShowsPriority(after.priority, normalize, cell))
    && (key == Some("responsavel_solucao") ==> ShowsText(after.responsibleName, cell))
    && (key == Some("unidade") ==> ShowsText(after.unitName, cell))
    && (key == Some("prazo") ==> after.dueDate == ParseDateOnly(cell))
    && (key == Some("data_conclusao") ==> after.completedAt == ParseDateOnly(cell))
  }

  /** What no column is about stays. */
  predicate AbsentKept(columns: seq<CanonicalColumn>, after: Row, row: Row) {
    && (HasColumn(columns, "acoes") || after.title == row.title)
    && (HasColumn(columns, "prioridade") || after.priority == row.priority)
    && (HasColumn(columns, "responsavel_solucao") || after.responsibleName == row.responsibleName)
    && (HasColumn(columns, "unidade") || after.unitName == row.unitName)
    && (HasColumn(columns, "prazo") || after.dueDate == row.dueDate)
    && (HasColumn(columns, "data_conclusao") || after.completedAt == row.completedAt)
    && (HasColumn(columns, "status_atual") || HasColumn(columns, "prazo") || HasColumn(columns, "data_conclusao")
        || after.status == row.status)
    && after.externalKey == row.externalKey && after.deleted == row.deleted
    && after.description == row.description && after.responsibleId == row.responsibleId && after.unitId == row.unitId
  }

  /** Each native column that a column of the plan is about says what that column's cell says, and is as
      it was when the plan has no such column. Nothing else but the cells has changed. */
  predicate NativesFollow(after: Row, row: Row, rules: Rules) {
    && (forall c | c in rules.columns :: ColumnFollowed(c, after, row, rules.normalize))
    && AbsentKept(rules.columns, after, row)
  }

  lemma ColumnFound(columns: seq<CanonicalColumn>, key: string)
    ensures HasColumn(columns, key) <==> HasKey(columns, key)
    ensures WellKeyed(columns) ==>
              forall c | c in columns && c.canonicalKey == Some(key) :: IdOf(columns, key) == Some(c.id)
  {
    hide IdOf;
  }

  /** The cell of a column that is not derived is read as it is stored afterwards. */
  lemma CellStays(cells: CellMap, columns: seq<CanonicalColumn>, p: Projected, c: CanonicalColumn, key: string)
    requires WellKeyed(columns) && c in columns && c.canonicalKey == Some(key)
    requires key != "status_atual" && key != "status_final"
    ensures CellAt(WithDerived(cells, columns, p), c.id) == CellOf(cells, columns, key)
  {
    hide WellKeyed, CellOf, WithDerived, IdOf, HasColumn;
    ColumnFound(columns, key);
    CellOfById(cells, columns, key);
    DerivedAgree(cells, columns, p);
    DifferentIds(columns, key, "status_atual");
    DifferentIds(columns, key, "status_final");
    var derived := WithDerived(cells, columns, p);
    assert c.id !in DerivedIds(columns);
    if c.id in derived.Keys + cells.Keys { assert CellAt(derived, c.id) == CellAt(cells, c.id); }
  }

  lemma TextShown(cell: Option<Json>, old': string, normalize: string -> string)
    ensures ShowsText(OrNull(Text(cell)), cell)
    ensures ShowsTitle(if Text(cell) != "" then Text(cell) else old', old', cell)
    ensures ShowsPriority(PriorityOf(normalize(Text(cell))), normalize, cell)
  {
    hide Trim;
  }

  lemma ProjectionFollowsColumn(row: Row, cells: CellMap, current: Option<Status>, rules: Rules, today: Day,
                                c: CanonicalColumn)
    requires WellKeyed(rules.columns) && c in rules.columns
    ensures ColumnFollowed(c, Projection(row, cells, current, rules, today), row, rules.normalize)
  {
    hide WellKeyed, CellOf, WithDerived, IdOf, ParseDateOnly, IsCanceled, KeepWorkflow, StatusAtual, StatusFinal;
    hide ShowsText, ShowsTitle, ShowsPriority, Text, OrNull, PriorityOf, DefinesStatus;
    if c.canonicalKey.Some? && c.canonicalKey.value !in {"status_atual", "status_final"} {
      var key := c.canonicalKey.value;
      ColumnFound(rules.columns, key);
      CellStays(cells, rules.columns, Project(cells, rules.columns, current, today, rules.normalize), c, key);
      TextShown(CellOf(cells, rules.columns, key), row.title, rules.normalize);
    }
  }

  lemma ProjectionKeepsAbsent(row: Row, cells: CellMap, current: Option<Status>, rules: Rules, today: Day)
    ensures AbsentKept(rules.columns, Projection(row, cells, current, rules, today), row)
  {
    hide CellOf, WithDerived, IdOf, ParseDateOnly, IsCanceled, KeepWorkflow, StatusAtual, StatusFinal, HasColumn,
         HasKey;
    var columns := rules.columns;
    AbsentReads(cells, columns, "acoes");
    ColumnFound(columns, "prioridade");
    ColumnFound(columns, "responsavel_solucao");
    ColumnFound(columns, "unidade");
    ColumnFound(columns, "prazo");
    ColumnFound(columns, "data_conclusao");
    ColumnFound(columns, "status_atual");
  }

  lemma ProjectionFollows(row: Row, cells: CellMap, current: Option<Status>, rules: Rules, today: Day)
    requires WellKeyed(rules.columns)
    ensures NativesFollow(Projection(row, cells, current, rules, today), row, rules)
  {
    hide WellKeyed, Projection, ColumnFollowed, AbsentKept;
    ProjectionKeepsAbsent(row, cells, current, rules, today);
    forall c | c in rules.columns
      ensures ColumnFollowed(c, Projection(row, cells, current, rules, today), row, rules.normalize)
    {
      ProjectionFollowsColumn(row, cells, current, rules, today, c);
    }
  }

  lemma AbsentReads(cells: CellMap, columns: seq<CanonicalColumn>, key: string)
    ensures !HasColumn(columns, key) ==> CellOf(cells, columns, key) == None
  {
    hide CellOf;
    if !HasColumn(columns, key) {
      assert forall k | 0 <= k < |columns| :: columns[k] in columns;
      NoKeyNoCell(cells, columns, key);
    }
  }

  /** What was projected from these cells: which word and which final word stand in the cells afterwards,
      and which status the row has. */
  predicate StatusShown(after: Row, cells: CellMap, current: Option<Status>, rules: Rules, today: Day) {
    var canceled := IsCanceled(cells, rules.columns, rules.normalize);
    var due := ParseDateOnly(CellOf(cells, rules.columns, "prazo"));
    var done := ParseDateOnly(CellOf(cells, rules.columns, "data_conclusao"));
    var word, final := CellFor(after, rules, "status_atual"), CellFor(after, rules, "status_final");
    if canceled then
      && WordIs(word, "cancelado", rules, "status_atual") && WordIs(final, "cancelada", rules, "status_final")
      && (DefinesStatus(rules.columns) ==> after.status.CANCELED?)
    else if done.Some? then
      && WordIs(word, "conclu\U{ED}do", rules, "status_atual")
        && (DefinesStatus(rules.columns) ==> after.status.COMPLETED?)
      && (if due.None? then WordIs(final, "conclu\U{ED}da", rules, "status_final")
          else if done.value <= due.value then WordIs(final, "conclu\U{ED}da no prazo", rules, "status_final")
          else WordIs(final, "conclu\U{ED}da em atraso", rules, "status_final"))
    else if due.Some? && due.value < today then
      && WordIs(word, "em atraso", rules, "status_atual") && final.None?
      && (DefinesStatus(rules.columns) ==> after.status.DELAYED?)
    else
      && WordIs(word, if due.Some? then "no prazo" else "sem prazo", rules, "status_atual") && final.None?
      && (DefinesStatus(rules.columns) ==>
            if current.Some? && current.value in {IN_PROGRESS, WAITING_APPROVAL, REJECTED}
            then after.status == current.value else after.status.PENDING?)
  }

  /** The column, when there is one, holds this word. */
  predicate WordIs(cell: Option<Json>, word: string, rules: Rules, key: string) {
    HasKey(rules.columns, key) ==> cell == Some(Str(word))
  }

  lemma ProjectionShowsStatus(row: Row, cells: CellMap, current: Option<Status>, rules: Rules, today: Day)
    requires WellKeyed(rules.columns)
    ensures StatusShown(Projection(row, cells, current, rules, today), cells, current, rules, today)
  {
    hide CellOf, IdOf, ParseDateOnly, IsCanceled, Projection, HasKey, CellFor, DefinesStatus;
    DerivedInCells(row, cells, current, rules, today);
  }

  lemma DerivedInCells(row: Row, cells: CellMap, current: Option<Status>, rules: Rules, today: Day)
    requires WellKeyed(rules.columns)
    ensures
      var p := Project(cells, rules.columns, current, today, rules.normalize);
      var after := Projection(row, cells, current, rules, today);
      && (HasKey(rules.columns, "status_atual") ==> CellFor(after, rules, "status_atual") == Some(Str(p.statusAtual)))
      && (p.statusFinal.None? ==> CellFor(after, rules, "status_final").None?)
      && (HasKey(rules.columns, "status_final") && p.statusFinal.Some? ==>
            CellFor(after, rules, "status_final") == Some(Str(p.statusFinal.value)))
      && (DefinesStatus(rules.columns) ==> after.status == p.status)
  {
    hide WellKeyed, IdOf, Project;
    DifferentIds(rules.columns, "status_atual", "status_final");
  }

  /** After an edit every native column says what its own cell says, and status and final status follow
      from the cells that were merged. */
  lemma UpsertFollows(row: Row, values: Values, byKey: KeyMap, rules: Rules, today: Day)
    requires WellKeyed(rules.columns)
    ensures
      var after := Upserted(row, values, byKey, rules, today);
      && NativesFollow(after, row, rules)
      && StatusShown(after, Merged(row.cells, values, byKey), Some(row.status), rules, today)
  {
    hide Projection, NativesFollow, StatusShown, Merged, WellKeyed;
    ProjectionFollows(row, Merged(row.cells, values, byKey), Some(row.status), rules, today);
    ProjectionShowsStatus(row, Merged(row.cells, values, byKey), Some(row.status), rules, today);
  }
}
