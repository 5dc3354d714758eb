/** The derived state of a row: what its cells say about status, dates and native columns. */
module ProjectRow {
  import opened JsText
  import opened RowCells
  import Decimals

  datatype Status = PENDING | IN_PROGRESS | WAITING_APPROVAL | COMPLETED | REJECTED | DELAYED | CANCELED
  datatype Priority = LOW | MEDIUM | HIGH | CRITICAL

  datatype CanonicalColumn = CanonicalColumn(id: ColumnId, canonicalKey: Option<string>)

  /** Days since the start of year 0 of the proleptic Gregorian calendar. */
  type Day = int

  const ON_TIME := "no prazo"
  const LATE := "em atraso"
  const DONE := "conclu\U{ED}do"
  const CANCELLED := "cancelado"
  const NO_DUE_DATE := "sem prazo"
  const DONE_ON_TIME := "conclu\U{ED}da no prazo"
  const DONE_LATE := "conclu\U{ED}da em atraso"
  const DONE_FINAL := "conclu\U{ED}da"
  const CANCELLED_FINAL := "cancelada"
  const PHASE_DONE := "Conclu\U{ED}da"

  /** What the rules ask of normalizeHeader, which is a parameter: of the words the code itself
      writes into cells, only "cancelado" is read as cancelled. */
  predicate ReadsVocabulary(normalize: string -> string) {
    && normalize(CANCELLED) == CANCELLED && normalize("") != CANCELLED
    && normalize(ON_TIME) != CANCELLED && normalize(LATE) != CANCELLED
    && normalize(DONE) != CANCELLED && normalize(NO_DUE_DATE) != CANCELLED
    && normalize(PHASE_DONE) != CANCELLED
  }

  // ----- dates -----

  predicate IsLeap(year: int) {
    year % 4 == 0 && (year % 100 != 0 || year % 400 == 0)
  }

  function DaysBeforeYear(year: int): int {
    365 * year + (year + 3) / 4 - (year + 99) / 100 + (year + 399) / 400
  }

  function DaysBeforeMonth(year: int, month: int): int
    requires 0 <= month < 12
  {
    [0, 31, 59, 90, 120, 151, 181, 212, 243, 273, 304, 334][month] + (if month > 1 && IsLeap(year) then 1 else 0)
  }

  /** Date.UTC(year, month - 1, day): months and days outside the calendar run over, and the
      years 0 to 99 mean 1900 to 1999. */
  function UtcDay(year: nat, month: nat, day: nat): Day {
    var y := if year <= 99 then 1900 + year else year;
    var m := month - 1;
    DaysBeforeYear(y + m / 12) + DaysBeforeMonth(y + m / 12, m % 12) + day - 1
  }

  predicate DigitsAt(s: string, from: nat, count: nat) {
    from + count <= |s| && forall k | from <= k < from + count :: IsDigit(s[k])
  }

  /** `/^(\d{4})-(\d{2})-(\d{2})/` */
  predicate StartsWithDate(s: string) {
    && DigitsAt(s, 0, 4) && DigitsAt(s, 5, 2) && DigitsAt(s, 8, 2)
    && s[4] == '-' && s[7] == '-'
  }

  function ParseDateOnly(raw: Option<Json>): Option<Day> {
    if raw.None? || !raw.value.Str? || !StartsWithDate(Trim(raw.value.s)) then None else
    var t := Trim(raw.value.s);
    Some(UtcDay(Decimals.Read(t[0..4]), Decimals.Read(t[5..7]), Decimals.Read(t[8..10])))
  }

  // ----- projectRow -----

  function Text(raw: Option<Json>): string {
    if raw.Some? && raw.value.Str? then Trim(raw.value.s) else ""
  }

  /** byKey: the cell of the last column with the key. */
  function CellOf(cells: CellMap, columns: seq<CanonicalColumn>, key: string): Option<Json> {
    if columns == [] then None else
    var last := columns[|columns| - 1];
    if last.canonicalKey == Some(key) then CellAt(cells, last.id)
    else CellOf(cells, columns[..|columns| - 1], key)
  }

  /** idOf: the first column with the key. */
  function IdOf(columns: seq<CanonicalColumn>, key: string): (id: Option<ColumnId>)
    ensures id.Some? ==> exists k :: 0 <= k < |columns| && columns[k] == CanonicalColumn(id.value, Some(key))
    ensures id.None? ==> forall k | 0 <= k < |columns| :: columns[k].canonicalKey != Some(key)
  {
    if columns == [] then None
    else if columns[0].canonicalKey == Some(key) then Some(columns[0].id)
    else
      var id := IdOf(columns[1..], key);
      assert forall k | 1 <= k < |columns| :: columns[k] == columns[1..][k - 1];
      id
  }

  datatype Projected = Projected(
    title: string,
    status: Status,
    priority: Priority,
    dueDate: Option<Day>,
    completedAt: Option<Day>,
    responsibleName: Option<string>,
    unitName: Option<string>,
    statusAtual: string,
    statusFinal: Option<string>)

  predicate IsWorkflow(status: Status) {
    status.IN_PROGRESS? || status.WAITING_APPROVAL? || status.REJECTED?
  }

  /** STATUS_TO_ENUM. */
  function EnumOf(statusAtual: string): Status {
    if statusAtual == LATE then DELAYED
    else if statusAtual == DONE then COMPLETED
    else if statusAtual == CANCELLED then CANCELED
    else PENDING
  }

  function PriorityOf(word: string): Priority {
    if word == "critica" || word == "critical" then CRITICAL
    else if word == "alta" || word == "high" then HIGH
    else if word == "baixa" || word == "low" then LOW
    else MEDIUM
  }

  function OrNull(s: string): Option<string> {
    if s == "" then None else Some(s)
  }

  function StatusAtual(canceled: bool, dueDate: Option<Day>, completedAt: Option<Day>, today: Day): string {
    if canceled then CANCELLED
    else if completedAt.Some? then DONE
    else if dueDate.None? then NO_DUE_DATE
    else if dueDate.value < today then LATE else ON_TIME
  }

  function StatusFinal(canceled: bool, dueDate: Option<Day>, completedAt: Option<Day>): Option<string> {
    if canceled then Some(CANCELLED_FINAL)
    else if completedAt.None? then None
    else if dueDate.None? then Some(DONE_FINAL)
    else if completedAt.value <= dueDate.value then Some(DONE_ON_TIME) else Some(DONE_LATE)
  }

  predicate IsCanceled(cells: CellMap, columns: seq<CanonicalColumn>, normalize: string -> string) {
    normalize(Text(CellOf(cells, columns, "status_atual"))) == CANCELLED
  }

  /** A workflow status survives as long as the projection says no more than "open". */
  function KeepWorkflow(current: Option<Status>, projected: Status): Status {
    if current.Some? && IsWorkflow(current.value) && projected.PENDING? then current.value else projected
  }

  function Project(cells: CellMap, columns: seq<CanonicalColumn>, current: Option<Status>, today: Day,
                   normalize: string -> string): Projected {
    var dueDate := ParseDateOnly(CellOf(cells, columns, "prazo"));
    var completedAt := ParseDateOnly(CellOf(cells, columns, "data_conclusao"));
    var canceled := IsCanceled(cells, columns, normalize);
    var statusAtual := StatusAtual(canceled, dueDate, completedAt, today);
    Projected(
      Text(CellOf(cells, columns, "acoes")),
      KeepWorkflow(current, EnumOf(statusAtual)),
      PriorityOf(normalize(Text(CellOf(cells, columns, "prioridade")))),
      dueDate,
      completedAt,
      OrNull(Text(CellOf(cells, columns, "responsavel_solucao"))),
      OrNull(Text(CellOf(cells, columns, "unidade"))),
      statusAtual,
      StatusFinal(canceled, dueDate, completedAt))
  }

  // ----- projectIntoCells -----

  /** The native columns the plan's columns speak about; None means left alone. */
  datatype NativePatch = NativePatch(
    title: Option<string>,
    status: Option<Status>,
    priority: Option<Priority>,
    dueDate: Option<Option<Day>>,
    completedAt: Option<Option<Day>>,
    responsibleName: Option<Option<string>>,
    unitName: Option<Option<string>>)

  /** The cells with the two derived ones written back. */
  function WithDerived(cells: CellMap, columns: seq<CanonicalColumn>, p: Projected): CellMap {
    var statusId, finalId := IdOf(columns, "status_atual"), IdOf(columns, "status_final");
    var withStatus := if statusId.Some? then cells[statusId.value := Str(p.statusAtual)] else cells;
    if finalId.None? then withStatus
    else if p.statusFinal.Some? then withStatus[finalId.value := Str(p.statusFinal.value)]
    else withStatus - {finalId.value}
  }

  predicate HasKey(columns: seq<CanonicalColumn>, key: string) {
    IdOf(columns, key).Some?
  }

  predicate DefinesStatus(columns: seq<CanonicalColumn>) {
    HasKey(columns, "status_atual") || HasKey(columns, "prazo") || HasKey(columns, "data_conclusao")
  }

  function PatchOf(columns: seq<CanonicalColumn>, p: Projected): NativePatch {
    NativePatch(
      if p.title != "" then Some(p.title) else None,
      if DefinesStatus(columns) then Some(p.status) else None,
      if HasKey(columns, "prioridade") then Some(p.priority) else None,
      if HasKey(columns, "prazo") then Some(p.dueDate) else None,
      if HasKey(columns, "data_conclusao") then Some(p.completedAt) else None,
      if HasKey(columns, "responsavel_solucao") then Some(p.responsibleName) else None,
      if HasKey(columns, "unidade") then Some(p.unitName) else None)
  }

  /** The cells get the derived status and final status, or lose the latter. */
  method WriteDerived(input: CellMap, columns: seq<CanonicalColumn>, projected: Projected) returns (cells: CellMap)
    ensures cells == WithDerived(input, columns, projected)
  {
    hide IdOf;
    cells := input;
    var statusId := IdOf(columns, "status_atual");
    if statusId.Some? { cells := cells[statusId.value := Str(projected.statusAtual)]; }
    var finalId := IdOf(columns, "status_final");
    if finalId.Some? {
      if projected.statusFinal.Some? {
        cells := cells[finalId.value := Str(projected.statusFinal.value)];
      } else {
        cells := cells - {finalId.value};
      }
    }
  }

  method ProjectIntoCells(input: CellMap, columns: seq<CanonicalColumn>, current: Option<Status>, today: Day,
                          normalize: string -> string)
      returns (cells: CellMap, nativePatch: NativePatch)
    ensures
      var p := Project(input, columns, current, today, normalize);
      cells == WithDerived(input, columns, p) && nativePatch == PatchOf(columns, p)
  {
    hide Project, HasKey, WithDerived;
    var projected := Project(input, columns, current, today, normalize);
    cells := WriteDerived(input, columns, projected);
    var title, status, priority := None, None, None;
    var dueDate, completedAt, responsibleName, unitName := None, None, None, None;
    if projected.title != "" { title := Some(projected.title); }
    if HasKey(columns, "prioridade") { priority := Some(projected.priority); }
    if HasKey(columns, "prazo") { dueDate := Some(projected.dueDate); }
    if HasKey(columns, "data_conclusao") { completedAt := Some(projected.completedAt); }
    if HasKey(columns, "responsavel_solucao") { responsibleName := Some(projected.responsibleName); }
    if HasKey(columns, "unidade") { unitName := Some(projected.unitName); }
    if HasKey(columns, "status_atual") || HasKey(columns, "prazo") || HasKey(columns, "data_conclusao") {
      status := Some(projected.status);
    }
    nativePatch := NativePatch(title, status, priority, dueDate, completedAt, responsibleName, unitName);
  }

  // ----- columns with distinct keys -----

  /** Ids and canonical keys are each unique, as the database demands within a plan. */
  predicate WellKeyed(columns: seq<CanonicalColumn>) {
    forall i, j | 0 <= i < j < |columns| ::
      columns[i].id != columns[j].id
        && (columns[i].canonicalKey.Some? ==> columns[i].canonicalKey != columns[j].canonicalKey)
  }

  /** Then reading by key and finding by key are about the same column. */
  lemma {:induction false} CellOfById(cells: CellMap, columns: seq<CanonicalColumn>, key: string)
    requires WellKeyed(columns)
    ensures CellOf(cells, columns, key) ==
      if IdOf(columns, key).Some? then CellAt(cells, IdOf(columns, key).value) else None
  {
    var id := IdOf(columns, key);
    if id.Some? {
      var k :| 0 <= k < |columns| && columns[k] == CanonicalColumn(id.value, Some(key));
      CellOfAt(cells, columns, key, k);
    } else {
      NoKeyNoCell(cells, columns, key);
    }
  }

  lemma {:induction false} CellOfAt(cells: CellMap, columns: seq<CanonicalColumn>, key: string, k: nat)
    requires WellKeyed(columns) && k < |columns| && columns[k].canonicalKey == Some(key)
    ensures CellOf(cells, columns, key) == CellAt(cells, columns[k].id)
  {
    if k < |columns| - 1 { CellOfAt(cells, columns[..|columns| - 1], key, k); }
  }

  lemma {:induction false} NoKeyNoCell(cells: CellMap, columns: seq<CanonicalColumn>, key: string)
    requires forall k | 0 <= k < |columns| :: columns[k].canonicalKey != Some(key)
    ensures CellOf(cells, columns, key) == None
  {
    if columns != [] { NoKeyNoCell(cells, columns[..|columns| - 1], key); }
  }

  /** Different keys, different columns. */
  lemma DifferentIds(columns: seq<CanonicalColumn>, key: string, other: string)
    requires WellKeyed(columns) && key != other
    ensures IdOf(columns, key).Some? && IdOf(columns, other).Some? ==>
              IdOf(columns, key).value != IdOf(columns, other).value
  {
  }

  /** The columns whose cells are derived. */
  function DerivedIds(columns: seq<CanonicalColumn>): set<ColumnId> {
    (if HasKey(columns, "status_atual") then {IdOf(columns, "status_atual").value} else {})
    + (if HasKey(columns, "status_final") then {IdOf(columns, "status_final").value} else {})
  }

  lemma DerivedAgree(cells: CellMap, columns: seq<CanonicalColumn>, p: Projected)
    ensures AgreeOff(WithDerived(cells, columns, p), cells, DerivedIds(columns))
  {
    hide IdOf;
  }
}
