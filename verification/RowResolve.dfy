/** resolve: the native update of a row and the cell upsert that follows it, and how long the
    row stays completed afterwards. */
module RowResolve {
  import opened JsText
  import opened RowCells
  import opened ProjectRow
  import opened RowEdits
  import Decimals

  /** A moment in UTC, by its calendar fields. */
  datatype Moment = Moment(year: int, month: nat, day: nat)

  predicate IsMoment(m: Moment) {
    1 <= m.month <= 12 && 1 <= m.day <= 31
  }

  /** toISOString().slice(0, 10): four digits for the years 0 to 9999, a sign and six otherwise. */
  function IsoDay(m: Moment): string {
    if 0 <= m.year <= 9999 then
      Decimals.PadStart(Decimals.Print(m.year), 4) + "-" + Decimals.PadStart(Decimals.Print(m.month), 2)
        + "-" + Decimals.PadStart(Decimals.Print(m.day), 2)
    else
      var sign, size := if m.year < 0 then "-" else "+", if m.year < 0 then -m.year else m.year;
      (sign + Decimals.PadStart(Decimals.Print(size), 6) + "-" + Decimals.PadStart(Decimals.Print(m.month), 2))[..10]
  }

  /** Setting a property of the updates object: in place if the key is there, else at the end. */
  function Put(updates: Values, key: string, raw: Json): Values {
    if updates == [] then [(key, raw)]
    else if updates[0].0 == key then [(key, raw)] + updates[1..]
    else [updates[0]] + Put(updates[1..], key, raw)
  }

  function PutAll(updates: Values, more: Values): Values
    decreases |more|
  {
    if more == [] then updates else PutAll(Put(updates, more[0].0, more[0].1), more[1..])
  }

  function Get(updates: Values, key: string): Option<Json> {
    if updates == [] then None else if updates[0].0 == key then Some(updates[0].1) else Get(updates[1..], key)
  }

  /** A property that is there and not the empty string. */
  predicate Truthy(updates: Values, key: string) {
    var raw := Get(updates, key);
    raw.Some? && !raw.value.Null? && raw.value != Str("")
  }

  datatype ResolveInput = ResolveInput(
    completedAt: Moment,
    values: Values,
    comment: Option<string>,
    evidence: Option<string>)     // the encoded reference for the evidence cell

  const FIXED_UPDATES: Values := [("status_atual", Str(DONE)), ("status", Str(DONE)), ("fase_acao", Str(PHASE_DONE))]

  /** The cell updates of a resolve, built step by step. */
  function CellUpdates(input: ResolveInput, columns: seq<CanonicalColumn>): Values {
    var u1 := PutAll(FIXED_UPDATES, input.values);
    var comment := if input.comment.Some? then Trim(input.comment.value) else "";
    var u2 := if comment != "" && Text(Get(u1, "comentarios")) == ""
              then Put(u1, "comentarios", Str(comment)) else u1;
    var doneId, evidenceId := IdOf(columns, "data_conclusao"), IdOf(columns, "evidencia");
    var u3 := if doneId.Some? && !Truthy(u2, doneId.value) && !Truthy(u2, "data_conclusao")
              then Put(u2, doneId.value, Str(IsoDay(input.completedAt))) else u2;
    if input.evidence.Some? && evidenceId.Some? then Put(u3, evidenceId.value, Str(input.evidence.value)) else u3
  }

  function DayOf(m: Moment): Day
    requires m.month >= 1
  {
    var y := m.year;
    DaysBeforeYear(y + (m.month - 1) / 12) + DaysBeforeMonth(y + (m.month - 1) / 12, (m.month - 1) % 12) + m.day - 1
  }

  /** resolve: the native update, then the cell upsert. */
  function Resolved(row: Row, input: ResolveInput, byKey: KeyMap, rules: Rules, today: Day): Row
    requires IsMoment(input.completedAt)
  {
    Upserted(row.(status := COMPLETED, completedAt := Some(DayOf(input.completedAt))),
             CellUpdates(input, rules.columns), byKey, rules, today)
  }

  /** A stored row, as the repository reads and writes it. */
  class RowRecord {
    var row: Row

    constructor (initial: Row)
      ensures row == initial
    {
      row := initial;
    }

    /** `columns` are the plan's columns. The query reads only those whose id or name is submitted,
        which makes no difference. */
    method UpsertFieldValues(values: Values, columns: seq<(ColumnId, string)>, rules: Rules, today: Day)
      modifies this
      ensures row == Upserted(old(row), values, KeysOf(columns), rules, today)
    {
      hide KeysOf, Merged, Project, WithDerived, PatchOf, Loaded, IsLastNamed, IsNamed;
      var byKey := BuildKeyMap(Loaded(columns, values));
      LoadedMerges(row.cells, columns, values);
      var merged := MergeCells(row.cells, values, byKey);
      var cells, patch := ProjectIntoCells(merged, rules.columns, Some(row.status), today, rules.normalize);
      row := Patched(row, cells, patch);
    }

    method Resolve(input: ResolveInput, columns: seq<(ColumnId, string)>, rules: Rules, today: Day)
      requires IsMoment(input.completedAt)
      modifies this
      ensures row == Resolved(old(row), input, KeysOf(columns), rules, today)
    {
      hide Upserted, KeysOf, PutAll, Truthy, IdOf, Put, DayOf, IsoDay, Text;
      row := row.(status := COMPLETED, completedAt := Some(DayOf(input.completedAt)));
      var cellUpdates := PutAll(FIXED_UPDATES, input.values);
      if input.comment.Some? && Trim(input.comment.value) != "" && Text(Get(cellUpdates, "comentarios")) == "" {
        cellUpdates := Put(cellUpdates, "comentarios", Str(Trim(input.comment.value)));
      }
      var dataConclusao := IdOf(rules.columns, "data_conclusao");
      if dataConclusao.Some? && !Truthy(cellUpdates, dataConclusao.value) && !Truthy(cellUpdates, "data_conclusao") {
        cellUpdates := Put(cellUpdates, dataConclusao.value, Str(IsoDay(input.completedAt)));
      }
      var evidencia := IdOf(rules.columns, "evidencia");
      if input.evidence.Some? && evidencia.Some? {
        cellUpdates := Put(cellUpdates, evidencia.value, Str(input.evidence.value));
      }
      UpsertFieldValues(cellUpdates, columns, rules, today);
    }
  }

  // ----- a resolved row is completed -----

  /** The ISO day of a year from 100 to 9999 reads back as that day. The years 0 to 99 read back as
      1900 to 1999, and years without four digits do not read back. */
  lemma IsoDayParses(m: Moment)
    requires IsMoment(m)
    ensures ParseDateOnly(Some(Str(IsoDay(m)))) ==
      if 100 <= m.year <= 9999 then Some(DayOf(m))
      else if 0 <= m.year <= 99 then Some(DayOf(m.(year := 1900 + m.year)))
      else None
    ensures !IsEmptyCell(Str(IsoDay(m)))
  {
    hide Decimals.Print, Decimals.PadStart, Trim, UtcDay, DayOf, Decimals.Read;
    var iso := IsoDay(m);
    if 0 <= m.year <= 9999 {
      YearsOfUtc(m);
      var y := PaddedField(m.year, 4);
      var mo := PaddedField(m.month, 2);
      var d := PaddedField(m.day, 2);
      assert iso == y + "-" + mo + "-" + d;
      IsoFields(iso, y, mo, d);
      TrimIsTrimmed(iso);
    } else {
      assert iso[0] == '+' || iso[0] == '-';
      SignFirst(iso);
    }
  }

  lemma YearsOfUtc(m: Moment)
    requires IsMoment(m) && m.year >= 0
    ensures UtcDay(m.year, m.month, m.day) == DayOf(if m.year <= 99 then m.(year := 1900 + m.year) else m)
  {
  }

  /** The same day 1900 years later is another day. */
  lemma CenturiesDiffer(m: Moment)
    requires IsMoment(m) && 0 <= m.year <= 99
    ensures DayOf(m.(year := 1900 + m.year)) > DayOf(m)
  {
  }

  lemma PaddedField(n: nat, width: nat) returns (s: string)
    requires (width == 4 && n <= 9999) || (width == 2 && n <= 31)
    ensures s == Decimals.PadStart(Decimals.Print(n), width)
    ensures |s| == width && Decimals.AllDigits(s) && Decimals.Read(s) == n
  {
    s := Decimals.PadStart(Decimals.Print(n), width);
    assert Decimals.Power10(2) == 100 && Decimals.Power10(4) == 10000;
    Decimals.PrintShort(n, width);
    Decimals.ReadPadded(Decimals.Print(n), width);
    Decimals.ReadPrint(n);
  }

  lemma IsoFields(iso: string, y: string, mo: string, d: string)
    requires |y| == 4 && |mo| == 2 && |d| == 2 && iso == y + "-" + mo + "-" + d
    requires Decimals.AllDigits(y) && Decimals.AllDigits(mo) && Decimals.AllDigits(d)
    ensures StartsWithDate(iso) && Trimmed(iso) && iso != ""
    ensures iso[0..4] == y && iso[5..7] == mo && iso[8..10] == d
  {
    assert forall k | 0 <= k < 4 :: iso[k] == y[k];
    assert forall k | 5 <= k < 7 :: iso[k] == mo[k - 5];
    assert forall k | 8 <= k < 10 :: iso[k] == d[k - 8];
  }

  lemma SignFirst(iso: string)
    requires |iso| == 10 && (iso[0] == '+' || iso[0] == '-')
    ensures Trim(iso) != "" && !IsDigit(Trim(iso)[0])
  {
    assert TrimStart(iso) == iso;
    TrimEndClean(iso);
    EndStays(iso);
  }

  lemma {:induction false} EndStays(s: string)
    requires s != "" && !IsSpace(s[0])
    ensures TrimEnd(s) != "" && TrimEnd(s)[0] == s[0]
  {
    if IsSpace(s[|s| - 1]) { EndStays(s[..|s| - 1]); }
  }

  /** The key does not name the column. */
  predicate Misses(key: string, byKey: KeyMap, id: ColumnId) {
    key in byKey ==> byKey[key] != id
  }

  predicate AllMiss(values: Values, byKey: KeyMap, id: ColumnId) {
    forall k | 0 <= k < |values| :: Misses(values[k].0, byKey, id)
  }

  lemma {:induction false} LastForNone(values: Values, byKey: KeyMap, id: ColumnId)
    requires AllMiss(values, byKey, id)
    ensures LastFor(values, byKey, id) == None
  {
    if values != [] { LastForNone(values[..|values| - 1], byKey, id); }
  }

  lemma {:induction false} LastForConcat(a: Values, b: Values, byKey: KeyMap, id: ColumnId)
    ensures LastFor(a + b, byKey, id) ==
      if LastFor(b, byKey, id).Some? then LastFor(b, byKey, id) else LastFor(a, byKey, id)
  {
    if b == [] {
      assert a + b == a;
    } else {
      assert (a + b)[..|a + b| - 1] == a + b[..|b| - 1];
      LastForConcat(a, b[..|b| - 1], byKey, id);
    }
  }

  lemma LastForFront(v: (string, Json), b: Values, byKey: KeyMap, id: ColumnId)
    ensures LastFor([v] + b, byKey, id) ==
      if LastFor(b, byKey, id).Some? then LastFor(b, byKey, id)
      else if Misses(v.0, byKey, id) then None else Some(v.1)
  {
    LastForConcat([v], b, byKey, id);
    assert [v][..0] == [];
  }

  /** Putting a property that does not name the column leaves the column's value alone. */
  lemma {:induction false} LastForPut(updates: Values, key: string, raw: Json, byKey: KeyMap, id: ColumnId)
    requires Misses(key, byKey, id)
    ensures LastFor(Put(updates, key, raw), byKey, id) == LastFor(updates, byKey, id)
  {
    hide LastFor;
    if updates == [] {
      LastForNone([], byKey, id);
      LastForNone([(key, raw)], byKey, id);
    } else {
      assert updates == [updates[0]] + updates[1..];
      LastForFront(updates[0], updates[1..], byKey, id);
      if updates[0].0 == key {
        LastForFront((key, raw), updates[1..], byKey, id);
      } else {
        LastForPut(updates[1..], key, raw, byKey, id);
        LastForFront(updates[0], Put(updates[1..], key, raw), byKey, id);
      }
    }
  }

  lemma {:induction false} LastForPutAll(updates: Values, more: Values, byKey: KeyMap, id: ColumnId)
    requires AllMiss(more, byKey, id)
    ensures LastFor(PutAll(updates, more), byKey, id) == LastFor(updates, byKey, id)
    decreases |more|
  {
    hide LastFor;
    if more != [] {
      LastForPut(updates, more[0].0, more[0].1, byKey, id);
      LastForPutAll(Put(updates, more[0].0, more[0].1), more[1..], byKey, id);
    }
  }

  lemma {:induction false} GetPut(updates: Values, key: string, raw: Json, x: string)
    ensures Get(Put(updates, key, raw), x) == if x == key then Some(raw) else Get(updates, x)
  {
    if updates != [] && updates[0].0 != key { GetPut(updates[1..], key, raw, x); }
  }

  lemma {:induction false} GetPutAll(updates: Values, more: Values, x: string)
    requires forall k | 0 <= k < |more| :: more[k].0 != x
    ensures Get(PutAll(updates, more), x) == Get(updates, x)
    decreases |more|
  {
    if more != [] {
      GetPut(updates, more[0].0, more[0].1, x);
      GetPutAll(Put(updates, more[0].0, more[0].1), more[1..], x);
    }
  }

  /** A new property goes to the end, where it decides. */
  lemma {:induction false} PutNew(updates: Values, key: string, raw: Json)
    requires Get(updates, key) == None
    ensures Put(updates, key, raw) == updates + [(key, raw)]
  {
    if updates != [] { PutNew(updates[1..], key, raw); }
  }

  /** Nothing submitted overrides what a resolve writes: neither the submitted values nor the
      comment go into the status or the completion-date column, and no completion date is
      submitted. A column id finds no other column and is none of the fixed names; the id of the
      completion-date column finds it. */
  predicate Plain(input: ResolveInput, byKey: KeyMap, columns: seq<CanonicalColumn>) {
    && (forall c | c in columns && c.id in byKey :: byKey[c.id] == c.id)
    && (HasKey(columns, "data_conclusao") ==> IdOf(columns, "data_conclusao").value in byKey)
    && (forall c | c in columns :: c.id !in {"status_atual", "status", "fase_acao", "comentarios", "data_conclusao"})
    && (forall k | 0 <= k < |input.values| :: input.values[k].0 != "data_conclusao")
    && (forall key | key in ["status_atual", "data_conclusao"] && HasKey(columns, key) ::
          Misses("comentarios", byKey, IdOf(columns, key).value)
          && AllMiss(input.values, byKey, IdOf(columns, key).value))
  }

  /** In a plan whose column ids are distinct and no column's name, every id finds its column. */
  lemma PlanMapFindsIds(all: seq<(ColumnId, string)>, columns: seq<CanonicalColumn>)
    requires forall j, k | 0 <= j < k < |all| :: all[j].0 != all[k].0
    requires forall j, k | 0 <= j < |all| && 0 <= k < |all| :: all[j].1 != all[k].0
    requires forall c | c in columns :: exists k | 0 <= k < |all| :: all[k].0 == c.id
    ensures forall c | c in columns :: c.id in KeysOf(all) && KeysOf(all)[c.id] == c.id
    ensures HasKey(columns, "data_conclusao") ==> IdOf(columns, "data_conclusao").value in KeysOf(all)
  {
    hide KeysOf;
    forall c | c in columns
      ensures c.id in KeysOf(all) && KeysOf(all)[c.id] == c.id
    {
      var k :| 0 <= k < |all| && all[k].0 == c.id;
      FoundByKey(all, k, c.id);
    }
    if HasKey(columns, "data_conclusao") {
      assert CanonicalColumn(IdOf(columns, "data_conclusao").value, Some("data_conclusao")) in columns;
    }
  }

  /** The stages of the updates, with the comment or without. */
  function WithComment(input: ResolveInput): Values {
    var u1 := PutAll(FIXED_UPDATES, input.values);
    var comment := if input.comment.Some? then Trim(input.comment.value) else "";
    if comment != "" && Text(Get(u1, "comentarios")) == "" then Put(u1, "comentarios", Str(comment)) else u1
  }

  lemma UpdatesAreDated(input: ResolveInput, byKey: KeyMap, columns: seq<CanonicalColumn>)
    requires WellKeyed(columns) && HasKey(columns, "data_conclusao") && Plain(input, byKey, columns)
    ensures
      var dated := Put(WithComment(input), IdOf(columns, "data_conclusao").value, Str(IsoDay(input.completedAt)));
      && CellUpdates(input, columns)
         == (if input.evidence.Some? && HasKey(columns, "evidencia")
             then Put(dated, IdOf(columns, "evidencia").value, Str(input.evidence.value)) else dated)
      && dated == WithComment(input) + [(IdOf(columns, "data_conclusao").value, Str(IsoDay(input.completedAt)))]
  {
    hide PutAll, Put, Trim, IdOf, IsoDay, Text, WellKeyed;
    var id := IdOf(columns, "data_conclusao").value;
    var u1, u2 := PutAll(FIXED_UPDATES, input.values), WithComment(input);
    IdIsThere(columns, byKey, "data_conclusao", input);
    assert "data_conclusao" in ["status_atual", "data_conclusao"];
    forall k | 0 <= k < |input.values| ensures input.values[k].0 != id {
      assert Misses(input.values[k].0, byKey, id);
    }
    FixedHasOnly(id);
    FixedHasOnly("data_conclusao");
    forall x | x in {id, "data_conclusao"} ensures Get(u2, x) == None {
      GetPutAll(FIXED_UPDATES, input.values, x);
      if u2 != u1 { GetPut(u1, "comentarios", Str(Trim(input.comment.value)), x); }
    }
    PutNew(u2, id, Str(IsoDay(input.completedAt)));
  }

  lemma IdIsThere(columns: seq<CanonicalColumn>, byKey: KeyMap, key: string, input: ResolveInput)
    requires HasKey(columns, key) && Plain(input, byKey, columns)
    ensures
      var id := IdOf(columns, key).value;
      && (id in byKey ==> byKey[id] == id)
      && (key == "data_conclusao" ==> id in byKey)
      && id !in {"status_atual", "status", "fase_acao", "comentarios", "data_conclusao"}
  {
    var id := IdOf(columns, key).value;
    assert CanonicalColumn(id, Some(key)) in columns;
  }

  lemma FixedHasOnly(x: string)
    requires x !in {"status_atual", "status", "fase_acao"}
    ensures Get(FIXED_UPDATES, x) == None
  {
    var a, b, c := ("status_atual", Str(DONE)), ("status", Str(DONE)), ("fase_acao", Str(PHASE_DONE));
    assert FIXED_UPDATES == [a, b, c];
    assert [a, b, c][1..] == [b, c] && [b, c][1..] == [c] && [c][1..] == [];
    assert Get([c], x) == None;
    assert Get([b, c], x) == None;
  }

  /** What the fixed updates say about a column, if anything: done. */
  lemma FixedSaysDone(byKey: KeyMap, id: ColumnId)
    ensures LastFor(FIXED_UPDATES, byKey, id) in {None, Some(Str(DONE)), Some(Str(PHASE_DONE))}
  {
    var a, b, c := ("status_atual", Str(DONE)), ("status", Str(DONE)), ("fase_acao", Str(PHASE_DONE));
    assert FIXED_UPDATES == [a, b, c];
    assert [a, b, c][..2] == [a, b] && [a, b][..1] == [a] && [a][..0] == [];
    assert LastFor([a], byKey, id) in {None, Some(Str(DONE))};
    assert LastFor([a, b], byKey, id) in {None, Some(Str(DONE))};
  }

  /** The completion-date column gets the ISO day; the status column only words for done. */
  lemma UpdatesSay(input: ResolveInput, byKey: KeyMap, columns: seq<CanonicalColumn>)
    requires WellKeyed(columns) && HasKey(columns, "data_conclusao") && Plain(input, byKey, columns)
    ensures LastFor(CellUpdates(input, columns), byKey, IdOf(columns, "data_conclusao").value)
         == Some(Str(IsoDay(input.completedAt)))
    ensures HasKey(columns, "status_atual") ==>
              LastFor(CellUpdates(input, columns), byKey, IdOf(columns, "status_atual").value)
              in {None, Some(Str(DONE)), Some(Str(PHASE_DONE))}
  {
    hide PutAll, Put, IdOf, IsoDay, WellKeyed, CellUpdates, WithComment, LastFor;
    var doneId, dayText := IdOf(columns, "data_conclusao").value, Str(IsoDay(input.completedAt));
    var dated := Put(WithComment(input), doneId, dayText);
    UpdatesAreDated(input, byKey, columns);
    IdIsThere(columns, byKey, "data_conclusao", input);
    LastForConcat(WithComment(input), [(doneId, dayText)], byKey, doneId);
    OneSays(doneId, dayText, byKey);
    if HasKey(columns, "evidencia") {
      IdIsThere(columns, byKey, "evidencia", input);
      DifferentIds(columns, "evidencia", "data_conclusao");
      DifferentIds(columns, "evidencia", "status_atual");
      if input.evidence.Some? {
        LastForPut(dated, IdOf(columns, "evidencia").value, Str(input.evidence.value), byKey, doneId);
      }
    }
    if HasKey(columns, "status_atual") {
      var statusId := IdOf(columns, "status_atual").value;
      DifferentIds(columns, "status_atual", "data_conclusao");
      FixedSaysDone(byKey, statusId);
      CommentMisses(input, byKey, statusId, columns);
      LastForPut(WithComment(input), doneId, dayText, byKey, statusId);
      if HasKey(columns, "evidencia") && input.evidence.Some? {
        LastForPut(dated, IdOf(columns, "evidencia").value, Str(input.evidence.value), byKey, statusId);
      }
    }
  }

  lemma OneSays(key: string, raw: Json, byKey: KeyMap)
    requires key in byKey && byKey[key] == key
    ensures LastFor([(key, raw)], byKey, key) == Some(raw)
  {
  }

  lemma CommentMisses(input: ResolveInput, byKey: KeyMap, id: ColumnId, columns: seq<CanonicalColumn>)
    requires Plain(input, byKey, columns) && HasKey(columns, "status_atual")
             && id == IdOf(columns, "status_atual").value
    ensures LastFor(WithComment(input), byKey, id) == LastFor(FIXED_UPDATES, byKey, id)
  {
    hide PutAll, Put, IdOf, LastFor, Trim, Text;
    assert "status_atual" in ["status_atual", "data_conclusao"];
    LastForPutAll(FIXED_UPDATES, input.values, byKey, id);
    var u1 := PutAll(FIXED_UPDATES, input.values);
    if WithComment(input) != u1 {
      LastForPut(u1, "comentarios", Str(Trim(input.comment.value)), byKey, id);
    }
  }

  /** The merged cells of a resolve: dated, and not cancelled. */
  lemma ResolvedCells(row: Row, input: ResolveInput, byKey: KeyMap, rules: Rules)
    requires WellKeyed(rules.columns) && ReadsVocabulary(rules.normalize)
    requires HasKey(rules.columns, "data_conclusao") && Plain(input, byKey, rules.columns)
    requires IsMoment(input.completedAt) && !IsCanceled(row.cells, rules.columns, rules.normalize)
    ensures
      var merged := Merged(row.cells, CellUpdates(input, rules.columns), byKey);
      && CellOf(merged, rules.columns, "data_conclusao") == Some(Str(IsoDay(input.completedAt)))
      && !IsCanceled(merged, rules.columns, rules.normalize)
  {
    hide WellKeyed, CellOf, CellUpdates, IsoDay, LastFor, Merged, Plain, IsEmptyCell, Trim;
    var updates := CellUpdates(input, rules.columns);
    var merged := Merged(row.cells, updates, byKey);
    UpdatesSay(input, byKey, rules.columns);
    IsoDayParses(input.completedAt);
    CellOfById(merged, rules.columns, "data_conclusao");
    MergedAt(row.cells, updates, byKey, IdOf(rules.columns, "data_conclusao").value);
    CellOfById(merged, rules.columns, "status_atual");
    CellOfById(row.cells, rules.columns, "status_atual");
    WordsTrimmed(DONE);
    PhaseTrimmed();
    if HasKey(rules.columns, "status_atual") {
      MergedAt(row.cells, updates, byKey, IdOf(rules.columns, "status_atual").value);
    }
  }

  lemma PhaseTrimmed()
    ensures Trim(PHASE_DONE) == PHASE_DONE && !IsEmptyCell(Str(PHASE_DONE)) && !IsEmptyCell(Str(DONE))
  {
    TrimIsTrimmed(PHASE_DONE);
    TrimIsTrimmed(DONE);
  }

  /** Resolving a row that is not cancelled, with nothing overriding it, completes the row exactly
      when the completion year has four digits. The row keeps the day it was resolved with exactly
      for the years from 100 on; the years 0 to 99 turn into 1900 to 1999. */
  lemma ResolveCompletes(row: Row, input: ResolveInput, byKey: KeyMap, rules: Rules, today: Day)
    requires WellKeyed(rules.columns) && ReadsVocabulary(rules.normalize)
    requires HasKey(rules.columns, "data_conclusao") && Plain(input, byKey, rules.columns)
    requires IsMoment(input.completedAt) && !IsCanceled(row.cells, rules.columns, rules.normalize)
    ensures
      var year, after := input.completedAt.year, Resolved(row, input, byKey, rules, today);
      && (after.status == COMPLETED <==> 0 <= year <= 9999)
      && (0 <= year <= 9999 ==> IsDone(after, rules))
      && (after.completedAt == Some(DayOf(input.completedAt)) <==> 100 <= year <= 9999)
      && (0 <= year <= 99 ==> after.completedAt == Some(DayOf(input.completedAt.(year := 1900 + year))))
  {
    hide WellKeyed, CellOf, CellUpdates, IsoDay, Merged, Plain, IsCanceled, ParseDateOnly, ReadsVocabulary, Text, DayOf;
    var started := row.(status := COMPLETED, completedAt := Some(DayOf(input.completedAt)));
    var merged := Merged(row.cells, CellUpdates(input, rules.columns), byKey);
    ResolvedCells(row, input, byKey, rules);
    IsoDayParses(input.completedAt);
    if 0 <= input.completedAt.year <= 99 { CenturiesDiffer(input.completedAt); }
    if 0 <= input.completedAt.year <= 9999 {
      DoneAfterProjection(started, merged, rules, COMPLETED, today);
    } else {
      OpenAfterProjection(started, merged, rules, COMPLETED, today);
    }
  }

  /** The row is completed and its cells say so. */
  predicate IsDone(row: Row, rules: Rules) {
    && row.status == COMPLETED
    && !IsCanceled(row.cells, rules.columns, rules.normalize)
    && ParseDateOnly(CellOf(row.cells, rules.columns, "data_conclusao")).Some?
  }

  /** Cells that are dated and not cancelled make a completed row, whatever it was before. */
  lemma DoneAfterProjection(row: Row, cells: CellMap, rules: Rules, current: Status, today: Day)
    requires WellKeyed(rules.columns) && ReadsVocabulary(rules.normalize)
    requires HasKey(rules.columns, "data_conclusao")
    requires !IsCanceled(cells, rules.columns, rules.normalize)
    requires ParseDateOnly(CellOf(cells, rules.columns, "data_conclusao")).Some?
    ensures IsDone(Projection(row, cells, Some(current), rules, today), rules)
  {
    hide WellKeyed, CellOf, IsCanceled, ParseDateOnly, ReadsVocabulary, Text, WithDerived;
    DerivedSaysCanceled(cells, rules, Some(current), today);
    var p := Project(cells, rules.columns, Some(current), today, rules.normalize);
    DerivedAgree(cells, rules.columns, p);
    SameCell(WithDerived(cells, rules.columns, p), cells, rules.columns, "data_conclusao");
  }

  /** Without a completion date the row is not completed, whatever it was before. */
  lemma OpenAfterProjection(row: Row, cells: CellMap, rules: Rules, current: Status, today: Day)
    requires HasKey(rules.columns, "data_conclusao")
    requires ParseDateOnly(CellOf(cells, rules.columns, "data_conclusao")).None?
    ensures Projection(row, cells, Some(current), rules, today).status != COMPLETED
  {
    hide CellOf, IsCanceled, ParseDateOnly, Text, WithDerived;
  }

  /** An edit that touches neither the completion date nor the status. */
  predicate LeavesDone(edit: Edit, columns: seq<CanonicalColumn>) {
    && (HasKey(columns, "data_conclusao") ==> AllMiss(edit.values, edit.byKey, IdOf(columns, "data_conclusao").value))
    && (HasKey(columns, "status_atual") ==> AllMiss(edit.values, edit.byKey, IdOf(columns, "status_atual").value))
  }

  lemma EditKeepsDone(row: Row, edit: Edit, rules: Rules)
    requires WellKeyed(rules.columns) && ReadsVocabulary(rules.normalize) && HasKey(rules.columns, "data_conclusao")
    requires IsDone(row, rules) && LeavesDone(edit, rules.columns)
    ensures IsDone(Upserted(row, edit.values, edit.byKey, rules, edit.today), rules)
  {
    hide WellKeyed, CellOf, Merged, IsEmptyCell, IdOf, Trim, Projection, AllMiss, LastFor;
    var merged := Merged(row.cells, edit.values, edit.byKey);
    var doneId := IdOf(rules.columns, "data_conclusao").value;
    CellOfById(row.cells, rules.columns, "data_conclusao");
    CellOfById(merged, rules.columns, "data_conclusao");
    LastForNone(edit.values, edit.byKey, doneId);
    MergedAt(row.cells, edit.values, edit.byKey, doneId);
    DateNotEmpty(row.cells[doneId]);
    CellOfById(row.cells, rules.columns, "status_atual");
    CellOfById(merged, rules.columns, "status_atual");
    if HasKey(rules.columns, "status_atual") {
      var statusId := IdOf(rules.columns, "status_atual").value;
      LastForNone(edit.values, edit.byKey, statusId);
      MergedAt(row.cells, edit.values, edit.byKey, statusId);
    }
    assert !IsCanceled(merged, rules.columns, rules.normalize);
    DoneAfterProjection(row, merged, rules, row.status, edit.today);
  }

  lemma DateNotEmpty(raw: Json)
    requires ParseDateOnly(Some(raw)).Some?
    ensures !IsEmptyCell(raw)
  {
    hide Trim;
  }

  /** A completed row stays completed under every sequence of such edits, at any clock. */
  lemma {:induction false} StaysDone(row: Row, edits: seq<Edit>, rules: Rules)
    requires WellKeyed(rules.columns) && ReadsVocabulary(rules.normalize) && HasKey(rules.columns, "data_conclusao")
    requires IsDone(row, rules)
    requires forall k | 0 <= k < |edits| :: LeavesDone(edits[k], rules.columns)
    ensures IsDone(Edited(row, edits, rules), rules)
  {
    hide WellKeyed, ReadsVocabulary, HasKey, IsDone, LeavesDone, Upserted;
    if edits != [] {
      StaysDone(row, edits[..|edits| - 1], rules);
      EditKeepsDone(Edited(row, edits[..|edits| - 1], rules), edits[|edits| - 1], rules);
    }
  }

  /** Resolve, then any edits: completed. */
  lemma ResolvedStaysCompleted(row: Row, input: ResolveInput, byKey: KeyMap, rules: Rules, today: Day, edits: seq<Edit>)
    requires WellKeyed(rules.columns) && ReadsVocabulary(rules.normalize)
    requires HasKey(rules.columns, "data_conclusao") && Plain(input, byKey, rules.columns)
    requires IsMoment(input.completedAt) && 0 <= input.completedAt.year <= 9999
    requires !IsCanceled(row.cells, rules.columns, rules.normalize)
    requires forall k | 0 <= k < |edits| :: LeavesDone(edits[k], rules.columns)
    ensures Edited(Resolved(row, input, byKey, rules, today), edits, rules).status == COMPLETED
  {
    hide WellKeyed, ReadsVocabulary, HasKey, Plain, IsCanceled, LeavesDone, Resolved, Edited;
    ResolveCompletes(row, input, byKey, rules, today);
    StaysDone(Resolved(row, input, byKey, rules, today), edits, rules);
  }

  // ----- what a resolve stores -----

  /** The value submitted under the key, the last one if there were several. */
  function Submitted(values: Values, key: string): Option<Json> {
    if values == [] then None else
    var last := values[|values| - 1];
    if last.0 == key then Some(last.1) else Submitted(values[..|values| - 1], key)
  }

  /** No key twice. */
  predicate DistinctNames(values: Values) {
    forall i, j | 0 <= i < j < |values| :: values[i].0 != values[j].0
  }

  lemma {:induction false} PutKeepsDistinct(updates: Values, key: string, raw: Json)
    requires DistinctNames(updates)
    ensures DistinctNames(Put(updates, key, raw))
    ensures forall x :: IsSubmitted(Put(updates, key, raw), x) <==> x == key || IsSubmitted(updates, x)
  {
    var after := Put(updates, key, raw);
    if updates == [] {
      assert after[0].0 == key;
    } else if updates[0].0 == key {
      assert forall i | 1 <= i < |after| :: after[i] == updates[i];
      assert after[0].0 == updates[0].0 == key;
    } else {
      var rest := updates[1..];
      PutKeepsDistinct(rest, key, raw);
      var more := Put(rest, key, raw);
      assert after[0] == updates[0] && forall i | 1 <= i < |after| :: after[i] == more[i - 1];
      forall x ensures IsSubmitted(after, x) <==> x == key || IsSubmitted(updates, x) {
        SubmittedFront(updates, x);
        SubmittedFront(after, x);
        assert after[1..] == more;
      }
      forall i | 0 <= i < |more| ensures more[i].0 != updates[0].0 {
        assert IsSubmitted(more, more[i].0);
        if IsSubmitted(rest, more[i].0) {
          var k :| 0 <= k < |rest| && rest[k].0 == more[i].0;
          assert updates[k + 1] == rest[k];
        }
      }
    }
  }

  lemma SubmittedFront(values: Values, x: string)
    requires values != []
    ensures IsSubmitted(values, x) <==> values[0].0 == x || IsSubmitted(values[1..], x)
  {
    var rest := values[1..];
    if IsSubmitted(rest, x) {
      var k :| 0 <= k < |rest| && rest[k].0 == x;
      assert values[k + 1].0 == x;
    }
    if IsSubmitted(values, x) && values[0].0 != x {
      var k :| 0 <= k < |values| && values[k].0 == x;
      assert rest[k - 1].0 == x;
    }
  }

  lemma {:induction false} PutAllSubmits(updates: Values, more: Values, x: string)
    ensures Get(PutAll(updates, more), x)
         == if Submitted(more, x).Some? then Submitted(more, x) else Get(updates, x)
    decreases |more|
  {
    hide Put, Get, Submitted;
    if more == [] {
      assert Submitted([], x) == None by { NoneSubmitted(x); }
    } else {
      var next := Put(updates, more[0].0, more[0].1);
      GetPut(updates, more[0].0, more[0].1, x);
      PutAllSubmits(next, more[1..], x);
      SubmittedFirst(more, x);
    }
  }

  lemma NoneSubmitted(x: string)
    ensures Submitted([], x) == None
  {
  }

  lemma {:induction false} SubmittedFirst(values: Values, x: string)
    requires values != []
    ensures Submitted(values, x)
         == if Submitted(values[1..], x).Some? then Submitted(values[1..], x)
            else if values[0].0 == x then Some(values[0].1) else None
  {
    var n := |values| - 1;
    if n == 0 {
      assert values[..0] == [] && values[1..] == [];
    } else {
      assert values[1..][..n - 1] == values[..n][1..];
      SubmittedFirst(values[..n], x);
    }
  }

  lemma {:induction false} PutAllKeepsDistinct(updates: Values, more: Values)
    requires DistinctNames(updates)
    ensures DistinctNames(PutAll(updates, more))
    decreases |more|
  {
    hide Put, DistinctNames;
    if more != [] {
      PutKeepsDistinct(updates, more[0].0, more[0].1);
      PutAllKeepsDistinct(Put(updates, more[0].0, more[0].1), more[1..]);
    }
  }

  /** What stands under a key before the date and the evidence are added: what was submitted, else the fixed
      words; a comment is added where no other text is. */
  function Early(input: ResolveInput, key: string): Option<Json> {
    var given := if Submitted(input.values, key).Some? then Submitted(input.values, key) else FixedWord(key);
    if key == "comentarios" && HasWords(input.comment) && !IsText(given)
    then Some(Str(Trim(input.comment.value))) else given
  }

  function FixedWord(key: string): Option<Json> {
    if key == "status_atual" || key == "status" then Some(Str("conclu\U{ED}do"))
    else if key == "fase_acao" then Some(Str("Conclu\U{ED}da")) else None
  }

  predicate HasWords(text: Option<string>) {
    text.Some? && Trim(text.value) != ""
  }

  predicate IsText(raw: Option<Json>) {
    raw.Some? && raw.value.Str? && Trim(raw.value.s) != ""
  }

  /** Something is there: neither null nor the empty string. */
  predicate IsThere(raw: Option<Json>) {
    raw.Some? && raw.value != Null && raw.value != Str("")
  }

  lemma FixedGet(x: string)
    ensures Get(FIXED_UPDATES, x) == FixedWord(x)
  {
    var a, b, c := ("status_atual", Str(DONE)), ("status", Str(DONE)), ("fase_acao", Str(PHASE_DONE));
    assert FIXED_UPDATES == [a, b, c];
    assert [a, b, c][1..] == [b, c] && [b, c][1..] == [c] && [c][1..] == [];
    assert Get([c], x) == if x == "fase_acao" then Some(Str(PHASE_DONE)) else None;
  }

  lemma EarlyGet(input: ResolveInput, x: string)
    ensures Get(WithComment(input), x) == Early(input, x)
  {
    hide Put, PutAll, Get, Submitted, Trim, FixedWord;
    PutAllSubmits(FIXED_UPDATES, input.values, x);
    PutAllSubmits(FIXED_UPDATES, input.values, "comentarios");
    FixedGet(x);
    FixedGet("comentarios");
    var u1 := PutAll(FIXED_UPDATES, input.values);
    if input.comment.Some? { GetPut(u1, "comentarios", Str(Trim(input.comment.value)), x); }
  }

  /** The whole of the cell updates, key by key: the evidence in its column; the day in the completion-date
      column, unless something stands there or under its name already; else what was there before. */
  lemma UpdatesAre(input: ResolveInput, columns: seq<CanonicalColumn>, x: string)
    ensures Get(CellUpdates(input, columns), x) ==
      if input.evidence.Some? && IdOf(columns, "evidencia") == Some(x) then Some(Str(input.evidence.value))
      else if IdOf(columns, "data_conclusao") == Some(x) && !IsThere(Early(input, x))
              && !IsThere(Early(input, "data_conclusao"))
      then Some(Str(IsoDay(input.completedAt)))
      else Early(input, x)
  {
    hide Put, PutAll, Get, Early, IdOf, IsoDay, WithComment;
    var doneId, evidenceId := IdOf(columns, "data_conclusao"), IdOf(columns, "evidencia");
    var u2 := WithComment(input);
    StagesAre(input, columns);
    EarlyGet(input, x);
    EarlyGet(input, "data_conclusao");
    var u3 := Dated(input, columns);
    if doneId.Some? {
      EarlyGet(input, doneId.value);
      GetPut(u2, doneId.value, Str(IsoDay(input.completedAt)), x);
    }
    if input.evidence.Some? && evidenceId.Some? { GetPut(u3, evidenceId.value, Str(input.evidence.value), x); }
  }

  function Dated(input: ResolveInput, columns: seq<CanonicalColumn>): Values {
    var u2, doneId := WithComment(input), IdOf(columns, "data_conclusao");
    if doneId.Some? && !Truthy(u2, doneId.value) && !Truthy(u2, "data_conclusao")
    then Put(u2, doneId.value, Str(IsoDay(input.completedAt))) else u2
  }

  lemma StagesAre(input: ResolveInput, columns: seq<CanonicalColumn>)
    ensures
      var u3, evidenceId := Dated(input, columns), IdOf(columns, "evidencia");
      CellUpdates(input, columns)
      == if input.evidence.Some? && evidenceId.Some? then Put(u3, evidenceId.value, Str(input.evidence.value)) else u3
  {
    hide Put, PutAll, Get, IdOf, IsoDay, Trim;
  }

  lemma UpdatesDistinct(input: ResolveInput, columns: seq<CanonicalColumn>)
    ensures DistinctNames(CellUpdates(input, columns))
  {
    hide Put, PutAll, Get, IdOf, IsoDay, Trim, DistinctNames, Truthy, Text;
    assert DistinctNames(FIXED_UPDATES) by { FixedDistinct(); }
    PutAllKeepsDistinct(FIXED_UPDATES, input.values);
    var u1 := PutAll(FIXED_UPDATES, input.values);
    StagesAre(input, columns);
    if input.comment.Some? { PutKeepsDistinct(u1, "comentarios", Str(Trim(input.comment.value))); }
    var u2, u3 := WithComment(input), Dated(input, columns);
    var doneId, evidenceId := IdOf(columns, "data_conclusao"), IdOf(columns, "evidencia");
    if doneId.Some? { PutKeepsDistinct(u2, doneId.value, Str(IsoDay(input.completedAt))); }
    if evidenceId.Some? && input.evidence.Some? { PutKeepsDistinct(u3, evidenceId.value, Str(input.evidence.value)); }
  }

  lemma FixedDistinct()
    ensures DistinctNames(FIXED_UPDATES)
  {
  }

  /** The value a column gets when one key alone finds it. */
  lemma {:induction false} OnlyKeySays(updates: Values, byKey: KeyMap, id: ColumnId, x: string)
    requires DistinctNames(updates) && x in byKey && byKey[x] == id
    requires forall y | IsSubmitted(updates, y) && y != x :: Misses(y, byKey, id)
    ensures LastFor(updates, byKey, id) == Get(updates, x)
  {
    hide LastFor, IsSubmitted, Get;
    if updates == [] {
      LastForNone(updates, byKey, id);
      assert Get([], x) == None by { NoneGot(x); }
    } else {
      var first, rest := updates[0], updates[1..];
      assert updates == [first] + rest;
      LastForFront(first, rest, byKey, id);
      GetFirst(updates, x);
      forall y ensures IsSubmitted(updates, y) <==> first.0 == y || IsSubmitted(rest, y) { SubmittedFront(updates, y); }
      if first.0 == x {
        forall k | 0 <= k < |rest| ensures Misses(rest[k].0, byKey, id) {
          assert rest[k] == updates[k + 1];
          SubmittedAt(rest, k);
        }
        LastForNone(rest, byKey, id);
      } else {
        OnlyKeySays(rest, byKey, id, x);
      }
    }
  }

  lemma NoneGot(x: string)
    ensures Get([], x) == None
  {
  }

  lemma GetFirst(updates: Values, x: string)
    requires updates != []
    ensures Get(updates, x) == if updates[0].0 == x then Some(updates[0].1) else Get(updates[1..], x)
  {
  }

  lemma SubmittedAt(values: Values, k: nat)
    requires k < |values|
    ensures IsSubmitted(values, values[k].0)
  {
  }

  /** A column that is not derived, and that one key alone of a resolve finds, holds afterwards what the
      resolve says under that key, submitted values first of all; when that is blank, it has no cell. When
      nothing stands under the key, it keeps its cell. */
  lemma ResolveStores(row: Row, input: ResolveInput, byKey: KeyMap, rules: Rules, today: Day, x: string, id: ColumnId)
    requires IsMoment(input.completedAt) && x in byKey && byKey[x] == id && id !in DerivedIds(rules.columns)
    requires forall y | IsSubmitted(CellUpdates(input, rules.columns), y) && y != x :: Misses(y, byKey, id)
    ensures
      var says, after := Get(CellUpdates(input, rules.columns), x), Resolved(row, input, byKey, rules, today).cells;
      CellAt(after, id) ==
        match says
        case None => if id in row.cells then Stored(row.cells[id]) else None
        case Some(raw) => Stored(raw)
  {
    hide CellUpdates, Get, Merged, Stored, LastFor, DerivedIds, Project, WithDerived, DistinctNames, IsSubmitted,
         AgreeOff, PatchOf;
    var updates := CellUpdates(input, rules.columns);
    var merged := Merged(row.cells, updates, byKey);
    UpdatesDistinct(input, rules.columns);
    OnlyKeySays(updates, byKey, id, x);
    MergedStores(row.cells, updates, byKey, id);
    var p := Project(merged, rules.columns, Some(COMPLETED), today, rules.normalize);
    DerivedAgree(merged, rules.columns, p);
    AgreesAt(WithDerived(merged, rules.columns, p), merged, DerivedIds(rules.columns), id);
  }

  /** The native columns of a resolved row follow its cells; those without a column say that it is completed,
      and when. */
  lemma ResolveFollows(row: Row, input: ResolveInput, byKey: KeyMap, rules: Rules, today: Day)
    requires WellKeyed(rules.columns) && IsMoment(input.completedAt)
    ensures
      var start := row.(status := COMPLETED, completedAt := Some(DayOf(input.completedAt)));
      NativesFollow(Resolved(row, input, byKey, rules, today), start, rules)
  {
    hide Upserted, NativesFollow, WellKeyed, CellUpdates, DayOf;
    UpsertFollows(row.(status := COMPLETED, completedAt := Some(DayOf(input.completedAt))),
                  CellUpdates(input, rules.columns), byKey, rules, today);
  }
}
