/** The cells of a row: a JSON object from column id to value, built from and merged with
    values that are keyed by column id or column name. */
module RowCells {
  import opened JsText

  /** A cell value: null, a string, or a value of another kind (number, boolean, structure). */
  datatype Json = Null | Str(s: string) | Other(tag: int)

  type ColumnId = string
  type CellMap = map<ColumnId, Json>
  /** Object.entries of the submitted values, in order. */
  type Values = seq<(string, Json)>
  /** Column ids by id and by name. */
  type KeyMap = map<string, ColumnId>

  predicate IsEmptyCell(raw: Json) {
    raw.Null? || (raw.Str? && Trim(raw.s) == "")
  }

  predicate NoEmptyCells(cells: CellMap) {
    forall id | id in cells :: !IsEmptyCell(cells[id])
  }

  /** byKey.set(col.id, col) and byKey.set(col.name, col), column after column. */
  function KeysOf(columns: seq<(ColumnId, string)>): KeyMap {
    if columns == [] then map[] else
    var last := columns[|columns| - 1];
    KeysOf(columns[..|columns| - 1])[last.0 := last.0][last.1 := last.0]
  }

  /** The key is the column's id or its name. */
  predicate Names(column: (ColumnId, string), key: string) {
    column.0 == key || column.1 == key
  }

  /** Column `i` is the last one that the key names. */
  predicate IsLastNamed(columns: seq<(ColumnId, string)>, i: int, key: string) {
    0 <= i < |columns| && Names(columns[i], key) && forall j | i < j < |columns| :: !Names(columns[j], key)
  }

  predicate IsNamed(columns: seq<(ColumnId, string)>, key: string) {
    exists i | 0 <= i < |columns| :: Names(columns[i], key)
  }

  /** A key finds a column when it is some column's id or name, and then the last such column. */
  lemma {:induction false} KeyMapAt(columns: seq<(ColumnId, string)>, key: string)
    ensures key in KeysOf(columns) <==> IsNamed(columns, key)
    ensures key in KeysOf(columns) ==> exists i :: IsLastNamed(columns, i, key) && KeysOf(columns)[key] == columns[i].0
  {
    if columns != [] {
      var init, k := columns[..|columns| - 1], |columns| - 1;
      KeyMapAt(init, key);
      if Names(columns[k], key) {
        assert IsLastNamed(columns, k, key);
      } else if key in KeysOf(init) {
        var i :| IsLastNamed(init, i, key) && KeysOf(init)[key] == init[i].0;
        assert IsLastNamed(columns, i, key) && columns[i] == init[i];
      }
    }
  }

  /** Ids being distinct, a column is found by its id or name exactly when no later column goes by it. */
  lemma FoundByKey(columns: seq<(ColumnId, string)>, i: nat, key: string)
    requires forall j, k | 0 <= j < k < |columns| :: columns[j].0 != columns[k].0
    requires i < |columns| && Names(columns[i], key)
    ensures key in KeysOf(columns)
    ensures KeysOf(columns)[key] == columns[i].0 <==> forall j | i < j < |columns| :: !Names(columns[j], key)
  {
    hide KeysOf;
    KeyMapAt(columns, key);
    var m :| IsLastNamed(columns, m, key) && KeysOf(columns)[key] == columns[m].0;
    assert i <= m;
  }

  method BuildKeyMap(columns: seq<(ColumnId, string)>) returns (byKey: KeyMap)
    ensures byKey == KeysOf(columns)
    ensures forall key :: key in byKey <==> IsNamed(columns, key)
    ensures forall key | key in byKey :: exists i :: IsLastNamed(columns, i, key) && byKey[key] == columns[i].0
  {
    hide IsNamed;
    byKey := map[];
    for i := 0 to |columns|
      invariant byKey == KeysOf(columns[..i])
    {
      assert columns[..i + 1][..i] == columns[..i];
      byKey := byKey[columns[i].0 := columns[i].0];
      byKey := byKey[columns[i].1 := columns[i].0];
    }
    assert columns[..|columns|] == columns;
    forall key: string
      ensures key in byKey <==> IsNamed(columns, key)
      ensures key in byKey ==> exists i :: IsLastNamed(columns, i, key) && key in byKey && byKey[key] == columns[i].0
    {
      KeyMapAt(columns, key);
    }
  }

  // ----- the columns that upsertFieldValues reads -----

  predicate IsSubmitted(values: Values, key: string) {
    exists k | 0 <= k < |values| :: values[k].0 == key
  }

  /** The query: only the columns whose id or name is submitted. */
  function Loaded(columns: seq<(ColumnId, string)>, values: Values): seq<(ColumnId, string)> {
    if columns == [] then [] else
    var last := columns[|columns| - 1];
    var before := Loaded(columns[..|columns| - 1], values);
    if IsSubmitted(values, last.0) || IsSubmitted(values, last.1) then before + [last] else before
  }

  /** For a submitted key the columns left out make no difference. */
  lemma {:induction false} LoadedFinds(columns: seq<(ColumnId, string)>, values: Values, key: string)
    requires IsSubmitted(values, key)
    ensures key in KeysOf(Loaded(columns, values)) <==> key in KeysOf(columns)
    ensures key in KeysOf(columns) ==> KeysOf(Loaded(columns, values))[key] == KeysOf(columns)[key]
  {
    hide IsSubmitted;
    if columns != [] {
      var init, last := columns[..|columns| - 1], columns[|columns| - 1];
      LoadedFinds(init, values, key);
      var before := Loaded(init, values);
      assert (before + [last])[..|before|] == before;
    }
  }

  /** The cells after building from the values, first to last. */
  function Built(values: Values, byKey: KeyMap): CellMap {
    if values == [] then map[] else
    var cells, v := Built(values[..|values| - 1], byKey), values[|values| - 1];
    if v.0 !in byKey || IsEmptyCell(v.1) then cells else cells[byKey[v.0] := v.1]
  }

  /** The cells that are not empty. */
  function Filled(cells: CellMap): CellMap {
    map id | id in cells && !IsEmptyCell(cells[id]) :: cells[id]
  }

  /** The cells after applying the values on top, first to last: an empty value deletes. */
  function Applied(base: CellMap, values: Values, byKey: KeyMap): CellMap {
    if values == [] then base else
    var cells, v := Applied(base, values[..|values| - 1], byKey), values[|values| - 1];
    if v.0 !in byKey then cells
    else if IsEmptyCell(v.1) then cells - {byKey[v.0]}
    else cells[byKey[v.0] := v.1]
  }

  function Merged(current: CellMap, values: Values, byKey: KeyMap): CellMap {
    Applied(Filled(current), values, byKey)
  }

  method MergeCells(current: CellMap, values: Values, byKey: KeyMap) returns (next: CellMap)
    ensures next == Merged(current, values, byKey)
  {
    hide IsEmptyCell;
    next := map[];
    var todo := current.Keys;
    while todo != {}
      invariant todo <= current.Keys
      invariant next == map id | id in current && id !in todo && !IsEmptyCell(current[id]) :: current[id]
    {
      var id :| id in todo;
      if !IsEmptyCell(current[id]) { next := next[id := current[id]]; }
      todo := todo - {id};
    }
    ghost var base := next;
    assert base == Filled(current);
    for i := 0 to |values|
      invariant next == Applied(base, values[..i], byKey)
    {
      assert values[..i + 1][..i] == values[..i];
      var (key, raw) := values[i];
      if key in byKey {
        if IsEmptyCell(raw) { next := next - {byKey[key]}; } else { next := next[byKey[key] := raw]; }
      }
    }
    assert values[..|values|] == values;
  }

  // ----- what merging means, column by column -----

  /** The last value that names the column. */
  function LastFor(values: Values, byKey: KeyMap, id: ColumnId): Option<Json> {
    if values == [] then None else
    var v := values[|values| - 1];
    if v.0 in byKey && byKey[v.0] == id then Some(v.1) else LastFor(values[..|values| - 1], byKey, id)
  }

  function CellAt(cells: CellMap, id: ColumnId): Option<Json> {
    if id in cells then Some(cells[id]) else None
  }

  /** The last value naming a column decides about its cell; a column not named keeps its cell. */
  lemma {:induction false} AppliedAt(base: CellMap, values: Values, byKey: KeyMap, id: ColumnId)
    ensures CellAt(Applied(base, values, byKey), id) ==
      var v := LastFor(values, byKey, id);
      if v.None? then CellAt(base, id) else if IsEmptyCell(v.value) then None else Some(v.value)
  {
    hide IsEmptyCell;
    if values != [] {
      AppliedAt(base, values[..|values| - 1], byKey, id);
    }
  }

  lemma MergedAt(current: CellMap, values: Values, byKey: KeyMap, id: ColumnId)
    ensures CellAt(Merged(current, values, byKey), id) ==
      var v := LastFor(values, byKey, id);
      if v.None? then (if id in current && !IsEmptyCell(current[id]) then Some(current[id]) else None)
      else if IsEmptyCell(v.value) then None else Some(v.value)
  {
    hide IsEmptyCell, Applied;
    AppliedAt(Filled(current), values, byKey, id);
  }

  /** What a value leaves in a cell: null and blank text leave none. */
  function Stored(raw: Json): Option<Json> {
    match raw
    case Null => None
    case Str(text) => if Trim(text) == "" then None else Some(raw)
    case Other(_) => Some(raw)
  }

  /** After merging a column holds what the last value naming it leaves, or else what its own cell leaves. */
  lemma MergedStores(current: CellMap, values: Values, byKey: KeyMap, id: ColumnId)
    ensures CellAt(Merged(current, values, byKey), id) ==
      var v := LastFor(values, byKey, id);
      if v.Some? then Stored(v.value) else if id in current then Stored(current[id]) else None
  {
    hide Merged, Trim;
    MergedAt(current, values, byKey, id);
  }

  /** The value names the column and is not empty. */
  predicate Fills(value: (string, Json), byKey: KeyMap, id: ColumnId) {
    value.0 in byKey && byKey[value.0] == id && !IsEmptyCell(value.1)
  }

  predicate IsLastFill(values: Values, i: int, byKey: KeyMap, id: ColumnId) {
    0 <= i < |values| && Fills(values[i], byKey, id) && forall j | i < j < |values| :: !Fills(values[j], byKey, id)
  }

  /** After building, a column holds the last non-empty value that names it; an empty value does
      not take an earlier one away. */
  lemma {:induction false} BuiltAt(values: Values, byKey: KeyMap, id: ColumnId)
    ensures id in Built(values, byKey) <==> exists i | 0 <= i < |values| :: Fills(values[i], byKey, id)
    ensures id in Built(values, byKey)
            ==> exists i :: IsLastFill(values, i, byKey, id) && Built(values, byKey)[id] == values[i].1
  {
    hide IsEmptyCell;
    if values != [] {
      var init, k := values[..|values| - 1], |values| - 1;
      BuiltAt(init, byKey, id);
      if Fills(values[k], byKey, id) {
        assert IsLastFill(values, k, byKey, id);
      } else if id in Built(init, byKey) {
        var i :| IsLastFill(init, i, byKey, id) && Built(init, byKey)[id] == init[i].1;
        assert IsLastFill(values, i, byKey, id) && values[i] == init[i];
      }
    }
  }

  method BuildCells(values: Values, byKey: KeyMap) returns (cells: CellMap)
    ensures cells == Built(values, byKey)
    ensures forall id :: id in cells <==> exists i | 0 <= i < |values| :: Fills(values[i], byKey, id)
    ensures forall id | id in cells :: exists i :: IsLastFill(values, i, byKey, id) && cells[id] == values[i].1
  {
    hide IsEmptyCell;
    cells := map[];
    for i := 0 to |values|
      invariant cells == Built(values[..i], byKey)
    {
      assert values[..i + 1][..i] == values[..i];
      var (key, raw) := values[i];
      if key in byKey && !IsEmptyCell(raw) { cells := cells[byKey[key] := raw]; }
    }
    assert values[..|values|] == values;
    forall id: ColumnId
      ensures id in cells <==> exists i | 0 <= i < |values| :: Fills(values[i], byKey, id)
      ensures id in cells ==> exists i :: IsLastFill(values, i, byKey, id) && cells[id] == values[i].1
    {
      BuiltAt(values, byKey, id);
    }
  }

  /** Only what the map says about the submitted keys matters. */
  lemma {:induction false} AppliedSame(base: CellMap, values: Values, byKey: KeyMap, other: KeyMap)
    requires forall k | 0 <= k < |values| :: SameLookup(byKey, other, values[k].0)
    ensures Applied(base, values, byKey) == Applied(base, values, other)
  {
    hide IsEmptyCell;
    if values != [] {
      assert SameLookup(byKey, other, values[|values| - 1].0);
      AppliedSame(base, values[..|values| - 1], byKey, other);
    }
  }

  predicate SameLookup(byKey: KeyMap, other: KeyMap, key: string) {
    (key in byKey <==> key in other) && (key in byKey ==> byKey[key] == other[key])
  }

  /** So the query that reads only the submitted columns merges as reading all of them would. */
  lemma LoadedMerges(current: CellMap, columns: seq<(ColumnId, string)>, values: Values)
    ensures Merged(current, values, KeysOf(Loaded(columns, values))) == Merged(current, values, KeysOf(columns))
  {
    hide KeysOf, Loaded, Applied;
    forall k | 0 <= k < |values|
      ensures SameLookup(KeysOf(Loaded(columns, values)), KeysOf(columns), values[k].0)
    {
      assert IsSubmitted(values, values[k].0);
      LoadedFinds(columns, values, values[k].0);
    }
    AppliedSame(Filled(current), values, KeysOf(Loaded(columns, values)), KeysOf(columns));
  }

  /** Merging leaves no empty cell behind. */
  lemma MergedIsFilled(current: CellMap, values: Values, byKey: KeyMap)
    ensures NoEmptyCells(Merged(current, values, byKey))
  {
    hide IsEmptyCell, Merged;
    forall id | id in Merged(current, values, byKey)
      ensures !IsEmptyCell(Merged(current, values, byKey)[id])
    {
      MergedAt(current, values, byKey, id);
    }
  }

  /** No two value keys name the same column. */
  predicate DistinctTargets(values: Values, byKey: KeyMap) {
    forall i, j | 0 <= i < j < |values| && values[i].0 in byKey && values[j].0 in byKey ::
      byKey[values[i].0] != byKey[values[j].0]
  }

  /** Then building is merging into no cells. (With two keys on one column it is not: an empty
      later value deletes when merging and is passed over when building.) */
  lemma {:induction false} BuiltIsMerged(values: Values, byKey: KeyMap)
    requires DistinctTargets(values, byKey)
    ensures Built(values, byKey) == Merged(map[], values, byKey)
  {
    hide IsEmptyCell;
    assert Filled(map[]) == map[];
    if values != [] {
      var init, v := values[..|values| - 1], values[|values| - 1];
      BuiltIsMerged(init, byKey);
      if v.0 in byKey && IsEmptyCell(v.1) {
        NotNamedBefore(init, v.0, byKey);
        AppliedAt(map[], init, byKey, byKey[v.0]);
        assert Applied(map[], init, byKey) - {byKey[v.0]} == Applied(map[], init, byKey);
      }
    }
  }

  lemma {:induction false} NotNamedBefore(values: Values, key: string, byKey: KeyMap)
    requires key in byKey
    requires forall i | 0 <= i < |values| && values[i].0 in byKey :: byKey[values[i].0] != byKey[key]
    ensures LastFor(values, byKey, byKey[key]) == None
  {
    if values != [] { NotNamedBefore(values[..|values| - 1], key, byKey); }
  }

  /** Two cell maps agree outside some columns. */
  predicate AgreeOff(a: CellMap, b: CellMap, off: set<ColumnId>) {
    forall id | id in a.Keys + b.Keys && id !in off :: CellAt(a, id) == CellAt(b, id)
  }

  lemma AgreesAt(a: CellMap, b: CellMap, off: set<ColumnId>, id: ColumnId)
    requires AgreeOff(a, b, off) && id !in off
    ensures CellAt(a, id) == CellAt(b, id)
  {
    if id !in a.Keys + b.Keys { assert CellAt(a, id) == None == CellAt(b, id); }
  }

  /** Merging the same values again changes nothing where nothing else has changed. */
  lemma MergeAgain(current: CellMap, derived: CellMap, values: Values, byKey: KeyMap, off: set<ColumnId>)
    requires NoEmptyCells(derived) && AgreeOff(derived, Merged(current, values, byKey), off)
    ensures AgreeOff(Merged(derived, values, byKey), Merged(current, values, byKey), off)
  {
    hide IsEmptyCell, Merged;
    var once, twice := Merged(current, values, byKey), Merged(derived, values, byKey);
    forall id | id in twice.Keys + once.Keys && id !in off
      ensures CellAt(twice, id) == CellAt(once, id)
    {
      MergedAt(current, values, byKey, id);
      MergedAt(derived, values, byKey, id);
      assert id in derived ==> CellAt(derived, id) == Some(derived[id]);
      if id !in derived && id in once { assert CellAt(derived, id) == CellAt(once, id); }
    }
  }
}
