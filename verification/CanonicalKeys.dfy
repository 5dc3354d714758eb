/** Canonical keys of columns: assigned to a whole list at once, or picked column by column.
    The catalogue lookup matchCanonical is a parameter. */
module CanonicalKeys {
  import opened JsText

  type Matcher = string -> Option<string>

  datatype Column = Column(id: string, caption: string, sortOrder: int)
  datatype Assignment = Assignment(id: string, canonicalKey: Option<string>)

  /** The key a caption matches; an empty key counts as none. */
  function KeyOf(match': Matcher, caption: string): Option<string> {
    if match'(caption) == Some("") then None else match'(caption)
  }

  predicate DistinctIds(columns: seq<Column>) {
    forall i, j | 0 <= i < j < |columns| :: columns[i].id != columns[j].id
  }

  // ----- the batch form -----

  /** The column with the lowest sort order among those that match the key; the earliest of these. */
  function Winner(match': Matcher, columns: seq<Column>, key: string): (w: Option<Column>)
    ensures w.Some? ==> w.value in columns && KeyOf(match', w.value.caption) == Some(key)
  {
    if columns == [] then None else
    var last := columns[|columns| - 1];
    var before := Winner(match', columns[..|columns| - 1], key);
    if KeyOf(match', last.caption) == Some(key) && (before.None? || last.sortOrder < before.value.sortOrder)
    then Some(last) else before
  }

  /** The key the batch form gives to a column. */
  function BatchKey(match': Matcher, columns: seq<Column>, column: Column): Option<string> {
    var key := KeyOf(match', column.caption);
    if key.Some? && Winner(match', columns, key.value) == Some(column) then key else None
  }

  /** `winners` is the map of winners of these columns. */
  ghost predicate AreWinners(match': Matcher, columns: seq<Column>, winners: map<string, Column>) {
    forall key :: Winner(match', columns, key) == if key in winners then Some(winners[key]) else None
  }

  method AssignCanonicalKeys(match': Matcher, columns: seq<Column>) returns (result: seq<Assignment>)
    requires DistinctIds(columns)
    ensures |result| == |columns|
    ensures forall i | 0 <= i < |columns| ::
              result[i] == Assignment(columns[i].id, BatchKey(match', columns, columns[i]))
  {
    hide KeyOf;
    var winnerByKey: map<string, Column> := map[];
    for i := 0 to |columns|
      invariant AreWinners(match', columns[..i], winnerByKey)
    {
      var column := columns[i];
      var key := KeyOf(match', column.caption);
      assert columns[..i + 1][..i] == columns[..i];
      if key.Some? {
        if key.value !in winnerByKey || column.sortOrder < winnerByKey[key.value].sortOrder {
          winnerByKey := winnerByKey[key.value := column];
        }
      }
    }
    assert columns[..|columns|] == columns;
    var keyByColumnId := KeysByColumn(match', columns, winnerByKey);
    result := [];
    for i := 0 to |columns|
      invariant |result| == i
      invariant forall k | 0 <= k < i ::
                  result[k] == Assignment(columns[k].id, BatchKey(match', columns, columns[k]))
    {
      var id := columns[i].id;
      result := result + [Assignment(id, if id in keyByColumnId then Some(keyByColumnId[id]) else None)];
    }
  }

  /** The second loop: the winners' keys, looked up by column id. */
  method KeysByColumn(match': Matcher, columns: seq<Column>, winnerByKey: map<string, Column>)
      returns (keyByColumnId: map<string, string>)
    requires DistinctIds(columns) && AreWinners(match', columns, winnerByKey)
    ensures forall c | c in columns ::
              BatchKey(match', columns, c) == if c.id in keyByColumnId then Some(keyByColumnId[c.id]) else None
  {
    hide KeyOf, Winner;
    forall key | key in winnerByKey
      ensures winnerByKey[key] in columns && KeyOf(match', winnerByKey[key].caption) == Some(key)
    {
      assert Winner(match', columns, key) == Some(winnerByKey[key]);
    }
    keyByColumnId := map[];
    var todo := winnerByKey.Keys;
    while todo != {}
      invariant todo <= winnerByKey.Keys
      invariant forall c | c in columns ::
        (c.id in keyByColumnId <==>
          exists key :: key in winnerByKey && key !in todo && winnerByKey[key] == c)
      invariant forall c | c in columns && c.id in keyByColumnId ::
        keyByColumnId[c.id] in winnerByKey && winnerByKey[keyByColumnId[c.id]] == c
    {
      var key :| key in todo;
      SameIdSameColumn(columns, winnerByKey[key]);
      keyByColumnId := keyByColumnId[winnerByKey[key].id := key];
      todo := todo - {key};
    }
    forall c | c in columns
      ensures BatchKey(match', columns, c) == if c.id in keyByColumnId then Some(keyByColumnId[c.id]) else None
    {
      var given := BatchKey(match', columns, c);
      if given.Some? {
        assert Winner(match', columns, given.value) == Some(c);
        assert given.value in winnerByKey && winnerByKey[given.value] == c;
      }
      if c.id in keyByColumnId {
        assert Winner(match', columns, keyByColumnId[c.id]) == Some(c);
      }
    }
  }

  lemma SameIdSameColumn(columns: seq<Column>, c: Column)
    requires DistinctIds(columns) && c in columns
    ensures forall d | d in columns && d.id == c.id :: d == c
  {
  }

  // ----- the greedy form -----

  /** The caller's set of taken keys, which every pick may add to. */
  class TakenKeys {
    var keys: set<string>

    constructor (initial: set<string>)
      ensures keys == initial
    {
      keys := initial;
    }

    method PickCanonicalKey(match': Matcher, caption: string) returns (key: Option<string>)
      modifies this
      ensures key == Pick(match', caption, old(keys))
      ensures keys == old(keys) + Given(key)
    {
      key := KeyOf(match', caption);
      if key.None? || key.value in keys { return None; }
      keys := keys + {key.value};
    }
  }

  function Pick(match': Matcher, caption: string, taken: set<string>): Option<string> {
    var key := KeyOf(match', caption);
    if key.Some? && key.value !in taken then key else None
  }

  function Given(key: Option<string>): set<string> {
    if key.Some? then {key.value} else {}
  }

  /** Picking for one column after another. */
  function PickEach(match': Matcher, columns: seq<Column>, taken: set<string>): (keys: seq<Option<string>>)
    ensures |keys| == |columns|
  {
    if columns == [] then [] else
    var key := Pick(match', columns[0].caption, taken);
    [key] + PickEach(match', columns[1..], taken + Given(key))
  }

  /** The loop that creates a sheet's columns: each column gets the key its caption picks. */
  method PickForColumns(match': Matcher, columns: seq<Column>, taken: TakenKeys) returns (keys: seq<Option<string>>)
    modifies taken
    ensures keys == PickEach(match', columns, old(taken.keys))
  {
    hide KeyOf, Pick, Given;
    keys := [];
    assert columns[0..] == columns;
    for i := 0 to |columns|
      invariant |keys| == i
      invariant PickEach(match', columns, old(taken.keys)) == keys + PickEach(match', columns[i..], taken.keys)
    {
      assert columns[i..][1..] == columns[i + 1..];
      var key := taken.PickCanonicalKey(match', columns[i].caption);
      keys := keys + [key];
    }
  }

  // ----- the two forms agree -----

  /** `t` with `x` behind all columns of the same or a lower sort order. */
  function Insert(t: seq<Column>, x: Column): seq<Column> {
    if t == [] || x.sortOrder < t[0].sortOrder then [x] + t else [t[0]] + Insert(t[1..], x)
  }

  function StableSort(columns: seq<Column>): seq<Column> {
    if columns == [] then [] else Insert(StableSort(columns[..|columns| - 1]), columns[|columns| - 1])
  }

  predicate SortedByOrder(t: seq<Column>) {
    forall i, j | 0 <= i < j < |t| :: t[i].sortOrder <= t[j].sortOrder
  }

  function WithOrder(t: seq<Column>, v: int): seq<Column> {
    if t == [] then [] else
    WithOrder(t[..|t| - 1], v) + (if t[|t| - 1].sortOrder == v then [t[|t| - 1]] else [])
  }

  lemma {:induction false} WithOrderConcat(a: seq<Column>, b: seq<Column>, v: int)
    ensures WithOrder(a + b, v) == WithOrder(a, v) + WithOrder(b, v)
  {
    if b == [] {
      assert a + b == a;
    } else {
      WithOrderConcat(a, b[..|b| - 1], v);
      assert (a + b)[..|a + b| - 1] == a + b[..|b| - 1];
    }
  }

  lemma {:induction false} NoneWithOrder(t: seq<Column>, v: int)
    requires forall i | 0 <= i < |t| :: t[i].sortOrder != v
    ensures WithOrder(t, v) == []
  {
    if t != [] { NoneWithOrder(t[..|t| - 1], v); }
  }

  lemma {:induction false} InsertPermutes(t: seq<Column>, x: Column)
    ensures multiset(Insert(t, x)) == multiset(t) + multiset{x}
  {
    if !(t == [] || x.sortOrder < t[0].sortOrder) {
      InsertPermutes(t[1..], x);
      assert t == [t[0]] + t[1..];
    }
  }

  lemma {:induction false} InsertSorts(t: seq<Column>, x: Column)
    requires SortedByOrder(t)
    ensures SortedByOrder(Insert(t, x))
  {
    if !(t == [] || x.sortOrder < t[0].sortOrder) {
      InsertSorts(t[1..], x);
      InsertKeepsBound(t[1..], x, t[0].sortOrder);
    }
  }

  lemma {:induction false} InsertIsStable(t: seq<Column>, x: Column, v: int)
    requires SortedByOrder(t)
    ensures WithOrder(Insert(t, x), v) == WithOrder(t + [x], v)
  {
    hide WithOrder;
    if t == [] || x.sortOrder < t[0].sortOrder {
      WithOrderConcat([x], t, v);
      WithOrderConcat(t, [x], v);
      if x.sortOrder == v { NoneWithOrder(t, v); } else { NoneWithOrder([x], v); }
    } else {
      InsertIsStable(t[1..], x, v);
      assert t + [x] == [t[0]] + (t[1..] + [x]);
      WithOrderConcat([t[0]], Insert(t[1..], x), v);
      WithOrderConcat([t[0]], t[1..] + [x], v);
    }
  }

  lemma {:induction false} InsertKeepsBound(t: seq<Column>, x: Column, low: int)
    requires x.sortOrder >= low && forall i | 0 <= i < |t| :: t[i].sortOrder >= low
    ensures forall i | 0 <= i < |Insert(t, x)| :: Insert(t, x)[i].sortOrder >= low
  {
    if !(t == [] || x.sortOrder < t[0].sortOrder) { InsertKeepsBound(t[1..], x, low); }
  }

  /** The sorted list: in order, a permutation, and stable within every sort order. */
  lemma {:induction false} StableSortIsStable(columns: seq<Column>, v: int)
    ensures SortedByOrder(StableSort(columns))
    ensures multiset(StableSort(columns)) == multiset(columns)
    ensures WithOrder(StableSort(columns), v) == WithOrder(columns, v)
  {
    hide Insert, SortedByOrder;
    if columns == [] {
      assert SortedByOrder([]) by { NothingSorted(); }
    } else {
      var init, last := columns[..|columns| - 1], columns[|columns| - 1];
      StableSortIsStable(init, v);
      InsertPermutes(StableSort(init), last);
      InsertSorts(StableSort(init), last);
      InsertIsStable(StableSort(init), last, v);
      WithOrderConcat(StableSort(init), [last], v);
      WithOrderConcat(init, [last], v);
      assert columns == init + [last];
    }
  }

  lemma NothingSorted()
    ensures SortedByOrder([])
  {
  }

  /** The first column of a list that matches the key. */
  function First(match': Matcher, t: seq<Column>, key: string): (f: Option<Column>)
    ensures f.Some? ==> f.value in t && KeyOf(match', f.value.caption) == Some(key)
    ensures f.None? ==> forall c | c in t :: KeyOf(match', c.caption) != Some(key)
  {
    if t == [] then None
    else if KeyOf(match', t[0].caption) == Some(key) then Some(t[0])
    else First(match', t[1..], key)
  }

  lemma {:induction false} FirstAfterInsert(match': Matcher, t: seq<Column>, x: Column, key: string)
    requires SortedByOrder(t)
    ensures First(match', Insert(t, x), key) ==
      var before := First(match', t, key);
      if KeyOf(match', x.caption) == Some(key) && (before.None? || x.sortOrder < before.value.sortOrder)
      then Some(x) else before
  {
    hide KeyOf;
    if t == [] {
    } else if x.sortOrder < t[0].sortOrder {
      assert ([x] + t)[1..] == t;
      var before := First(match', t, key);
      if before.Some? {
        var i :| 0 <= i < |t| && t[i] == before.value;
      }
    } else {
      FirstAfterInsert(match', t[1..], x, key);
      assert Insert(t, x)[1..] == Insert(t[1..], x);
    }
  }

  /** The batch winner is the first match in the stably sorted list. */
  lemma {:induction false} WinnerIsFirst(match': Matcher, columns: seq<Column>, key: string)
    ensures Winner(match', columns, key) == First(match', StableSort(columns), key)
  {
    hide KeyOf, Insert, First;
    if columns == [] {
      assert First(match', [], key) == None by { NothingFirst(match', key); }
    } else {
      var init := columns[..|columns| - 1];
      WinnerIsFirst(match', init, key);
      StableSortIsStable(init, 0);
      FirstAfterInsert(match', StableSort(init), columns[|columns| - 1], key);
    }
  }

  lemma NothingFirst(match': Matcher, key: string)
    ensures First(match', [], key) == None
  {
  }

  /** The greedy form gives a column its key when it is the first one to match it. */
  lemma {:induction false} PickIsFirst(match': Matcher, t: seq<Column>, taken: set<string>, j: nat)
    requires DistinctIds(t) && j < |t|
    ensures PickEach(match', t, taken)[j] ==
      var key := KeyOf(match', t[j].caption);
      if key.Some? && key.value !in taken && First(match', t, key.value) == Some(t[j]) then key else None
  {
    hide KeyOf;
    if j > 0 {
      var given := Given(Pick(match', t[0].caption, taken));
      PickIsFirst(match', t[1..], taken + given, j - 1);
      assert t[1..][j - 1] == t[j];
      assert t[0].id != t[j].id;
    }
  }

  lemma PermutationKeepsIds(a: seq<Column>, b: seq<Column>)
    requires DistinctIds(a) && multiset(a) == multiset(b)
    ensures DistinctIds(b)
  {
    forall i, j | 0 <= i < j < |b|
      ensures b[i].id != b[j].id
    {
      assert b[i] in multiset(b) && b[j] in multiset(b);
      assert b[i] in a && b[j] in a;
      if b[i] == b[j] {
        var c := b[i];
        assert b == b[..j] + [b[j]] + b[j + 1..];
        assert c in b[..j];
        assert multiset(b)[c] >= 2;
        OnceOnly(a, c);
      }
    }
  }

  lemma {:induction false} OnceOnly(a: seq<Column>, c: Column)
    requires DistinctIds(a)
    ensures multiset(a)[c] <= 1
  {
    if a != [] {
      var init := a[..|a| - 1];
      OnceOnly(init, c);
      assert a == init + [a[|a| - 1]];
      if c in init {
        var i :| 0 <= i < |init| && init[i] == c;
        assert a[i].id != a[|a| - 1].id;
      }
    }
  }

  /** Assigning keys to a list of columns is picking them, from an empty set, along the list
      stably sorted by sort order. */
  lemma BatchEqualsGreedy(match': Matcher, columns: seq<Column>, j: nat)
    requires DistinctIds(columns) && j < |StableSort(columns)|
    ensures PickEach(match', StableSort(columns), {})[j] == BatchKey(match', columns, StableSort(columns)[j])
  {
    hide KeyOf, First, Winner, StableSort, PickEach, DistinctIds;
    var t := StableSort(columns);
    StableSortIsStable(columns, 0);
    PermutationKeepsIds(columns, t);
    PickIsFirst(match', t, {}, j);
    var key := KeyOf(match', t[j].caption);
    if key.Some? { WinnerIsFirst(match', columns, key.value); }
  }

  /** No key is given twice, and a key is given as soon as some caption matches it. */
  lemma EveryMatchedKeyGivenOnce(match': Matcher, columns: seq<Column>, key: string)
    requires DistinctIds(columns)
    ensures forall c, d | c in columns && d in columns && BatchKey(match', columns, c) == Some(key)
                          && BatchKey(match', columns, d) == Some(key) :: c == d
    ensures (exists c :: c in columns && BatchKey(match', columns, c) == Some(key))
       <==> key != "" && exists c :: c in columns && match'(c.caption) == Some(key)
    ensures forall c :: BatchKey(match', columns, c) == Some(key) ==> key != "" && match'(c.caption) == Some(key)
  {
    WinnerExists(match', columns, key);
    var w := Winner(match', columns, key);
    if w.Some? {
      assert BatchKey(match', columns, w.value) == Some(key);
    }
  }

  lemma {:induction false} WinnerExists(match': Matcher, columns: seq<Column>, key: string)
    ensures Winner(match', columns, key).None? ==> forall c | c in columns :: KeyOf(match', c.caption) != Some(key)
  {
    hide KeyOf;
    if columns != [] {
      WinnerExists(match', columns[..|columns| - 1], key);
    }
  }
}
