/** When the database refuses an import chunk: two rows would get the same key. */
module CommitKeys {
  import opened JsText
  import opened RowEdits
  import opened ExternalKeys
  import opened ImportCommit
  import Decimals

  /** The input makes a new row under the key it brings. */
  predicate BringsKey(rows: seq<Row>, input: ImportRow) {
    FindRow(rows, input.externalKey).None? && GivenKey(input) != ""
  }

  /** The input makes a new row that draws a key. */
  predicate DrawsKey(rows: seq<Row>, input: ImportRow) {
    FindRow(rows, input.externalKey).None? && GivenKey(input) == ""
  }

  function DrawCount(rows: seq<Row>, chunk: seq<ImportRow>): nat {
    if chunk == [] then 0
    else DrawCount(rows, chunk[..|chunk| - 1]) + if DrawsKey(rows, chunk[|chunk| - 1]) then 1 else 0
  }

  function Brought(rows: seq<Row>, chunk: seq<ImportRow>): set<string> {
    set i | 0 <= i < |chunk| && BringsKey(rows, chunk[i]) :: GivenKey(chunk[i])
  }

  /** The keys the allocator gives during the chunk. */
  function Drawn(rows: seq<Row>, chunk: seq<ImportRow>): set<string> {
    set n | Highest(KeysIn(rows)) < n <= Highest(KeysIn(rows)) + DrawCount(rows, chunk) :: GeneratedKey(n)
  }

  /** The keys brought along differ from each other, from the plan's and from the drawn ones. */
  predicate NoClash(rows: seq<Row>, chunk: seq<ImportRow>) {
    && (forall i, j | 0 <= i < j < |chunk| && BringsKey(rows, chunk[i]) && BringsKey(rows, chunk[j]) ::
          GivenKey(chunk[i]) != GivenKey(chunk[j]))
    && (forall i | 0 <= i < |rows| && rows[i].externalKey.Some? :: rows[i].externalKey.value !in Brought(rows, chunk))
    && Brought(rows, chunk) !! Drawn(rows, chunk)
  }

  function NewKeys(pass: Pass): set<Option<string>> {
    PlanKeys(pass.toCreate)
  }

  function Somes(keys: set<string>): set<Option<string>> {
    set k | k in keys :: Some(k)
  }

  lemma Grow(rows: seq<Row>, chunk: seq<ImportRow>)
    requires chunk != []
    ensures
      var init, last := chunk[..|chunk| - 1], chunk[|chunk| - 1];
      && Brought(rows, chunk) == Brought(rows, init) + (if BringsKey(rows, last) then {GivenKey(last)} else {})
      && Drawn(rows, chunk) == Drawn(rows, init)
           + (if DrawsKey(rows, last) then {GeneratedKey(Highest(KeysIn(rows)) + DrawCount(rows, chunk))} else {})
  {
    hide GivenKey, FindRow, GeneratedKey, KeysIn, Highest;
  }

  /** The rows a pass creates carry the keys brought and the keys drawn. */
  lemma {:induction false} PassKeys(rows: seq<Row>, chunk: seq<ImportRow>, setup: Setup)
    ensures
      var pass := PassOver(rows, chunk, setup);
      && pass.highest == Highest(KeysIn(rows)) + DrawCount(rows, chunk)
      && NewKeys(pass) == Somes(Brought(rows, chunk) + Drawn(rows, chunk))
      && forall i | 0 <= i < |rows| :: pass.rows[i].externalKey == rows[i].externalKey
  {
    hide Updating, Creating, GivenKey, FindRow, GeneratedKey, KeysIn, Highest, Brought, Drawn;
    var pass := PassOver(rows, chunk, setup);
    if chunk == [] {
      NothingYet(rows);
    } else {
      var init, last := chunk[..|chunk| - 1], chunk[|chunk| - 1];
      PassKeys(rows, init, setup);
      Grow(rows, chunk);
      var before := PassOver(rows, init, setup);
      var at := FindRow(rows, last.externalKey);
      if at.Some? {
        KeysKept(before.rows[at.value], rows[at.value], last, "", setup);
      } else {
        var key := if GivenKey(last) != "" then GivenKey(last) else GeneratedKey(before.highest + 1);
        KeysKept(Blank(last, key), Blank(last, key), last, key, setup);
        AddedKey(before.toCreate, Creating(last, key, setup));
      }
    }
  }

  lemma NothingYet(rows: seq<Row>)
    ensures Brought(rows, []) == {} && Drawn(rows, []) == {}
  {
  }

  lemma KeysOfBoth(a: seq<Row>, b: seq<Row>)
    ensures PlanKeys(a + b) == PlanKeys(a) + PlanKeys(b)
  {
    forall i | 0 <= i < |a| ensures a[i].externalKey in PlanKeys(a + b) {
      assert (a + b)[i] == a[i];
    }
    forall i | 0 <= i < |b| ensures b[i].externalKey in PlanKeys(a + b) {
      assert (a + b)[|a| + i] == b[i];
    }
  }

  lemma AddedKey(rows: seq<Row>, row: Row)
    ensures PlanKeys(rows + [row]) == PlanKeys(rows) + {row.externalKey}
  {
    KeysOfBoth(rows, [row]);
    assert [row][0] == row;
    assert PlanKeys([row]) == {row.externalKey};
  }

  lemma UniqueAppend(all: seq<Row>, row: Row)
    requires row.externalKey.Some?
    ensures UniqueKeys(all + [row]) <==> UniqueKeys(all) && row.externalKey !in PlanKeys(all)
  {
    var more := all + [row];
    if UniqueKeys(more) {
      forall i, j | 0 <= i < j < |all| && all[i].externalKey.Some? ensures all[i].externalKey != all[j].externalKey {
        assert more[i] == all[i] && more[j] == all[j];
      }
      forall i | 0 <= i < |all| ensures all[i].externalKey != row.externalKey {
        assert more[i] == all[i] && more[|all|] == row;
      }
    }
  }

  lemma UniqueWith(rows: seq<Row>, new': seq<Row>, row: Row)
    requires row.externalKey.Some?
    ensures UniqueKeys(rows + (new' + [row])) <==>
              UniqueKeys(rows + new') && row.externalKey !in PlanKeys(rows) + PlanKeys(new')
  {
    hide UniqueKeys, PlanKeys;
    assert rows + (new' + [row]) == (rows + new') + [row];
    KeysOfBoth(rows, new');
    UniqueAppend(rows + new', row);
  }

  /** A drawn key is neither in the plan nor drawn before. */
  lemma DrawnIsFresh(rows: seq<Row>, chunk: seq<ImportRow>, n: nat)
    requires n > Highest(KeysIn(rows)) + DrawCount(rows, chunk)
    ensures Some(GeneratedKey(n)) !in PlanKeys(rows) && GeneratedKey(n) !in Drawn(rows, chunk)
  {
    hide GeneratedKey, Highest, FindRow;
    GeneratedIsFresh(KeysIn(rows), n);
    MapAt(rows);
    forall m | Highest(KeysIn(rows)) < m <= Highest(KeysIn(rows)) + DrawCount(rows, chunk)
      ensures GeneratedKey(m) != GeneratedKey(n)
    {
      GeneratedInjective(m, n);
    }
  }

  lemma {:induction false} MapAt(rows: seq<Row>)
    ensures |KeysIn(rows)| == |rows| && forall i | 0 <= i < |rows| :: KeysIn(rows)[i] == rows[i].externalKey
  {
  }

  lemma NoClashStep(rows: seq<Row>, chunk: seq<ImportRow>)
    requires chunk != []
    ensures
      var init, last := chunk[..|chunk| - 1], chunk[|chunk| - 1];
      NoClash(rows, chunk) <==>
        && NoClash(rows, init)
        && (BringsKey(rows, last) ==>
              GivenKey(last) !in Brought(rows, init) + Drawn(rows, init) && Some(GivenKey(last)) !in PlanKeys(rows))
        && (DrawsKey(rows, last) ==>
              GeneratedKey(Highest(KeysIn(rows)) + DrawCount(rows, chunk)) !in Brought(rows, init))
  {
    hide GivenKey, FindRow, GeneratedKey, KeysIn, Highest, Drawn, DrawCount;
    Grow(rows, chunk);
  }

  lemma {:induction false} CreatedUnique(rows: seq<Row>, chunk: seq<ImportRow>, setup: Setup)
    requires UniqueKeys(rows)
    ensures UniqueKeys(rows + PassOver(rows, chunk, setup).toCreate) <==> NoClash(rows, chunk)
  {
    hide Updating, Creating, GivenKey, FindRow, GeneratedKey, KeysIn, Highest, Drawn, Brought, NoClash, UniqueKeys,
         PlanKeys;
    if chunk == [] {
      assert rows + [] == rows;
      NoClashOfNone(rows);
    } else {
      var init, last := chunk[..|chunk| - 1], chunk[|chunk| - 1];
      CreatedUnique(rows, init, setup);
      PassKeys(rows, init, setup);
      NoClashStep(rows, chunk);
      var before := PassOver(rows, init, setup);
      if FindRow(rows, last.externalKey).None? {
        var key := if GivenKey(last) != "" then GivenKey(last) else GeneratedKey(before.highest + 1);
        KeysKept(Blank(last, key), Blank(last, key), last, key, setup);
        UniqueWith(rows, before.toCreate, Creating(last, key, setup));
        DrawnIsFresh(rows, init, before.highest + 1);
      }
    }
  }

  lemma NoClashOfNone(rows: seq<Row>)
    ensures NoClash(rows, [])
  {
  }

  lemma SameKeysUnique(a: seq<Row>, b: seq<Row>, more: seq<Row>)
    requires |a| == |b| && forall i | 0 <= i < |a| :: a[i].externalKey == b[i].externalKey
    ensures UniqueKeys(a + more) <==> UniqueKeys(b + more)
  {
    assert forall i | 0 <= i < |a| + |more| :: (a + more)[i].externalKey == (b + more)[i].externalKey;
  }

  /** A commit is refused exactly when keys clash: two inputs bring the same new key, one brings a
      key the plan has under another spelling, or one brings a key that the chunk also draws. */
  lemma CommitsUnlessKeysClash(rows: seq<Row>, chunk: seq<ImportRow>, setup: Setup)
    requires UniqueKeys(rows) && Highest(KeysIn(rows)) + |chunk| < MAX_SAFE
    ensures Committed(rows, chunk, setup).Some? <==> NoClash(rows, chunk)
  {
    hide PassOver, NoClash, UniqueKeys;
    CreatedUnique(rows, chunk, setup);
    PassKeys(rows, chunk, setup);
    SameKeysUnique(PassOver(rows, chunk, setup).rows, rows, PassOver(rows, chunk, setup).toCreate);
  }

  /** The key of a one-digit number. */
  lemma SmallKey(n: nat, digit: string)
    requires 0 < n < 10 && digit == [('0' as int + n) as char]
    ensures GeneratedKey(n) == "A-000" + digit
  {
    assert Decimals.Print(n) == digit;
    assert Decimals.PadStart("000" + digit, 4) == "000" + digit;
    assert "0" + ("00" + digit) == "000" + digit && "0" + ("0" + digit) == "00" + digit;
    assert Decimals.PadStart("00" + digit, 4) == "000" + digit;
    assert Decimals.PadStart("0" + digit, 4) == "000" + digit;
    assert Decimals.PadStart(digit, 4) == "000" + digit;
  }

  /** The allocator does not know the keys a chunk brings: a file whose first row is A-0001 and whose
      second row has no key is refused by an empty plan, although no two of its keys are the same. */
  lemma BroughtKeyDrawnAgain(first: ImportRow, second: ImportRow, setup: Setup)
    requires first.externalKey == Some("A-0001") && second.externalKey == None
    ensures Committed([], [first, second], setup) == None
  {
    var chunk := [first, second];
    TrimIsTrimmed("A-0001");
    SmallKey(1, "1");
    assert "A-000" + "1" == "A-0001";
    assert chunk[..1] == [first] && chunk[..0] == [];
    assert DrawCount([], chunk[..1]) == 0;
    assert DrawCount([], chunk) == 1;
    assert "A-0001" in Drawn([], chunk) && GivenKey(chunk[0]) in Brought([], chunk);
    assert KeysIn([]) == [];
    CommitsUnlessKeysClash([], chunk, setup);
  }
}
