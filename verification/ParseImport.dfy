/** importFromParse: the rows of a parsed file are staged one by one, checked, collected in batches
    and handed to importJson. */
module ParseImport {
  import opened JsText
  import opened ExternalKeys
  import opened RowEdits
  import opened ImportCommit
  import opened SheetImport
  import Headers
  import PhysicalRows

  const FLUSH_SIZE: nat := 500

  type PhysicalRow = PhysicalRows.PhysicalRow

  /** The choices of the import: where the header is, how a padded line becomes a row (given the
      headers), which rows are invalid or blank, and whether a column is mapped to the external key. */
  datatype Mapping = Mapping(
    headerRowIndex: nat,
    width: nat,
    toRow: (seq<string>, seq<string>, nat) -> JsonRow,
    isInvalid: JsonRow -> bool,
    isBlank: JsonRow -> bool,
    upsertByKey: bool)

  // ----- the rows of the file -----

  predicate HasText(values: seq<string>) {
    exists k | 0 <= k < |values| :: Trim(values[k]) != ""
  }

  /** padRow: cut or filled up to the width. */
  function Padded(values: seq<string>, width: nat): (padded: seq<string>)
    ensures |padded| == width
    ensures forall k | 0 <= k < width :: padded[k] == if k < |values| then values[k] else ""
  {
    if |values| >= width then values[..width] else values + seq(width - |values|, _ => "")
  }

  function HeaderNames(values: seq<string>): seq<string> {
    Headers.UniqueNames(values[..Headers.HeaderCount(values)], Headers.HeaderCount(values))
  }

  /** The headers known after these rows. */
  function HeadersSeen(rows: seq<PhysicalRow>, mapping: Mapping): seq<string> {
    if rows == [] then []
    else if rows[|rows| - 1].line == mapping.headerRowIndex then HeaderNames(rows[|rows| - 1].values)
    else HeadersSeen(rows[..|rows| - 1], mapping)
  }

  predicate IsData(row: PhysicalRow, mapping: Mapping) {
    row.line > mapping.headerRowIndex && HasText(row.values)
  }

  /** The data rows: below the header, with some text. */
  function DataRows(rows: seq<PhysicalRow>, mapping: Mapping): (data: seq<JsonRow>)
    ensures |data| <= |rows|
  {
    if rows == [] then [] else
    var init, last := rows[..|rows| - 1], rows[|rows| - 1];
    if !IsData(last, mapping) then DataRows(init, mapping)
    else DataRows(init, mapping)
         + [mapping.toRow(HeadersSeen(init, mapping), Padded(last.values, mapping.width), last.line)]
  }

  function Capped(data: seq<JsonRow>, cap: nat): (capped: seq<JsonRow>)
    ensures |capped| <= cap && capped <= data
  {
    if |data| <= cap then data else data[..cap]
  }

  function SeenKeys(data: seq<JsonRow>): set<string> {
    set k | 0 <= k < |data| && NotBlank(data[k].externalKey).Some? :: NotBlank(data[k].externalKey).value
  }

  /** A row goes on when its key has not been seen in the file before, and it is valid and not blank. */
  predicate Accepts(seen: set<string>, row: JsonRow, mapping: Mapping) {
    var key := NotBlank(row.externalKey);
    (key.None? || key.value !in seen) && !mapping.isInvalid(row) && !mapping.isBlank(row)
  }

  function Accepted(data: seq<JsonRow>, mapping: Mapping): (accepted: seq<JsonRow>)
    ensures |accepted| <= |data|
  {
    if data == [] then [] else
    var init, last := data[..|data| - 1], data[|data| - 1];
    Accepted(init, mapping) + if Accepts(SeenKeys(init), last, mapping) then [last] else []
  }

  // ----- flushing -----

  datatype Run = Run(rows: seq<Row>, imported: nat, skipped: nat, quotaReached: bool, failed: bool, flushes: nat)

  function Begin(rows: seq<Row>): Run {
    Run(rows, 0, 0, false, false, 0)
  }

  /** What a run depends on besides the file; each flush has faults of its own. */
  datatype World = World(reader: Reader, setup: Setup, limits: Limits, otherRows: nat, faults: nat -> Faults)

  function EnvOf(world: World, flush: nat): Env {
    Env(world.setup, world.limits, world.otherRows, world.faults(flush))
  }

  /** The first flush replaces the plan's rows, unless rows are matched by key. */
  function Flushed(run: Run, chunk: seq<JsonRow>, mapping: Mapping, world: World): Run {
    if run.failed || run.quotaReached || chunk == [] then run else
    var (rows, outcome) :=
      AfterJson(run.rows, chunk, run.flushes == 0 && !mapping.upsertByKey, world.reader, EnvOf(world, run.flushes));
    if outcome.QuotaError? then run.(rows := rows, failed := true)
    else
      Run(rows, run.imported + outcome.imported, run.skipped + outcome.skipped, outcome.quotaReached, false,
          run.flushes + 1)
  }

  /** The first `n` full chunks of the accepted rows. */
  function AfterChunks(start: Run, accepted: seq<JsonRow>, n: nat, mapping: Mapping, world: World): Run
    requires n * FLUSH_SIZE <= |accepted|
  {
    if n == 0 then start
    else Flushed(AfterChunks(start, accepted, n - 1, mapping, world),
                 accepted[(n - 1) * FLUSH_SIZE..n * FLUSH_SIZE], mapping, world)
  }

  /** All full chunks, and then the rest. */
  function AfterAll(start: Run, accepted: seq<JsonRow>, mapping: Mapping, world: World): Run {
    var n := |accepted| / FLUSH_SIZE;
    Flushed(AfterChunks(start, accepted, n, mapping, world), accepted[n * FLUSH_SIZE..], mapping, world)
  }

  /** The data rows of the file that count ... */
  function Considered(rows: seq<PhysicalRow>, mapping: Mapping, world: World): (data: seq<JsonRow>)
    ensures |data| <= |rows| && |data| <= world.limits.maxRowsPerTenant
  {
    Capped(DataRows(rows, mapping), world.limits.maxRowsPerTenant)
  }

  /** ... and the run over those of them that are accepted. */
  function WholeRun(plan: seq<Row>, data: seq<JsonRow>, mapping: Mapping, world: World): Run {
    AfterAll(Begin(plan), Accepted(data, mapping), mapping, world)
  }

  // ----- what a flush keeps -----

  predicate WithinLimits(rows: seq<Row>, world: World) {
    Active(rows) <= world.limits.maxRowsPerSheet && |rows| + world.otherRows <= world.limits.maxRowsPerTenant
  }

  /** A flush counts each of its rows once, and whenever one has gone through, the limits hold. */
  lemma FlushProgress(run: Run, chunk: seq<JsonRow>, mapping: Mapping, world: World)
    requires if run.flushes > 0 then WithinLimits(run.rows, world) else run.imported == 0
    ensures
      var after := Flushed(run, chunk, mapping, world);
      && (if after.flushes > 0 then WithinLimits(after.rows, world) else after.imported == 0)
      && after.flushes >= run.flushes
      && (!run.failed && !run.quotaReached && !after.failed ==>
            after.imported + after.skipped == run.imported + run.skipped + |chunk|)
      && (after.failed && !run.failed ==> after.imported == run.imported)
  {
    hide Active, AfterJson;
    var replace, env := run.flushes == 0 && !mapping.upsertByKey, EnvOf(world, run.flushes);
    var (rows, outcome) := AfterJson(run.rows, chunk, replace, world.reader, env);
    JsonWithinQuota(run.rows, chunk, replace, world.reader, env);
    if !run.failed && !run.quotaReached && chunk != [] && outcome.Imported? {
      assert outcome.imported + outcome.skipped == |chunk|;
      assert WithinLimits(rows, world);
    }
  }

  lemma {:induction false} ChunksProgress(start: Run, accepted: seq<JsonRow>, n: nat, mapping: Mapping, world: World)
    requires n * FLUSH_SIZE <= |accepted|
    requires start == Begin(start.rows)
    ensures
      var run := AfterChunks(start, accepted, n, mapping, world);
      && (if run.flushes > 0 then WithinLimits(run.rows, world) else run.imported == 0)
      && (!run.failed && !run.quotaReached ==> run.imported + run.skipped == n * FLUSH_SIZE)
  {
    hide Flushed, WithinLimits;
    if n > 0 {
      ChunksProgress(start, accepted, n - 1, mapping, world);
      var before := AfterChunks(start, accepted, n - 1, mapping, world);
      FlushProgress(before, accepted[(n - 1) * FLUSH_SIZE..n * FLUSH_SIZE], mapping, world);
      Sticky(before, accepted[(n - 1) * FLUSH_SIZE..n * FLUSH_SIZE], mapping, world);
    }
  }

  /** A run that failed or reached the quota stays as it is. */
  lemma Sticky(run: Run, chunk: seq<JsonRow>, mapping: Mapping, world: World)
    ensures run.failed || run.quotaReached ==> Flushed(run, chunk, mapping, world) == run
  {
  }

  /** A whole run without failure that did not reach the quota counts every accepted row once, and
      after any flush the plan and the tenant are within their limits. */
  lemma WholeRunProgress(plan: seq<Row>, data: seq<JsonRow>, mapping: Mapping, world: World)
    ensures
      var run := WholeRun(plan, data, mapping, world);
      && (run.flushes > 0 ==> WithinLimits(run.rows, world))
      && (!run.failed && !run.quotaReached ==> run.imported + run.skipped == |Accepted(data, mapping)|)
      && (run.flushes == 0 ==> run.imported == 0)
  {
    hide Flushed, WithinLimits, Accepted;
    var accepted := Accepted(data, mapping);
    var n := |accepted| / FLUSH_SIZE;
    var before := AfterChunks(Begin(plan), accepted, n, mapping, world);
    ChunksProgress(Begin(plan), accepted, n, mapping, world);
    FlushProgress(before, accepted[n * FLUSH_SIZE..], mapping, world);
    Sticky(before, accepted[n * FLUSH_SIZE..], mapping, world);
  }

  /** No key reaches importJson twice in one run. */
  lemma {:induction false} AcceptedKeysDiffer(data: seq<JsonRow>, mapping: Mapping)
    ensures SeenKeys(Accepted(data, mapping)) <= SeenKeys(data)
    ensures
      var accepted := Accepted(data, mapping);
      forall i, j | 0 <= i < j < |accepted| && NotBlank(accepted[i].externalKey).Some? ::
        NotBlank(accepted[i].externalKey) != NotBlank(accepted[j].externalKey)
  {
    hide NotBlank;
    if data != [] {
      var init, last := data[..|data| - 1], data[|data| - 1];
      AcceptedKeysDiffer(init, mapping);
      var before := Accepted(init, mapping);
      forall i | 0 <= i < |before| && NotBlank(before[i].externalKey).Some?
        ensures NotBlank(before[i].externalKey).value in SeenKeys(init)
      {
        assert NotBlank(before[i].externalKey).value in SeenKeys(before);
      }
    }
  }

  /** A later flush fails, with everything imported before left in place, exactly when the plan or the
      tenant is full by then. */
  lemma FullPlanFailsLater(run: Run, chunk: seq<JsonRow>, mapping: Mapping, world: World)
    requires run.flushes > 0 && !run.failed && !run.quotaReached && chunk != []
    ensures Active(run.rows) >= world.limits.maxRowsPerSheet
            || |run.rows| + world.otherRows >= world.limits.maxRowsPerTenant
            <==> Flushed(run, chunk, mapping, world) == run.(failed := true)
  {
    hide Active, AfterJson;
    JsonWithinQuota(run.rows, chunk, false, world.reader, EnvOf(world, run.flushes));
  }

  /** No row of the chunk brings a key, and the database does not fail in the first flush. */
  predicate IsSmooth(chunk: seq<JsonRow>, world: World) {
    && (forall k | 0 <= k < |chunk| :: NotBlank(chunk[k].externalKey).None?)
    && (forall at | 0 <= at < |chunk| :: !world.faults(0).commitFails(at))
  }

  lemma {:induction false} PreparedKeyless(chunk: seq<JsonRow>, reader: Reader)
    requires forall k | 0 <= k < |chunk| :: NotBlank(chunk[k].externalKey).None?
    ensures Keyless(PreparedRows(chunk, reader))
  {
    hide NotBlank;
    if chunk != [] { PreparedKeyless(chunk[..|chunk| - 1], reader); }
  }

  /** A first flush whose prepared rows are exactly what is left of the quota imports all of them, does
      not report the quota as reached, and leaves it used up; so any further row makes the run fail. */
  lemma ExactFillFailsLater(plan: seq<Row>, first: seq<JsonRow>, later: seq<JsonRow>, mapping: Mapping, world: World)
    requires IsSmooth(first, world) && later != []
    requires UniqueKeys(plan) && Highest(KeysIn(plan)) + |first| < MAX_SAFE
    requires
      var prepared := |PreparedRows(first, world.reader)|;
      prepared > 0 && prepared == Remaining(if mapping.upsertByKey then plan else [], EnvOf(world, 0))
    ensures
      var prepared := |PreparedRows(first, world.reader)|;
      var run := Flushed(Begin(plan), first, mapping, world);
      && run.imported == prepared && !run.failed && !run.quotaReached && run.flushes == 1
      && (Active(run.rows) == world.limits.maxRowsPerSheet
          || |run.rows| + world.otherRows == world.limits.maxRowsPerTenant)
      && Flushed(run, later, mapping, world) == run.(failed := true)
  {
    hide Active, UniqueKeys, Highest, KeysIn, AfterBatches, NotBlank, PreparedRows, Keyless, IsSmooth;
    var start := if mapping.upsertByKey then plan else [];
    var prepared, env := PreparedRows(first, world.reader), EnvOf(world, 0);
    NoRows();
    assert Keyless(prepared) && forall at | 0 <= at < |prepared| :: !env.faults.commitFails(at) by {
      SmoothPrepared(first, world);
    }
    KeylessBatches(Tally(start, 0, |first| - |prepared|), prepared, env);
    FullPlanFailsLater(Flushed(Begin(plan), first, mapping, world), later, mapping, world);
  }

  lemma SmoothPrepared(chunk: seq<JsonRow>, world: World)
    requires IsSmooth(chunk, world)
    ensures Keyless(PreparedRows(chunk, world.reader))
    ensures forall at | 0 <= at < |PreparedRows(chunk, world.reader)| :: !EnvOf(world, 0).faults.commitFails(at)
  {
    hide NotBlank;
    PreparedKeyless(chunk, world.reader);
  }

  /** Without a key column the first flush empties the plan before it asks for the quota: when the
      tenant's other plans use it up, the rows are gone and nothing is imported. */
  lemma RefusedAfterReplacing(run: Run, chunk: seq<JsonRow>, mapping: Mapping, world: World)
    requires run.flushes == 0 && !run.failed && !run.quotaReached && chunk != [] && !mapping.upsertByKey
    ensures world.otherRows >= world.limits.maxRowsPerTenant || world.limits.maxRowsPerSheet == 0
            <==> Flushed(run, chunk, mapping, world) == run.(rows := [], failed := true)
  {
    hide AfterJson;
    JsonWithinQuota(run.rows, chunk, true, world.reader, EnvOf(world, 0));
  }

  // ----- prefixes -----

  lemma {:induction false} DataOfPrefix(rows: seq<PhysicalRow>, n: nat, mapping: Mapping)
    requires n <= |rows|
    ensures DataRows(rows[..n], mapping) <= DataRows(rows, mapping)
  {
    hide IsData, HeadersSeen;
    if n == |rows| {
      assert rows[..n] == rows;
    } else {
      assert rows[..|rows| - 1][..n] == rows[..n];
      DataOfPrefix(rows[..|rows| - 1], n, mapping);
    }
  }

  lemma {:induction false} AcceptedOfPrefix(data: seq<JsonRow>, n: nat, mapping: Mapping)
    requires n <= |data|
    ensures Accepted(data[..n], mapping) <= Accepted(data, mapping)
  {
    hide Accepts, SeenKeys;
    if n == |data| {
      assert data[..n] == data;
    } else {
      assert data[..|data| - 1][..n] == data[..n];
      AcceptedOfPrefix(data[..|data| - 1], n, mapping);
    }
  }

  lemma {:induction false} ChunksOfPrefix(start: Run, short: seq<JsonRow>, long: seq<JsonRow>, n: nat,
        mapping: Mapping, world: World)
    requires short <= long && n * FLUSH_SIZE <= |short|
    ensures AfterChunks(start, short, n, mapping, world) == AfterChunks(start, long, n, mapping, world)
  {
    hide Flushed;
    if n > 0 {
      ChunksOfPrefix(start, short, long, n - 1, mapping, world);
      assert short[(n - 1) * FLUSH_SIZE..n * FLUSH_SIZE] == long[(n - 1) * FLUSH_SIZE..n * FLUSH_SIZE];
    }
  }

  /** Once a run has stopped, the rest of the file changes nothing. */
  lemma {:induction false} StoppedRun(start: Run, accepted: seq<JsonRow>, n: nat, m: nat, mapping: Mapping,
        world: World)
    requires n <= m && m * FLUSH_SIZE <= |accepted|
    requires
      var run := AfterChunks(start, accepted, n, mapping, world);
      run.failed || run.quotaReached
    ensures AfterChunks(start, accepted, m, mapping, world) == AfterChunks(start, accepted, n, mapping, world)
    decreases m
  {
    hide Flushed;
    if n < m {
      StoppedRun(start, accepted, n, m - 1, mapping, world);
      Sticky(AfterChunks(start, accepted, n, mapping, world), accepted[(m - 1) * FLUSH_SIZE..m * FLUSH_SIZE],
        mapping, world);
    }
  }

  lemma StoppedAll(start: Run, short: seq<JsonRow>, long: seq<JsonRow>, mapping: Mapping, world: World)
    requires short <= long
    requires
      var run := AfterChunks(start, short, |short| / FLUSH_SIZE, mapping, world);
      run.failed || run.quotaReached
    ensures AfterAll(start, long, mapping, world) == AfterChunks(start, short, |short| / FLUSH_SIZE, mapping, world)
    ensures AfterAll(start, short, mapping, world) == AfterChunks(start, short, |short| / FLUSH_SIZE, mapping, world)
  {
    hide Flushed, AfterChunks;
    var n, m := |short| / FLUSH_SIZE, |long| / FLUSH_SIZE;
    ChunksOfPrefix(start, short, long, n, mapping, world);
    StoppedRun(start, long, n, m, mapping, world);
    Sticky(AfterChunks(start, long, m, mapping, world), long[m * FLUSH_SIZE..], mapping, world);
    Sticky(AfterChunks(start, short, n, mapping, world), short[n * FLUSH_SIZE..], mapping, world);
  }

  /** One more accepted row: it waits, or it completes a chunk, which is flushed. */
  lemma OneMore(start: Run, accepted: seq<JsonRow>, row: JsonRow, mapping: Mapping, world: World)
    ensures
      var n := |accepted| / FLUSH_SIZE;
      var more, waiting := accepted + [row], accepted[n * FLUSH_SIZE..] + [row];
      if |waiting| < FLUSH_SIZE then
        && |more| / FLUSH_SIZE == n && more[n * FLUSH_SIZE..] == waiting
        && AfterChunks(start, more, n, mapping, world) == AfterChunks(start, accepted, n, mapping, world)
      else
        && |more| / FLUSH_SIZE == n + 1 && more[(n + 1) * FLUSH_SIZE..] == []
        && AfterChunks(start, more, n + 1, mapping, world)
           == Flushed(AfterChunks(start, accepted, n, mapping, world), waiting, mapping, world)
  {
    hide Flushed;
    var n := |accepted| / FLUSH_SIZE;
    var more := accepted + [row];
    ChunksOfPrefix(start, accepted, more, n, mapping, world);
    if |more| == (n + 1) * FLUSH_SIZE {
      assert more[n * FLUSH_SIZE..(n + 1) * FLUSH_SIZE] == accepted[n * FLUSH_SIZE..] + [row];
    }
  }

  lemma DataSnoc(rows: seq<PhysicalRow>, row: PhysicalRow, mapping: Mapping)
    ensures HeadersSeen(rows + [row], mapping)
         == if row.line == mapping.headerRowIndex then HeaderNames(row.values) else HeadersSeen(rows, mapping)
    ensures !IsData(row, mapping) ==> DataRows(rows + [row], mapping) == DataRows(rows, mapping)
    ensures IsData(row, mapping) ==>
              DataRows(rows + [row], mapping)
              == DataRows(rows, mapping)
                   + [mapping.toRow(HeadersSeen(rows, mapping), Padded(row.values, mapping.width), row.line)]
  {
    hide IsData, HeaderNames, Padded;
    assert (rows + [row])[..|rows|] == rows;
  }

  /** A data row below the cap is the next one considered. */
  lemma NextConsidered(rows: seq<PhysicalRow>, row: PhysicalRow, mapping: Mapping, cap: nat)
    requires IsData(row, mapping) && |Capped(DataRows(rows, mapping), cap)| < cap
    ensures
      var importRow := mapping.toRow(HeadersSeen(rows, mapping), Padded(row.values, mapping.width), row.line);
      && Capped(DataRows(rows + [row], mapping), cap) == Capped(DataRows(rows, mapping), cap) + [importRow]
      && |DataRows(rows, mapping)| <= cap && |DataRows(rows + [row], mapping)| <= cap
      && HeadersSeen(rows + [row], mapping) == HeadersSeen(rows, mapping)
  {
    hide DataRows, HeadersSeen, Padded, HasText;
    DataSnoc(rows, row, mapping);
  }

  lemma AcceptedSnoc(data: seq<JsonRow>, row: JsonRow, mapping: Mapping)
    ensures Accepts(SeenKeys(data), row, mapping) ==> Accepted(data + [row], mapping) == Accepted(data, mapping) + [row]
    ensures !Accepts(SeenKeys(data), row, mapping) ==> Accepted(data + [row], mapping) == Accepted(data, mapping)
    ensures SeenKeys(data + [row])
         == SeenKeys(data) + if NotBlank(row.externalKey).Some? then {NotBlank(row.externalKey).value} else {}
  {
    hide NotBlank, Accepts;
    var more := data + [row];
    assert more[..|data|] == data;
    forall k | 0 <= k < |data| && NotBlank(data[k].externalKey).Some?
      ensures NotBlank(data[k].externalKey).value in SeenKeys(more)
    {
      assert more[k] == data[k];
    }
    assert more[|data|] == row;
  }

  /** A data row at the cap is not considered any more. */
  lemma NotConsidered(rows: seq<PhysicalRow>, row: PhysicalRow, mapping: Mapping, cap: nat)
    requires IsData(row, mapping) && |Capped(DataRows(rows, mapping), cap)| >= cap
    ensures Capped(DataRows(rows + [row], mapping), cap) == Capped(DataRows(rows, mapping), cap)
    ensures |DataRows(rows + [row], mapping)| > cap && HeadersSeen(rows + [row], mapping) == HeadersSeen(rows, mapping)
  {
    hide DataRows, HeadersSeen, Padded, HasText;
    DataSnoc(rows, row, mapping);
  }

  // ----- the run -----

  /** Every key of the data rows carries a number up to `top`. */
  predicate KeysUpTo(data: seq<JsonRow>, top: nat) {
    forall k | 0 <= k < |data| :: KeyNumber(NotBlank(data[k].externalKey)) <= top
  }

  lemma {:induction false} AcceptedUpTo(data: seq<JsonRow>, mapping: Mapping, top: nat)
    requires KeysUpTo(data, top)
    ensures KeysUpTo(Accepted(data, mapping), top)
  {
    hide KeyNumber, NotBlank, Accepts, SeenKeys;
    if data != [] { AcceptedUpTo(data[..|data| - 1], mapping, top); }
  }

  lemma LastUpTo(data: seq<JsonRow>, row: JsonRow, top: nat)
    ensures KeysUpTo(data + [row], top) <==> KeysUpTo(data, top) && KeyNumber(NotBlank(row.externalKey)) <= top
  {
    hide KeyNumber, NotBlank;
    var more := data + [row];
    if KeysUpTo(more, top) {
      assert more[|data|] == row;
      forall k | 0 <= k < |data| ensures KeyNumber(NotBlank(data[k].externalKey)) <= top {
        assert more[k] == data[k];
      }
    }
  }

  lemma BatchUpTo(data: seq<JsonRow>, from: nat, row: JsonRow, mapping: Mapping, top: nat, bound: nat)
    requires KeysUpTo(data, top) && from <= |Accepted(data, mapping)| && top <= bound
    requires KeyNumber(NotBlank(row.externalKey)) <= top
    ensures KeysUpTo(Accepted(data, mapping)[from..] + [row], bound)
  {
    hide KeyNumber, NotBlank, Accepted;
    AcceptedUpTo(data, mapping, top);
  }

  function Flat(parts: seq<seq<PhysicalRow>>): seq<PhysicalRow> {
    if parts == [] then [] else Flat(parts[..|parts| - 1]) + parts[|parts| - 1]
  }

  lemma {:induction false} FlatOfPrefix(parts: seq<seq<PhysicalRow>>, n: nat)
    requires n <= |parts|
    ensures Flat(parts[..n]) <= Flat(parts)
  {
    if n == |parts| {
      assert parts[..n] == parts;
    } else {
      assert parts[..|parts| - 1][..n] == parts[..n];
      FlatOfPrefix(parts[..|parts| - 1], n);
    }
  }

  lemma ConsideredOfPrefix(rows: seq<PhysicalRow>, n: nat, mapping: Mapping, world: World)
    requires n <= |rows|
    ensures Considered(rows[..n], mapping, world) <= Considered(rows, mapping, world)
  {
    hide DataRows;
    DataOfPrefix(rows, n, mapping);
  }

  /** Stopping early, at a failure or at the quota, gives the run over the whole file. */
  lemma StoppedOn(plan: seq<Row>, rows: seq<PhysicalRow>, n: nat, mapping: Mapping, world: World)
    requires n <= |rows|
    requires
      var accepted := Accepted(Considered(rows[..n], mapping, world), mapping);
      var run := AfterChunks(Begin(plan), accepted, |accepted| / FLUSH_SIZE, mapping, world);
      run.failed || run.quotaReached
    ensures
      var accepted := Accepted(Considered(rows[..n], mapping, world), mapping);
      var run := AfterChunks(Begin(plan), accepted, |accepted| / FLUSH_SIZE, mapping, world);
      && WholeRun(plan, Considered(rows, mapping, world), mapping, world) == run
      && WholeRun(plan, Considered(rows[..n], mapping, world), mapping, world) == run
  {
    hide Considered, Accepted, AfterChunks, AfterAll;
    var short, long := Considered(rows[..n], mapping, world), Considered(rows, mapping, world);
    ConsideredOfPrefix(rows, n, mapping, world);
    assert long[..|short|] == short;
    AcceptedOfPrefix(long, |short|, mapping);
    StoppedAll(Begin(plan), Accepted(short, mapping), Accepted(long, mapping), mapping, world);
  }

  lemma FlatOfNone()
    ensures Flat([]) == []
  {
  }

  lemma FlatSnoc(parts: seq<seq<PhysicalRow>>, b: nat)
    requires b < |parts|
    ensures Flat(parts[..b + 1]) == Flat(parts[..b]) + parts[b]
  {
    assert parts[..b + 1][..b] == parts[..b];
  }

  lemma DataUpTo(rows: seq<PhysicalRow>, n: nat, mapping: Mapping, top: nat)
    requires n <= |rows| && KeysUpTo(DataRows(rows, mapping), top)
    ensures KeysUpTo(DataRows(rows[..n], mapping), top)
  {
    hide DataRows, KeyNumber, NotBlank;
    DataOfPrefix(rows, n, mapping);
  }

  lemma RowOfFlat(parts: seq<seq<PhysicalRow>>, b: nat, r: nat)
    requires b < |parts| && r < |parts[b]|
    ensures
      var n := |Flat(parts[..b])| + r;
      && n < |Flat(parts)| && Flat(parts)[..n] == Flat(parts[..b]) + parts[b][..r] && Flat(parts)[n] == parts[b][r]
      && Flat(parts)[..n + 1] == Flat(parts[..b]) + parts[b][..r + 1]
  {
    FlatOfPrefix(parts, b + 1);
    assert parts[..b + 1][..b] == parts[..b];
    assert Flat(parts[..b + 1]) == Flat(parts[..b]) + parts[b];
  }

  lemma RestUpTo(data: seq<JsonRow>, from: nat, mapping: Mapping, top: nat, bound: nat)
    requires KeysUpTo(data, top) && from <= |Accepted(data, mapping)| && top <= bound
    ensures KeysUpTo(Accepted(data, mapping)[from..], bound)
  {
    hide KeyNumber, NotBlank, Accepted;
    AcceptedUpTo(data, mapping, top);
  }

  lemma NotCounted(rows: seq<PhysicalRow>, row: PhysicalRow, mapping: Mapping, world: World)
    ensures !IsData(row, mapping) ==> Considered(rows + [row], mapping, world) == Considered(rows, mapping, world)
  {
    hide DataRows, IsData;
    DataSnoc(rows, row, mapping);
  }

  lemma NoneTaken(start: Run, mapping: Mapping, world: World, top: nat)
    ensures HeadersSeen([], mapping) == [] && DataRows([], mapping) == [] && Considered([], mapping, world) == []
    ensures Accepted([], mapping) == [] && SeenKeys([]) == {} && KeysUpTo([], top)
    ensures AfterChunks(start, [], 0, mapping, world) == start
  {
  }

  /** The variables of importFromParse that its row loop and its flush share. */
  class ImportRun {
    const table: PlanTable
    const mapping: Mapping
    const world: World
    var headers: seq<string>
    var batch: seq<JsonRow>
    var seenExternalKeys: set<string>
    var dataRows: nat
    var globalLine: nat
    var imported: nat
    var skipped: nat
    var flushes: nat
    var quotaReached: bool
    var fileTruncated: bool

    /** The rows taken from the file, and those of them taken before the quota was reached. */
    ghost var taken: seq<PhysicalRow>
    ghost var counted: seq<PhysicalRow>
    ghost const start: Run
    ghost const top: nat

    ghost function Data(): seq<JsonRow>
      reads `counted
    {
      Considered(counted, mapping, world)
    }

    /** What the run knows of the file. */
    ghost predicate Tracks()
      reads `headers, `taken, `counted, `quotaReached, `dataRows, `globalLine, `fileTruncated, `seenExternalKeys
    {
      var data := Data();
      && headers == HeadersSeen(taken, mapping)
      && counted <= taken && (!quotaReached ==> counted == taken)
      && dataRows == globalLine == |data|
      && fileTruncated == (|DataRows(counted, mapping)| > world.limits.maxRowsPerTenant)
      && seenExternalKeys == SeenKeys(data)
      && KeysUpTo(data, top)
    }

    /** What has become of the accepted ones among the rows considered: full chunks are flushed, the
        rest waits in the batch, and every row considered is imported, skipped or waiting. */
    ghost predicate Books(considered: nat, accepted: seq<JsonRow>)
      reads `batch, `imported, `skipped, `quotaReached, `flushes, table
    {
      var n := |accepted| / FLUSH_SIZE;
      && table.otherRows == world.otherRows && start == Begin(start.rows)
      && |accepted| <= considered
      && batch == accepted[n * FLUSH_SIZE..]
      && skipped >= considered - |accepted|
      && AfterChunks(start, accepted, n, mapping, world)
         == Run(table.rows, imported, skipped - (considered - |accepted|), quotaReached, false, flushes)
      && considered == imported + skipped + |batch| && (quotaReached ==> batch == [])
      && UniqueKeys(table.rows) && Highest(KeysIn(table.rows)) <= top + n * FLUSH_SIZE
    }

    ghost predicate Valid()
      reads this, table
    {
      Tracks() && Books(|Data()|, Accepted(Data(), mapping))
    }

    /** The run has failed on the rows given, and the plan is as the failure left it. */
    ghost predicate Failed(rows: seq<PhysicalRow>)
      reads this, table
    {
      FailedOn(Accepted(Considered(rows, mapping, world), mapping))
    }

    ghost predicate FailedOn(accepted: seq<JsonRow>)
      reads this, table
    {
      var run := AfterChunks(start, accepted, |accepted| / FLUSH_SIZE, mapping, world);
      run.failed && table.rows == run.rows
    }

    lemma NothingTakenYet()
      requires table.otherRows == world.otherRows && start == Begin(table.rows)
      requires UniqueKeys(table.rows) && Highest(KeysIn(table.rows)) <= top
      requires headers == [] && batch == [] && seenExternalKeys == {} && taken == counted == []
      requires dataRows == globalLine == imported == skipped == flushes == 0 && !quotaReached && !fileTruncated
      ensures Valid()
    {
      hide UniqueKeys, Highest, KeysIn, DataRows, HeadersSeen, Considered, Accepted, AfterChunks, SeenKeys, KeysUpTo;
      NoneTaken(start, mapping, world, top);
      assert Data() == [];
      assert Tracks();
      assert 0 / FLUSH_SIZE == 0;
      assert batch == [][0..];
      assert Books(0, []);
    }

    constructor (table: PlanTable, mapping: Mapping, world: World, ghost top: nat)
      requires table.otherRows == world.otherRows
      requires UniqueKeys(table.rows) && Highest(KeysIn(table.rows)) <= top
      ensures Valid() && taken == []
      ensures this.table == table && this.mapping == mapping && this.world == world && this.top == top
      ensures start == Begin(table.rows)
    {
      hide UniqueKeys, Highest, KeysIn, Tracks, Books;
      this.table, this.mapping, this.world := table, mapping, world;
      headers, batch, seenExternalKeys := [], [], {};
      dataRows, globalLine, imported, skipped, flushes := 0, 0, 0, 0, 0;
      quotaReached, fileTruncated := false, false;
      taken, counted := [], [];
      start, this.top := Begin(table.rows), top;
      new;
      NothingTakenYet();
    }

    /** flush: hands rows to importJson unless the quota is reached. `dropped` counts the skipped
        rows that never reached a flush. Returns false when importJson throws. */
    method Flush(rows: seq<JsonRow>, ghost dropped: nat, ghost bound: nat) returns (ok: bool)
      requires dropped <= skipped && table.otherRows == world.otherRows
      requires UniqueKeys(table.rows) && Highest(KeysIn(table.rows)) <= bound && bound + |rows| < MAX_SAFE
      requires KeysUpTo(rows, bound)
      modifies this`imported, this`skipped, this`quotaReached, this`flushes, table`rows
      ensures
        var after := Flushed(
          Run(old(table.rows), old(imported), old(skipped) - dropped, old(quotaReached), false, old(flushes)),
          rows, mapping, world);
        && ok == !after.failed && table.rows == after.rows
        && (ok ==>
              skipped >= dropped && after == Run(table.rows, imported, skipped - dropped, quotaReached, false, flushes))
      ensures UniqueKeys(table.rows) && Highest(KeysIn(table.rows)) <= bound + |rows|
    {
      hide UniqueKeys, Highest, KeysIn, AfterJson, KeyNumber, NotBlank;
      if quotaReached || rows == [] { return true; }
      var replace := flushes == 0 && !mapping.upsertByKey;
      var outcome := ImportJson(table, rows, replace, world.reader, EnvOf(world, flushes), bound);
      if outcome.QuotaError? { return false; }
      imported := imported + outcome.imported;
      skipped := skipped + outcome.skipped;
      if outcome.quotaReached { quotaReached := true; }
      flushes := flushes + 1;
      return true;
    }

    /** The end of toImportRow: a key seen before blocks the row, and so does an invalid value. */
    method Check(importRow: JsonRow) returns (blocked: bool)
      modifies this`seenExternalKeys
      ensures seenExternalKeys
           == old(seenExternalKeys)
              + if NotBlank(importRow.externalKey).Some? then {NotBlank(importRow.externalKey).value} else {}
      ensures Accepts(old(seenExternalKeys), importRow, mapping) <==> !blocked && !mapping.isBlank(importRow)
    {
      hide NotBlank;
      blocked := false;
      var key := NotBlank(importRow.externalKey);
      if key.Some? {
        if key.value in seenExternalKeys {
          blocked := true;
        } else {
          seenExternalKeys := seenExternalKeys + {key.value};
        }
      }
      if mapping.isInvalid(importRow) { blocked := true; }
    }

    /** An accepted row joins the batch; a full batch is flushed. */
    method Push(importRow: JsonRow, ghost data: seq<JsonRow>) returns (ok: bool)
      requires Books(|data|, Accepted(data, mapping)) && !quotaReached
      requires KeysUpTo(data, top) && KeyNumber(NotBlank(importRow.externalKey)) <= top && top + |data| + 1 < MAX_SAFE
      modifies this`batch, this`imported, this`skipped, this`quotaReached, this`flushes, table`rows
      ensures ok ==> Books(|data| + 1, Accepted(data, mapping) + [importRow])
      ensures !ok ==> FailedOn(Accepted(data, mapping) + [importRow])
    {
      hide UniqueKeys, Highest, KeysIn, AfterChunks, Flushed, Accepted, NotBlank, KeyNumber, KeysUpTo, WithinLimits;
      ghost var accepted := Accepted(data, mapping);
      ghost var n := |accepted| / FLUSH_SIZE;
      OneMore(start, accepted, importRow, mapping, world);
      batch := batch + [importRow];
      if |batch| < FLUSH_SIZE { return true; }
      var chunk := batch;
      batch := [];
      ChunksProgress(start, accepted, n, mapping, world);
      BatchUpTo(data, n * FLUSH_SIZE, importRow, mapping, top, top + n * FLUSH_SIZE);
      FlushProgress(AfterChunks(start, accepted, n, mapping, world), chunk, mapping, world);
      ok := Flush(chunk, |data| - |accepted|, top + n * FLUSH_SIZE);
    }

    /** A data row below the cap: its key is noted, and it is skipped or joins the batch. */
    method Stage(row: PhysicalRow, importRow: JsonRow) returns (ok: bool)
      requires Valid() && !quotaReached && IsData(row, mapping) && dataRows < world.limits.maxRowsPerTenant
      requires importRow == mapping.toRow(headers, Padded(row.values, mapping.width), row.line)
      requires KeyNumber(NotBlank(importRow.externalKey)) <= top && top + dataRows + 1 < MAX_SAFE
      modifies this, table`rows
      ensures ok ==> Valid() && taken == old(taken) + [row]
      ensures !ok ==> Failed(old(taken) + [row])
    {
      hide UniqueKeys, Highest, KeysIn, AfterChunks, Flushed, Accepted, DataRows, HeadersSeen, SeenKeys, IsData,
           Padded, NotBlank;
      hide KeyNumber, Accepts, Capped, KeysUpTo, FailedOn;
      ghost var data := Data();
      NextConsidered(taken, row, mapping, world.limits.maxRowsPerTenant);
      AcceptedSnoc(data, importRow, mapping);
      LastUpTo(data, importRow, top);
      taken, counted := taken + [row], counted + [row];
      dataRows := dataRows + 1;
      globalLine := globalLine + 1;
      var blocked := Check(importRow);
      assert Data() == data + [importRow];
      if blocked || mapping.isBlank(importRow) {
        skipped := skipped + 1;
        return true;
      }
      ok := Push(importRow, data);
    }

    /** A row that is no data row, or comes after the quota was reached; it may hold the headers. */
    method PassOver(row: PhysicalRow)
      requires Valid() && (quotaReached || !IsData(row, mapping))
      modifies `headers, `taken, `counted
      ensures Valid() && taken == old(taken) + [row]
    {
      hide DataRows, HeadersSeen, SeenKeys, KeysUpTo, Considered, Books, IsData, Headers.UniqueNames,
           Headers.HeaderCount;
      DataSnoc(taken, row, mapping);
      NotCounted(taken, row, mapping, world);
      if row.line == mapping.headerRowIndex { headers := Headers.HeadersFromRow(row.values); }
      taken := taken + [row];
      if !quotaReached { counted := taken; }
    }

    /** A data row beyond the cap. */
    method CutOff(row: PhysicalRow)
      requires Valid() && !quotaReached && IsData(row, mapping) && dataRows >= world.limits.maxRowsPerTenant
      modifies `fileTruncated, `taken, `counted
      ensures Valid() && taken == old(taken) + [row]
    {
      hide DataRows, HeadersSeen, SeenKeys, KeysUpTo, Books, IsData, Capped;
      NotConsidered(taken, row, mapping, world.limits.maxRowsPerTenant);
      fileTruncated := true;
      taken, counted := taken + [row], counted + [row];
    }

    /** One row of the file. */
    method TakeRow(row: PhysicalRow) returns (ok: bool)
      requires Valid() && KeysUpTo(DataRows(taken + [row], mapping), top) && top + |taken| + 1 < MAX_SAFE
      modifies this, table`rows
      ensures ok ==> Valid() && taken == old(taken) + [row]
      ensures !ok ==> Failed(old(taken) + [row])
    {
      hide DataRows, HeadersSeen, SeenKeys, Padded, NotBlank, KeyNumber, KeysUpTo, Considered, FailedOn, Books, HasText;
      if row.line <= mapping.headerRowIndex || quotaReached || !HasText(row.values) {
        PassOver(row);
        return true;
      }
      if dataRows >= world.limits.maxRowsPerTenant {
        CutOff(row);
        return true;
      }
      var importRow := mapping.toRow(headers, Padded(row.values, mapping.width), row.line);
      DataSnoc(taken, row, mapping);
      LastUpTo(DataRows(taken, mapping), importRow, top);
      ok := Stage(row, importRow);
    }

    /** The flush after the row loop: the plan is now as by the run over all rows considered. */
    method FinalFlush() returns (ok: bool)
      requires Valid() && top + |Data()| < MAX_SAFE
      modifies this`imported, this`skipped, this`quotaReached, this`flushes, table`rows
      ensures
        var run := WholeRun(start.rows, old(Data()), mapping, world);
        && ok == !run.failed && table.rows == run.rows
        && (ok ==>
              && imported == run.imported && quotaReached == run.quotaReached
              && globalLine == imported + skipped
              && (imported > 0 ==> WithinLimits(table.rows, world)))
      ensures old(quotaReached) ==> ok
    {
      hide UniqueKeys, Highest, KeysIn, AfterChunks, Flushed, Accepted, KeysUpTo, WithinLimits, DataRows,
           HeadersSeen, SeenKeys;
      ghost var data, accepted := Data(), Accepted(Data(), mapping);
      ghost var n := |accepted| / FLUSH_SIZE;
      ghost var before := AfterChunks(start, accepted, n, mapping, world);
      ChunksProgress(start, accepted, n, mapping, world);
      FlushProgress(before, batch, mapping, world);
      Sticky(before, batch, mapping, world);
      RestUpTo(data, n * FLUSH_SIZE, mapping, top, top + n * FLUSH_SIZE);
      ok := Flush(batch, |data| - |accepted|, top + n * FLUSH_SIZE);
    }

    /** The row loop; when it is cut short, `at` tells after how many rows. */
    method TakeAll(physical: seq<seq<PhysicalRow>>) returns (ok: bool, ghost at: nat)
      requires Valid() && taken == []
      requires KeysUpTo(DataRows(Flat(physical), mapping), top) && top + |Flat(physical)| < MAX_SAFE
      modifies this, table`rows
      ensures at <= |Flat(physical)|
      ensures ok ==> Valid() && taken == Flat(physical)
      ensures !ok ==> Failed(Flat(physical)[..at])
    {
      hide UniqueKeys, Highest, KeysIn, DataRows, KeysUpTo, Flat, Tracks, Books, FailedOn, Accepted;
      ghost var all := Flat(physical);
      FlatOfNone();
      for b := 0 to |physical|
        invariant Valid() && taken == Flat(physical[..b])
      {
        for r := 0 to |physical[b]|
          invariant Valid() && taken == Flat(physical[..b]) + physical[b][..r]
        {
          RowOfFlat(physical, b, r);
          at := |taken| + 1;
          DataUpTo(all, at, mapping, top);
          assert all[..at] == taken + [physical[b][r]];
          ok := TakeRow(physical[b][r]);
          if !ok { return; }
        }
        FlatSnoc(physical, b);
      }
      assert physical[..|physical|] == physical;
      ok, at := true, |all|;
    }
  }

  // ----- the whole import -----

  /** What importFromParse leaves behind: the plan as by the run over all accepted rows of the file;
      every row considered is imported or skipped; unless the quota stopped it, every data row up to
      the cap is considered, and otherwise the rows considered alone make the same run. */
  ghost predicate Answers(plan: seq<Row>, file: seq<PhysicalRow>, mapping: Mapping, world: World,
                          rows: seq<Row>, outcome: ParseOutcome, considered: nat) {
    var data := Considered(file, mapping, world);
    var run := WholeRun(plan, data, mapping, world);
    && rows == run.rows
    && (outcome.QuotaFailure? <==> run.failed)
    && (outcome.NothingImported? <==> !run.failed && run.imported == 0)
    && (outcome.Done? ==>
          && outcome.imported == run.imported && outcome.quotaReached == run.quotaReached
          && outcome.imported + outcome.skipped == considered <= |data|
          && WholeRun(plan, data[..considered], mapping, world) == run
          && (!run.quotaReached ==> considered == |data|)
          && (outcome.truncated <==> run.quotaReached || |DataRows(file, mapping)| > world.limits.maxRowsPerTenant)
          && WithinLimits(rows, world))
  }

  lemma SameRun(plan: seq<Row>, file: seq<PhysicalRow>, counted: seq<PhysicalRow>, stopped: bool, mapping: Mapping,
        world: World)
    requires counted <= file && (!stopped ==> counted == file)
    requires stopped ==>
               var accepted := Accepted(Considered(counted, mapping, world), mapping);
               AfterChunks(Begin(plan), accepted, |accepted| / FLUSH_SIZE, mapping, world).quotaReached
    ensures Considered(counted, mapping, world) <= Considered(file, mapping, world)
    ensures WholeRun(plan, Considered(file, mapping, world), mapping, world)
         == WholeRun(plan, Considered(counted, mapping, world), mapping, world)
    ensures stopped ==> WholeRun(plan, Considered(counted, mapping, world), mapping, world).quotaReached
  {
    hide Considered, Accepted, AfterChunks, WholeRun;
    assert file[..|counted|] == counted;
    ConsideredOfPrefix(file, |counted|, mapping, world);
    if stopped { StoppedOn(plan, file, |counted|, mapping, world); }
  }

  datatype ParseOutcome =
    | QuotaFailure
    | NothingImported
    | Done(imported: nat, skipped: nat, truncated: bool, quotaReached: bool)

  /** importFromParse over the staged rows of a file. However the file is divided into batches of
      physical rows, and wherever the run stops, the plan ends up as by the run over all accepted
      rows. `considered` is the final value of globalLine. */
  method ImportFromParse(table: PlanTable, physical: seq<seq<PhysicalRow>>, mapping: Mapping, world: World,
        ghost top: nat)
      returns (outcome: ParseOutcome, considered: nat)
    requires table.otherRows == world.otherRows
    requires UniqueKeys(table.rows) && Highest(KeysIn(table.rows)) <= top
    requires KeysUpTo(DataRows(Flat(physical), mapping), top) && top + |Flat(physical)| < MAX_SAFE
    modifies table`rows
    ensures Answers(old(table.rows), Flat(physical), mapping, world, table.rows, outcome, considered)
  {
    hide UniqueKeys, Highest, KeysIn, DataRows, KeysUpTo, Flat, WholeRun, WithinLimits, Accepted, AfterChunks,
         Considered;
    ghost var plan, all := table.rows, Flat(physical);
    var run := new ImportRun(table, mapping, world, top);
    var ok, at := run.TakeAll(physical);
    if !ok {
      StoppedOn(plan, all, at, mapping, world);
      return QuotaFailure, run.globalLine;
    }
    SameRun(plan, all, run.counted, run.quotaReached, mapping, world);
    considered := run.globalLine;
    ghost var counted, stopped := run.counted, run.quotaReached;
    assert Considered(all, mapping, world)[..considered] == Considered(counted, mapping, world);
    assert run.fileTruncated == (|DataRows(counted, mapping)| > world.limits.maxRowsPerTenant);
    var flushed := run.FinalFlush();
    if !flushed { return QuotaFailure, considered; }
    if run.imported == 0 { return NothingImported, considered; }
    outcome := Done(run.imported, run.skipped, run.fileTruncated || run.quotaReached, run.quotaReached);
  }
}
