/** Cross filters of the analytics view, and the text that identifies a filter set in the
    cache before it is hashed. */
module CrossFilters {
  import opened JsText

  datatype CrossFilter = CrossFilter(columnKey: string, values: seq<string>)
  datatype FilterColumn = FilterColumn(id: string, name: string, canonicalKey: Option<string>)
  datatype Resolved = Resolved(columnId: string, values: seq<string>)

  // ----- resolving -----

  /** Array.prototype.find. */
  function FindFirst(test: FilterColumn -> bool, columns: seq<FilterColumn>): Option<FilterColumn> {
    if columns == [] then None
    else if test(columns[0]) then Some(columns[0])
    else FindFirst(test, columns[1..])
  }

  /** By canonical key, else by name, else by id. */
  function FindColumn(columnKey: string, columns: seq<FilterColumn>): Option<FilterColumn> {
    var wanted := Trim(columnKey);
    if wanted == "" then None else
    var byKey := FindFirst((c: FilterColumn) => c.canonicalKey == Some(wanted), columns);
    var byName := FindFirst((c: FilterColumn) => c.name == wanted, columns);
    if byKey.Some? then byKey
    else if byName.Some? then byName
    else FindFirst((c: FilterColumn) => c.id == wanted, columns)
  }

  /** The trimmed values that are not blank. */
  function Cleaned(values: seq<string>): seq<string> {
    if values == [] then [] else
    (if Trim(values[0]) != "" then [Trim(values[0])] else []) + Cleaned(values[1..])
  }

  lemma {:induction false} CleanedAre(values: seq<string>)
    ensures forall v | v in Cleaned(values) :: v != "" && Trimmed(v)
  {
    hide Trim, Trimmed;
    if values != [] {
      CleanedAre(values[1..]);
      TrimIsTrimmed(values[0]);
    }
  }

  /** What is kept is each value, trimmed, that is not blank. */
  lemma {:induction false} CleanedExactly(values: seq<string>, v: string)
    ensures v in Cleaned(values) <==> v != "" && exists w :: w in values && Trim(w) == v
  {
    hide Trim;
    if values != [] {
      CleanedExactly(values[1..], v);
      assert values == [values[0]] + values[1..];
    }
  }

  /** The column at `k` is the first that a test takes. */
  ghost predicate IsFirst(test: FilterColumn -> bool, columns: seq<FilterColumn>, k: int) {
    0 <= k < |columns| && test(columns[k]) && forall j | 0 <= j < k :: !test(columns[j])
  }

  lemma {:induction false} FirstFound(test: FilterColumn -> bool, columns: seq<FilterColumn>)
    ensures FindFirst(test, columns).None? <==> !exists c :: c in columns && test(c)
    ensures FindFirst(test, columns).Some? ==>
              exists k :: IsFirst(test, columns, k) && FindFirst(test, columns) == Some(columns[k])
  {
    if columns != [] {
      var rest := columns[1..];
      FirstFound(test, rest);
      assert columns == [columns[0]] + rest;
      if test(columns[0]) {
        assert IsFirst(test, columns, 0);
      } else if FindFirst(test, columns).Some? {
        var k :| IsFirst(test, rest, k) && FindFirst(test, rest) == Some(rest[k]);
        assert forall j | 0 < j < k + 1 :: columns[j] == rest[j - 1];
        assert IsFirst(test, columns, k + 1);
      }
    }
  }

  /** The canonical key decides; the name only when no column has the key, the id only when no column has the
      name either. A blank key finds nothing. */
  lemma ColumnOfKey(columnKey: string, columns: seq<FilterColumn>)
    ensures
      var wanted, found := Trim(columnKey), FindColumn(columnKey, columns);
      var byKey := (c: FilterColumn) => c.canonicalKey == Some(wanted);
      var byName, byId := (c: FilterColumn) => c.name == wanted, (c: FilterColumn) => c.id == wanted;
      if wanted == "" then found == None
      else if exists c :: c in columns && byKey(c) then
        exists k :: IsFirst(byKey, columns, k) && found == Some(columns[k])
      else if exists c :: c in columns && byName(c) then
        exists k :: IsFirst(byName, columns, k) && found == Some(columns[k])
      else if exists c :: c in columns && byId(c) then
        exists k :: IsFirst(byId, columns, k) && found == Some(columns[k])
      else found == None
  {
    hide Trim, FindFirst;
    var wanted := Trim(columnKey);
    var byKey := (c: FilterColumn) => c.canonicalKey == Some(wanted);
    var byName, byId := (c: FilterColumn) => c.name == wanted, (c: FilterColumn) => c.id == wanted;
    FirstFound(byKey, columns);
    FirstFound(byName, columns);
    FirstFound(byId, columns);
  }

  /** A filter asks for value `v` of the column with this id. */
  predicate AsksFor(filter: CrossFilter, columns: seq<FilterColumn>, id: string, v: string) {
    var column := FindColumn(filter.columnKey, columns);
    column.Some? && column.value.id == id && v in Cleaned(filter.values)
  }

  predicate SomeAsksFor(filters: seq<CrossFilter>, columns: seq<FilterColumn>, id: string, v: string) {
    exists k :: 0 <= k < |filters| && AsksFor(filters[k], columns, id, v)
  }

  predicate Has(entries: seq<Resolved>, id: string, v: string) {
    exists k :: 0 <= k < |entries| && entries[k].columnId == id && v in entries[k].values
  }

  predicate DistinctValues<T(==)>(values: seq<T>) {
    forall i, j | 0 <= i < j < |values| :: values[i] != values[j]
  }

  /** Distinct columns, each with non-empty, distinct values. */
  predicate WellFormed(entries: seq<Resolved>) {
    && (forall i, j | 0 <= i < j < |entries| :: entries[i].columnId != entries[j].columnId)
    && (forall k | 0 <= k < |entries| :: entries[k].values != [] && DistinctValues(entries[k].values))
  }

  /** Pushes the values that are not there yet. */
  method AddValues(accumulated: seq<string>, cleaned: seq<string>) returns (all: seq<string>)
    requires DistinctValues(accumulated)
    ensures DistinctValues(all)
    ensures forall v :: v in all <==> v in accumulated || v in cleaned
    ensures cleaned != [] || accumulated != [] ==> all != []
  {
    all := accumulated;
    for i := 0 to |cleaned|
      invariant DistinctValues(all)
      invariant forall v :: v in all <==> v in accumulated || v in cleaned[..i]
    {
      if cleaned[i] !in all { all := all + [cleaned[i]]; }
    }
    if cleaned != [] { assert cleaned[0] in all; }
    if accumulated != [] { assert accumulated[0] in all; }
  }

  /** A Map from column id to values, kept in insertion order: set one entry. */
  method SetEntry(entries: seq<Resolved>, id: string, cleaned: seq<string>) returns (next: seq<Resolved>)
    requires WellFormed(entries) && cleaned != []
    ensures WellFormed(next)
    ensures forall i, v :: Has(next, i, v) <==> Has(entries, i, v) || (i == id && v in cleaned)
  {
    var k := 0;
    while k < |entries| && entries[k].columnId != id
      invariant k <= |entries|
      invariant forall j | 0 <= j < k :: entries[j].columnId != id
    {
      k := k + 1;
    }
    if k < |entries| {
      var values := AddValues(entries[k].values, cleaned);
      next := entries[k := Resolved(id, values)];
      forall i, v
        ensures Has(next, i, v) <==> Has(entries, i, v) || (i == id && v in cleaned)
      {
        HasUpdated(entries, k, Resolved(id, values), i, v);
      }
    } else {
      var values := AddValues([], cleaned);
      next := entries + [Resolved(id, values)];
      forall i, v
        ensures Has(next, i, v) <==> Has(entries, i, v) || (i == id && v in cleaned)
      {
        HasAppended(entries, Resolved(id, values), i, v);
      }
    }
  }

  lemma HasUpdated(entries: seq<Resolved>, k: nat, entry: Resolved, i: string, v: string)
    requires WellFormed(entries) && k < |entries| && entry.columnId == entries[k].columnId
    ensures Has(entries[k := entry], i, v)
       <==> if i == entry.columnId then v in entry.values else Has(entries, i, v)
    ensures i == entry.columnId ==> (Has(entries, i, v) <==> v in entries[k].values)
  {
    var next := entries[k := entry];
    if i == entry.columnId {
      if v in entry.values { assert next[k].columnId == i; }
      if v in entries[k].values { assert entries[k].columnId == i; }
    } else {
      if Has(next, i, v) {
        var j :| 0 <= j < |next| && next[j].columnId == i && v in next[j].values;
        assert entries[j] == next[j];
      }
      if Has(entries, i, v) {
        var j :| 0 <= j < |entries| && entries[j].columnId == i && v in entries[j].values;
        assert entries[j] == next[j];
      }
    }
  }

  lemma HasAppended(entries: seq<Resolved>, entry: Resolved, i: string, v: string)
    ensures Has(entries + [entry], i, v) <==> Has(entries, i, v) || (i == entry.columnId && v in entry.values)
  {
    var next := entries + [entry];
    if Has(entries, i, v) {
      var j :| 0 <= j < |entries| && entries[j].columnId == i && v in entries[j].values;
      assert next[j] == entries[j];
    }
    if i == entry.columnId && v in entry.values { assert next[|entries|] == entry; }
  }

  /** Filters on unknown columns and filters without values fall away; the others are merged
      by column. What is kept is exactly what some filter asks for, trimmed and not blank. */
  method ResolveCrossFilters(filters: seq<CrossFilter>, columns: seq<FilterColumn>) returns (resolved: seq<Resolved>)
    ensures WellFormed(resolved)
    ensures forall id, v :: Has(resolved, id, v) <==> SomeAsksFor(filters, columns, id, v)
  {
    hide FindColumn, Cleaned, WellFormed, Has;
    resolved := [];
    NothingYet(columns);
    for n := 0 to |filters|
      invariant WellFormed(resolved)
      invariant forall id, v :: Has(resolved, id, v) <==> SomeAsksFor(filters[..n], columns, id, v)
    {
      var filter := filters[n];
      forall id, v
        ensures SomeAsksFor(filters[..n + 1], columns, id, v)
           <==> SomeAsksFor(filters[..n], columns, id, v) || AsksFor(filter, columns, id, v)
      {
        OneFilterMore(filters, n, columns, id, v);
      }
      var column := FindColumn(filter.columnKey, columns);
      if column.Some? {
        var cleaned := Cleaned(filter.values);
        if |cleaned| > 0 {
          resolved := SetEntry(resolved, column.value.id, cleaned);
        }
      }
    }
    assert filters[..|filters|] == filters;
  }

  lemma NothingYet(columns: seq<FilterColumn>)
    ensures WellFormed([])
    ensures forall id, v :: !Has([], id, v) && !SomeAsksFor([], columns, id, v)
  {
  }

  lemma OneFilterMore(filters: seq<CrossFilter>, n: nat, columns: seq<FilterColumn>, id: string, v: string)
    requires n < |filters|
    ensures SomeAsksFor(filters[..n + 1], columns, id, v)
       <==> SomeAsksFor(filters[..n], columns, id, v) || AsksFor(filters[n], columns, id, v)
  {
    hide AsksFor;
    var more := filters[..n + 1];
    assert forall k | 0 <= k < n :: more[k] == filters[..n][k];
    assert more[n] == filters[n];
    if SomeAsksFor(filters[..n], columns, id, v) {
      var k :| 0 <= k < n && AsksFor(filters[..n][k], columns, id, v);
      assert AsksFor(more[k], columns, id, v);
    }
  }

  // ----- sorting strings -----

  /** The order of Array.prototype.sort on strings: by characters, a prefix first. */
  predicate LexLeq(a: string, b: string) {
    if a == "" then true else if b == "" then false else
    a[0] < b[0] || (a[0] == b[0] && LexLeq(a[1..], b[1..]))
  }

  lemma {:induction false} LexTotal(a: string, b: string)
    ensures LexLeq(a, b) || LexLeq(b, a)
  {
    if a != "" && b != "" && a[0] == b[0] { LexTotal(a[1..], b[1..]); }
  }

  lemma {:induction false} LexAntisymmetric(a: string, b: string)
    requires LexLeq(a, b) && LexLeq(b, a)
    ensures a == b
  {
    if a != "" && b != "" {
      LexAntisymmetric(a[1..], b[1..]);
      assert a == [a[0]] + a[1..] && b == [b[0]] + b[1..];
    }
  }

  lemma {:induction false} LexTransitive(a: string, b: string, c: string)
    requires LexLeq(a, b) && LexLeq(b, c)
    ensures LexLeq(a, c)
  {
    if a != "" && b != "" && c != "" && a[0] == b[0] == c[0] { LexTransitive(a[1..], b[1..], c[1..]); }
  }

  predicate Sorted(s: seq<string>) {
    forall i, j | 0 <= i < j < |s| :: LexLeq(s[i], s[j])
  }

  function InsertString(s: seq<string>, x: string): seq<string> {
    if s == [] || LexLeq(x, s[0]) then [x] + s else [s[0]] + InsertString(s[1..], x)
  }

  function SortStrings(s: seq<string>): seq<string> {
    if s == [] then [] else InsertString(SortStrings(s[1..]), s[0])
  }

  lemma {:induction false} InsertStringPermutes(s: seq<string>, x: string)
    ensures multiset(InsertString(s, x)) == multiset(s) + multiset{x}
  {
    hide LexLeq;
    if !(s == [] || LexLeq(x, s[0])) {
      InsertStringPermutes(s[1..], x);
      assert s == [s[0]] + s[1..];
    }
  }

  lemma {:induction false} InsertStringSorts(s: seq<string>, x: string)
    requires Sorted(s)
    ensures Sorted(InsertString(s, x))
  {
    hide LexLeq;
    if s == [] {
    } else if LexLeq(x, s[0]) {
      forall j | 0 <= j < |s| ensures LexLeq(x, s[j]) {
        if j > 0 { LexTransitive(x, s[0], s[j]); }
      }
    } else {
      LexTotal(x, s[0]);
      InsertStringSorts(s[1..], x);
      InsertStringPermutes(s[1..], x);
      var rest := InsertString(s[1..], x);
      forall j | 0 <= j < |rest| ensures LexLeq(s[0], rest[j]) {
        assert rest[j] in multiset(rest);
        assert rest[j] == x || rest[j] in s[1..];
      }
    }
  }

  /** Sorting sorts, and keeps the elements. */
  lemma {:induction false} SortIsSorted(s: seq<string>)
    ensures Sorted(SortStrings(s)) && multiset(SortStrings(s)) == multiset(s) && |SortStrings(s)| == |s|
  {
    hide LexLeq, InsertString;
    if s != [] {
      SortIsSorted(s[1..]);
      InsertStringSorts(SortStrings(s[1..]), s[0]);
      InsertStringPermutes(SortStrings(s[1..]), s[0]);
      assert s == [s[0]] + s[1..];
      assert |SortStrings(s)| == |multiset(SortStrings(s))| == |multiset(s)| == |s|;
    }
  }

  lemma HeadAndTail(s: seq<string>)
    requires s != []
    ensures multiset(s) == multiset(s[1..]) + multiset{s[0]}
    ensures Sorted(s) ==> Sorted(s[1..])
  {
    hide LexLeq;
    assert s == [s[0]] + s[1..];
  }

  lemma SameHead(a: seq<string>, b: seq<string>)
    requires Sorted(a) && Sorted(b) && multiset(a) == multiset(b) && a != [] && b != []
    ensures a[0] == b[0]
  {
    hide LexLeq;
    assert a[0] in multiset(b) && b[0] in multiset(a);
    var i :| 0 <= i < |b| && b[i] == a[0];
    var j :| 0 <= j < |a| && a[j] == b[0];
    if i > 0 && j > 0 { LexAntisymmetric(a[0], b[0]); }
  }

  lemma {:induction false} SortedUnique(a: seq<string>, b: seq<string>)
    requires Sorted(a) && Sorted(b) && multiset(a) == multiset(b)
    ensures a == b
  {
    hide Sorted;
    assert |a| == |multiset(a)| == |multiset(b)| == |b|;
    if a != [] {
      SameHead(a, b);
      HeadAndTail(a);
      HeadAndTail(b);
      BagCancel(multiset(a[1..]), multiset(b[1..]), a[0]);
      SortedUnique(a[1..], b[1..]);
      assert a == [a[0]] + a[1..] && b == [b[0]] + b[1..];
    }
  }

  /** The sorted list depends on the elements only, and determines them. */
  lemma SortByElements(a: seq<string>, b: seq<string>)
    ensures SortStrings(a) == SortStrings(b) <==> multiset(a) == multiset(b)
  {
    hide Sorted, SortStrings;
    SortIsSorted(a);
    SortIsSorted(b);
    if multiset(a) == multiset(b) { SortedUnique(SortStrings(a), SortStrings(b)); }
  }

  // ----- the cache text -----

  function PartText(filter: Resolved): string {
    filter.columnId + "=" + Join(SortStrings(filter.values), "|")
  }

  /** The text that is hashed into the cache tag of a non-empty filter list. */
  function CacheText(filters: seq<Resolved>): string {
    Join(SortStrings(Map(PartText, filters)), ";")
  }

  /** A filter up to the order of its values, and filters up to their order. */
  function Meaning(filter: Resolved): (string, multiset<string>) {
    (filter.columnId, multiset(filter.values))
  }

  function MeaningOf(filters: seq<Resolved>): multiset<(string, multiset<string>)> {
    Bag(Meaning, filters)
  }

  function Bag<A, B>(f: A -> B, xs: seq<A>): multiset<B> {
    multiset(Map(f, xs))
  }

  lemma BagSize<A, B>(f: A -> B, xs: seq<A>)
    ensures |Bag(f, xs)| == |xs|
  {
    hide Map;
  }

  lemma InBag<A, B>(f: A -> B, xs: seq<A>, b: B) returns (j: nat)
    requires b in Bag(f, xs)
    ensures j < |xs| && f(xs[j]) == b
  {
    hide Map;
    j :| 0 <= j < |xs| && Map(f, xs)[j] == b;
  }

  lemma RemoveOne<A, B>(f: A -> B, xs: seq<A>, j: nat)
    requires j < |xs|
    ensures Bag(f, xs) == Bag(f, xs[..j] + xs[j + 1..]) + multiset{f(xs[j])}
  {
    hide Map;
    SplitAround(xs, j);
    MapConcat(f, xs[..j], [xs[j]] + xs[j + 1..]);
    MapCons(f, xs[j], xs[j + 1..]);
    MapConcat(f, xs[..j], xs[j + 1..]);
    BagAlgebra(Map(f, xs[..j]), f(xs[j]), Map(f, xs[j + 1..]));
  }

  lemma SplitAround<A>(xs: seq<A>, j: nat)
    requires j < |xs|
    ensures xs == xs[..j] + ([xs[j]] + xs[j + 1..])
  {
  }

  lemma BagAlgebra<B>(u: seq<B>, b: B, v: seq<B>)
    ensures multiset(u + ([b] + v)) == multiset(u + v) + multiset{b}
  {
  }

  lemma RemoveHead<A, B>(f: A -> B, xs: seq<A>)
    requires xs != []
    ensures Bag(f, xs) == Bag(f, xs[1..]) + multiset{f(xs[0])}
  {
    hide Bag;
    RemoveOne(f, xs, 0);
    assert xs[..0] + xs[1..] == xs[1..];
  }

  /** When one view of list elements determines another, equal bags of the one view make
      equal bags of the other. */
  lemma {:induction false} BagsFollow<A, B, C>(view: A -> B, other: A -> C, xs: seq<A>, ys: seq<A>)
    requires Bag(view, xs) == Bag(view, ys)
    requires forall x, y | x in xs && y in ys && view(x) == view(y) :: other(x) == other(y)
    ensures Bag(other, xs) == Bag(other, ys)
  {
    hide Bag;
    BagSize(view, xs);
    BagSize(view, ys);
    if xs == [] {
      assert xs == [] && ys == [];
    } else {
      RemoveHead(view, xs);
      RemoveHead(other, xs);
      var j := InBag(view, ys, view(xs[0]));
      var rest := ys[..j] + ys[j + 1..];
      RemoveOne(view, ys, j);
      RemoveOne(other, ys, j);
      BagCancel(Bag(view, xs[1..]), Bag(view, rest), view(xs[0]));
      BagsFollow(view, other, xs[1..], rest);
    }
  }

  lemma BagCancel<B>(u: multiset<B>, v: multiset<B>, b: B)
    requires u + multiset{b} == v + multiset{b}
    ensures u == v
  {
    assert u == (u + multiset{b}) - multiset{b};
    assert v == (v + multiset{b}) - multiset{b};
  }

  lemma PartByMeaning(f: Resolved, g: Resolved)
    requires Meaning(f) == Meaning(g)
    ensures PartText(f) == PartText(g)
  {
    hide SortStrings, Join;
    SortByElements(f.values, g.values);
  }

  /** The cache text does not change under any permutation of the filters and of the values
      inside a filter. */
  lemma CacheTextByMeaning(filters: seq<Resolved>, others: seq<Resolved>)
    requires MeaningOf(filters) == MeaningOf(others)
    ensures CacheText(filters) == CacheText(others)
  {
    hide SortStrings, Join, Meaning, PartText, Map;
    forall f, g | f in filters && g in others && Meaning(f) == Meaning(g)
      ensures PartText(f) == PartText(g)
    {
      PartByMeaning(f, g);
    }
    BagsFollow(Meaning, PartText, filters, others);
    SortByElements(Map(PartText, filters), Map(PartText, others));
  }

  // ----- reading the text back -----

  predicate AllLack(parts: seq<string>, c: char) {
    forall k | 0 <= k < |parts| :: Lacks(parts[k], c)
  }

  /** Where the first separator stands, the first part ends. */
  lemma SplitAtFirst(a: string, b: string, restA: string, restB: string, c: char)
    requires Lacks(a, c) && Lacks(b, c) && a + [c] + restA == b + [c] + restB
    ensures a == b && restA == restB
  {
    var s := a + [c] + restA;
    assert s[|a|] == c && s[|b|] == c;
    assert forall k | 0 <= k < |a| :: s[k] == a[k];
    assert forall k | 0 <= k < |b| :: s[k] == b[k];
    assert |a| == |b|;
    assert s[..|a|] == a && s[..|b|] == b;
    assert s[|a| + 1..] == restA && s[|b| + 1..] == restB;
  }

  lemma {:induction false} JoinLacks(parts: seq<string>, sep: string, c: char)
    requires AllLack(parts, c) && Lacks(sep, c)
    ensures Lacks(Join(parts, sep), c)
  {
    if |parts| > 1 {
      JoinLacks(parts[1..], sep, c);
    }
  }

  lemma JoinHasSeparator(parts: seq<string>, c: char)
    requires |parts| > 1
    ensures !Lacks(Join(parts, [c]), c)
  {
    assert Join(parts, [c])[|parts[0]|] == c;
  }

  /** Joined text determines the parts, when the separator is in none of them. */
  lemma {:induction false} JoinInjective(a: seq<string>, b: seq<string>, c: char)
    requires a != [] && b != [] && AllLack(a, c) && AllLack(b, c)
    requires Join(a, [c]) == Join(b, [c])
    ensures a == b
  {
    hide Lacks;
    if |a| == 1 {
      if |b| > 1 { JoinHasSeparator(b, c); }
    } else if |b| == 1 {
      JoinHasSeparator(a, c);
    } else {
      SplitAtFirst(a[0], b[0], Join(a[1..], [c]), Join(b[1..], [c]), c);
      JoinInjective(a[1..], b[1..], c);
      assert a == [a[0]] + a[1..] && b == [b[0]] + b[1..];
    }
  }

  /** Nothing in the filter contains a separator, and it has values. */
  predicate Separable(filter: Resolved) {
    && Lacks(filter.columnId, '=') && Lacks(filter.columnId, ';')
    && filter.values != [] && AllLack(filter.values, '|') && AllLack(filter.values, ';')
  }

  lemma SortedLack(values: seq<string>, c: char)
    requires AllLack(values, c)
    ensures AllLack(SortStrings(values), c)
  {
    hide SortStrings, Lacks;
    SortIsSorted(values);
    var s := SortStrings(values);
    forall k | 0 <= k < |s| ensures Lacks(s[k], c) {
      assert s[k] in multiset(s);
      assert s[k] in values;
    }
  }

  lemma MeaningByPart(f: Resolved, g: Resolved)
    requires Separable(f) && Separable(g) && PartText(f) == PartText(g)
    ensures Meaning(f) == Meaning(g)
  {
    hide SortStrings, Join, Lacks;
    var a, b := SortStrings(f.values), SortStrings(g.values);
    SplitAtFirst(f.columnId, g.columnId, Join(a, "|"), Join(b, "|"), '=');
    SortedLack(f.values, '|');
    SortedLack(g.values, '|');
    SortIsSorted(f.values);
    SortIsSorted(g.values);
    JoinInjective(a, b, '|');
    SortByElements(f.values, g.values);
  }

  lemma PartLacks(f: Resolved)
    requires Separable(f)
    ensures Lacks(PartText(f), ';') && PartText(f) != ""
  {
    hide SortStrings, Join;
    SortedLack(f.values, ';');
    JoinLacks(SortStrings(f.values), "|", ';');
  }

  lemma PartsLack(filters: seq<Resolved>)
    requires forall k | 0 <= k < |filters| :: Separable(filters[k])
    ensures AllLack(SortStrings(Map(PartText, filters)), ';')
    ensures filters != [] ==> CacheText(filters) != ""
    ensures filters == [] ==> CacheText(filters) == ""
  {
    hide SortStrings, PartText, Separable, Lacks, Map;
    var parts := Map(PartText, filters);
    forall k | 0 <= k < |parts| ensures Lacks(parts[k], ';') && parts[k] != "" {
      PartLacks(filters[k]);
    }
    SortedLack(parts, ';');
    SortIsSorted(parts);
    var s := SortStrings(parts);
    if filters != [] {
      assert s[0] in multiset(s);
      assert s[0] in parts;
      JoinNotEmpty(s);
    }
  }

  lemma JoinNotEmpty(parts: seq<string>)
    requires parts != [] && parts[0] != ""
    ensures Join(parts, ";") != ""
  {
  }

  /** The cache text identifies a filter set: two filter lists have the same text exactly when
      they are the same up to order, as long as no id contains '=' or ';' and no value
      contains '|' or ';'. The condition is sufficient and not necessary: the one value "y|x" is
      no sorted list when it is split, so no other values of that column share its text. */
  lemma CacheTextIdentifies(filters: seq<Resolved>, others: seq<Resolved>)
    requires forall k | 0 <= k < |filters| :: Separable(filters[k])
    requires forall k | 0 <= k < |others| :: Separable(others[k])
    ensures CacheText(filters) == CacheText(others) <==> MeaningOf(filters) == MeaningOf(others)
  {
    hide SortStrings, PartText, Meaning, Separable, AllLack, Join, Map;
    if MeaningOf(filters) == MeaningOf(others) {
      CacheTextByMeaning(filters, others);
    }
    if CacheText(filters) == CacheText(others) {
      PartsLack(filters);
      PartsLack(others);
      var a, b := Map(PartText, filters), Map(PartText, others);
      SortIsSorted(a);
      SortIsSorted(b);
      if filters != [] { JoinInjective(SortStrings(a), SortStrings(b), ';'); }
      SortByElements(a, b);
      forall f, g | f in filters && g in others && PartText(f) == PartText(g)
        ensures Meaning(f) == Meaning(g)
      {
        MeaningByPart(f, g);
      }
      BagsFollow(PartText, Meaning, filters, others);
    }
  }

  lemma {:induction false} DistinctOnce<T>(s: seq<T>, x: T)
    requires DistinctValues(s)
    ensures multiset(s)[x] <= 1
  {
    if s != [] {
      DistinctOnce(s[1..], x);
      assert s == [s[0]] + s[1..];
    }
  }

  /** Lists without repetition that have the same elements are permutations of each other. */
  lemma DistinctBags<T>(a: seq<T>, b: seq<T>)
    requires DistinctValues(a) && DistinctValues(b)
    requires forall x :: x in a <==> x in b
    ensures multiset(a) == multiset(b)
  {
    forall x ensures multiset(a)[x] == multiset(b)[x] {
      DistinctOnce(a, x);
      DistinctOnce(b, x);
      assert (x in multiset(a) <==> x in a) && (x in multiset(b) <==> x in b);
    }
  }

  ghost predicate AskAlike(filters: seq<Resolved>, others: seq<Resolved>) {
    forall id, v :: Has(filters, id, v) <==> Has(others, id, v)
  }

  /** With distinct columns and values, as resolving produces them, being the same up to
      order is asking for the same values of the same columns. */
  lemma MeaningIsWhatIsAsked(filters: seq<Resolved>, others: seq<Resolved>)
    requires WellFormed(filters) && WellFormed(others)
    ensures MeaningOf(filters) == MeaningOf(others) <==> AskAlike(filters, others)
  {
    hide Map, WellFormed;
    if MeaningOf(filters) == MeaningOf(others) {
      forall id, v
        ensures Has(filters, id, v) <==> Has(others, id, v)
      {
        if Has(filters, id, v) { HasByMeaning(filters, others, id, v); }
        if Has(others, id, v) { HasByMeaning(others, filters, id, v); }
      }
    }
    if AskAlike(filters, others) {
      hide Has;
      MeaningsDiffer(filters);
      MeaningsDiffer(others);
      var a, b := Map(Meaning, filters), Map(Meaning, others);
      forall x ensures x in a <==> x in b {
        if x in a { MeaningByAsking(filters, others, x); }
        if x in b { MeaningByAsking(others, filters, x); }
      }
      DistinctBags(a, b);
    }
  }

  lemma MeaningsDiffer(filters: seq<Resolved>)
    requires WellFormed(filters)
    ensures DistinctValues(Map(Meaning, filters))
  {
  }

  lemma MeaningByAsking(filters: seq<Resolved>, others: seq<Resolved>, meaning: (string, multiset<string>))
    requires WellFormed(filters) && WellFormed(others) && AskAlike(filters, others)
    requires meaning in Map(Meaning, filters)
    ensures meaning in Map(Meaning, others)
  {
    hide Map;
    var k :| 0 <= k < |filters| && Map(Meaning, filters)[k] == meaning;
    var id, values := filters[k].columnId, filters[k].values;
    assert values[0] in values;
    assert Has(filters, id, values[0]);
    var j :| 0 <= j < |others| && others[j].columnId == id && values[0] in others[j].values;
    forall v ensures v in values <==> v in others[j].values {
      HasIn(filters, k, v);
      HasIn(others, j, v);
    }
    DistinctBags(values, others[j].values);
    assert Map(Meaning, others)[j] == meaning;
  }

  lemma HasIn(filters: seq<Resolved>, k: nat, v: string)
    requires WellFormed(filters) && k < |filters|
    ensures Has(filters, filters[k].columnId, v) <==> v in filters[k].values
  {
  }

  lemma HasByMeaning(filters: seq<Resolved>, others: seq<Resolved>, id: string, v: string)
    requires MeaningOf(filters) == MeaningOf(others) && Has(filters, id, v)
    ensures Has(others, id, v)
  {
    hide Map;
    var k :| 0 <= k < |filters| && filters[k].columnId == id && v in filters[k].values;
    assert Map(Meaning, filters)[k] == Meaning(filters[k]);
    assert Meaning(filters[k]) in MeaningOf(others);
    var j :| 0 <= j < |others| && Map(Meaning, others)[j] == Meaning(filters[k]);
    assert v in multiset(filters[k].values) && multiset(others[j].values) == multiset(filters[k].values);
  }

  /** So among resolved filter lists without separators the cache text stands for what is asked: two of
      them share a text exactly when they ask for the same values of the same columns. */
  lemma CacheTextIsWhatIsAsked(filters: seq<Resolved>, others: seq<Resolved>)
    requires WellFormed(filters) && WellFormed(others)
    requires forall k | 0 <= k < |filters| :: Separable(filters[k])
    requires forall k | 0 <= k < |others| :: Separable(others[k])
    ensures CacheText(filters) == CacheText(others) <==> AskAlike(filters, others)
  {
    hide CacheText, MeaningOf, WellFormed, Separable, AskAlike;
    CacheTextIdentifies(filters, others);
    MeaningIsWhatIsAsked(filters, others);
  }

  /** With a separator in a value the text does not identify the filter set: one value "x|y"
      and the two values "x" and "y" look the same. */
  lemma SeparatorsCollide()
    ensures
      var one, two := [Resolved("c", ["x|y"])], [Resolved("c", ["x", "y"])];
      && CacheText(one) == CacheText(two)
      && WellFormed(one) && WellFormed(two)
      && Has(one, "c", "x|y") && !Has(two, "c", "x|y")
  {
    var one, two := Resolved("c", ["x|y"]), Resolved("c", ["x", "y"]);
    assert ["x", "y"][1..] == ["y"];
    assert SortStrings(["y"]) == ["y"];
    assert SortStrings(["x", "y"]) == ["x", "y"];
    assert Join(["x", "y"], "|") == "x|y";
    assert PartText(one) == PartText(two);
    MapNil(PartText);
    MapCons(PartText, one, []);
    MapCons(PartText, two, []);
    assert [one] + [] == [one] && [two] + [] == [two];
    assert [one][0].values[0] == "x|y";
    assert [two][0].values == ["x", "y"];
  }
}
