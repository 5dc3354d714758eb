/** Header names of a spreadsheet: blank ones are numbered, repeated ones get a suffix. */
module Headers {
  import opened JsText
  import opened Decimals

  /** What a header cell is called before repetitions are looked at. */
  function Label(rawHeaders: seq<string>, index: nat): string
    requires index < |rawHeaders|
  {
    var cell := Trim(rawHeaders[index]);
    if cell != "" then cell else "Coluna " + Print(index + 1)
  }

  /** The names tried: the name itself, then with the suffix (2), (3) and so on. */
  function Candidate(name: string, k: nat): string {
    if k <= 1 then name else name + " (" + Print(k) + ")"
  }

  lemma CandidatesDiffer(name: string, j: nat, k: nat)
    requires 1 <= j < k
    ensures Candidate(name, j) != Candidate(name, k)
  {
    var v, w := Candidate(name, j), Candidate(name, k);
    if j == 1 {
      assert |v| < |w|;
    } else if v == w {
      assert v[|name| + 2..|v| - 1] == Print(j);
      assert w[|name| + 2..|w| - 1] == Print(k);
      PrintInjective(j, k);
    }
  }

  /** The candidates before number `k`. */
  function Tried(name: string, k: nat): set<string>
    requires k >= 1
  {
    if k == 1 then {} else Tried(name, k - 1) + {Candidate(name, k - 1)}
  }

  lemma {:induction false} TriedAre(name: string, k: nat)
    requires k >= 1
    ensures forall c | c in Tried(name, k) :: exists j :: 1 <= j < k && c == Candidate(name, j)
    ensures |Tried(name, k)| == k - 1
  {
    if k > 1 {
      TriedAre(name, k - 1);
      if Candidate(name, k - 1) in Tried(name, k - 1) {
        var j :| 1 <= j < k - 1 && Candidate(name, k - 1) == Candidate(name, j);
        CandidatesDiffer(name, j, k - 1);
      }
    }
  }

  /** Pigeonhole: when all candidates before `k` are taken, there are at least as many names. */
  lemma TriedAreFew(name: string, k: nat, seen: set<string>)
    requires k >= 1 && Tried(name, k) <= seen
    ensures k <= |seen| + 1
  {
    TriedAre(name, k);
    SubsetSize(Tried(name, k), seen);
  }

  lemma SubsetSize<T>(a: set<T>, b: set<T>)
    requires a <= b
    ensures |a| <= |b|
  {
    assert b == a + (b - a);
  }

  /** The first candidate from number `k` on that is not taken. */
  function FirstFree(name: string, k: nat, seen: set<string>): (n: nat)
    requires k >= 1 && Tried(name, k) <= seen
    ensures k <= n <= |seen| + 1
    ensures Candidate(name, n) !in seen && Tried(name, n) <= seen
    decreases |seen| + 1 - k
  {
    TriedAreFew(name, k, seen);
    if Candidate(name, k) !in seen then k else
      TriedAreFew(name, k + 1, seen);
      FirstFree(name, k + 1, seen)
  }

  function Elements(names: seq<string>): set<string> {
    set n | n in names
  }

  /** The unique names of the first `k` headers. */
  function UniqueNames(rawHeaders: seq<string>, k: nat): (names: seq<string>)
    requires k <= |rawHeaders|
    ensures |names| == k
  {
    if k == 0 then [] else
    var before := UniqueNames(rawHeaders, k - 1);
    var name := Label(rawHeaders, k - 1);
    before + [Candidate(name, FirstFree(name, 1, Elements(before)))]
  }

  /** The name, or when it is taken, the name with the lowest number from 2 on, in parentheses, that is free. */
  ghost predicate IsFreeName(name: string, base: string, before: seq<string>) {
    if base !in before then name == base
    else exists n :: n >= 2 && name == Numbered(base, n) && name !in before
                     && forall j | 2 <= j < n :: Numbered(base, j) in before
  }

  function Numbered(base: string, n: nat): string {
    base + " (" + Print(n) + ")"
  }

  lemma {:induction false} TriedHas(name: string, k: nat, j: nat)
    requires 1 <= j < k
    ensures Candidate(name, j) in Tried(name, k)
  {
    if j < k - 1 { TriedHas(name, k - 1, j); }
  }

  lemma FreeIsNamed(base: string, before: seq<string>)
    requires Tried(base, 1) <= Elements(before)
    ensures IsFreeName(Candidate(base, FirstFree(base, 1, Elements(before))), base, before)
  {
    hide Tried;
    FirstCandidate(base);
    var n := FirstFree(base, 1, Elements(before));
    if base in before {
      assert Candidate(base, 1) in Elements(before);
      forall j | 2 <= j < n ensures Numbered(base, j) in before {
        TriedHas(base, n, j);
        assert Candidate(base, j) in Elements(before);
      }
      assert n >= 2 && Candidate(base, n) == Numbered(base, n);
    }
  }

  lemma OneMoreName(rawHeaders: seq<string>, k: nat)
    requires k < |rawHeaders|
    ensures
      var names, before := UniqueNames(rawHeaders, k + 1), UniqueNames(rawHeaders, k);
      names[..k] == before && IsFreeName(names[k], Label(rawHeaders, k), before)
  {
    hide Label, FirstFree, Candidate, Elements, IsFreeName, Tried;
    FirstCandidate(Label(rawHeaders, k));
    FreeIsNamed(Label(rawHeaders, k), UniqueNames(rawHeaders, k));
  }

  /** A header is named by its text, trimmed, or by "Coluna" and its number, made free of the names before. */
  lemma {:induction false} NamesAre(rawHeaders: seq<string>, k: nat, i: nat)
    requires i < k <= |rawHeaders|
    ensures
      var names, cell := UniqueNames(rawHeaders, k), Trim(rawHeaders[i]);
      IsFreeName(names[i], if cell == "" then "Coluna " + Print(i + 1) else cell, names[..i])
  {
    hide Trim, UniqueNames, IsFreeName;
    var names, before := UniqueNames(rawHeaders, k), UniqueNames(rawHeaders, k - 1);
    OneMoreName(rawHeaders, k - 1);
    if i < k - 1 {
      NamesAre(rawHeaders, k - 1, i);
      assert names[i] == names[..k - 1][i] && names[..i] == names[..k - 1][..i];
    }
  }

  /** The suffix search ends after at most one try more than names seen. */
  method UniquifyHeaderNames(rawHeaders: seq<string>) returns (headers: seq<string>)
    ensures headers == UniqueNames(rawHeaders, |rawHeaders|)
  {
    hide Candidate, Label, Tried;
    headers := [];
    var seen: set<string> := {};
    for index := 0 to |rawHeaders|
      invariant headers == UniqueNames(rawHeaders, index)
      invariant seen == Elements(headers)
    {
      var name := Label(rawHeaders, index);
      var unique, n := name, 2;
      FirstCandidate(name);
      while unique in seen
        invariant n >= 2 && unique == Candidate(name, n - 1)
        invariant Tried(name, n - 1) <= seen
        invariant FirstFree(name, 1, seen) == FirstFree(name, n - 1, seen)
        decreases |seen| + 2 - n
      {
        NextCandidate(name, n, seen);
        unique := name + " (" + Print(n) + ")";
        n := n + 1;
      }
      headers := headers + [unique];
      seen := seen + {unique};
    }
  }

  lemma FirstCandidate(name: string)
    ensures Candidate(name, 1) == name && Tried(name, 1) == {}
  {
  }

  lemma NextCandidate(name: string, n: nat, seen: set<string>)
    requires n >= 2 && Tried(name, n - 1) <= seen && Candidate(name, n - 1) in seen
    ensures Candidate(name, n) == name + " (" + Print(n) + ")"
    ensures Tried(name, n) <= seen && n <= |seen| + 1
    ensures FirstFree(name, n - 1, seen) == FirstFree(name, n, seen)
  {
    hide Candidate;
    assert Tried(name, n) == Tried(name, n - 1) + {Candidate(name, n - 1)};
    TriedAreFew(name, n, seen);
    CandidateText(name, n);
  }

  lemma CandidateText(name: string, n: nat)
    requires n >= 2
    ensures Candidate(name, n) == name + " (" + Print(n) + ")"
  {
  }

  predicate Distinct(names: seq<string>) {
    forall i, j | 0 <= i < j < |names| :: names[i] != names[j]
  }

  predicate Clean(names: seq<string>) {
    forall i | 0 <= i < |names| :: names[i] != "" && Trimmed(names[i])
  }

  lemma CandidateIsClean(rawHeaders: seq<string>, index: nat, k: nat)
    requires index < |rawHeaders|
    ensures Candidate(Label(rawHeaders, index), k) != "" && Trimmed(Candidate(Label(rawHeaders, index), k))
  {
    hide Trim, Trimmed;
    TrimIsTrimmed(rawHeaders[index]);
    NumberedIsTrimmed(index + 1);
    SuffixKeepsTrimmed(Label(rawHeaders, index), k);
  }

  lemma NumberedIsTrimmed(n: nat)
    ensures Trimmed("Coluna " + Print(n))
  {
    var s := "Coluna " + Print(n);
    assert s[0] == 'C' && IsDigit(s[|s| - 1]);
  }

  lemma SuffixKeepsTrimmed(name: string, k: nat)
    requires name != "" && Trimmed(name)
    ensures Trimmed(Candidate(name, k))
  {
    var s := Candidate(name, k);
    assert s[0] == name[0];
    assert k >= 2 ==> s[|s| - 1] == ')';
  }

  /** The names are as many as the headers, pairwise distinct, non-empty and trimmed. */
  lemma {:induction false} NamesAreUnique(rawHeaders: seq<string>, k: nat)
    requires k <= |rawHeaders|
    ensures Distinct(UniqueNames(rawHeaders, k)) && Clean(UniqueNames(rawHeaders, k))
  {
    hide Candidate, Label, Tried, Trimmed;
    if k > 0 {
      NamesAreUnique(rawHeaders, k - 1);
      var before := UniqueNames(rawHeaders, k - 1);
      FirstCandidate(Label(rawHeaders, k - 1));
      var n := FirstFree(Label(rawHeaders, k - 1), 1, Elements(before));
      CandidateIsClean(rawHeaders, k - 1, n);
      assert forall i | 0 <= i < k - 1 :: before[i] in Elements(before);
    }
  }

  /** Names that are already unique and clean are left as they are. */
  lemma {:induction false} UniqueNamesStay(names: seq<string>, k: nat)
    requires Distinct(names) && Clean(names) && k <= |names|
    ensures UniqueNames(names, k) == names[..k]
  {
    hide Tried, Trim, Trimmed, FirstFree, Candidate;
    if k > 0 {
      UniqueNamesStay(names, k - 1);
      TrimIsTrimmed(names[k - 1]);
      assert Label(names, k - 1) == names[k - 1];
      assert names[k - 1] !in names[..k - 1];
      FreeAtOnce(names[k - 1], Elements(names[..k - 1]));
    }
  }

  lemma FreeAtOnce(name: string, seen: set<string>)
    requires name !in seen
    ensures Tried(name, 1) <= seen && FirstFree(name, 1, seen) == 1 && Candidate(name, 1) == name
  {
  }

  /** Making header names unique is idempotent. */
  lemma UniquifyIsIdempotent(rawHeaders: seq<string>)
    ensures
      var names := UniqueNames(rawHeaders, |rawHeaders|);
      UniqueNames(names, |names|) == names
  {
    hide Distinct, Clean, UniqueNames;
    var names := UniqueNames(rawHeaders, |rawHeaders|);
    NamesAreUnique(rawHeaders, |rawHeaders|);
    UniqueNamesStay(names, |names|);
  }

  /** One more than the position of the last header that is not blank. */
  function HeaderCount(values: seq<string>): (n: nat)
    ensures n <= |values|
    ensures n > 0 ==> Trim(values[n - 1]) != ""
    ensures forall k | n <= k < |values| :: Trim(values[k]) == ""
  {
    if values == [] || Trim(values[|values| - 1]) != "" then |values| else HeaderCount(values[..|values| - 1])
  }

  /** Cells to the right of the last real header are ignored; blank ones before it are kept. */
  method HeadersFromRow(values: seq<string>) returns (headers: seq<string>)
    ensures headers == UniqueNames(values[..HeaderCount(values)], HeaderCount(values))
    ensures Distinct(headers) && Clean(headers)
    ensures headers == [] <==> forall k | 0 <= k < |values| :: Trim(values[k]) == ""
  {
    hide Trim, UniqueNames, Distinct, Clean;
    var last: int := -1;
    for i := 0 to |values|
      invariant -1 <= last < i
      invariant last >= 0 ==> Trim(values[last]) != ""
      invariant forall k | last < k < i :: Trim(values[k]) == ""
    {
      if Trim(values[i]) != "" { last := i; }
    }
    assert last + 1 == HeaderCount(values);
    NamesAreUnique(values[..last + 1], last + 1);
    if last < 0 {
      headers := [];
    } else {
      headers := UniquifyHeaderNames(values[..last + 1]);
    }
  }
}
