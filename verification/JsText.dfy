/** The JavaScript string operations the spreadsheet code relies on: the character
    classes \s and \w, trim, indexOf and join. */
module JsText {

  /** A value that may be null or undefined. */
  datatype Option<+T> = None | Some(value: T)

  /** What \s matches, which is also what String.prototype.trim removes. */
  predicate IsSpace(c: char) {
    var n := c as int;
    || 0x09 <= n <= 0x0D || n == 0x20 || n == 0xA0 || n == 0x1680
    || 0x2000 <= n <= 0x200A || n == 0x2028 || n == 0x2029 || n == 0x202F
    || n == 0x205F || n == 0x3000 || n == 0xFEFF
  }

  /** What \d matches. */
  predicate IsDigit(c: char) {
    '0' <= c <= '9'
  }

  /** What \w matches. */
  predicate IsWord(c: char) {
    'a' <= c <= 'z' || 'A' <= c <= 'Z' || IsDigit(c) || c == '_'
  }

  predicate Lacks(s: string, c: char) {
    forall k | 0 <= k < |s| :: s[k] != c
  }

  function TrimStart(s: string): string {
    if s != "" && IsSpace(s[0]) then TrimStart(s[1..]) else s
  }

  function TrimEnd(s: string): string {
    if s != "" && IsSpace(s[|s| - 1]) then TrimEnd(s[..|s| - 1]) else s
  }

  function Trim(s: string): string {
    TrimEnd(TrimStart(s))
  }

  /** No white space at either end. */
  predicate Trimmed(s: string) {
    s != "" ==> !IsSpace(s[0]) && !IsSpace(s[|s| - 1])
  }

  lemma {:induction false} TrimStartClean(s: string)
    ensures TrimStart(s) != "" ==> !IsSpace(TrimStart(s)[0])
  {
    if s != "" && IsSpace(s[0]) { TrimStartClean(s[1..]); }
  }

  lemma {:induction false} TrimEndClean(s: string)
    ensures TrimEnd(s) <= s
    ensures TrimEnd(s) != "" ==> !IsSpace(TrimEnd(s)[|TrimEnd(s)| - 1])
  {
    if s != "" && IsSpace(s[|s| - 1]) { TrimEndClean(s[..|s| - 1]); }
  }

  /** trim always yields a trimmed string, and leaves exactly the trimmed strings alone. */
  lemma TrimIsTrimmed(s: string)
    ensures Trimmed(Trim(s))
    ensures Trim(s) == s <==> Trimmed(s)
  {
    TrimStartClean(s);
    TrimEndClean(TrimStart(s));
  }

  predicate IsBlank(s: string) {
    forall k | 0 <= k < |s| :: IsSpace(s[k])
  }

  lemma {:induction false} TrimStartCuts(s: string) returns (before: string)
    ensures s == before + TrimStart(s) && IsBlank(before)
  {
    before := "";
    if s != "" && IsSpace(s[0]) {
      var rest := TrimStartCuts(s[1..]);
      before := [s[0]] + rest;
    }
  }

  lemma {:induction false} TrimEndCuts(s: string) returns (after: string)
    ensures s == TrimEnd(s) + after && IsBlank(after)
  {
    after := "";
    if s != "" && IsSpace(s[|s| - 1]) {
      var rest := TrimEndCuts(s[..|s| - 1]);
      after := rest + [s[|s| - 1]];
    }
  }

  /** trim cuts off white space at both ends and nothing else. */
  lemma TrimCuts(s: string) returns (before: string, after: string)
    ensures s == before + Trim(s) + after && IsBlank(before) && IsBlank(after) && Trimmed(Trim(s))
  {
    hide TrimStart, TrimEnd, IsBlank;
    TrimIsTrimmed(s);
    before := TrimStartCuts(s);
    after := TrimEndCuts(TrimStart(s));
  }

  /** indexOf for one character; |s| stands for "not found". */
  function IndexOf(s: string, c: char): (i: nat)
    ensures i <= |s|
    ensures i < |s| ==> s[i] == c
    ensures forall k | 0 <= k < i :: s[k] != c
  {
    if s == "" || s[0] == c then 0 else
      var r := IndexOf(s[1..], c);
      assert forall k | 1 <= k < 1 + r :: s[k] == s[1..][k - 1];
      1 + r
  }

  function Join(parts: seq<string>, sep: string): string {
    if parts == [] then "" else
    if |parts| == 1 then parts[0] else parts[0] + sep + Join(parts[1..], sep)
  }

  /** Array.prototype.map. */
  function Map<A, B>(f: A -> B, xs: seq<A>): (ys: seq<B>)
    ensures |ys| == |xs|
    ensures forall k | 0 <= k < |xs| :: ys[k] == f(xs[k])
  {
    if xs == [] then [] else [f(xs[0])] + Map(f, xs[1..])
  }

  lemma MapConcat<A, B>(f: A -> B, a: seq<A>, b: seq<A>)
    ensures Map(f, a + b) == Map(f, a) + Map(f, b)
  {
  }

  lemma MapNil<A, B>(f: A -> B)
    ensures Map(f, []) == []
  {
  }

  lemma MapCons<A, B>(f: A -> B, x: A, xs: seq<A>)
    ensures Map(f, [x] + xs) == [f(x)] + Map(f, xs)
  {
  }

  /** All the pieces put one after another, what a stream delivers in the end. */
  function Concat(parts: seq<string>): string {
    if parts == [] then "" else parts[0] + Concat(parts[1..])
  }

  lemma {:induction false} ConcatSnoc(parts: seq<string>, last: string)
    ensures Concat(parts + [last]) == Concat(parts) + last
  {
    if parts == [] {
      assert Concat([last]) == last + Concat([]);
    } else {
      ConcatSnoc(parts[1..], last);
      assert (parts + [last])[1..] == parts[1..] + [last];
    }
  }

  lemma ConcatFrom(parts: seq<string>, k: nat)
    requires k < |parts|
    ensures Concat(parts[k..]) == parts[k] + Concat(parts[k + 1..])
  {
    assert parts[k..][1..] == parts[k + 1..];
  }

  // ----- pieces of sequences -----

  /** Cutting the front of a text that goes on. */
  lemma CutAppend(s: string, k: nat, later: string)
    requires k <= |s|
    ensures s == s[..k] + s[k..]
    ensures s + later == s[..k] + (s[k..] + later)
  {
  }

  lemma DropAppend(z: string, w: string, i: nat, n: nat)
    requires i + n <= |w|
    ensures (z + w)[|z| + i..] == w[i..]
    ensures (z + w)[|z| + i..|z| + i + n] == w[i..i + n]
    ensures (z + w)[|z| + i + n..] == w[i + n..]
    ensures (z + w)[..|z| + i] == z + w[..i]
  {
  }

  lemma KeepAppend(s: string, later: string, i: nat, n: nat)
    requires i + n <= |s|
    ensures (s + later)[i..] == s[i..] + later
    ensures (s + later)[i..i + n] == s[i..i + n]
    ensures (s + later)[i + n..] == s[i + n..] + later
    ensures (s + later)[..i] == s[..i]
  {
  }

  lemma MoveOne(a: string, f: string)
    requires f != ""
    ensures a + [f[0]] + f[1..] == a + f
  {
  }

  lemma SliceFrom(s: string, i: nat, n: nat)
    requires i + n <= |s|
    ensures s[i..][..n] == s[i..i + n] && s[i..][n..] == s[i + n..]
  {
  }

  lemma SliceSlice(s: string, n: nat, i: nat, j: nat)
    requires i <= j <= n <= |s|
    ensures s[0..n][i..j] == s[i..j] && s[..n][i..j] == s[i..j] && s[i..][..j - i] == s[i..j]
    ensures s[0..n][..j] == s[..j] && s[..n][..j] == s[..j] && s[..n][i..] == s[i..n]
  {
  }
}
