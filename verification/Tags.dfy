/** The tag-matching regular expressions of xlsx-sheet-stream.ts, as a language of words
    and a leftmost search. All of them have the shape
    `<` or `</`, an optional namespace prefix `[\w.]+:`, a fixed name, one closing character. */
module Tags {
  import opened JsText

  /** `closes`: the pattern starts with "</" and ends with ">";
      `slash`: an opening pattern also accepts "/" after the name. */
  datatype TagPattern = TagPattern(closes: bool, name: string, slash: bool)

  /** The names searched for are made of word characters. */
  type Tag = t: TagPattern | forall c | c in t.name :: IsWord(c) witness TagPattern(false, "t", false)

  const SI_OPEN: Tag := TagPattern(false, "si", true)
  const SI_CLOSE: Tag := TagPattern(true, "si", false)
  const SHEET_OPEN: Tag := TagPattern(false, "sheetData", false)
  const SHEET_CLOSE: Tag := TagPattern(true, "sheetData", false)
  const ROW_OPEN: Tag := TagPattern(false, "row", true)
  const ROW_CLOSE: Tag := TagPattern(true, "row", false)
  const T_CLOSE: Tag := TagPattern(true, "t", false)
  const V_CLOSE: Tag := TagPattern(true, "v", false)
  const C_CLOSE: Tag := TagPattern(true, "c", false)
  const RPH_CLOSE: Tag := TagPattern(true, "rph", false)

  predicate NameChar(c: char) {
    IsWord(c) || c == '.'
  }

  predicate Ends(t: Tag, c: char) {
    c == '>' || (!t.closes && (IsSpace(c) || (t.slash && c == '/')))
  }

  function Head(t: Tag): string {
    if t.closes then "</" else "<"
  }

  /** The optional group `(?:[\w.]+:)?`. */
  predicate IsPrefix(p: string) {
    p != "" ==> |p| >= 2 && p[|p| - 1] == ':' && forall k | 0 <= k < |p| - 1 :: NameChar(p[k])
  }

  /** The whole of `w` is matched by the pattern. */
  predicate IsTagText(t: Tag, w: string) {
    var h, m := |Head(t)|, |w| - 1 - |t.name|;
    && h <= m
    && w[..h] == Head(t)
    && IsPrefix(w[h..m])
    && w[m..|w| - 1] == t.name
    && Ends(t, w[|w| - 1])
  }

  predicate MatchAt(t: Tag, s: string, i: int, n: int) {
    0 <= i && 0 <= n && i + n <= |s| && IsTagText(t, s[i..i + n])
  }

  /** A tag has its only '<' in front and can have '>' only at its end. */
  lemma InsideTag(t: Tag, w: string, k: int)
    requires IsTagText(t, w) && 0 <= k < |w|
    ensures w[k] == '<' <==> k == 0
    ensures k < |w| - 1 ==> w[k] != '>' && !IsSpace(w[k]) && (w[k] == '/' ==> t.closes && k == 1)
  {
    var h, m := |Head(t)|, |w| - 1 - |t.name|;
    if k < h {
      assert w[k] == w[..h][k];
    } else if k < m {
      assert w[k] == w[h..m][k - h];
    } else if k < |w| - 1 {
      assert w[k] == w[m..|w| - 1][k - m];
      assert w[k] in t.name;
    }
  }

  /** No tag is a proper prefix of another match of the same pattern. */
  lemma OneLength(t: Tag, s: string, i: int, n: int, n': int)
    requires MatchAt(t, s, i, n) && MatchAt(t, s, i, n')
    ensures n == n'
  {
    if n < n' {
      PrefixFree(t, s[i..i + n], s[i..i + n']);
    } else {
      PrefixFree(t, s[i..i + n'], s[i..i + n]);
    }
  }

  lemma PrefixFree(t: Tag, v: string, w: string)
    requires IsTagText(t, v) && IsTagText(t, w) && v <= w
    ensures v == w
  {
    if |v| < |w| {
      assert w[|v| - 1] == v[|v| - 1];
      InsideTag(t, w, |v| - 1);
    }
  }

  // ----- the search -----

  function Run(s: string): (r: nat)
    ensures r <= |s|
    ensures forall k | 0 <= k < r :: NameChar(s[k])
    ensures r < |s| ==> !NameChar(s[r])
  {
    if s == "" || !NameChar(s[0]) then 0 else
      var r := Run(s[1..]);
      assert forall k | 1 <= k < 1 + r :: s[k] == s[1..][k - 1];
      1 + r
  }

  /** How much of `s` the optional group takes. */
  function PrefixLen(s: string): (p: nat)
    ensures p <= |s| && IsPrefix(s[..p])
  {
    var r := Run(s);
    if r > 0 && r < |s| && s[r] == ':' then
      assert forall k | 0 <= k < r :: s[..r + 1][k] == s[k];
      r + 1
    else 0
  }

  /** How far the pattern matches at the start of `s`; 0 when it does not. */
  function TagLen(t: Tag, s: string): (n: nat)
    ensures n > 0 ==> n <= |s| && s[0] == '<'
  {
    if !(Head(t) <= s) then 0 else NameEnd(t, s, |Head(t)| + PrefixLen(s[|Head(t)|..]))
  }

  /** The name and the closing character, from position `p` on. */
  function NameEnd(t: Tag, s: string, p: nat): (n: nat)
    requires p <= |s|
    ensures n <= |s|
  {
    var e := p + |t.name|;
    if e < |s| && s[p..e] == t.name && Ends(t, s[e]) then e + 1 else 0
  }

  /** A prefix that is there is taken whole ... */
  lemma PrefixTaken(s: string, k: nat)
    requires 0 < k <= |s| && IsPrefix(s[..k])
    ensures PrefixLen(s) == k
  {
    assert forall j | 0 <= j < k - 1 :: NameChar(s[..k][j]);
    assert s[k - 1] == s[..k][k - 1];
    assert Run(s) == k - 1;
  }

  /** ... and a plain name is not taken for a prefix. */
  lemma NoPrefixTaken(t: Tag, s: string)
    requires |t.name| < |s| && s[..|t.name|] == t.name && Ends(t, s[|t.name|])
    ensures PrefixLen(s) == 0
  {
    assert forall j | 0 <= j < |t.name| :: s[j] == t.name[j] && s[j] in t.name;
    assert Run(s) == |t.name|;
  }

  lemma TagLenMatches(t: Tag, s: string)
    ensures TagLen(t, s) > 0 ==> MatchAt(t, s, 0, TagLen(t, s))
    ensures TagLen(t, s) == 0 ==> forall n :: !MatchAt(t, s, 0, n)
  {
    if TagLen(t, s) > 0 { FoundWordMatches(t, s); }
    forall n | MatchAt(t, s, 0, n)
      ensures TagLen(t, s) > 0
    {
      MatchedWordFound(t, s, n);
    }
  }

  lemma FoundWordMatches(t: Tag, s: string)
    requires TagLen(t, s) > 0
    ensures MatchAt(t, s, 0, TagLen(t, s))
  {
    hide IsPrefix, Ends, PrefixLen;
    var n, h := TagLen(t, s), |Head(t)|;
    var p := h + PrefixLen(s[h..]);
    var w := s[0..n];
    assert w[..h] == Head(t);
    assert w[h..p] == s[h..][..p - h];
    assert w[p..n - 1] == t.name;
  }

  lemma MatchedWordFound(t: Tag, s: string, n: int)
    requires MatchAt(t, s, 0, n)
    ensures TagLen(t, s) == n
  {
    var h, m := |Head(t)|, n - 1 - |t.name|;
    SliceSlice(s, n, 0, h);
    SliceSlice(s, n, h, m);
    SliceSlice(s, n, m, n - 1);
    PartsFound(t, s, h, m, n);
  }

  lemma PartsFound(t: Tag, s: string, h: nat, m: nat, n: nat)
    requires h == |Head(t)| && h <= m && n == m + |t.name| + 1 && n <= |s|
    requires s[..h] == Head(t) && IsPrefix(s[h..m]) && s[m..n - 1] == t.name && Ends(t, s[n - 1])
    ensures TagLen(t, s) == n
  {
    hide IsPrefix, Ends, PrefixLen;
    var tail := s[h..];
    SliceSlice(s, n, h, m);
    if m > h {
      PrefixTaken(tail, m - h);
    } else {
      SliceSlice(s, n, h, n - 1);
      NoPrefixTaken(t, tail);
    }
    assert Head(t) <= s;
  }

  datatype Hit = Nowhere | At(start: nat, len: nat)

  /** The leftmost match: String.prototype.search and .match without the g flag. */
  function Find(t: Tag, s: string): (hit: Hit)
    ensures hit.At? ==> hit.len > 0 && hit.start + hit.len <= |s| && s[hit.start] == '<'
  {
    if s == "" then Nowhere
    else if TagLen(t, s) > 0 then At(0, TagLen(t, s))
    else match Find(t, s[1..])
      case Nowhere => Nowhere
      case At(i, n) => At(i + 1, n)
  }

  predicate NoMatchBefore(t: Tag, s: string, k: int) {
    forall i, n | 0 <= n <= |s| && 0 <= i < k :: !MatchAt(t, s, i, n)
  }

  /** `hit` is the leftmost match of `t` in `s`. */
  predicate Leftmost(t: Tag, s: string, hit: Hit) {
    match hit
    case Nowhere => NoMatchBefore(t, s, |s|)
    case At(i, n) => MatchAt(t, s, i, n) && NoMatchBefore(t, s, i)
  }

  /** No match of `t` in `z + w` starts within `z`. */
  predicate Clear(t: Tag, z: string, w: string) {
    forall i, n | 0 <= n <= |z + w| && 0 <= i < |z| :: !MatchAt(t, z + w, i, n)
  }

  function Shift(k: nat, hit: Hit): Hit {
    match hit
    case Nowhere => Nowhere
    case At(i, n) => At(k + i, n)
  }

  lemma MatchShift(t: Tag, z: string, w: string, i: int, n: int)
    ensures MatchAt(t, z + w, |z| + i, n) && 0 <= i <==> MatchAt(t, w, i, n)
  {
    if 0 <= i && 0 <= n && i + n <= |w| {
      assert (z + w)[|z| + i..|z| + i + n] == w[i..i + n];
    }
  }

  lemma MatchExtend(t: Tag, s: string, f: string, i: int, n: int)
    requires 0 <= i && 0 <= n && i + n <= |s|
    ensures MatchAt(t, s + f, i, n) <==> MatchAt(t, s, i, n)
  {
    assert (s + f)[i..i + n] == s[i..i + n];
  }

  /** What a match looks like: '<' in front and nowhere else, and no '>' before its end. */
  lemma MatchShape(t: Tag, s: string, i: int, n: int)
    requires MatchAt(t, s, i, n)
    ensures n > 0 && s[i] == '<' && forall k | i < k < i + n :: s[k] != '<'
    ensures forall k | i <= k < i + n - 1 :: s[k] != '>'
  {
    var m := s[i..i + n];
    InsideTag(t, m, 0);
    forall k | i < k < i + n ensures s[k] != '<' && (k < i + n - 1 ==> s[k] != '>') {
      InsideTag(t, m, k - i);
      assert m[k - i] == s[k];
    }
  }

  /** A leftmost match in `w` is, moved, the leftmost one in `z + w` when none starts in `z`. */
  lemma LeftmostSkip(t: Tag, z: string, w: string, hit: Hit)
    requires Leftmost(t, w, hit) && Clear(t, z, w)
    ensures Leftmost(t, z + w, Shift(|z|, hit))
  {
    forall i, n | |z| <= i
      ensures MatchAt(t, z + w, i, n) <==> MatchAt(t, w, i - |z|, n)
    {
      MatchShift(t, z, w, i - |z|, n);
    }
  }

  lemma {:induction false} FindIsLeftmost(t: Tag, s: string)
    ensures Leftmost(t, s, Find(t, s))
  {
    if s != "" {
      TagLenMatches(t, s);
      if TagLen(t, s) == 0 {
        FindIsLeftmost(t, s[1..]);
        assert s == s[..1] + s[1..];
        LeftmostSkip(t, s[..1], s[1..], Find(t, s[1..]));
      }
    }
  }

  lemma LeftmostIsFind(t: Tag, s: string, hit: Hit)
    requires Leftmost(t, s, hit)
    ensures Find(t, s) == hit
  {
    FindIsLeftmost(t, s);
    var f := Find(t, s);
    if f.At? && hit.At? {
      if f.start == hit.start { OneLength(t, s, f.start, f.len, hit.len); }
      assert f.start == hit.start;
    }
  }

  /** What has been found stays found when more text arrives. */
  lemma FindExtend(t: Tag, s: string, f: string)
    requires Find(t, s).At?
    ensures Find(t, s + f) == Find(t, s)
  {
    hide Find, IsTagText;
    FindIsLeftmost(t, s);
    var i, n := Find(t, s).start, Find(t, s).len;
    MatchExtend(t, s, f, i, n);
    MatchShape(t, s + f, i, n);
    forall j, m | 0 <= j < i ensures !MatchAt(t, s + f, j, m) {
      if 0 <= m && j + m <= |s| {
        MatchExtend(t, s, f, j, m);
      } else if MatchAt(t, s + f, j, m) {
        MatchShape(t, s + f, j, m);
      }
    }
    LeftmostIsFind(t, s + f, Find(t, s));
  }

  /** Text that no tag starts in can be dropped from the front. */
  lemma FindSkip(t: Tag, z: string, w: string)
    requires Clear(t, z, w)
    ensures Find(t, z + w) == Shift(|z|, Find(t, w))
  {
    FindIsLeftmost(t, w);
    LeftmostSkip(t, z, w, Find(t, w));
    LeftmostIsFind(t, z + w, Shift(|z|, Find(t, w)));
  }

  /** The reasons why nothing starts within `z`: there is no whole tag in `z`, and a tag
      reaching beyond `z` would have to run over a '<' or past a '>'. */
  lemma ClearBeforeLt(t: Tag, z: string, w: string)
    requires NoMatchBefore(t, z, |z|)
    requires w != "" && w[0] == '<'
    ensures Clear(t, z, w)
  {
    forall i, n | 0 <= i < |z| && MatchAt(t, z + w, i, n)
      ensures false
    {
      if i + n <= |z| {
        MatchExtend(t, z, w, i, n);
      } else {
        InsideTag(t, (z + w)[i..i + n], |z| - i);
      }
    }
  }

  lemma ClearAfterGt(t: Tag, z: string, w: string)
    requires NoMatchBefore(t, z, |z|)
    requires z != "" && z[|z| - 1] == '>'
    ensures Clear(t, z, w)
  {
    forall i, n | 0 <= i < |z| && MatchAt(t, z + w, i, n)
      ensures false
    {
      if i + n <= |z| {
        MatchExtend(t, z, w, i, n);
      } else {
        InsideTag(t, (z + w)[i..i + n], |z| - 1 - i);
      }
    }
  }

  /** Every occurrence of the tag in the text has at most `max` characters. */
  predicate Fits(t: Tag, s: string, max: nat) {
    forall i, n | 0 <= n <= |s| && 0 <= i < |s| && MatchAt(t, s, i, n) :: n <= max
  }

  /** Text without a whole tag can be cut down to a tail one shorter than the longest tag. */
  lemma ClearByLength(t: Tag, s: string, f: string, keep: nat)
    requires Find(t, s) == Nowhere && keep <= |s|
    requires Fits(t, s + f, keep + 1)
    ensures Clear(t, s[..|s| - keep], s[|s| - keep..] + f)
  {
    hide Find;
    FindIsLeftmost(t, s);
    var z, w := s[..|s| - keep], s[|s| - keep..] + f;
    assert z + w == s + f;
    forall i, n | 0 <= i < |z| && MatchAt(t, z + w, i, n)
      ensures false
    {
      assert MatchAt(t, s + f, i, n) && n <= keep + 1;
      assert i + n <= |s|;
      MatchExtend(t, s, f, i, n);
    }
  }

  lemma FitsSuffix(t: Tag, z: string, w: string, max: nat)
    requires Fits(t, z + w, max)
    ensures Fits(t, w, max)
  {
    forall i, n | 0 <= i < |w| && MatchAt(t, w, i, n)
      ensures n <= max
    {
      MatchShift(t, z, w, i, n);
    }
  }

  lemma NoMatchInPrefix(t: Tag, z: string, w: string)
    requires match Find(t, z + w) case Nowhere => true case At(i, _) => |z| <= i
    ensures NoMatchBefore(t, z, |z|) && Clear(t, z, w)
  {
    FindIsLeftmost(t, z + w);
    forall i, n | 0 <= i < |z| && MatchAt(t, z, i, n)
      ensures false
    {
      MatchExtend(t, z, w, i, n);
    }
  }
}
