/** The shared-strings part of a workbook (section 18.4.8 of ECMA-376 Part 1), read in chunks. */
module SharedStrings {
  import opened JsText
  import opened Tags
  import opened XmlText

  /** Most characters one data entry may have before reading is refused. */
  const ENTRY_LIMIT: nat := 80 * 1024 * 1024
  /** A buffer without any opening tag is cut down to its tail when it gets this long. */
  const SI_BUFFER: nat := 2_000_000
  const SI_TAIL: nat := 256

  // ----- what a text contains -----

  /** `s` starts with an opening tag; the length of the whole item, 0 while it is not closed. */
  function SiLen(s: string): (n: nat)
    ensures n <= |s|
  {
    match Find(SI_CLOSE, s)
    case Nowhere => 0
    case At(i, n) => i + n
  }

  /** Where the first item of a text is and how long, 0 characters if it is not complete. */
  datatype First = NoItem | Item(start: nat, len: nat)

  function FirstItem(s: string): (f: First)
    ensures f.Item? ==> f.start + f.len <= |s|
    ensures f.Item? && f.len == 0 ==> f.start < |s|
  {
    match Find(SI_OPEN, s)
    case Nowhere => NoItem
    case At(i, _) => Item(i, SiLen(s[i..]))
  }

  /** The complete si elements of a whole text, in order. */
  function SiItems(s: string): seq<string>
    decreases |s|
  {
    match FirstItem(s)
    case NoItem => []
    case Item(i, n) => if n == 0 then [] else [s[i..i + n]] + SiItems(s[i + n..])
  }

  /** What a scan leaves in the buffer. */
  function SiRest(s: string): string
    decreases |s|
  {
    match FirstItem(s)
    case NoItem => if |s| > SI_BUFFER then s[|s| - SI_TAIL..] else s
    case Item(i, n) => if n == 0 then s[i..] else SiRest(s[i + n..])
  }

  /** One turn of the scan. */
  lemma ScanStep(s: string, i: nat, n: nat)
    requires FirstItem(s) == Item(i, n) && n > 0
    ensures SiItems(s) == [s[i..i + n]] + SiItems(s[i + n..])
    ensures SiRest(s) == SiRest(s[i + n..])
  {
    hide FirstItem;
  }

  /** The end of the scan. */
  lemma ScanStop(s: string)
    requires FirstItem(s).NoItem? || FirstItem(s).len == 0
    ensures SiItems(s) == []
    ensures SiRest(s) == if FirstItem(s).Item? then s[FirstItem(s).start..]
                         else if |s| > SI_BUFFER then s[|s| - SI_TAIL..] else s
  {
    hide FirstItem;
  }

  /** The scanning loop: find an opening tag, find the closing one, take the item, move on. */
  method TakeCompleteSiItems(buf: string) returns (items: seq<string>, rest: string)
    ensures items == Map(SiText, SiItems(buf))
    ensures rest == SiRest(buf)
  {
    hide Find, SiItems, SiRest, SiText, Map;
    items := [];
    var cursor := buf;
    while true
      invariant Map(SiText, SiItems(buf)) == items + Map(SiText, SiItems(cursor))
      invariant SiRest(buf) == SiRest(cursor)
      decreases |cursor|
    {
      var open := Find(SI_OPEN, cursor);
      if open.Nowhere? {
        ScanStop(cursor);
        MapNil(SiText);
        rest := if |cursor| > SI_BUFFER then cursor[|cursor| - SI_TAIL..] else cursor;
        return;
      }
      var fromSi := cursor[open.start..];
      var close := Find(SI_CLOSE, fromSi);
      if close.Nowhere? {
        ScanStop(cursor);
        MapNil(SiText);
        rest := fromSi;
        return;
      }
      var end := close.start + close.len;
      ScanStep(cursor, open.start, end);
      SliceFrom(cursor, open.start, end);
      MapCons(SiText, fromSi[..end], SiItems(fromSi[end..]));
      items := items + [SiText(fromSi[..end])];
      cursor := fromSi[end..];
    }
  }

  // ----- chunks -----

  /** Text in front that no item starts in does not matter. */
  lemma ItemsSkip(z: string, w: string)
    requires Clear(SI_OPEN, z, w)
    ensures SiItems(z + w) == SiItems(w)
  {
    hide Find, Clear, SiItems, SiRest;
    FindSkip(SI_OPEN, z, w);
    match FirstItem(w) {
      case NoItem =>
        ScanStop(w);
        ScanStop(z + w);
      case Item(i, n) =>
        assert (z + w)[|z| + i..] == w[i..];
        assert FirstItem(z + w) == Item(|z| + i, n);
        if n == 0 {
          ScanStop(w);
          ScanStop(z + w);
        } else {
          ScanStep(w, i, n);
          ScanStep(z + w, |z| + i, n);
          assert (z + w)[|z| + i..|z| + i + n] == w[i..i + n];
          assert (z + w)[|z| + i + n..] == w[i + n..];
        }
    }
  }

  /** An item that is complete stays the first one when more text arrives. */
  lemma ItemsExtend(a: string, b: string, i: nat, n: nat)
    requires FirstItem(a) == Item(i, n) && n > 0
    ensures SiItems(a + b) == [a[i..i + n]] + SiItems(a[i + n..] + b)
  {
    hide Find, SiItems, SiRest;
    FindExtend(SI_OPEN, a, b);
    FindExtend(SI_CLOSE, a[i..], b);
    assert (a + b)[i..] == a[i..] + b;
    ScanStep(a + b, i, n);
    assert (a + b)[i..i + n] == a[i..i + n];
    assert (a + b)[i + n..] == a[i + n..] + b;
  }

  lemma BeforeOpen(a: string, i: nat, b: string)
    requires Find(SI_OPEN, a).At? && Find(SI_OPEN, a).start == i
    ensures Clear(SI_OPEN, a[..i], a[i..] + b)
  {
    hide Find;
    assert a == a[..i] + a[i..];
    NoMatchInPrefix(SI_OPEN, a[..i], a[i..]);
    ClearBeforeLt(SI_OPEN, a[..i], a[i..] + b);
  }

  /** Scanning `a`, keeping its rest and scanning on with `b` behind it finds the same items
      as scanning `a + b` at once, as long as no opening tag is longer than the kept tail. */
  lemma {:induction false} ScanSplit(a: string, b: string)
    requires Fits(SI_OPEN, a + b, SI_TAIL + 1)
    ensures SiItems(a + b) == SiItems(a) + SiItems(SiRest(a) + b)
    decreases |a|
  {
    hide Find, SiItems, SiRest, Fits, Clear;
    match FirstItem(a) {
      case NoItem =>
        ScanStop(a);
        if |a| > SI_BUFFER {
          var z, tail := a[..|a| - SI_TAIL], a[|a| - SI_TAIL..];
          ClearByLength(SI_OPEN, a, b, SI_TAIL);
          assert a + b == z + (tail + b);
          ItemsSkip(z, tail + b);
        }
      case Item(i, n) =>
        if n == 0 {
          ScanStop(a);
          assert a + b == a[..i] + (a[i..] + b);
          BeforeOpen(a, i, b);
          ItemsSkip(a[..i], a[i..] + b);
        } else {
          ScanStep(a, i, n);
          ItemsExtend(a, b, i, n);
          assert a + b == a[..i + n] + (a[i + n..] + b);
          FitsSuffix(SI_OPEN, a[..i + n], a[i + n..] + b, SI_TAIL + 1);
          ScanSplit(a[i + n..], b);
        }
    }
  }

  /** The rest of a scan is a suffix of what was scanned. */
  lemma {:induction false} RestIsSuffix(s: string) returns (z: string)
    ensures s == z + SiRest(s)
    decreases |s|
  {
    hide SiItems, SiRest, FirstItem;
    match FirstItem(s) {
      case NoItem =>
        ScanStop(s);
        z := s[..|s| - |SiRest(s)|];
      case Item(i, n) =>
        if n == 0 {
          ScanStop(s);
          z := s[..i];
        } else {
          ScanStep(s, i, n);
          var later := RestIsSuffix(s[i + n..]);
          z := s[..i + n] + later;
        }
    }
  }

  /** The texts found from `buf` on, with everything that has not been read yet behind it. */
  lemma ScanChunk(buf: string, later: string)
    requires Fits(SI_OPEN, buf + later, SI_TAIL + 1)
    ensures Map(SiText, SiItems(buf + later))
         == Map(SiText, SiItems(buf)) + Map(SiText, SiItems(SiRest(buf) + later))
    ensures Fits(SI_OPEN, SiRest(buf) + later, SI_TAIL + 1)
  {
    hide SiItems, SiRest, SiText, Fits, Map;
    ScanSplit(buf, later);
    MapConcat(SiText, SiItems(buf), SiItems(SiRest(buf) + later));
    var z := RestIsSuffix(buf);
    assert buf + later == z + (SiRest(buf) + later);
    FitsSuffix(SI_OPEN, z, SiRest(buf) + later, SI_TAIL + 1);
  }

  /** Reading in chunks: the strings are those of the whole text, however it is cut. The
      only other outcome is the refusal of a text over the limit. */
  method ParseSharedStringsStream(chunks: seq<string>) returns (out: seq<string>, refused: bool)
    requires Fits(SI_OPEN, Concat(chunks), SI_TAIL + 1)
    ensures refused <==> |Concat(chunks)| > ENTRY_LIMIT
    ensures !refused ==> out == Map(SiText, SiItems(Concat(chunks)))
  {
    hide SiItems, SiRest, SiText, Fits, Map;
    out, refused := [], false;
    var buf, seen, k := "", 0, 0;
    assert chunks[0..] == chunks && "" + Concat(chunks) == Concat(chunks);
    while k < |chunks|
      invariant 0 <= k <= |chunks|
      invariant seen <= ENTRY_LIMIT
      invariant seen + |Concat(chunks[k..])| == |Concat(chunks)|
      invariant Fits(SI_OPEN, buf + Concat(chunks[k..]), SI_TAIL + 1)
      invariant Map(SiText, SiItems(Concat(chunks))) == out + Map(SiText, SiItems(buf + Concat(chunks[k..])))
    {
      var text := chunks[k];
      ghost var later := Concat(chunks[k + 1..]);
      ConcatFrom(chunks, k);
      assert buf + (text + later) == (buf + text) + later;
      seen := seen + |text|;
      if seen > ENTRY_LIMIT {
        refused := true;
        return;
      }
      buf := buf + text;
      ScanChunk(buf, later);
      var items, rest := TakeCompleteSiItems(buf);
      out := out + items;
      buf := rest;
      k := k + 1;
    }
    assert buf + Concat(chunks[k..]) == buf;
    var items, _ := TakeCompleteSiItems(buf);
    out := out + items;
  }

  // ----- printing and parsing back -----

  lemma TagAt(t: Tag, s: string, n: nat)
    requires n <= |s| && IsTagText(t, s[..n])
    ensures Find(t, s) == At(0, n)
  {
    hide Find;
    assert s[0..n] == s[..n];
    LeftmostIsFind(t, s, At(0, n));
  }

  /** A closing tag behind text without '<'. */
  lemma TagBehind(t: Tag, z: string, w: string, n: nat)
    requires Lacks(z, '<') && n <= |w| && IsTagText(t, w[..n])
    ensures Find(t, z + w) == At(|z|, n)
  {
    hide Find;
    TagAt(t, w, n);
    forall i, m | 0 <= i < |z| && MatchAt(t, z + w, i, m)
      ensures false
    {
      InsideTag(t, (z + w)[i..i + m], 0);
    }
    FindSkip(t, z, w);
  }

  /** A tag whose name starts with another letter does not open `name` ... */
  lemma OtherName(s: string, n: nat, name: string)
    requires 1 < n < |s| && s[0] == '<' && name != "" && s[1] != name[0]
    requires forall k | 1 <= k < n :: NameChar(s[k])
    requires !NameChar(s[n]) && s[n] != ':'
    ensures !OpensName(s, name)
  {
    var tail := s[1..];
    assert forall k | 0 <= k < n - 1 :: tail[k] == s[k + 1];
    assert Run(tail) == n - 1;
    assert tail[0] != name[0];
  }

  /** ... and neither does a closing tag. */
  lemma ClosingName(s: string, name: string)
    requires |s| > 1 && s[1] == '/' && name != "" && name[0] != '/'
    ensures !OpensName(s, name)
  {
    var tail := s[1..];
    assert Run(tail) == 0;
  }

  lemma {:induction false} ContentsSkip(p: string, s: string, close: Tag)
    requires Lacks(p, '<')
    ensures Contents(p + s, close) == Contents(s, close)
  {
    hide Find, OpensName;
    if p == "" {
      assert p + s == s;
    } else {
      assert (p + s)[0] == p[0];
      assert ElementAt(p + s, close).NoElement? by {
        assert !OpensName(p + s, close.name) by { NotAnOpening(p + s, close.name); }
      }
      assert (p + s)[1..] == p[1..] + s;
      ContentsSkip(p[1..], s, close);
    }
  }

  lemma NotAnOpening(s: string, name: string)
    requires s != "" && s[0] != '<'
    ensures !OpensName(s, name)
  {
  }

  lemma {:induction false} PhoneticSkip(p: string, s: string)
    requires Lacks(p, '<')
    ensures StripPhonetic(p + s) == p + StripPhonetic(s)
  {
    hide StripPhonetic, OpensName, LowerAscii;
    if p == "" {
      assert p + s == s;
    } else {
      NotAnOpening(LowerAscii(p + s), "rph");
      StripOne(p + s);
      assert (p + s)[1..] == p[1..] + s;
      PhoneticSkip(p[1..], s);
      assert [p[0]] + p[1..] == p;
    }
  }

  /** Nothing is cut out of a printed item. */
  lemma PrintedHasNoPhonetic(s: string)
    ensures StripPhonetic(PrintItem(s)) == PrintItem(s)
  {
    hide StripPhonetic, Escaped;
    var e := Escaped(s, 0);
    EscapedClean(s);
    PhoneticOpening("<si>", 3, "<t>" + e + "</t></si>");
    PhoneticOpening("<t>" + e, 2, "</t></si>");
    PhoneticClosing("</t>", "</si>");
    PhoneticClosing("</si>", "");
    assert StripPhonetic("") == "" by { StripEmpty(); }
    assert PrintItem(s) == "<si>" + ("<t>" + e + "</t></si>");
    assert "</t></si>" == "</t>" + "</si>";
    assert "</si>" == "</si>" + "";
  }

  lemma StripEmpty()
    ensures StripPhonetic("") == ""
  {
  }

  lemma PhoneticOpening(p: string, n: nat, s: string)
    requires 1 < n < |p| && p[0] == '<' && Lacks(p[1..], '<') && p[n] == '>'
    requires forall k | 1 <= k < n :: p[k] in "sit"
    ensures StripPhonetic(p + s) == p + StripPhonetic(s)
  {
    hide StripPhonetic, OpensName;
    var low := LowerAscii(p + s);
    assert forall k | 0 <= k <= n :: low[k] == Lower(p[k]) == p[k];
    OtherName(low, n, "rph");
    PhoneticSkipTag(p, s);
  }

  lemma PhoneticClosing(p: string, s: string)
    requires |p| > 1 && p[0] == '<' && Lacks(p[1..], '<') && p[1] == '/'
    ensures StripPhonetic(p + s) == p + StripPhonetic(s)
  {
    hide StripPhonetic, OpensName;
    assert LowerAscii(p + s)[1] == Lower(p[1]);
    ClosingName(LowerAscii(p + s), "rph");
    PhoneticSkipTag(p, s);
  }

  lemma PhoneticSkipTag(p: string, s: string)
    requires p != "" && Lacks(p[1..], '<') && !OpensName(LowerAscii(p + s), "rph")
    ensures StripPhonetic(p + s) == p + StripPhonetic(s)
  {
    hide StripPhonetic, OpensName;
    StripOne(p + s);
    assert (p + s)[1..] == p[1..] + s;
    PhoneticSkip(p[1..], s);
    assert [p[0]] + p[1..] == p;
  }

  lemma StripOne(s: string)
    requires s != "" && !OpensName(LowerAscii(s), "rph")
    ensures StripPhonetic(s) == [s[0]] + StripPhonetic(s[1..])
  {
    hide Find, OpensName;
  }

  /** A printed item has one t element, holding the escaped text. */
  lemma PrintedContents(s: string)
    ensures Contents(PrintItem(s), T_CLOSE) == [Escaped(s, 0)]
  {
    hide Contents, Escaped;
    var e := Escaped(s, 0);
    EscapedClean(s);
    var inner := "<t>" + e + "</t>" + "</si>";
    assert PrintItem(s) == "<si>" + inner;
    SkipItemOpen(inner);
    TakeText(e);
    SkipItemClose();
  }

  lemma SkipItemOpen(inner: string)
    ensures Contents("<si>" + inner, T_CLOSE) == Contents(inner, T_CLOSE)
  {
    hide Contents, OpensName;
    var all := "<si>" + inner;
    assert all[1] == 's' && all[2] == 'i' && all[3] == '>';
    OtherName(all, 3, "t");
    ContentsOne(all, T_CLOSE);
    assert all[1..] == "si>" + inner;
    ContentsSkip("si>", inner, T_CLOSE);
  }

  lemma TakeText(e: string)
    requires Lacks(e, '<')
    ensures Contents("<t>" + e + "</t>" + "</si>", T_CLOSE) == [e] + Contents("</si>", T_CLOSE)
  {
    hide Contents, ElementAt;
    TextElement(T_CLOSE, e, "</si>");
    assert "<" + "t" + ">" == "<t>" && "</" + "t" + ">" == "</t>";
    ContentsElement("<t>" + e + "</t>" + "</si>", T_CLOSE);
    DropAppend("<t>" + e + "</t>", "</si>", 0, 0);
  }

  lemma SkipItemClose()
    ensures Contents("</si>", T_CLOSE) == []
  {
    hide Contents, OpensName;
    var end := "</si>";
    ClosingName(end, "t");
    ContentsOne(end, T_CLOSE);
    assert end[1..] == "/si>" + "";
    ContentsSkip("/si>", "", T_CLOSE);
    ContentsNone(T_CLOSE);
  }

  lemma ContentsNone(close: Tag)
    ensures Contents("", close) == []
  {
  }

  lemma ContentsOne(s: string, close: Tag)
    requires s != "" && !OpensName(s, close.name)
    ensures Contents(s, close) == Contents(s[1..], close)
  {
    hide Find, OpensName;
  }

  lemma ContentsElement(s: string, close: Tag)
    requires ElementAt(s, close).Element?
    ensures Contents(s, close) == [ElementAt(s, close).inner] + Contents(s[ElementAt(s, close).len..], close)
  {
    hide ElementAt;
  }

  lemma TextElement(t: Tag, e: string, rest: string)
    requires Lacks(e, '<') && t in {T_CLOSE, V_CLOSE}
    ensures
      var open, end := "<" + t.name + ">", "</" + t.name + ">";
      var el := ElementAt(open + e + end + rest, t);
      el.Element? && el.inner == e && el.len == |open + e + end|
  {
    hide Find, AttrText;
    var open, end := "<" + t.name + ">", "</" + t.name + ">";
    var s := open + e + end + rest;
    assert s[0] == '<' && s[1] == t.name[0] && s[2] == '>';
    assert IndexOf(s, '>') == 2;
    assert s[1..][0..1] == t.name;
    assert OpensName(s, t.name) by { assert NamedAt(s[1..], 0, t.name); }
    var w := end + rest;
    assert s == open + (e + w) && s[3..] == e + w;
    assert w[..4] == end && end[..2] == "</" && end[2..3] == t.name;
    assert IsTagText(t, end);
    TagBehind(t, e, w, 4);
    assert (e + w)[..|e|] == e;
  }

  /** What comes back for one item: its text, trimmed. */
  lemma PrintedText(s: string)
    ensures SiText(PrintItem(s)) == Trim(s)
  {
    hide Contents, StripPhonetic, Escaped, DecodeXml, PrintItem, Trim;
    PrintedHasNoPhonetic(s);
    PrintedContents(s);
    DecodeInvertsEscape(s);
    assert DecodeAll([Escaped(s, 0)], false) == [s];
    assert Concat([s]) == s + Concat([]) == s;
  }

  lemma PrintedIsFirst(s: string, rest: string)
    ensures FirstItem(PrintItem(s) + rest) == Item(0, |PrintItem(s)|)
  {
    hide Find, Escaped;
    var e := Escaped(s, 0);
    EscapedClean(s);
    var all := PrintItem(s) + rest;
    OpenInFront("<t>" + e + "</t></si>" + rest);
    assert all == "<si>" + ("<t>" + e + "</t></si>" + rest);
    CloseBehind(e, "</si>" + rest);
    assert all == "<si><t>" + e + "</t>" + ("</si>" + rest);
    assert all[0..] == all;
  }

  lemma OpenInFront(w: string)
    ensures Find(SI_OPEN, "<si>" + w) == At(0, 4)
  {
    hide Find;
    assert ("<si>" + w)[..4] == "<si>";
    assert IsTagText(SI_OPEN, "<si>");
    TagAt(SI_OPEN, "<si>" + w, 4);
  }

  lemma CloseBehind(e: string, w: string)
    requires Lacks(e, '<') && |w| >= 5 && w[..5] == "</si>"
    ensures Find(SI_CLOSE, "<si><t>" + e + "</t>" + w) == At(|"<si><t>" + e + "</t>"|, 5)
  {
    hide Find;
    var z := "<si><t>" + e + "</t>";
    assert IsTagText(SI_CLOSE, "</si>");
    TagAt(SI_CLOSE, w, 5);
    forall i, m | 0 <= i < |z| && MatchAt(SI_CLOSE, z + w, i, m)
      ensures false
    {
      NoCloseInside(e, w, i, m);
    }
    FindSkip(SI_CLOSE, z, w);
  }

  lemma NoCloseInside(e: string, w: string, i: nat, m: nat)
    requires Lacks(e, '<') && i < 11 + |e|
    ensures !MatchAt(SI_CLOSE, "<si><t>" + e + "</t>" + w, i, m)
  {
    var s := "<si><t>" + e + "</t>" + w;
    if MatchAt(SI_CLOSE, s, i, m) {
      var v := s[i..i + m];
      InsideTag(SI_CLOSE, v, 0);
      assert v[..2][1] == v[1] == '/';
      assert s[1] == 's' && s[5] == 't';
      assert forall k | 7 <= k < 7 + |e| :: s[k] == e[k - 7];
      assert s[7 + |e| + 2] == 't' && s[7 + |e| + 3] == '>';
      assert i == 7 + |e|;
      InsideTag(SI_CLOSE, v, 3);
    }
  }

  /** Printing a list of texts and reading it back returns the texts, trimmed. */
  lemma {:induction false} PrintedItemsReadBack(items: seq<string>)
    ensures Map(SiText, SiItems(PrintItems(items))) == Map(Trim, items)
  {
    hide Find, SiItems, SiRest, SiText, PrintItem, Trim;
    var all := PrintItems(items);
    if items == [] {
      assert Find(SI_OPEN, "") == Nowhere by { FindNothing(SI_OPEN); }
      ScanStop("");
    } else {
      var first, rest := PrintItem(items[0]), PrintItems(items[1..]);
      PrintedIsFirst(items[0], rest);
      assert first != "" by { PrintedNotEmpty(items[0]); }
      ScanStep(all, 0, |first|);
      assert all[0..|first|] == first;
      assert all[|first|..] == rest;
      PrintedText(items[0]);
      PrintedItemsReadBack(items[1..]);
    }
  }

  lemma PrintedNotEmpty(s: string)
    ensures PrintItem(s) != ""
  {
  }

  lemma FindNothing(t: Tag)
    ensures Find(t, "") == Nowhere
  {
  }

  /** Every '<' is followed by a '>' or a space within the next `reach` characters. */
  predicate ShortTags(s: string, reach: nat) {
    forall i | 0 <= i < |s| && s[i] == '<' :: exists k :: i < k <= i + reach && k < |s| && (s[k] == '>' || s[k] == ' ')
  }

  lemma ShortTagsConcat(a: string, b: string, reach: nat)
    requires ShortTags(a, reach) && ShortTags(b, reach)
    ensures ShortTags(a + b, reach)
  {
    forall i | 0 <= i < |a + b| && (a + b)[i] == '<'
      ensures exists k :: i < k <= i + reach && k < |a + b| && ((a + b)[k] == '>' || (a + b)[k] == ' ')
    {
      if i < |a| {
        var k :| i < k <= i + reach && k < |a| && (a[k] == '>' || a[k] == ' ');
        assert (a + b)[k] == a[k];
      } else {
        var j := i - |a|;
        var k :| j < k <= j + reach && k < |b| && (b[k] == '>' || b[k] == ' ');
        assert (a + b)[|a| + k] == b[k];
      }
    }
  }

  lemma {:induction false} PrintedTagsAreShort(items: seq<string>)
    ensures ShortTags(PrintItems(items), 4)
  {
    if items != [] {
      PrintedTagsAreShort(items[1..]);
      var e := Escaped(items[0], 0);
      EscapedClean(items[0]);
      assert "<si><t>"[3] == '>' && "<si><t>"[6] == '>';
      assert "</t></si>"[3] == '>' && "</t></si>"[8] == '>';
      ShortTagsConcat("<si><t>", e, 4);
      ShortTagsConcat("<si><t>" + e, "</t></si>", 4);
      ShortTagsConcat(PrintItem(items[0]), PrintItems(items[1..]), 4);
    }
  }

  lemma ShortTagsFit(t: Tag, s: string, reach: nat, max: nat)
    requires ShortTags(s, reach) && max >= reach + 1
    ensures Fits(t, s, max)
  {
    hide IsTagText;
    forall i, n | 0 <= i < |s| && MatchAt(t, s, i, n)
      ensures n <= max
    {
      var v := s[i..i + n];
      if n > max {
        InsideTag(t, v, 0);
        var k :| i < k <= i + reach && k < |s| && (s[k] == '>' || s[k] == ' ');
        InsideTag(t, v, k - i);
      }
    }
  }

  /** The round trip through the file: however the printed text is cut into chunks, reading
      it returns the printed list, exactly when every text in it is trimmed. */
  lemma PrintParseRoundTrip(items: seq<string>, chunks: seq<string>)
    requires Concat(chunks) == PrintItems(items)
    ensures Fits(SI_OPEN, Concat(chunks), SI_TAIL + 1)
    ensures Map(SiText, SiItems(Concat(chunks))) == items
       <==> forall k | 0 <= k < |items| :: Trimmed(items[k])
  {
    hide SiItems, SiText, Fits, PrintItems, ShortTags, Trim, Trimmed;
    PrintedTagsAreShort(items);
    ShortTagsFit(SI_OPEN, PrintItems(items), 4, SI_TAIL + 1);
    PrintedItemsReadBack(items);
    forall k | 0 <= k < |items|
      ensures Trim(items[k]) == items[k] <==> Trimmed(items[k])
    {
      TrimIsTrimmed(items[k]);
    }
    var m := Map(Trim, items);
    assert m == items <==> forall k | 0 <= k < |items| :: m[k] == items[k];
  }
}
