/** What the text of a spreadsheet part reads as: character references, CDATA sections, and shared strings
    of several formatted runs with phonetic readings. */
module TextReadBack {
  import opened JsText
  import opened Tags
  import opened XmlText
  import opened SharedStrings
  import opened SheetPrint
  import opened SheetReadBack

  // ----- character references -----

  const DIGITS := "0123456789abcdef"

  function PrintBase(n: nat, base: nat): (s: string)
    requires base == 10 || base == 16
    ensures s != "" && forall k | 0 <= k < |s| :: s[k] in DIGITS[..base]
  {
    if n < base then [DIGITS[n]] else PrintBase(n / base, base) + [DIGITS[n % base]]
  }

  lemma DigitValue(d: nat, base: nat)
    requires (base == 10 || base == 16) && d < base
    ensures HexValue(DIGITS[d]) == d
  {
  }

  lemma DigitsCount(c: char, base: nat)
    requires (base == 10 || base == 16) && c in DIGITS[..base]
    ensures HexValue(c) < base && c != ';' && c != '<' && c != '&' && c != 'x'
  {
  }

  lemma {:induction false} NumberOfPrinted(n: nat, base: nat)
    requires base == 10 || base == 16
    ensures NumberValue(PrintBase(n, base), base) == n
  {
    hide HexValue, NumberValue;
    Parts(n, base);
    DigitValue(n % base, base);
    if n < base {
      assert "" + [DIGITS[n]] == [DIGITS[n]];
      NumberSnoc("", DIGITS[n], base);
      assert NumberValue("", base) == 0 by { NoNumber(base); }
    } else {
      NumberOfPrinted(n / base, base);
      NumberSnoc(PrintBase(n / base, base), DIGITS[n % base], base);
    }
  }

  lemma Parts(n: nat, base: nat)
    requires base == 10 || base == 16
    ensures n / base * base + n % base == n && (n < base ==> n % base == n)
  {
  }

  lemma NoNumber(base: nat)
    ensures NumberValue("", base) == 0
  {
  }

  lemma NumberSnoc(s: string, c: char, base: nat)
    ensures NumberValue(s + [c], base) == NumberValue(s, base) * base + HexValue(c)
  {
    assert (s + [c])[..|s|] == s;
  }

  lemma SemicolonEnds(s: string, base: nat)
    requires base <= 16 && s != "" && s[0] == ';'
    ensures DigitRun(s, base) == 0
  {
  }

  lemma {:induction false} RunOfDigits(d: string, base: nat, rest: string)
    requires (base == 10 || base == 16) && forall k | 0 <= k < |d| :: d[k] in DIGITS[..base]
    ensures DigitRun(d + (";" + rest), base) == |d|
  {
    hide HexValue;
    var s := d + (";" + rest);
    if d == "" {
      assert s[0] == ';';
      SemicolonEnds(s, base);
    } else {
      DigitsCount(d[0], base);
      assert s[0] == d[0] && s[1..] == d[1..] + (";" + rest);
      RunOfDigits(d[1..], base, rest);
    }
  }

  const UPPER_DIGITS := "0123456789ABCDEF"

  /** Hexadecimal digits count in either letter case, and nothing else does. */
  lemma HexExactly(c: char)
    ensures HexValue(c) < 16 <==> c in DIGITS || c in UPPER_DIGITS
    ensures forall k | 0 <= k < 16 :: HexValue(DIGITS[k]) == k == HexValue(UPPER_DIGITS[k])
    ensures IsDigit(c) <==> HexValue(c) < 10
  {
    if HexValue(c) < 16 { assert c == DIGITS[HexValue(c)] || c == UPPER_DIGITS[HexValue(c)]; }
  }

  /** The two forms of a reference: "&#x" with base 16 and "&#" with base 10. */
  predicate IsForm(head: string, base: nat) {
    (head == "&#x" && base == 16) || (head == "&#" && base == 10)
  }

  /** The text with every character written as a reference. */
  function References(s: string, head: string, base: nat): string
    requires base == 10 || base == 16
  {
    if s == "" then "" else head + (PrintBase(s[0] as nat, base) + (";" + References(s[1..], head, base)))
  }

  /** The characters that one UTF-16 unit holds. */
  predicate IsBasic(s: string) {
    forall k | 0 <= k < |s| :: s[k] as int < 0x1_0000
  }

  lemma CharOfCode(c: char)
    ensures (c as int < 0x1_0000) ==> FromCharCode(c as nat) == c
    ensures (c as int >= 0x1_0000) ==> FromCharCode(c as nat) != c
  {
  }

  /** A reference is replaced by the character of its number. */
  lemma {:induction false} ReferenceRead(c: char, head: string, base: nat, rest: string)
    requires IsForm(head, base)
    ensures DecodeRefs(head + (PrintBase(c as nat, base) + (";" + rest)), head, base)
         == [FromCharCode(c as nat)] + DecodeRefs(rest, head, base)
  {
    hide FromCharCode, NumberValue, RefLen;
    var d := PrintBase(c as nat, base);
    NumberOfPrinted(c as nat, base);
    ReferenceLength(d, head, base, rest);
  }

  lemma ReferenceLength(d: string, head: string, base: nat, rest: string)
    requires IsForm(head, base) && d != "" && forall k | 0 <= k < |d| :: d[k] in DIGITS[..base]
    ensures
      var s, e := head + (d + (";" + rest)), |head| + |d|;
      RefLen(s, head, base) == e + 1 && s[|head|..e] == d && s[e + 1..] == rest
  {
    hide DigitRun;
    var s, e := head + (d + (";" + rest)), |head| + |d|;
    RunOfDigits(d, base, rest);
    assert s[|head|..] == d + (";" + rest) && head <= s;
    assert s[e] == ';';
  }

  lemma {:induction false} ReferencesRead(s: string, head: string, base: nat)
    requires IsForm(head, base) && IsBasic(s)
    ensures DecodeRefs(References(s, head, base), head, base) == s
  {
    hide FromCharCode, DecodeRefs;
    if s == "" {
      assert DecodeRefs("", head, base) == "" by { NoText(head, base); }
    } else {
      CharOfCode(s[0]);
      ReferenceRead(s[0], head, base, References(s[1..], head, base));
      ReferencesRead(s[1..], head, base);
      assert s == [s[0]] + s[1..];
    }
  }

  lemma NoText(head: string, base: nat)
    ensures DecodeRefs("", head, base) == ""
  {
  }

  lemma DigitsLack(d: string, base: nat)
    requires (base == 10 || base == 16) && forall k | 0 <= k < |d| :: d[k] in DIGITS[..base]
    ensures Lacks(d + ";", '<') && Lacks(d + ";", '&') && Lacks(d, 'x')
  {
    forall k | 0 <= k < |d| ensures d[k] != '<' && d[k] != '&' && d[k] != 'x' { DigitsCount(d[k], base); }
  }

  lemma {:induction false} ReferencesLackTags(s: string, head: string, base: nat)
    requires IsForm(head, base)
    ensures Lacks(References(s, head, base), '<')
  {
    if s != "" {
      DigitsLack(PrintBase(s[0] as nat, base), base);
      ReferencesLackTags(s[1..], head, base);
    }
  }

  /** Decimal references are none with "&#x". */
  lemma {:induction false} DecimalIsNoHex(s: string)
    ensures DecodeRefs(References(s, "&#", 10), "&#x", 16) == References(s, "&#", 10)
  {
    hide DecodeRefs, RefLen, PrintBase;
    if s == "" {
      NoText("&#x", 16);
    } else {
      var d, rest := PrintBase(s[0] as nat, 10), References(s[1..], "&#", 10);
      DigitsLack(d, 10);
      OneIsNoHex(d, rest);
      DecimalIsNoHex(s[1..]);
      assert References(s, "&#", 10) == ("&#" + d + ";") + rest;
    }
  }

  lemma OneIsNoHex(d: string, rest: string)
    requires d != "" && Lacks(d + ";", '&') && Lacks(d, 'x')
    ensures DecodeRefs(("&#" + d + ";") + rest, "&#x", 16) == ("&#" + d + ";") + DecodeRefs(rest, "&#x", 16)
  {
    hide DecodeRefs, RefLen;
    var all, body := ("&#" + d + ";") + rest, "#" + d + ";";
    assert body == "#" + (d + ";");
    assert all[2] == d[0] != 'x';
    NoReference(all);
    assert all[1..] == body + rest && ['&'] + body == "&#" + d + ";";
    RefsSkip(body, rest, "&#x", 16);
  }

  lemma NoReference(all: string)
    requires |all| >= 3 && all[2] != 'x'
    ensures DecodeRefs(all, "&#x", 16) == [all[0]] + DecodeRefs(all[1..], "&#x", 16)
  {
    assert RefLen(all, "&#x", 16) == 0;
  }

  lemma {:induction false} NoEntities(s: string, i: nat)
    requires Lacks(s, '&') && i <= 5
    ensures Unescape(s, i) == s
    decreases 5 - i
  {
    if i < 5 {
      EntitiesDiffer(i, i, "");
      assert s + "" == s;
      ReplaceSkips(s, "", Entity(i), [MARKS[i]]);
      NoEntities(s, i + 1);
    }
  }

  /** A text of the basic plane without '&', its characters written as references of either form, is
      decoded to itself. */
  lemma ReferencesDecoded(s: string, head: string, base: nat)
    requires IsForm(head, base) && IsBasic(s) && Lacks(s, '&')
    ensures DecodeXml(References(s, head, base), false) == s
  {
    hide DecodeRefs, StripCdata, Unescape, References;
    var refs := References(s, head, base);
    ReferencesLackTags(s, head, base);
    NoCdata(refs);
    ReferencesRead(s, head, base);
    NoEntities(s, 0);
    if base == 10 {
      DecimalIsNoHex(s);
    } else {
      assert s + "" == s;
      RefsSkip(s, "", "&#", 10);
      NoText("&#", 10);
    }
  }

  /** An ampersand written as a reference is decoded twice: what should read "&lt;" reads "<". */
  lemma AmpersandDecodedTwice()
    ensures DecodeXml(References("&", "&#", 10) + "lt;", false) == "<"
  {
    hide DecodeRefs, StripCdata, References, Unescape;
    OneReference('&');
    var refs := References("&", "&#", 10);
    ReferencesLackTags("&", "&#", 10);
    NoCdata(refs + "lt;");
    ReferenceRead('&', "&#", 10, "lt;");
    DecimalThenText(refs, "lt;");
    assert "lt;" + "" == "lt;";
    RefsSkip("lt;", "", "&#", 10);
    NoText("&#", 10);
    CharOfCode('&');
    EscapedLess();
    UnescapeInverts("<", 0);
  }

  lemma OneReference(c: char)
    ensures References([c], "&#", 10) == "&#" + (PrintBase(c as nat, 10) + ";")
  {
    assert [c][1..] == "";
    assert References("", "&#", 10) == "";
  }

  lemma DecimalThenText(refs: string, rest: string)
    requires refs == References("&", "&#", 10) && rest == "lt;"
    ensures DecodeRefs(refs + rest, "&#x", 16) == refs + rest
    ensures refs + rest == "&#" + (PrintBase('&' as nat, 10) + (";" + rest))
  {
    hide DecodeRefs, References;
    var d := PrintBase('&' as nat, 10);
    OneReference('&');
    DigitsLack(d, 10);
    var all := refs + rest;
    assert all == "&#" + (d + (";" + rest)) && all[2] == d[0];
    NoReference(all);
    assert all[1..] == ("#" + d + ";" + rest) + "";
    RefsSkip("#" + d + ";" + rest, "", "&#x", 16);
    NoText("&#x", 16);
  }

  lemma EscapedLess()
    ensures Escaped("<", 0) == "&lt;" == ['&'] + "lt;"
  {
    assert "<"[1..] == "" && MARKS[0] == '<';
    assert EscapedChar('<', 0) == "&lt;";
  }

  /** The five predefined entities. */
  lemma EntitiesDecoded()
    ensures DecodeXml("&lt;", false) == "<" && DecodeXml("&gt;", false) == ">" && DecodeXml("&amp;", false) == "&"
    ensures DecodeXml("&quot;", false) == "\"" && DecodeXml("&apos;", false) == "'"
  {
    hide DecodeXml, Escaped;
    OneEscaped('<', 0, "&lt;");
    OneEscaped('>', 1, "&gt;");
    OneEscaped('"', 2, "&quot;");
    OneEscaped('\'', 3, "&apos;");
    OneEscaped('&', 4, "&amp;");
    DecodeInvertsEscape("<");
    DecodeInvertsEscape(">");
    DecodeInvertsEscape("\"");
    DecodeInvertsEscape("'");
    DecodeInvertsEscape("&");
  }

  lemma OneEscaped(c: char, i: nat, entity: string)
    requires i < 5 && MARKS[i] == c && Entity(i) == entity
    ensures Escaped([c], 0) == entity
  {
    assert [c][1..] == "" && Escaped("", 0) == "";
    assert Pass(c) == i by { MarksDiffer(Pass(c), i); }
    assert [c][0] == c;
  }

  lemma MarksDiffer(i: nat, j: nat)
    requires j < 5 && i <= 5 && (i < 5 ==> MARKS[i] == MARKS[j]) && (i == 5 ==> Lacks(MARKS, MARKS[j]))
    ensures i == j
  {
  }

  // ----- where an element opens -----

  /** '<', an optional prefix, the name as a whole word, and the rest. */
  predicate IsOpening(s: string, prefix: string, name: string, rest: string) {
    IsPrefix(prefix) && s == "<" + prefix + name + rest && (rest == "" || !IsWord(rest[0]))
  }

  /** Exactly there an element opens. */
  lemma OpensExactly(s: string, name: string)
    requires name != "" && forall k | 0 <= k < |name| :: IsWord(name[k])
    ensures OpensName(s, name) <==> exists prefix, rest :: IsOpening(s, prefix, name, rest)
  {
    hide OpensName, IsOpening;
    if OpensName(s, name) { var prefix, rest := OpeningOf(s, name); }
    if prefix, rest :| IsOpening(s, prefix, name, rest) { PrefixTaken(s, prefix, name, rest); }
  }

  lemma OpeningOf(s: string, name: string) returns (prefix: string, rest: string)
    requires OpensName(s, name)
    ensures IsOpening(s, prefix, name, rest)
  {
    hide IsPrefix;
    var tail := s[1..];
    var p := if NamedAt(tail, PrefixLen(tail), name) then PrefixLen(tail) else 0;
    prefix, rest := tail[..p], tail[p + |name|..];
    assert IsPrefix(tail[..0]) by { NoPrefix(); }
    assert tail == prefix + name + rest;
  }

  lemma NoPrefix()
    ensures IsPrefix("")
  {
  }

  lemma PrefixTaken(s: string, prefix: string, name: string, rest: string)
    requires IsOpening(s, prefix, name, rest)
    ensures OpensName(s, name)
  {
    hide PrefixLen, IsPrefix;
    var tail, p := s[1..], |prefix|;
    assert tail == prefix + (name + rest) && tail[p..p + |name|] == name;
    assert p + |name| < |tail| ==> tail[p + |name|] == rest[0];
    if prefix != "" { PrefixLength(prefix, name + rest); }
    assert NamedAt(tail, p, name);
  }

  lemma PrefixLength(prefix: string, after: string)
    requires IsPrefix(prefix) && prefix != ""
    ensures PrefixLen(prefix + after) == |prefix|
  {
    var tail, p := prefix + after, |prefix|;
    assert forall k | 0 <= k < p :: tail[k] == prefix[k];
    assert tail[p - 1] == ':' && !NameChar(':') && forall k | 0 <= k < p - 1 :: NameChar(tail[k]);
    assert Run(tail) == p - 1;
  }

  // ----- CDATA sections -----

  lemma {:induction false} CdataEnds(t: string)
    requires forall i | 0 <= i < |t| :: !(CDATA_CLOSE <= (t + CDATA_CLOSE)[i..])
    ensures FindText(t + CDATA_CLOSE, CDATA_CLOSE) == |t|
  {
    var s := t + CDATA_CLOSE;
    if t == "" {
      assert s == CDATA_CLOSE;
    } else {
      assert s[0..] == s && s[1..] == t[1..] + CDATA_CLOSE;
      forall i | 0 <= i < |t| - 1 ensures !(CDATA_CLOSE <= (t[1..] + CDATA_CLOSE)[i..]) {
        assert (t[1..] + CDATA_CLOSE)[i..] == s[i + 1..];
      }
      CdataEnds(t[1..]);
    }
  }

  /** A CDATA section that ends where it should gives its text, when that has no '&'. */
  lemma CdataDecoded(t: string)
    requires Lacks(t, '&') && forall i | 0 <= i < |t| :: !(CDATA_CLOSE <= (t + CDATA_CLOSE)[i..])
    ensures DecodeXml(CDATA_OPEN + (t + CDATA_CLOSE), false) == t
  {
    hide DecodeRefs, FindText, Unescape, StripCdata;
    CdataEnds(t);
    CdataStripped(t);
    assert t + "" == t;
    RefsSkip(t, "", "&#x", 16);
    RefsSkip(t, "", "&#", 10);
    NoText("&#x", 16);
    NoText("&#", 10);
    NoEntities(t, 0);
  }

  lemma CdataStripped(t: string)
    requires FindText(t + CDATA_CLOSE, CDATA_CLOSE) == |t|
    ensures StripCdata(CDATA_OPEN + (t + CDATA_CLOSE)) == t
  {
    hide FindText;
    var s, n := CDATA_OPEN + (t + CDATA_CLOSE), |CDATA_OPEN| + |t| + |CDATA_CLOSE|;
    assert CDATA_OPEN <= s && s[|CDATA_OPEN|..] == t + CDATA_CLOSE;
    assert CdataLen(s) == n == |s|;
    assert s[|CDATA_OPEN|..n - |CDATA_CLOSE|] == t && s[n..] == "";
    assert StripCdata("") == "";
  }

  // ----- formatted runs and readings -----

  /** A run of a rich text, with properties or without. */
  datatype TextRun = TextRun(text: string, formatted: bool)

  function PrintRun(run: TextRun): string {
    "<r>" + (Properties(run) + ("<t>" + Escaped(run.text, 0) + "</t>" + "</r>"))
  }

  function Properties(run: TextRun): string {
    if run.formatted then "<rPr>" + ("<b/>" + "</rPr>") else ""
  }

  function PrintRuns(runs: seq<TextRun>): string {
    if runs == [] then "" else PrintRun(runs[0]) + PrintRuns(runs[1..])
  }

  /** A phonetic reading of the text. */
  function PrintReading(text: string): string {
    "<" + (READING + ("<t>" + (Escaped(text, 0) + ("</t>" + "</rPh>"))))
  }

  const READING := "rPh sb=\"0\" eb=\"1\">"
  const LOW_READING := "rph sb=\"0\" eb=\"1\">"

  function PrintReadings(readings: seq<string>): string {
    if readings == [] then "" else PrintReading(readings[0]) + PrintReadings(readings[1..])
  }

  function PrintRich(runs: seq<TextRun>, readings: seq<string>): string {
    "<si>" + (PrintRuns(runs) + (PrintReadings(readings) + "</si>"))
  }

  function Texts(runs: seq<TextRun>): seq<string> {
    if runs == [] then [] else [runs[0].text] + Texts(runs[1..])
  }

  lemma LowerKeeps(c: char)
    ensures NameChar(Lower(c)) <==> NameChar(c)
    ensures Lower(c) == '<' <==> c == '<'
    ensures Lower(c) == ':' <==> c == ':'
    ensures Lower(c) == '/' <==> c == '/'
  {
  }

  lemma NotPhonetic(low: string, n: nat)
    requires 1 < n < |low| && n <= 4 && low[0] == '<' && (forall k | 1 <= k < n :: NameChar(low[k]))
    requires !NameChar(low[n]) && low[n] != ':' && low[1..n] != "rph"
    ensures !OpensName(low, "rph")
  {
    var tail := low[1..];
    assert forall k | 0 <= k < n - 1 :: tail[k] == low[k + 1];
    assert Run(tail) == n - 1;
    assert PrefixLen(tail) == 0;
  }

  /** No phonetic reading starts at such a tag. */
  lemma PhoneticPast(v: string, n: nat, rest: string)
    requires IsTagToken(v) && (v[1] == '/' || (NameEndsAt(v, n) && n <= 4 && LowerAscii(v)[1..n] != "rph"))
    ensures StripPhonetic(v + rest) == v + StripPhonetic(rest)
  {
    hide StripPhonetic, OpensName;
    var low := LowerAscii(v + rest);
    assert forall k | 0 <= k < |v| :: low[k] == Lower(v[k]) == LowerAscii(v)[k];
    if v[1] == '/' {
      ClosingName(low, "rph");
    } else {
      forall k | 1 <= k <= n ensures NameChar(low[k]) <==> NameChar(v[k]) { LowerKeeps(v[k]); }
      LowerKeeps(v[n]);
      assert low[1..n] == LowerAscii(v)[1..n];
      NotPhonetic(low, n);
    }
    assert Lacks(v[1..], '<');
    PhoneticSkipTag(v, rest);
  }

  lemma LowerConcat(a: string, b: string)
    ensures LowerAscii(a + b) == LowerAscii(a) + LowerAscii(b)
  {
    var x, y := LowerAscii(a + b), LowerAscii(a) + LowerAscii(b);
    assert |x| == |y| && forall k | 0 <= k < |x| :: x[k] == y[k];
  }

  lemma LowerLacks(s: string, c: char)
    requires Lacks(s, c) && c == '<'
    ensures Lacks(LowerAscii(s), c)
  {
    forall k | 0 <= k < |s| ensures LowerAscii(s)[k] != c { LowerKeeps(s[k]); }
  }

  /** What stands between the start of a reading and its closing tag holds no other such tag. */
  lemma ReadingPasses(e: string)
    requires Lacks(e, '<')
    ensures Passes(RPH_CLOSE, LOW_READING + ("<t>" + (e + "</t>")))
  {
    hide Passes;
    PassText(RPH_CLOSE, LOW_READING);
    OpeningPasses(RPH_CLOSE, "t");
    PassText(RPH_CLOSE, e);
    ClosingPasses(RPH_CLOSE, "t");
    assert "<" + "t" + ">" == "<t>" && "</" + "t" + ">" == "</t>";
    PassBoth(RPH_CLOSE, e, "</t>");
    PassBoth(RPH_CLOSE, "<t>", e + "</t>");
    PassBoth(RPH_CLOSE, LOW_READING, "<t>" + (e + "</t>"));
  }

  lemma LowerParts(a: string, b: string, e: string, c: string, d: string, rest: string)
    ensures
      var s := a + (b + (e + (c + d)));
      LowerAscii(s + rest)
        == (LowerAscii(a) + (LowerAscii(b) + (LowerAscii(e) + LowerAscii(c)))) + (LowerAscii(d) + LowerAscii(rest))
  {
    hide LowerAscii;
    var s := a + (b + (e + (c + d)));
    LowerConcat(s, rest);
    LowerConcat(a, b + (e + (c + d)));
    LowerConcat(b, e + (c + d));
    LowerConcat(e, c + d);
    LowerConcat(c, d);
    Regroup(LowerAscii(a), LowerAscii(b), LowerAscii(e), LowerAscii(c), LowerAscii(d), LowerAscii(rest));
  }

  lemma Regroup(a: string, b: string, e: string, c: string, d: string, rest: string)
    ensures (a + (b + (e + (c + d)))) + rest == (a + (b + (e + c))) + (d + rest)
  {
  }

  lemma LowerTags()
    ensures LowerAscii("<") == "<" && LowerAscii("<t>") == "<t>" && LowerAscii("</t>") == "</t>"
    ensures LowerAscii("</rPh>") == "</rph>" && LowerAscii(READING) == LOW_READING
  {
    LowerIs("<", "<");
    LowerIs("<t>", "<t>");
    LowerIs("</t>", "</t>");
    LowerIs("</rPh>", "</rph>");
    LowerIs(READING, LOW_READING);
  }

  lemma LowerIs(s: string, low: string)
    requires |s| == |low| && forall k | 0 <= k < |s| :: low[k] == Lower(s[k])
    ensures LowerAscii(s) == low
  {
  }

  lemma OpensReading(rest: string)
    ensures OpensName("<" + (LOW_READING + rest), "rph")
  {
    var low := "<" + (LOW_READING + rest);
    assert low[1..][0..3] == "rph" && low[1..][3] == ' ';
    assert NamedAt(low[1..], 0, "rph");
  }

  /** A reading behind its '<', as written and in lower case. */
  function ReadingTail(e: string): string {
    READING + ("<t>" + (e + ("</t>" + "</rPh>")))
  }

  function LowTail(e: string): string {
    LOW_READING + ("<t>" + (LowerAscii(e) + "</t>"))
  }

  lemma {:induction false} TailLowered(e: string, rest: string)
    ensures LowerAscii(ReadingTail(e) + rest) == LowTail(e) + ("</rph>" + LowerAscii(rest))
    ensures LowerAscii("<" + (ReadingTail(e) + rest)) == "<" + LowerAscii(ReadingTail(e) + rest)
    ensures |ReadingTail(e)| == |LowTail(e)| + 6
  {
    hide LowerAscii;
    LowerTags();
    LowerParts(READING, "<t>", e, "</t>", "</rPh>", rest);
    LowerConcat("<", ReadingTail(e) + rest);
  }

  lemma TailOpens(e: string, rest: string)
    ensures OpensName("<" + (LowTail(e) + rest), "rph")
  {
    hide OpensName, LowerAscii;
    var after := "<t>" + (LowerAscii(e) + "</t>");
    assert LowTail(e) + rest == LOW_READING + (after + rest);
    OpensReading(after + rest);
  }

  /** A reading is cut out. */
  lemma {:induction false} ReadingCut(text: string, rest: string)
    ensures StripPhonetic(PrintReading(text) + rest) == StripPhonetic(rest)
  {
    hide StripPhonetic, OpensName, Find, Passes, Escaped, IsTagText, LowerAscii, ReadingTail, LowTail;
    var e := Escaped(text, 0);
    EscapedClean(text);
    var tail, end := ReadingTail(e), "</rph>" + LowerAscii(rest);
    assert PrintReading(text) == "<" + tail by { ReadingIs(text); }
    TailLowered(e, rest);
    TailOpens(e, end);
    TailFound(e, LowerAscii(rest));
    StripFound(tail + rest, |LowTail(e)|, 6);
    ReadingAnd(tail, rest);
  }

  lemma ReadingAnd(tail: string, rest: string)
    ensures ("<" + tail) + rest == "<" + (tail + rest) && (tail + rest)[|tail|..] == rest
  {
  }

  lemma {:induction false} TailFound(e: string, rest: string)
    requires Lacks(e, '<')
    ensures Find(RPH_CLOSE, LowTail(e) + ("</rph>" + rest)) == At(|LowTail(e)|, 6)
  {
    hide Find, Passes, LowTail, IsTagText;
    LowerLacks(e, '<');
    TailPasses(e);
    ClosingTagText(RPH_CLOSE);
    assert "</" + "rph" + ">" == "</rph>";
    FoundBehind(RPH_CLOSE, LowTail(e), "</rph>", rest);
  }

  lemma ReadingIs(text: string)
    ensures PrintReading(text) == "<" + ReadingTail(Escaped(text, 0))
  {
  }

  lemma TailPasses(e: string)
    requires Lacks(LowerAscii(e), '<')
    ensures Passes(RPH_CLOSE, LowTail(e))
  {
    hide Passes, LowerAscii;
    ReadingPasses(LowerAscii(e));
  }

  lemma {:induction false} StripFound(w: string, i: nat, n: nat)
    requires OpensName(LowerAscii("<" + w), "rph") && i + n <= |w|
    requires Find(RPH_CLOSE, LowerAscii(w)) == At(i, n)
    ensures StripPhonetic("<" + w) == StripPhonetic(w[i + n..])
  {
    hide OpensName, Find, LowerAscii, StripPhonetic;
    var s := "<" + w;
    assert s[1..] == w && s[1 + i + n..] == w[i + n..];
    StripFoundAt(s, i, n);
  }

  lemma {:induction false} StripFoundAt(s: string, i: nat, n: nat)
    requires s != "" && s[0] == '<' && OpensName(LowerAscii(s), "rph") && 1 + i + n <= |s|
    requires Find(RPH_CLOSE, LowerAscii(s[1..])) == At(i, n)
    ensures StripPhonetic(s) == StripPhonetic(s[1 + i + n..])
  {
    hide OpensName, Find, LowerAscii;
  }

  lemma {:induction false} ReadingsCut(readings: seq<string>, rest: string)
    ensures StripPhonetic(PrintReadings(readings) + rest) == StripPhonetic(rest)
  {
    hide StripPhonetic, PrintReading;
    if readings == [] {
      assert "" + rest == rest;
    } else {
      var more := PrintReadings(readings[1..]) + rest;
      assert PrintReadings(readings) + rest == PrintReading(readings[0]) + more;
      ReadingCut(readings[0], more);
      ReadingsCut(readings[1..], rest);
    }
  }

  /** The other tags of an item, by what the lower-case letters of their names are. */
  lemma ItemTags(v: string, n: nat)
    requires (v == "<r>" && n == 2) || (v == "<rPr>" && n == 4) || (v == "<b/>" && n == 2) || (v == "<t>" && n == 2)
             || (v == "<si>" && n == 3)
    ensures IsTagToken(v) && NameEndsAt(v, n) && LowerAscii(v)[1..n] != "rph"
  {
    var low := LowerAscii(v);
    if v == "<rPr>" { assert low[1..4][1] == low[2] && low[1..4][2] == low[3] == 'r'; } else { assert |low[1..n]| < 3; }
  }

  lemma {:induction false} PropertiesKept(run: TextRun, rest: string)
    ensures StripPhonetic(Properties(run) + rest) == Properties(run) + StripPhonetic(rest)
  {
    hide StripPhonetic, LowerAscii;
    if run.formatted {
      ItemTags("<rPr>", 4);
      ItemTags("<b/>", 2);
      PhoneticPast("</rPr>", 0, rest);
      PhoneticPast("<b/>", 2, "</rPr>" + rest);
      PhoneticPast("<rPr>", 4, "<b/>" + ("</rPr>" + rest));
      assert Properties(run) + rest == "<rPr>" + ("<b/>" + ("</rPr>" + rest));
    } else {
      assert "" + rest == rest;
    }
  }

  lemma {:induction false} RunKept(run: TextRun, rest: string)
    ensures StripPhonetic(PrintRun(run) + rest) == PrintRun(run) + StripPhonetic(rest)
  {
    hide StripPhonetic, LowerAscii, Escaped, Properties;
    var e := Escaped(run.text, 0);
    EscapedClean(run.text);
    var end := "</t>" + ("</r>" + rest);
    ItemTags("<r>", 2);
    ItemTags("<t>", 2);
    PhoneticPast("</r>", 0, rest);
    PhoneticPast("</t>", 0, "</r>" + rest);
    PhoneticSkip(e, end);
    PhoneticPast("<t>", 2, e + end);
    PropertiesKept(run, "<t>" + (e + end));
    PhoneticPast("<r>", 2, Properties(run) + ("<t>" + (e + end)));
    assert PrintRun(run) + rest == "<r>" + (Properties(run) + ("<t>" + (e + end)));
  }

  lemma {:induction false} RunsKept(runs: seq<TextRun>, rest: string)
    ensures StripPhonetic(PrintRuns(runs) + rest) == PrintRuns(runs) + StripPhonetic(rest)
  {
    hide StripPhonetic, PrintRun;
    if runs == [] {
      assert "" + rest == rest && "" + StripPhonetic(rest) == StripPhonetic(rest);
    } else {
      var more := PrintRuns(runs[1..]) + rest;
      assert PrintRuns(runs) + rest == PrintRun(runs[0]) + more;
      RunKept(runs[0], more);
      RunsKept(runs[1..], rest);
    }
  }

  /** Readings go, everything else stays. */
  lemma RichStripped(runs: seq<TextRun>, readings: seq<string>)
    ensures StripPhonetic(PrintRich(runs, readings)) == "<si>" + (PrintRuns(runs) + "</si>")
  {
    hide StripPhonetic, LowerAscii, PrintRuns, PrintReadings;
    ItemTags("<si>", 3);
    PhoneticPast("<si>", 3, PrintRuns(runs) + (PrintReadings(readings) + "</si>"));
    RunsKept(runs, PrintReadings(readings) + "</si>");
    ReadingsCut(readings, "</si>");
    PhoneticPast("</si>", 0, "");
    StripEmpty();
    assert "</si>" + "" == "</si>";
  }

  lemma {:induction false} PropertiesSkipped(run: TextRun, rest: string)
    ensures Contents(Properties(run) + rest, T_CLOSE) == Contents(rest, T_CLOSE)
  {
    hide Contents, LowerAscii;
    if run.formatted {
      ItemTags("<rPr>", 4);
      ItemTags("<b/>", 2);
      ContentsPastTag("</rPr>", 0, rest, T_CLOSE);
      ContentsPastTag("<b/>", 2, "</rPr>" + rest, T_CLOSE);
      ContentsPastTag("<rPr>", 4, "<b/>" + ("</rPr>" + rest), T_CLOSE);
      assert Properties(run) + rest == "<rPr>" + ("<b/>" + ("</rPr>" + rest));
    } else {
      assert "" + rest == rest;
    }
  }

  lemma {:induction false} RunContents(run: TextRun, rest: string)
    ensures Contents(PrintRun(run) + rest, T_CLOSE) == [Escaped(run.text, 0)] + Contents(rest, T_CLOSE)
  {
    hide Contents, Escaped, Properties, ElementAt;
    var e, end := Escaped(run.text, 0), "</r>" + rest;
    EscapedClean(run.text);
    var text := "<t>" + e + "</t>" + end;
    ItemTags("<r>", 2);
    assert PrintRun(run) + rest == "<r>" + (Properties(run) + text);
    ContentsPastTag("<r>", 2, Properties(run) + text, T_CLOSE);
    PropertiesSkipped(run, text);
    TextElement(T_CLOSE, e, end);
    assert "<" + "t" + ">" == "<t>" && "</" + "t" + ">" == "</t>";
    ContentsElement(text, T_CLOSE);
    assert text[|"<t>" + e + "</t>"|..] == end;
    ContentsPastTag("</r>", 0, rest, T_CLOSE);
  }

  lemma {:induction false} RunsDecoded(runs: seq<TextRun>, rest: string)
    requires Contents(rest, T_CLOSE) == []
    ensures DecodeAll(Contents(PrintRuns(runs) + rest, T_CLOSE), false) == Texts(runs)
  {
    hide Contents, PrintRun, Escaped, DecodeXml;
    if runs == [] {
      assert "" + rest == rest;
    } else {
      var more := PrintRuns(runs[1..]) + rest;
      assert PrintRuns(runs) + rest == PrintRun(runs[0]) + more;
      RunContents(runs[0], more);
      RunsDecoded(runs[1..], rest);
      DecodeInvertsEscape(runs[0].text);
      var all := [Escaped(runs[0].text, 0)] + Contents(more, T_CLOSE);
      assert all[0] == Escaped(runs[0].text, 0) && all[1..] == Contents(more, T_CLOSE);
    }
  }

  /** An item of any runs and readings reads as the texts of its runs put together, trimmed. */
  lemma RichTextRead(runs: seq<TextRun>, readings: seq<string>)
    ensures SiText(PrintRich(runs, readings)) == Trim(Concat(Texts(runs)))
  {
    hide Contents, StripPhonetic, Trim, PrintRuns, DecodeAll, Texts, PrintRich;
    RichStripped(runs, readings);
    SkipItemOpen(PrintRuns(runs) + "</si>");
    SkipItemClose();
    RunsDecoded(runs, "</si>");
  }
}
