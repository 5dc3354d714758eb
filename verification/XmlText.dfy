/** Text content of the spreadsheet XML: decodeXml, siText and the element matches they
    rest on, with the printer that escapes the five predefined entities (section 4.6 of XML 1.0). */
module XmlText {
  import opened JsText
  import opened Tags

  // ----- decodeXml -----

  /** `s.replace(/pat/g, rep)` for a pattern without special characters. */
  function ReplaceAll(s: string, pat: string, rep: string): string
    requires pat != ""
  {
    if s == "" then ""
    else if pat <= s then rep + ReplaceAll(s[|pat|..], pat, rep)
    else [s[0]] + ReplaceAll(s[1..], pat, rep)
  }

  /** Position of the first `pat` in `s`, -1 when there is none. */
  function FindText(s: string, pat: string): (i: int)
    ensures i == -1 || (0 <= i <= |s| && pat <= s[i..])
  {
    if pat <= s then 0
    else if s == "" then -1
    else var r := FindText(s[1..], pat); if r < 0 then -1 else 1 + r
  }

  const CDATA_OPEN := "<![CDATA["
  const CDATA_CLOSE := "]]>"

  /** Length of the CDATA section at the start of `s`; 0 when there is none. */
  function CdataLen(s: string): (n: nat)
    ensures n <= |s|
    ensures n > 0 ==> s[0] == '<' && n >= |CDATA_OPEN| + |CDATA_CLOSE|
  {
    if CDATA_OPEN <= s && FindText(s[|CDATA_OPEN|..], CDATA_CLOSE) >= 0
    then |CDATA_OPEN| + FindText(s[|CDATA_OPEN|..], CDATA_CLOSE) + |CDATA_CLOSE|
    else 0
  }

  /** Each CDATA section gives way to what it encloses. */
  function StripCdata(s: string): string {
    if s == "" then "" else
    var n := CdataLen(s);
    if n > 0 then s[|CDATA_OPEN|..n - |CDATA_CLOSE|] + StripCdata(s[n..])
    else [s[0]] + StripCdata(s[1..])
  }

  function HexValue(c: char): nat {
    if IsDigit(c) then c as int - '0' as int
    else if 'a' <= c <= 'f' then c as int - 'a' as int + 10
    else if 'A' <= c <= 'F' then c as int - 'A' as int + 10
    else 16
  }

  function DigitRun(s: string, base: nat): (r: nat)
    ensures r <= |s|
  {
    if s != "" && HexValue(s[0]) < base then 1 + DigitRun(s[1..], base) else 0
  }

  function NumberValue(digits: string, base: nat): nat {
    if digits == "" then 0
    else NumberValue(digits[..|digits| - 1], base) * base + HexValue(digits[|digits| - 1])
  }

  /** String.fromCharCode keeps 16 bits. A Dafny char is no lone surrogate, so those
      become the replacement character here. */
  function FromCharCode(n: nat): char {
    var unit := n % 0x1_0000;
    if 0xD800 <= unit <= 0xDFFF then 0xFFFD as char else unit as char
  }

  /** Length of the numeric character reference at the start of `s`, 0 when there is none:
      `head` is "&#x" with base 16, or "&#" with base 10. */
  function RefLen(s: string, head: string, base: nat): (n: nat)
    ensures n <= |s|
    ensures n > 0 ==> head <= s && n >= |head| + 2
  {
    if head <= s then
      var e := |head| + DigitRun(s[|head|..], base);
      if e > |head| && e < |s| && s[e] == ';' then e + 1 else 0
    else 0
  }

  function DecodeRefs(s: string, head: string, base: nat): string {
    if s == "" then "" else
    var n := RefLen(s, head, base);
    if n > 0 then
      [FromCharCode(NumberValue(s[|head|..n - 1], base))] + DecodeRefs(s[n..], head, base)
    else [s[0]] + DecodeRefs(s[1..], head, base)
  }

  /** The five predefined entities, in the order in which decodeXml turns them back. */
  const MARKS := "<>\"'&"

  function Entity(i: nat): string
    requires i < 5
  {
    ["&lt;", "&gt;", "&quot;", "&apos;", "&amp;"][i]
  }

  /** The replacement passes from number `i` on. */
  function Unescape(s: string, i: nat): string
    requires i <= 5
    decreases 5 - i
  {
    if i == 5 then s else Unescape(ReplaceAll(s, Entity(i), [MARKS[i]]), i + 1)
  }

  function DecodeXml(value: string, trim: bool): string {
    var refs := DecodeRefs(DecodeRefs(StripCdata(value), "&#x", 16), "&#", 10);
    var decoded := Unescape(refs, 0);
    if trim then Trim(decoded) else decoded
  }

  // ----- elements -----

  /** `name` stands at position `p` and ends at a word boundary. */
  predicate NamedAt(s: string, p: nat, name: string) {
    && p + |name| <= |s|
    && s[p..p + |name|] == name
    && (p + |name| < |s| ==> !IsWord(s[p + |name|]))
  }

  /** `<(?:[\w.]+:)?name\b` matches at the start of `s`; with and without the prefix. */
  predicate OpensName(s: string, name: string) {
    && s != "" && s[0] == '<'
    && (NamedAt(s[1..], PrefixLen(s[1..]), name) || NamedAt(s[1..], 0, name))
  }

  datatype Element = NoElement | Element(attrs: string, inner: string, len: nat)

  /** `<(?:[\w.]+:)?name\b([^>]*)>([\s\S]*?)</(?:[\w.]+:)?name>` at the start of `s`.
      The attribute text runs up to the first '>', whichever way the name was found. */
  function ElementAt(s: string, close: Tag): (e: Element)
    ensures e.Element? ==> 0 < e.len <= |s|
  {
    var g := IndexOf(s, '>');
    if OpensName(s, close.name) && g < |s| then
      var body := s[g + 1..];
      match Find(close, body)
      case Nowhere => NoElement
      case At(i, n) =>
        Element(AttrText(s[..g], close.name), body[..i], g + 1 + i + n)
    else NoElement
  }

  /** What follows the name in an opening tag. */
  function AttrText(open: string, name: string): string {
    if open == "" then "" else
    var p := PrefixLen(open[1..]);
    var e := 1 + (if NamedAt(open[1..], p, name) then p else 0) + |name|;
    if e <= |open| then open[e..] else ""
  }

  /** The contents matched by a global search for the element, in order. */
  function Contents(s: string, close: Tag): seq<string>
    decreases |s|
  {
    if s == "" then [] else
    var e := ElementAt(s, close);
    if e.Element? then [e.inner] + Contents(s[e.len..], close)
    else Contents(s[1..], close)
  }

  function Lower(c: char): char {
    if 'A' <= c <= 'Z' then (c as int + 32) as char else c
  }

  function LowerAscii(s: string): (r: string)
    ensures |r| == |s| && forall k | 0 <= k < |s| :: r[k] == Lower(s[k])
  {
    if s == "" then "" else [Lower(s[0])] + LowerAscii(s[1..])
  }

  /** Phonetic runs are cut out, in any letter case. */
  function StripPhonetic(s: string): string
    decreases |s|
  {
    if s == "" then ""
    else if s[0] == '<' && OpensName(LowerAscii(s), "rph") && Find(RPH_CLOSE, LowerAscii(s[1..])).At? then
      var hit := Find(RPH_CLOSE, LowerAscii(s[1..]));
      StripPhonetic(s[1 + hit.start + hit.len..])
    else [s[0]] + StripPhonetic(s[1..])
  }

  function DecodeAll(parts: seq<string>, trim: bool): seq<string> {
    if parts == [] then [] else [DecodeXml(parts[0], trim)] + DecodeAll(parts[1..], trim)
  }

  function SiText(xml: string): string {
    Trim(Concat(DecodeAll(Contents(StripPhonetic(xml), T_CLOSE), false)))
  }

  // ----- the printer -----

  /** Which of the passes is about `c`; 5 for a character that is never escaped. */
  function Pass(c: char): (i: nat)
    ensures i < 5 ==> MARKS[i] == c
    ensures i == 5 ==> Lacks(MARKS, c)
    ensures i <= 5
  {
    IndexOf(MARKS, c)
  }

  /** `s` with the characters of pass `from` and later written as entities. */
  function Escaped(s: string, from: nat): string {
    if s == "" then "" else EscapedChar(s[0], from) + Escaped(s[1..], from)
  }

  function EscapedChar(c: char, from: nat): string {
    if from <= Pass(c) < 5 then Entity(Pass(c)) else [c]
  }

  function PrintItem(s: string): string {
    "<si><t>" + Escaped(s, 0) + "</t></si>"
  }

  function PrintItems(items: seq<string>): string {
    if items == [] then "" else PrintItem(items[0]) + PrintItems(items[1..])
  }

  // ----- decoding undoes escaping -----

  /** Two different entities part within the shorter one. */
  lemma EntitiesDiffer(i: nat, j: nat, rest: string)
    requires i < 5 && j < 5
    ensures Entity(i) <= Entity(j) + rest <==> i == j
    ensures |Entity(j)| > 1 && Entity(j)[0] == '&' && Lacks(Entity(j)[1..], '&')
  {
    var v, w := Entity(i), Entity(j) + rest;
    if v <= w {
      assert v[1] == w[1] == Entity(j)[1];
      assert v[2] == w[2] == Entity(j)[2];
    }
  }

  lemma {:induction false} ReplaceSkips(p: string, s: string, pat: string, rep: string)
    requires pat != "" && Lacks(p, pat[0])
    ensures ReplaceAll(p + s, pat, rep) == p + ReplaceAll(s, pat, rep)
  {
    if p == "" {
      assert p + s == s;
    } else {
      assert (p + s)[0] == p[0];
      assert (p + s)[1..] == p[1..] + s;
      ReplaceSkips(p[1..], s, pat, rep);
    }
  }

  /** A pattern meeting text that it can only match in front. */
  lemma ReplaceTag(e: string, rest: string, pat: string, rep: string)
    requires e != "" && pat != "" && Lacks(e[1..], pat[0])
    requires pat <= e + rest ==> pat == e
    ensures ReplaceAll(e + rest, pat, rep)
         == (if pat == e then rep else e) + ReplaceAll(rest, pat, rep)
  {
    KeepAppend(e, rest, 1, 0);
    DropAppend(e, rest, 0, 0);
    if pat != e {
      ReplaceSkips(e[1..], rest, pat, rep);
      assert [e[0]] + e[1..] == e;
    }
  }

  /** Pass `i` meeting the entity of pass `j`. */
  lemma PassEntity(i: nat, j: nat, rest: string)
    requires i < 5 && j < 5
    ensures ReplaceAll(Entity(j) + rest, Entity(i), [MARKS[i]])
         == (if i == j then [MARKS[i]] else Entity(j)) + ReplaceAll(rest, Entity(i), [MARKS[i]])
  {
    EntitiesDiffer(i, j, rest);
    EntitiesDiffer(i, i, "");
    ReplaceTag(Entity(j), rest, Entity(i), [MARKS[i]]);
  }

  /** One replacement pass turns one kind of entity back; the ampersands it meets all start
      entities, because those of the text itself are still escaped. */
  lemma {:induction false} DecodePass(s: string, i: nat)
    requires i < 5
    ensures ReplaceAll(Escaped(s, i), Entity(i), [MARKS[i]]) == Escaped(s, i + 1)
  {
    if s != "" {
      DecodePass(s[1..], i);
      var rest, j := Escaped(s[1..], i), Pass(s[0]);
      if i <= j < 5 {
        PassEntity(i, j, rest);
      } else {
        assert MARKS[4] == '&';
        ReplaceSkips([s[0]], rest, Entity(i), [MARKS[i]]);
      }
    }
  }

  lemma {:induction false} EscapedNothing(s: string)
    ensures Escaped(s, 5) == s
  {
    if s != "" {
      EscapedNothing(s[1..]);
    }
  }

  lemma LacksConcat(a: string, b: string, c: char)
    ensures Lacks(a + b, c) <==> Lacks(a, c) && Lacks(b, c)
  {
    if Lacks(a + b, c) {
      assert forall k | 0 <= k < |a| :: a[k] == (a + b)[k];
      assert forall k | 0 <= k < |b| :: b[k] == (a + b)[|a| + k];
    }
  }

  lemma EscapedCharClean(c: char)
    ensures Lacks(EscapedChar(c, 0), '<') && Lacks(EscapedChar(c, 0), '>')
  {
    assert MARKS[0] == '<' && MARKS[1] == '>';
  }

  /** Escaped text holds no '<' and no '>'. */
  lemma {:induction false} EscapedClean(s: string)
    ensures Lacks(Escaped(s, 0), '<') && Lacks(Escaped(s, 0), '>')
  {
    hide Lacks, EscapedChar;
    if s == "" {
      assert Lacks("", '<') && Lacks("", '>') by { EmptyLacks('<'); EmptyLacks('>'); }
    } else {
      EscapedClean(s[1..]);
      EscapedCharClean(s[0]);
      LacksConcat(EscapedChar(s[0], 0), Escaped(s[1..], 0), '<');
      LacksConcat(EscapedChar(s[0], 0), Escaped(s[1..], 0), '>');
    }
  }

  lemma EmptyLacks(c: char)
    ensures Lacks("", c)
  {
  }

  lemma {:induction false} RefsSkip(p: string, s: string, head: string, base: nat)
    requires head != "" && Lacks(p, head[0])
    ensures DecodeRefs(p + s, head, base) == p + DecodeRefs(s, head, base)
  {
    if p == "" {
      assert p + s == s;
    } else {
      KeepAppend(p, s, 1, 0);
      assert RefLen(p + s, head, base) == 0;
      RefsSkip(p[1..], s, head, base);
    }
  }

  lemma RefsSkipEntity(i: nat, rest: string, head: string, base: nat)
    requires i < 5 && |head| >= 2 && head[0] == '&' && head[1] == '#'
    ensures DecodeRefs(Entity(i) + rest, head, base) == Entity(i) + DecodeRefs(rest, head, base)
  {
    EntitiesDiffer(i, i, rest);
    var e := Entity(i);
    assert (e + rest)[1] == e[1] != '#';
    KeepAppend(e, rest, 1, 0);
    assert RefLen(e + rest, head, base) == 0;
    RefsSkip(e[1..], rest, head, base);
    assert [e[0]] + e[1..] == e;
  }

  /** Escaped text holds no numeric character reference. */
  lemma {:induction false} NoRefs(s: string, head: string, base: nat)
    requires |head| >= 2 && head[0] == '&' && head[1] == '#'
    ensures DecodeRefs(Escaped(s, 0), head, base) == Escaped(s, 0)
  {
    if s != "" {
      NoRefs(s[1..], head, base);
      if Pass(s[0]) < 5 {
        RefsSkipEntity(Pass(s[0]), Escaped(s[1..], 0), head, base);
      } else {
        assert MARKS[4] == '&';
        RefsSkip([s[0]], Escaped(s[1..], 0), head, base);
      }
    }
  }

  lemma {:induction false} NoCdata(s: string)
    requires Lacks(s, '<')
    ensures StripCdata(s) == s
  {
    if s != "" {
      assert CdataLen(s) == 0;
      assert StripCdata(s) == [s[0]] + StripCdata(s[1..]);
      NoCdata(s[1..]);
    }
  }

  lemma {:induction false} UnescapeInverts(s: string, i: nat)
    requires i <= 5
    ensures Unescape(Escaped(s, i), i) == s
    decreases 5 - i
  {
    if i == 5 {
      EscapedNothing(s);
    } else {
      DecodePass(s, i);
      UnescapeInverts(s, i + 1);
    }
  }

  /** The ordered replacement passes of decodeXml invert escaping: "&amp;" comes last, so no
      pass meets an ampersand that an earlier pass produced. */
  lemma DecodeInvertsEscape(s: string)
    ensures DecodeXml(Escaped(s, 0), false) == s
  {
    EscapedClean(s);
    NoCdata(Escaped(s, 0));
    NoRefs(s, "&#x", 16);
    NoRefs(s, "&#", 10);
    UnescapeInverts(s, 0);
  }
}
