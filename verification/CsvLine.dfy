/** One line of a CSV file: the quote automaton of parseCsvLine, and the quoted printing of
    section 2 of RFC 4180. */
module CsvLine {
  import opened JsText

  /** The automaton from position `i` on: the fields still to come, the first of which
      starts with what `current` has collected so far. */
  function FieldsFrom(line: string, i: nat, current: string, inQuotes: bool, delimiter: char): seq<string>
    requires i <= |line|
    decreases |line| - i
  {
    if i == |line| then [Trim(current)]
    else if line[i] == '"' then
      if inQuotes && i + 1 < |line| && line[i + 1] == '"'
      then FieldsFrom(line, i + 2, current + "\"", inQuotes, delimiter)
      else FieldsFrom(line, i + 1, current, !inQuotes, delimiter)
    else if line[i] == delimiter && !inQuotes
    then [Trim(current)] + FieldsFrom(line, i + 1, "", inQuotes, delimiter)
    else FieldsFrom(line, i + 1, current + [line[i]], inQuotes, delimiter)
  }

  function Fields(line: string, delimiter: char): seq<string> {
    FieldsFrom(line, 0, "", false, delimiter)
  }

  /** The character loop; a doubled quote inside quotes makes it skip one character more. */
  method ParseCsvLine(line: string, delimiter: char) returns (result: seq<string>)
    ensures result == Fields(line, delimiter)
  {
    result := [];
    var current, inQuotes := "", false;
    var i := 0;
    while i < |line|
      invariant 0 <= i <= |line|
      invariant Fields(line, delimiter) == result + FieldsFrom(line, i, current, inQuotes, delimiter)
    {
      var ch := line[i];
      if ch == '"' {
        if inQuotes && i + 1 < |line| && line[i + 1] == '"' {
          current := current + "\"";
          i := i + 1;
        } else {
          inQuotes := !inQuotes;
        }
      } else if ch == delimiter && !inQuotes {
        result := result + [Trim(current)];
        current := "";
      } else {
        current := current + [ch];
      }
      i := i + 1;
    }
    result := result + [Trim(current)];
  }

  // ----- printing -----

  /** Every quote written twice. */
  function Doubled(f: string): string {
    if f == "" then "" else (if f[0] == '"' then "\"\"" else [f[0]]) + Doubled(f[1..])
  }

  /** A field with a quote or the delimiter in it is enclosed in quotes. */
  function PrintField(f: string, delimiter: char): string {
    if Lacks(f, '"') && Lacks(f, delimiter) then f else "\"" + Doubled(f) + "\""
  }

  function PrintFields(fields: seq<string>, delimiter: char): string {
    if fields == [] then "" else
    if |fields| == 1 then PrintField(fields[0], delimiter)
    else PrintField(fields[0], delimiter) + [delimiter] + PrintFields(fields[1..], delimiter)
  }

  // ----- parsing what has been printed -----

  /** The automaton does not look back: only the remaining text matters. */
  lemma {:induction false} OnlyTheRest(line: string, i: nat, current: string, inQuotes: bool, delimiter: char)
    requires i <= |line|
    ensures FieldsFrom(line, i, current, inQuotes, delimiter)
         == FieldsFrom(line[i..], 0, current, inQuotes, delimiter)
    decreases |line| - i
  {
    if i < |line| {
      var rest := line[i..];
      if line[i] == '"' && inQuotes && i + 1 < |line| && line[i + 1] == '"' {
        OnlyTheRest(line, i + 2, current + "\"", inQuotes, delimiter);
        OnlyTheRest(rest, 2, current + "\"", inQuotes, delimiter);
        assert rest[2..] == line[i + 2..];
      } else {
        var q := if line[i] == '"' then !inQuotes else inQuotes;
        var c := if line[i] == '"' then current
                 else if line[i] == delimiter && !inQuotes then "" else current + [line[i]];
        OnlyTheRest(line, i + 1, c, q, delimiter);
        OnlyTheRest(rest, 1, c, q, delimiter);
        assert rest[1..] == line[i + 1..];
      }
    }
  }

  /** One turn of the automaton, seen from the front of the text. */
  lemma Turn(c: char, s: string, current: string, inQuotes: bool, delimiter: char)
    ensures c == '"' && !(inQuotes && s != "" && s[0] == '"') ==>
      FieldsFrom([c] + s, 0, current, inQuotes, delimiter) == FieldsFrom(s, 0, current, !inQuotes, delimiter)
    ensures c == delimiter && c != '"' && !inQuotes ==>
      FieldsFrom([c] + s, 0, current, inQuotes, delimiter)
        == [Trim(current)] + FieldsFrom(s, 0, "", inQuotes, delimiter)
    ensures c != '"' && !(c == delimiter && !inQuotes) ==>
      FieldsFrom([c] + s, 0, current, inQuotes, delimiter) == FieldsFrom(s, 0, current + [c], inQuotes, delimiter)
  {
    hide Trim;
    var line := [c] + s;
    assert line[1..] == s;
    var q := if c == '"' then !inQuotes else inQuotes;
    var cur := if c == '"' then current else if c == delimiter && !inQuotes then "" else current + [c];
    OnlyTheRest(line, 1, cur, q, delimiter);
    if s != "" { assert line[1] == s[0]; }
  }

  lemma DoubledTurn(s: string, current: string, delimiter: char)
    ensures FieldsFrom("\"\"" + s, 0, current, true, delimiter) == FieldsFrom(s, 0, current + "\"", true, delimiter)
  {
    hide Trim;
    var line := "\"\"" + s;
    assert line[2..] == s;
    OnlyTheRest(line, 2, current + "\"", true, delimiter);
  }

  /** A plain field is collected character by character. */
  lemma {:induction false} CollectPlain(f: string, s: string, current: string, delimiter: char)
    requires Lacks(f, '"') && Lacks(f, delimiter)
    ensures FieldsFrom(f + s, 0, current, false, delimiter) == FieldsFrom(s, 0, current + f, false, delimiter)
  {
    hide FieldsFrom;
    if f == "" {
      assert f + s == s && current + f == current;
    } else {
      Turn(f[0], f[1..] + s, current, false, delimiter);
      assert f + s == [f[0]] + (f[1..] + s);
      CollectPlain(f[1..], s, current + [f[0]], delimiter);
      MoveOne(current, f);
    }
  }

  /** Inside quotes everything is collected, a doubled quote as one. */
  lemma {:induction false} CollectQuoted(f: string, s: string, current: string, delimiter: char)
    ensures FieldsFrom(Doubled(f) + s, 0, current, true, delimiter) == FieldsFrom(s, 0, current + f, true, delimiter)
  {
    hide FieldsFrom, Doubled;
    DoubledFront(f, s);
    if f == "" {
      assert current + f == current;
    } else {
      var rest := Doubled(f[1..]) + s;
      if f[0] == '"' {
        DoubledTurn(rest, current, delimiter);
      } else {
        Turn(f[0], rest, current, true, delimiter);
      }
      CollectQuoted(f[1..], s, current + [f[0]], delimiter);
      MoveOne(current, f);
    }
  }

  lemma DoubledFront(f: string, s: string)
    ensures f == "" ==> Doubled(f) + s == s
    ensures f != "" ==> Doubled(f) + s == (if f[0] == '"' then "\"\"" else [f[0]]) + (Doubled(f[1..]) + s)
  {
  }

  /** Either way of printing a field brings the automaton, outside quotes, to its whole text. */
  lemma CollectField(f: string, s: string, delimiter: char)
    requires delimiter != '"' && (s != "" ==> s[0] == delimiter)
    ensures FieldsFrom(PrintField(f, delimiter) + s, 0, "", false, delimiter) == FieldsFrom(s, 0, f, false, delimiter)
  {
    hide FieldsFrom, Doubled;
    assert "" + f == f;
    if Lacks(f, '"') && Lacks(f, delimiter) {
      CollectPlain(f, s, "", delimiter);
    } else {
      var body := Doubled(f) + ("\"" + s);
      assert PrintField(f, delimiter) + s == "\"" + body;
      Turn('"', body, "", false, delimiter);
      CollectQuoted(f, "\"" + s, "", delimiter);
      Turn('"', s, f, true, delimiter);
    }
  }

  /** Parsing a printed line returns the fields, each of them trimmed. */
  lemma {:induction false} PrintedLineReadBack(fields: seq<string>, delimiter: char)
    requires fields != [] && delimiter != '"'
    ensures Fields(PrintFields(fields, delimiter), delimiter) == Map(Trim, fields)
  {
    hide FieldsFrom, Trim, PrintField, Map;
    var f := fields[0];
    MapCons(Trim, f, fields[1..]);
    assert fields == [f] + fields[1..];
    if |fields| == 1 {
      MapNil(Trim);
      CollectField(f, "", delimiter);
      assert PrintField(f, delimiter) + "" == PrintField(f, delimiter);
      AtEnd(f, delimiter);
    } else {
      var rest := PrintFields(fields[1..], delimiter);
      CollectField(f, [delimiter] + rest, delimiter);
      assert PrintFields(fields, delimiter) == PrintField(f, delimiter) + ([delimiter] + rest);
      Turn(delimiter, rest, f, false, delimiter);
      PrintedLineReadBack(fields[1..], delimiter);
    }
  }

  lemma AtEnd(current: string, delimiter: char)
    ensures FieldsFrom("", 0, current, false, delimiter) == [Trim(current)]
  {
  }

  /** The round trip through a CSV line: it returns the fields exactly when all are trimmed. */
  lemma CsvRoundTrip(fields: seq<string>, delimiter: char)
    requires fields != [] && delimiter != '"'
    ensures Fields(PrintFields(fields, delimiter), delimiter) == fields
       <==> forall k | 0 <= k < |fields| :: Trimmed(fields[k])
  {
    hide Fields, PrintFields, Trim, Trimmed;
    PrintedLineReadBack(fields, delimiter);
    forall k | 0 <= k < |fields|
      ensures Trim(fields[k]) == fields[k] <==> Trimmed(fields[k])
    {
      TrimIsTrimmed(fields[k]);
    }
    var m := Map(Trim, fields);
    assert m == fields <==> forall k | 0 <= k < |fields| :: m[k] == fields[k];
  }
}
