/**
 * The CSV line tokenizer `parseCSVLine`: one left-to-right scan with a field
 * accumulator and an in-quotes flag. Outside quotes a comma ends the field;
 * a `"` toggles the flag and is dropped, except that `""` inside quotes
 * stands for one literal `"`. Every line is accepted.
 */
module Csv {
  import opened Strings

  /** Adds `c` at the front of the first field. */
  function Prepend(c: char, fields: seq<string>): (r: seq<string>)
    requires |fields| >= 1
    ensures |r| == |fields|
  {
    [[c] + fields[0]] + fields[1..]
  }

  /** The fields that the rest `s` of a line contributes when the scan reaches
      it with quote state `inQuotes`; the first of them continues the field
      the scan is in. There is always at least one. */
  function Fields(s: string, inQuotes: bool): (r: seq<string>)
    ensures |r| >= 1
    decreases |s|
  {
    if s == [] then [[]]
    else if s[0] == '"' then
      if inQuotes && |s| > 1 && s[1] == '"' then Prepend('"', Fields(s[2..], inQuotes))
      else Fields(s[1..], !inQuotes)
    else if s[0] == ',' && !inQuotes then [[]] + Fields(s[1..], inQuotes)
    else Prepend(s[0], Fields(s[1..], inQuotes))
  }

  /** The fields of a whole line: the scan starts outside quotes. */
  function ParseLine(line: string): seq<string> {
    Fields(line, false)
  }

  /** The number of commas the scan of `s` meets while outside quotes. */
  function SeparatorCount(s: string, inQuotes: bool): nat
    decreases |s|
  {
    if s == [] then 0
    else if s[0] == '"' then
      if inQuotes && |s| > 1 && s[1] == '"' then SeparatorCount(s[2..], inQuotes)
      else SeparatorCount(s[1..], !inQuotes)
    else if s[0] == ',' && !inQuotes then 1 + SeparatorCount(s[1..], inQuotes)
    else SeparatorCount(s[1..], inQuotes)
  }

  /** The fields already finished, followed by the current field, continued
      by the fields of the rest of the line. */
  function Glue(front: seq<string>, back: seq<string>): seq<string>
    requires |front| >= 1 && |back| >= 1
  {
    front[..|front| - 1] + [front[|front| - 1] + back[0]] + back[1..]
  }

  lemma GlueStart(back: seq<string>)
    requires |back| >= 1
    ensures Glue([[]], back) == back
  {
    assert [] + back[0] == back[0];
    assert [back[0]] + back[1..] == back;
  }

  lemma GlueEnd(front: seq<string>)
    requires |front| >= 1
    ensures Glue(front, [[]]) == front
  {
    assert front[|front| - 1] + [] == front[|front| - 1];
  }

  lemma GluePrepend(done: seq<string>, current: string, c: char, back: seq<string>)
    requires |back| >= 1
    ensures Glue(done + [current], Prepend(c, back)) == Glue(done + [current + [c]], back)
  {
    var f := done + [current];
    var g := done + [current + [c]];
    assert f[..|f| - 1] == done == g[..|g| - 1];
    assert current + ([c] + back[0]) == (current + [c]) + back[0];
  }

  lemma GlueSeparator(done: seq<string>, current: string, back: seq<string>)
    requires |back| >= 1
    ensures Glue(done + [current], [[]] + back) == Glue(done + [current] + [[]], back)
  {
    var f := done + [current];
    var g := done + [current] + [[]];
    var b := [[]] + back;
    assert f[..|f| - 1] == done;
    assert g[..|g| - 1] == f;
    assert b[0] == [] && b[1..] == back;
    assert current + [] == current;
    assert [] + back[0] == back[0];
    assert [back[0]] + back[1..] == back;
    assert Glue(f, b) == done + [current] + back;
    assert Glue(g, back) == f + ([back[0]] + back[1..]);
  }

  /** `parseCSVLine(line)`. It never fails, and it returns the fields of
      `line` as `ParseLine` defines them: one more than the commas met
      outside quotes. */
  method ParseCsvLine(line: string) returns (result: seq<string>)
    ensures result == ParseLine(line)
    ensures |result| == 1 + SeparatorCount(line, false)
  {
    result := [];
    var current: string := [];
    var inQuotes := false;
    var i := 0;
    GlueStart(ParseLine(line));
    while i < |line|
      invariant 0 <= i <= |line|
      invariant Glue(result + [current], Fields(line[i..], inQuotes)) == ParseLine(line)
    {
      var c := line[i];
      var rest := line[i..];
      assert rest[0] == c && rest[1..] == line[i + 1..];
      if c == '"' {
        if inQuotes && i + 1 < |line| && line[i + 1] == '"' {
          // an escaped quote: emit one `"` and skip the second
          assert rest[2..] == line[i + 2..];
          GluePrepend(result, current, '"', Fields(line[i + 2..], inQuotes));
          current := current + ['"'];
          i := i + 1;
        } else {
          inQuotes := !inQuotes;
        }
      } else if c == ',' && !inQuotes {
        GlueSeparator(result, current, Fields(line[i + 1..], inQuotes));
        result := result + [current];
        current := [];
      } else {
        GluePrepend(result, current, c, Fields(line[i + 1..], inQuotes));
        current := current + [c];
      }
      i := i + 1;
    }
    assert line[i..] == [];
    GlueEnd(result + [current]);
    result := result + [current];
    FieldCount(line, false);
  }

  /** There is one field more than there are commas outside quotes. */
  lemma {:induction false} FieldCount(s: string, inQuotes: bool)
    ensures |Fields(s, inQuotes)| == 1 + SeparatorCount(s, inQuotes)
    decreases |s|
  {
    if s == [] {
    } else if s[0] == '"' {
      if inQuotes && |s| > 1 && s[1] == '"' {
        FieldCount(s[2..], inQuotes);
      } else {
        FieldCount(s[1..], !inQuotes);
      }
    } else {
      FieldCount(s[1..], inQuotes);
    }
  }

  /** Without quotes, the fields are what splitting on commas gives. */
  lemma {:induction false} NoQuotesIsSplit(s: string)
    requires '"' !in s
    ensures Fields(s, false) == Split(s, ',')
    decreases |s|
  {
    if s != [] {
      NoQuotesIsSplit(s[1..]);
    }
  }

  /** A line with neither commas nor quotes is a single field, the line itself. */
  lemma SingleField(line: string)
    requires '"' !in line && ',' !in line
    ensures ParseLine(line) == [line]
  {
    NoQuotesIsSplit(line);
    SplitJoin([line], ',');
  }

  /** Fields free of commas and quotes, joined with commas, parse back to themselves. */
  lemma PlainRoundTrip(fields: seq<string>)
    requires |fields| >= 1
    requires forall f <- fields :: ',' !in f && '"' !in f
    ensures ParseLine(Join(fields, ',')) == fields
  {
    JoinAvoids(fields, ',', '"');
    NoQuotesIsSplit(Join(fields, ','));
    SplitJoin(fields, ',');
  }

  /** The body of the quoted form of `f`: each `"` doubled. */
  function Escape(f: string): string
    decreases |f|
  {
    if f == [] then []
    else (if f[0] == '"' then ['"', '"'] else [f[0]]) + Escape(f[1..])
  }

  /** `f` written as a quoted CSV field. */
  function Quote(f: string): string {
    ['"'] + Escape(f) + ['"']
  }

  function QuoteAll(fields: seq<string>): (r: seq<string>)
    ensures |r| == |fields|
    decreases |fields|
  {
    if fields == [] then [] else [Quote(fields[0])] + QuoteAll(fields[1..])
  }

  /** Escaping one character of a field. */
  function EscapeChar(c: char): string {
    if c == '"' then ['"', '"'] else [c]
  }

  /** Inside quotes, the escaped form of `c` adds `c` to the current field. */
  lemma EscapedChar(c: char, s: string)
    ensures Fields(EscapeChar(c) + s, true) == Prepend(c, Fields(s, true))
  {
    var e := EscapeChar(c) + s;
    if c == '"' {
      assert e[0] == '"' && e[1] == '"' && e[2..] == s;
    } else {
      assert e[0] == c && e[1..] == s;
    }
  }

  /** Escaping a non-empty body starts with the escaped first character. */
  lemma EscapeFront(f: string, t: string)
    requires f != []
    ensures Escape(f) + ['"'] + t == EscapeChar(f[0]) + (Escape(f[1..]) + ['"'] + t)
  {
  }

  /** The closing quote itself ends the field. */
  lemma ClosingQuoteAlone(t: string)
    requires t == [] || t[0] == ','
    ensures Fields(['"'] + t, true) == Fields(t, false)
  {
    assert (['"'] + t)[1..] == t;
  }

  /** One escaped character in front of the rest of the quoted body. */
  lemma ClosingQuoteStep(f: string, t: string)
    requires f != []
    requires Fields(Escape(f[1..]) + ['"'] + t, true) == [f[1..] + Fields(t, false)[0]] + Fields(t, false)[1..]
    ensures Fields(Escape(f) + ['"'] + t, true) == [f + Fields(t, false)[0]] + Fields(t, false)[1..]
  {
    var back := Fields(t, false);
    EscapeFront(f, t);
    EscapedChar(f[0], Escape(f[1..]) + ['"'] + t);
    PrependOne(f[0], f[1..] + back[0], back[1..]);
    ConsAppend(f, back[0]);
  }

  /** Inside quotes, an escaped body and its closing quote contribute exactly
      `f` to the current field, when a comma or the end of the line follows. */
  lemma {:induction false} ClosingQuote(f: string, t: string)
    requires t == [] || t[0] == ','
    ensures Fields(Escape(f) + ['"'] + t, true) == [f + Fields(t, false)[0]] + Fields(t, false)[1..]
    decreases |f|
  {
    var back := Fields(t, false);
    if f == [] {
      ClosingQuoteAlone(t);
      assert Escape(f) + ['"'] + t == ['"'] + t;
      assert [] + back[0] == back[0];
      assert [back[0]] + back[1..] == back;
    } else {
      ClosingQuote(f[1..], t);
      ClosingQuoteStep(f, t);
    }
  }

  lemma QuotedField(f: string, t: string)
    requires t == [] || t[0] == ','
    ensures Fields(Quote(f) + t, false) == [f + Fields(t, false)[0]] + Fields(t, false)[1..]
  {
    var s := Quote(f) + t;
    assert s == ['"'] + (Escape(f) + ['"'] + t);
    assert s[1..] == Escape(f) + ['"'] + t;
    ClosingQuote(f, t);
  }

  /** Any fields, each written quoted and joined with commas, parse back to
      themselves: commas and quotes inside a quoted field are kept. */
  lemma {:induction false} QuotedRoundTrip(fields: seq<string>)
    requires |fields| >= 1
    ensures ParseLine(Join(QuoteAll(fields), ',')) == fields
    decreases |fields|
  {
    var q := QuoteAll(fields);
    assert q[0] == Quote(fields[0]);
    if |fields| == 1 {
      QuotedField(fields[0], []);
      assert Quote(fields[0]) + [] == Quote(fields[0]);
      assert fields[0] + [] == fields[0];
    } else {
      var tail := Join(QuoteAll(fields[1..]), ',');
      assert q[1..] == QuoteAll(fields[1..]);
      assert Join(q, ',') == Quote(fields[0]) + ([','] + tail);
      QuotedRoundTrip(fields[1..]);
      QuotedField(fields[0], [','] + tail);
      assert ([','] + tail)[1..] == tail;
      var back := Fields([','] + tail, false);
      assert back == [[]] + fields[1..];
      assert fields[0] + back[0] == fields[0];
      assert fields == [fields[0]] + fields[1..];
    }
  }

  lemma PrependOne(c: char, f: string, rest: seq<string>)
    ensures Prepend(c, [f] + rest) == [[c] + f] + rest
  {
    assert ([f] + rest)[1..] == rest;
  }

  /** The end `",d` of a quoted field followed by the field `d`. */
  lemma CloseThenD()
    ensures Fields("\",d", true) == ["", "d"]
  {
    assert Fields("", false) == [""];
    assert Fields("d", false) == ["d"] by {
      assert "d"[1..] == "";
      PrependOne('d', "", []);
      assert ['d'] + "" == "d";
    }
    assert Fields(",d", false) == ["", "d"] by {
      assert ",d"[1..] == "d";
    }
    assert "\",d"[1..] == ",d";
  }

  /** Inside quotes, `b,c",d` holds the rest of the field `b,c`, then `d`. */
  lemma QuotedCommaBody()
    ensures Fields("b,c\",d", true) == ["b,c", "d"]
  {
    CloseThenD();
    assert Fields("c\",d", true) == ["c", "d"] by {
      assert "c\",d"[1..] == "\",d";
      PrependOne('c', "", ["d"]);
      assert ['c'] + "" == "c";
    }
    assert Fields(",c\",d", true) == [",c", "d"] by {
      assert ",c\",d"[1..] == "c\",d";
      PrependOne(',', "c", ["d"]);
      assert [','] + "c" == ",c";
    }
    assert "b,c\",d"[1..] == ",c\",d";
    PrependOne('b', ",c", ["d"]);
    assert ['b'] + ",c" == "b,c";
  }

  lemma QuotedCommaField()
    ensures Fields("\"b,c\",d", false) == ["b,c", "d"]
  {
    QuotedCommaBody();
    assert "\"b,c\",d"[1..] == "b,c\",d";
  }

  /** `a,"b,c",d` gives the fields `a`, `b,c` and `d`. */
  lemma QuotedCommaExample()
    ensures ParseLine("a,\"b,c\",d") == ["a", "b,c", "d"]
  {
    QuotedCommaField();
    assert Fields(",\"b,c\",d", false) == ["", "b,c", "d"] by {
      assert ",\"b,c\",d"[1..] == "\"b,c\",d";
    }
    assert "a,\"b,c\",d"[1..] == ",\"b,c\",d";
    PrependOne('a', "", ["b,c", "d"]);
    assert ['a'] + "" == "a";
  }

  /** Inside quotes, `b""c",d` holds the rest of the field `b"c`, then `d`. */
  lemma EscapedQuoteBody()
    ensures Fields("b\"\"c\",d", true) == ["b\"c", "d"]
  {
    CloseThenD();
    assert Fields("c\",d", true) == ["c", "d"] by {
      assert "c\",d"[1..] == "\",d";
      PrependOne('c', "", ["d"]);
      assert ['c'] + "" == "c";
    }
    assert Fields("\"\"c\",d", true) == ["\"c", "d"] by {
      assert "\"\"c\",d"[2..] == "c\",d";
      PrependOne('\"', "c", ["d"]);
      assert ['\"'] + "c" == "\"c";
    }
    assert "b\"\"c\",d"[1..] == "\"\"c\",d";
    PrependOne('b', "\"c", ["d"]);
    assert ['b'] + "\"c" == "b\"c";
  }

  lemma EscapedQuoteField()
    ensures Fields("\"b\"\"c\",d", false) == ["b\"c", "d"]
  {
    EscapedQuoteBody();
    assert "\"b\"\"c\",d"[1..] == "b\"\"c\",d";
  }

  /** `a,"b""c",d` gives the fields `a`, `b"c` and `d`. */
  lemma EscapedQuoteExample()
    ensures ParseLine("a,\"b\"\"c\",d") == ["a", "b\"c", "d"]
  {
    EscapedQuoteField();
    assert Fields(",\"b\"\"c\",d", false) == ["", "b\"c", "d"] by {
      assert ",\"b\"\"c\",d"[1..] == "\"b\"\"c\",d";
    }
    assert "a,\"b\"\"c\",d"[1..] == ",\"b\"\"c\",d";
    PrependOne('a', "", ["b\"c", "d"]);
    assert ['a'] + "" == "a";
  }

  /** An unterminated quote runs to the end of the line: `a,"b,c` gives `a` and `b,c`. */
  lemma UnterminatedQuoteExample()
    ensures ParseLine("a,\"b,c") == ["a", "b,c"]
  {
    assert Fields("", true) == [""];
    assert Fields("c", true) == ["c"] by {
      assert "c"[1..] == "";
      PrependOne('c', "", []);
      assert ['c'] + "" == "c";
    }
    assert Fields(",c", true) == [",c"] by {
      assert ",c"[1..] == "c";
      PrependOne(',', "c", []);
      assert [','] + "c" == ",c";
    }
    assert Fields("b,c", true) == ["b,c"] by {
      assert "b,c"[1..] == ",c";
      PrependOne('b', ",c", []);
      assert ['b'] + ",c" == "b,c";
    }
    assert Fields("\"b,c", false) == ["b,c"] by {
      assert "\"b,c"[1..] == "b,c";
    }
    assert Fields(",\"b,c", false) == ["", "b,c"] by {
      assert ",\"b,c"[1..] == "\"b,c";
    }
    assert Fields("a,\"b,c", false) == ["a", "b,c"] by {
      assert "a,\"b,c"[1..] == ",\"b,c";
      PrependOne('a', "", ["b,c"]);
      assert ['a'] + "" == "a";
    }
  }
}
