/** The quote-aware comma splitter of Graph.parseCSVLine and the CSV branch
    of DataLoadingService.splitSmart. Both walk the line once, toggling a
    "quoted" flag on a lone double quote, splitting on commas outside
    quotes and reading a doubled quote as one literal quote; they differ
    only in WHERE a doubled quote counts as an escape. */
module CsvLine {
  import opened Text

  /** Graph.parseCSVLine reads "" as a literal quote anywhere in the line;
      splitSmart only while inside a quoted section. */
  datatype Dialect = EscapeAnywhere | EscapeInQuotes

  /** The doubled quote at the head of s is read as one literal quote. */
  predicate EscapedQuote(s: string, inQuotes: bool, d: Dialect) {
    |s| >= 2 && s[0] == '"' && s[1] == '"' && (d == EscapeAnywhere || inQuotes)
  }

  /** The reference grammar: the fields of s read from quote state inQuotes,
      the first field being the rest of the field already under way. */
  function Fields(s: string, inQuotes: bool, d: Dialect): (r: seq<string>)
    ensures |r| >= 1
    decreases |s|
  {
    if |s| == 0 then [""]
    else if EscapedQuote(s, inQuotes, d) then PrependTo("\"", Fields(s[2..], inQuotes, d))
    else if s[0] == '"' then Fields(s[1..], !inQuotes, d)
    else if s[0] == ',' && !inQuotes then [""] + Fields(s[1..], inQuotes, d)
    else PrependTo([s[0]], Fields(s[1..], inQuotes, d))
  }

  /** Graph.parseCSVLine: the fields of a whole line. */
  function ParseCsvLine(line: string): seq<string> {
    Fields(line, false, EscapeAnywhere)
  }

  /** The character loop both Java methods run (StringBuilder `current`,
      flag `inQuotes`, index skip on an escaped quote); it yields exactly the
      fields of the reference grammar. */
  method ScanLine(line: string, d: Dialect) returns (fields: seq<string>)
    ensures fields == Fields(line, false, d)
  {
    fields := [];
    var inQuotes := false;
    var cur := "";
    var i := 0;
    assert line[0..] == line;
    PrependToEmpty(Fields(line, false, d));
    while i < |line|
      invariant 0 <= i <= |line|
      invariant fields + PrependTo(cur, Fields(line[i..], inQuotes, d)) == Fields(line, false, d)
    {
      var rest := line[i..];
      assert rest[0] == line[i];
      if line[i] == '"' {
        if (d == EscapeAnywhere || inQuotes) && i + 1 < |line| && line[i + 1] == '"' {
          assert EscapedQuote(rest, inQuotes, d) && rest[2..] == line[i + 2..];
          assert Fields(rest, inQuotes, d) == PrependTo("\"", Fields(line[i + 2..], inQuotes, d));
          PrependToTwice(cur, "\"", Fields(line[i + 2..], inQuotes, d));
          cur := cur + "\"";
          i := i + 2;
        } else {
          assert rest[1..] == line[i + 1..];
          assert !EscapedQuote(rest, inQuotes, d);
          assert Fields(rest, inQuotes, d) == Fields(line[i + 1..], !inQuotes, d);
          inQuotes := !inQuotes;
          i := i + 1;
        }
      } else if line[i] == ',' && !inQuotes {
        assert rest[1..] == line[i + 1..];
        PrependToEmpty(Fields(line[i + 1..], inQuotes, d));
        assert Fields(rest, inQuotes, d) == [""] + Fields(line[i + 1..], inQuotes, d);
        assert PrependTo(cur, Fields(rest, inQuotes, d)) == [cur + ""] + Fields(line[i + 1..], inQuotes, d);
        assert cur + "" == cur;
        fields := fields + [cur];
        cur := "";
        i := i + 1;
      } else {
        assert rest[1..] == line[i + 1..];
        assert !EscapedQuote(rest, inQuotes, d);
        assert Fields(rest, inQuotes, d) == PrependTo([line[i]], Fields(line[i + 1..], inQuotes, d));
        PrependToTwice(cur, [line[i]], Fields(line[i + 1..], inQuotes, d));
        cur := cur + [line[i]];
        i := i + 1;
      }
    }
    assert line[i..] == "";
    assert PrependTo(cur, Fields("", inQuotes, d)) == [cur + ""];
    assert cur + "" == cur;
    fields := fields + [cur];
  }

  // ---------------------------------------------------------------------
  // Field count
  // ---------------------------------------------------------------------

  /** The commas of s that split fields: those read outside quotes, where a
      quote toggles the state unless it starts an escaped pair. */
  function SplittingCommas(s: string, inQuotes: bool, d: Dialect): nat
    decreases |s|
  {
    if |s| == 0 then 0
    else if EscapedQuote(s, inQuotes, d) then SplittingCommas(s[2..], inQuotes, d)
    else if s[0] == '"' then SplittingCommas(s[1..], !inQuotes, d)
    else if s[0] == ',' && !inQuotes then 1 + SplittingCommas(s[1..], inQuotes, d)
    else SplittingCommas(s[1..], inQuotes, d)
  }

  /** A line has one more field than it has commas outside quotes. */
  lemma {:induction false} FieldCount(s: string, inQuotes: bool, d: Dialect)
    ensures |Fields(s, inQuotes, d)| == SplittingCommas(s, inQuotes, d) + 1
    decreases |s|
  {
    if |s| == 0 {
    } else if EscapedQuote(s, inQuotes, d) {
      FieldCount(s[2..], inQuotes, d);
    } else if s[0] == '"' {
      FieldCount(s[1..], !inQuotes, d);
    } else {
      FieldCount(s[1..], inQuotes, d);
    }
  }

  // ---------------------------------------------------------------------
  // Lines without quotes
  // ---------------------------------------------------------------------

  /** With no quote character in the line, both dialects are a plain
      comma split that keeps empty fields. */
  lemma {:induction false} UnquotedIsSplit(s: string, d: Dialect)
    requires '"' !in s
    ensures Fields(s, false, d) == SplitAll(s, ",")
    decreases |s|
  {
    if |s| == 0 {
      assert Find(s, ",") == -1;
    } else {
      assert s == [s[0]] + s[1..];
      assert '"' !in s[1..];
      UnquotedIsSplit(s[1..], d);
      SplitAllCons(s[0], s[1..], ',');
    }
  }

  // ---------------------------------------------------------------------
  // Quoted fields
  // ---------------------------------------------------------------------

  /** f with every quote doubled. */
  function Escape(f: string): (r: string)
    ensures |r| >= |f|
  {
    if |f| == 0 then ""
    else if f[0] == '"' then "\"\"" + Escape(f[1..])
    else [f[0]] + Escape(f[1..])
  }

  /** f written as a quoted CSV field. */
  function Quote(f: string): string {
    "\"" + Escape(f) + "\""
  }

  /** The fields written as one CSV line, every field quoted. */
  function QuotedLine(fs: seq<string>): string {
    Join(seq(|fs|, k requires 0 <= k < |fs| => Quote(fs[k])), ",")
  }

  /** Inside quotes both dialects read an escaped field back up to its
      closing quote, and the closing quote ends the quoted section when a
      comma or the end of the line follows. */
  lemma {:induction false} ReadEscaped(f: string, rest: string, d: Dialect)
    requires |rest| == 0 || rest[0] == ','
    ensures Fields(Escape(f) + "\"" + rest, true, d) == PrependTo(f, Fields(rest, false, d))
    decreases |f|
  {
    var s := Escape(f) + "\"" + rest;
    if |f| == 0 {
      assert s == "\"" + rest;
      assert !EscapedQuote(s, true, d);
      assert s[1..] == rest;
      PrependToEmpty(Fields(rest, false, d));
    } else {
      ReadEscaped(f[1..], rest, d);
      var t := Escape(f[1..]) + "\"" + rest;
      if f[0] == '"' {
        assert s == "\"\"" + t;
        ReadDoubled(t, d);
        PrependToTwice("\"", f[1..], Fields(rest, false, d));
      } else {
        assert s == [f[0]] + t;
        ReadPlain(t, f[0], d);
        PrependToTwice([f[0]], f[1..], Fields(rest, false, d));
      }
      assert f == [f[0]] + f[1..];
    }
  }

  /** Inside quotes a doubled quote reads as one quote. */
  lemma ReadDoubled(t: string, d: Dialect)
    ensures Fields("\"\"" + t, true, d) == PrependTo("\"", Fields(t, true, d))
  {
    var s := "\"\"" + t;
    assert EscapedQuote(s, true, d) && s[2..] == t;
  }

  /** Inside quotes a character other than a quote reads as itself. */
  lemma ReadPlain(t: string, c: char, d: Dialect)
    requires c != '"'
    ensures Fields([c] + t, true, d) == PrependTo([c], Fields(t, true, d))
  {
    var s := [c] + t;
    assert !EscapedQuote(s, true, d) && s[0] == c && s[1..] == t;
  }

  /** Where the opening quote is read as a toggle, a quoted field reads back
      as itself. */
  lemma ReadQuoted(f: string, rest: string, d: Dialect)
    requires |rest| == 0 || rest[0] == ','
    requires d == EscapeInQuotes || (|f| > 0 && f[0] != '"')
    ensures Fields(Quote(f) + rest, false, d) == PrependTo(f, Fields(rest, false, d))
  {
    var s := Quote(f) + rest;
    assert s == "\"" + (Escape(f) + "\"" + rest);
    assert s[1..] == Escape(f) + "\"" + rest;
    if d == EscapeAnywhere {
      assert Escape(f)[0] == f[0];
    }
    assert !EscapedQuote(s, false, d);
    ReadEscaped(f, rest, d);
  }

  /** splitSmart's dialect reads every line of quoted fields back as those
      fields, whatever they contain. */
  lemma {:induction false} QuotedLineRoundTrip(fs: seq<string>, d: Dialect)
    requires |fs| >= 1
    requires d == EscapeAnywhere ==> forall k | 0 <= k < |fs| :: |fs[k]| > 0 && fs[k][0] != '"'
    ensures Fields(QuotedLine(fs), false, d) == fs
  {
    var qs := seq(|fs|, k requires 0 <= k < |fs| => Quote(fs[k]));
    if |fs| == 1 {
      assert QuotedLine(fs) == Quote(fs[0]) + "";
      ReadQuoted(fs[0], "", d);
      assert Fields("", false, d) == [""];
      assert PrependTo(fs[0], [""]) == [fs[0] + ""];
      assert fs[0] + "" == fs[0];
    } else {
      var tail := QuotedLine(fs[1..]);
      assert qs[1..] == seq(|fs| - 1, k requires 0 <= k < |fs| - 1 => Quote(fs[1..][k]));
      assert QuotedLine(fs) == Quote(fs[0]) + ("," + tail);
      ReadQuoted(fs[0], "," + tail, d);
      var rest := "," + tail;
      assert rest[0] == ',' && rest[1..] == tail;
      assert !EscapedQuote(rest, false, d);
      assert Fields(rest, false, d) == [""] + Fields(tail, false, d);
      QuotedLineRoundTrip(fs[1..], d);
      assert PrependTo(fs[0], [""] + fs[1..]) == [fs[0] + ""] + fs[1..];
      assert fs[0] + "" == fs[0];
      assert fs == [fs[0]] + fs[1..];
    }
  }

  /** Graph.parseCSVLine reads "" as a literal quote even outside quotes, so
      an empty quoted field comes back as a lone quote rather than empty. */
  lemma EmptyQuotedFieldIsQuote()
    ensures ParseCsvLine("a,\"\",b") == ["a", "\"", "b"]
    ensures Fields("a,\"\",b", false, EscapeInQuotes) == ["a", "", "b"]
  {
    var line := "a,\"\",b";
    ReadQuotesB();
    forall d: Dialect ensures Fields(line, false, d) == PrependTo("a", [""] + Fields("\"\",b", false, d)) {
      assert line[0] == 'a' && !EscapedQuote(line, false, d);
      assert line[1..] == ",\"\",b" && line[1..][1..] == "\"\",b";
      assert Fields(",\"\",b", false, d) == [""] + Fields("\"\",b", false, d);
    }
    assert "a" + "" == "a";
  }

  /** The tail "",b of the example line in each dialect. */
  lemma ReadQuotesB()
    ensures Fields("\"\",b", false, EscapeAnywhere) == ["\"", "b"]
    ensures Fields("\"\",b", false, EscapeInQuotes) == ["", "b"]
  {
    ReadCommaB(EscapeAnywhere);
    ReadCommaB(EscapeInQuotes);
    assert "\"\",b"[2..] == ",b" && "\"\",b"[1..] == "\",b" && "\",b"[1..] == ",b";
    assert Fields("\"\",b", false, EscapeAnywhere) == PrependTo("\"", Fields(",b", false, EscapeAnywhere));
    assert "\"" + "" == "\"";
    assert Fields("\"\",b", false, EscapeInQuotes) == Fields("\",b", true, EscapeInQuotes);
    assert Fields("\",b", true, EscapeInQuotes) == Fields(",b", false, EscapeInQuotes);
  }

  /** The tail ,b of the example line. */
  lemma ReadCommaB(d: Dialect)
    ensures Fields(",b", false, d) == ["", "b"]
  {
    assert ",b"[1..] == "b" && "b"[1..] == "";
    assert "b"[0] == 'b' && !EscapedQuote("b", false, d);
    assert PrependTo(['b'], [""]) == [['b'] + ""];
    assert ['b'] + "" == "b";
    assert Fields(",b", false, d) == [""] + Fields("b", false, d);
  }
}
