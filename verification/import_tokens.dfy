/** The column and list splitters of DataLoadingService: splitSmart cuts a
    line of the cast file into columns, splitList cuts one column into the
    ids or names it lists, and trimQuotes cleans each piece. */
module ImportTokens {
  import opened Text
  import opened CsvLine

  // ---------------------------------------------------------------------
  // trimQuotes
  // ---------------------------------------------------------------------

  /** t is enclosed in a pair of double quotes. */
  predicate Wrapped(t: string) {
    |t| >= 2 && t[0] == '"' && t[|t| - 1] == '"'
  }

  /** trimQuotes (DataLoadingService.java:257-263): trim, then drop one
      enclosing pair of double quotes. */
  function TrimQuotes(s: string): (r: string)
    ensures Wrapped(JavaTrim(s)) ==> "\"" + r + "\"" == JavaTrim(s)
    ensures !Wrapped(JavaTrim(s)) ==> r == JavaTrim(s)
  {
    var t := JavaTrim(s);
    if Wrapped(t) then
      assert t == [t[0]] + t[1..|t| - 1] + [t[|t| - 1]];
      t[1..|t| - 1]
    else t
  }

  /** A trimmed string is its own trim. */
  lemma TrimTwice(s: string)
    ensures JavaTrim(JavaTrim(s)) == JavaTrim(s)
  {
    var t := TrimStart(s, IsJavaTrimChar);
    var r := JavaTrim(s);
    if |r| > 0 {
      assert r[0] == t[0];
    }
    TrimIdentity(r, IsJavaTrimChar);
  }

  /** Wrapping in quotes is undone, whatever is inside. */
  lemma UnquoteQuoted(x: string)
    ensures TrimQuotes("\"" + x + "\"") == x
  {
    var q := "\"" + x + "\"";
    TrimIdentity(q, IsJavaTrimChar);
    assert q[1..|q| - 1] == x;
  }

  /** A trimmed string that is not wrapped is left alone. */
  lemma TrimQuotesKeeps(x: string)
    requires JavaTrim(x) == x && !Wrapped(x)
    ensures TrimQuotes(x) == x
  {
  }

  // ---------------------------------------------------------------------
  // splitSmart
  // ---------------------------------------------------------------------

  function TrimQuotesAll(fs: seq<string>): (r: seq<string>)
    ensures |r| == |fs| && forall k | 0 <= k < |fs| :: r[k] == TrimQuotes(fs[k])
  {
    seq(|fs|, k requires 0 <= k < |fs| => TrimQuotes(fs[k]))
  }

  /** splitSmart (DataLoadingService.java:198-226): a line holding a tab is
      cut at every tab, keeping empty columns; any other line is read as
      CSV, where a doubled quote is a literal quote only inside quotes, and
      each column loses its enclosing quotes. The character loop is
      CsvLine.ScanLine with the EscapeInQuotes dialect. */
  function SplitSmart(line: string): (r: seq<string>)
    ensures |r| >= 1
    ensures '\t' in line ==> Join(r, "\t") == line && forall k | 0 <= k < |r| :: '\t' !in r[k]
    ensures '\t' !in line ==> |r| == SplittingCommas(line, false, EscapeInQuotes) + 1
  {
    if '\t' in line then
      var r := SplitAll(line, "\t");
      assert forall k | 0 <= k < |r| :: '\t' !in r[k] by {
        forall k | 0 <= k < |r| ensures '\t' !in r[k] {
          AbsentChar(r[k], '\t');
        }
      }
      r
    else
      FieldCount(line, false, EscapeInQuotes);
      TrimQuotesAll(Fields(line, false, EscapeInQuotes))
  }

  /** Tab-separated columns come back as written, empty ones included. */
  lemma SplitSmartTabs(fs: seq<string>)
    requires |fs| >= 2 && forall k | 0 <= k < |fs| :: '\t' !in fs[k]
    ensures SplitSmart(Join(fs, "\t")) == fs
  {
    var line := Join(fs, "\t");
    assert line == fs[0] + "\t" + Join(fs[1..], "\t");
    assert line[|fs[0]|] == '\t';
    SplitJoin(fs, "\t", 0);
  }

  /** Escaping adds only quotes. */
  lemma {:induction false} EscapeLacks(f: string, c: char)
    requires c != '"' && c !in f
    ensures c !in Escape(f)
    decreases |f|
  {
    if |f| > 0 {
      EscapeLacks(f[1..], c);
    }
  }

  /** A line of quoted columns without tabs comes back as its columns when
      each column is trimmed and not itself wrapped in quotes. */
  lemma SplitSmartQuoted(fs: seq<string>)
    requires |fs| >= 1
    requires forall k | 0 <= k < |fs| :: '\t' !in fs[k] && JavaTrim(fs[k]) == fs[k] && !Wrapped(fs[k])
    ensures SplitSmart(QuotedLine(fs)) == fs
  {
    var qs := seq(|fs|, k requires 0 <= k < |fs| => Quote(fs[k]));
    forall k | 0 <= k < |fs| ensures '\t' !in qs[k] {
      EscapeLacks(fs[k], '\t');
    }
    JoinLacks(qs, ",", '\t');
    QuotedLineRoundTrip(fs, EscapeInQuotes);
    forall k | 0 <= k < |fs| ensures TrimQuotes(fs[k]) == fs[k] {
      TrimQuotesKeeps(fs[k]);
    }
  }

  // ---------------------------------------------------------------------
  // splitList
  // ---------------------------------------------------------------------

  /** The separator splitList picks: ';' if present, else '|' if present,
      else ','. */
  function ListSeparator(f: string): (c: char)
    ensures c == ';' <==> ';' in f
    ensures c == '|' <==> ';' !in f && '|' in f
    ensures c == ',' <==> ';' !in f && '|' !in f
  {
    if ';' in f then ';' else if '|' in f then '|' else ','
  }

  function JavaTrimAll(xs: seq<string>): (r: seq<string>)
    ensures |r| == |xs| && forall k | 0 <= k < |xs| :: r[k] == JavaTrim(xs[k])
  {
    seq(|xs|, k requires 0 <= k < |xs| => JavaTrim(xs[k]))
  }

  /** splitList (DataLoadingService.java:228-255): nothing for an empty or
      "null" column; otherwise the column split at its separator, each piece
      trimmed, empty pieces dropped. Every entry is non-empty, trimmed and
      free of the separator. */
  function SplitList(field: string): (r: seq<string>)
    ensures TrimQuotes(field) == "" || TrimQuotes(field) == "null" ==> r == []
    ensures forall k | 0 <= k < |r| ::
              r[k] != "" && JavaTrim(r[k]) == r[k] && ListSeparator(TrimQuotes(field)) !in r[k]
  {
    var f := TrimQuotes(field);
    if f == "" || f == "null" then []
    else
      CleanPieces(f, ListSeparator(f));
      RemoveEmpty(JavaTrimAll(JavaSplit(f, [ListSeparator(f)])))
  }

  /** The trimmed, non-empty pieces of a split are their own trim and hold
      no separator. */
  lemma CleanPieces(f: string, sep: char)
    ensures forall x | x in RemoveEmpty(JavaTrimAll(JavaSplit(f, [sep]))) ::
              x != "" && JavaTrim(x) == x && sep !in x
  {
    var parts := JavaSplit(f, [sep]);
    var r := RemoveEmpty(JavaTrimAll(parts));
    forall x | x in r ensures x != "" && JavaTrim(x) == x && sep !in x {
      var i :| 0 <= i < |parts| && JavaTrimAll(parts)[i] == x;
      TrimTwice(parts[i]);
      PieceLacks(f, sep, i);
      TrimLacks(parts[i], sep);
    }
  }

  /** No piece of a split holds the separator. */
  lemma PieceLacks(f: string, sep: char, i: int)
    requires 0 <= i < |JavaSplit(f, [sep])|
    ensures sep !in JavaSplit(f, [sep])[i]
  {
    if Find(f, [sep]) < 0 {
      AbsentChar(f, sep);
    } else {
      var all := SplitAll(f, [sep]);
      AbsentChar(all[i], sep);
    }
  }

  /** Trimming removes characters only. */
  lemma TrimLacks(s: string, c: char)
    requires c !in s
    ensures c !in JavaTrim(s)
  {
    var t := TrimStart(s, IsJavaTrimChar);
    assert forall i | 0 <= i < |t| :: t[i] == s[|s| - |t| + i];
    assert forall i | 0 <= i < |JavaTrim(s)| :: JavaTrim(s)[i] == t[i];
  }

  /** x can stand in a list written with sep: non-empty, trimmed, no
      quote, no sep, and none of the separators splitList would prefer to
      sep (';' before '|' before ','). */
  predicate ListEntry(x: string, sep: char) {
    && x != "" && JavaTrim(x) == x && '"' !in x
    && ';' !in x
    && (sep != ';' ==> '|' !in x)
    && (sep == ',' ==> ',' !in x)
  }

  /** The separator a list of |xs| entries written with sep is read back
      with: a single entry holds no separator, so it is read with ','. */
  function ReadSeparator(xs: seq<string>, sep: char): char {
    if |xs| >= 2 then sep else ','
  }

  /** A list written with one of the three separators comes back as
      written, when its entries fit that separator and it is not the single
      entry "null". */
  lemma {:induction false} SplitListJoin(xs: seq<string>, sep: char)
    requires sep == ';' || sep == '|' || sep == ','
    requires forall k | 0 <= k < |xs| :: ListEntry(xs[k], ReadSeparator(xs, sep))
    requires xs != ["null"]
    ensures SplitList(Join(xs, [sep])) == xs
  {
    var line := Join(xs, [sep]);
    if |xs| == 0 {
      assert TrimQuotes(line) == "";
    } else {
      JoinUnquoted(xs, [sep]);
      JoinNotNull(xs, sep);
      JoinFirst(xs, [sep]);
      SplitListPieces(xs, sep, line);
      SplitListClean(line, xs);
    }
  }

  /** Why a single entry must hold no separator at all: ["a|b"] written
      with ';' is the column a|b, which splitList cuts at '|'. */
  lemma SingleEntryIsResplit()
    ensures Join(["a|b"], ";") == "a|b"
    ensures SplitList("a|b") != ["a|b"]
  {
    TrimIdentityFirst("a|b");
  }

  /** A column that trimQuotes leaves alone and that splits into trimmed,
      non-empty pieces gives exactly those pieces. */
  lemma SplitListClean(line: string, xs: seq<string>)
    requires TrimQuotes(line) == line && line != "" && line != "null"
    requires JavaSplit(line, [ListSeparator(line)]) == xs
    requires forall k | 0 <= k < |xs| :: xs[k] != "" && JavaTrim(xs[k]) == xs[k]
    ensures SplitList(line) == xs
  {
    assert JavaTrimAll(xs) == xs;
    RemoveEmptyKeeps(xs);
  }

  /** A list other than ["null"], joined with one of the list
      separators, is not "null". */
  lemma JoinNotNull(xs: seq<string>, sep: char)
    requires |xs| >= 1 && xs != ["null"] && (sep == ';' || sep == '|' || sep == ',')
    ensures Join(xs, [sep]) != "null"
  {
    var line := Join(xs, [sep]);
    if |xs| == 1 {
      assert xs == [line];
    } else {
      JoinHoldsSeparator(xs, [sep]);
      assert line[|xs[0]|] == sep;
    }
  }

  /** A join of several pieces holds its separator. */
  lemma JoinHoldsSeparator(xs: seq<string>, sep: string)
    requires |xs| >= 2
    ensures OccursAt(Join(xs, sep), sep, |xs[0]|)
  {
    assert Join(xs, sep) == xs[0] + sep + Join(xs[1..], sep);
  }

  /** A join of trimmed, non-empty, quote-free entries is left alone by
      trimQuotes. */
  lemma JoinUnquoted(xs: seq<string>, sep: string)
    requires |xs| >= 1 && '"' !in sep
    requires forall k | 0 <= k < |xs| :: xs[k] != "" && JavaTrim(xs[k]) == xs[k] && '"' !in xs[k]
    ensures TrimQuotes(Join(xs, sep)) == Join(xs, sep)
  {
    var line := Join(xs, sep);
    JoinLacks(xs, sep, '"');
    JoinLast(xs, sep);
    JoinFirst(xs, sep);
    TrimIdentityFirst(xs[0]);
    TrimIdentityFirst(xs[|xs| - 1]);
    TrimIdentity(line, IsJavaTrimChar);
  }

  /** A join starts with the first character of its first piece. */
  lemma JoinFirst(xs: seq<string>, sep: string)
    requires |xs| >= 1 && |xs[0]| > 0
    ensures |Join(xs, sep)| > 0 && Join(xs, sep)[0] == xs[0][0]
  {
    if |xs| > 1 {
      assert Join(xs, sep) == xs[0] + sep + Join(xs[1..], sep);
    }
  }

  /** A trimmed non-empty string has no trim character at either end. */
  lemma TrimIdentityFirst(x: string)
    requires x != "" && JavaTrim(x) == x
    ensures !IsJavaTrimChar(x[0]) && !IsJavaTrimChar(x[|x| - 1])
  {
    var t := TrimStart(x, IsJavaTrimChar);
    var r := TrimEnd(t, IsJavaTrimChar);
    assert r == x;
    assert |t| == |x|;
    assert t == x[0..];
  }

  /** The separator splitList picks for a join is the join's own, and the
      split gives back the entries. */
  lemma SplitListPieces(xs: seq<string>, sep: char, line: string)
    requires |xs| >= 1 && line == Join(xs, [sep])
    requires sep == ';' || sep == '|' || sep == ','
    requires forall k | 0 <= k < |xs| :: ListEntry(xs[k], ReadSeparator(xs, sep))
    ensures JavaSplit(line, [ListSeparator(line)]) == xs
  {
    if |xs| == 1 {
      assert ListEntry(xs[0], ',');
      SinglePiece(xs[0]);
    } else {
      SeveralPieces(xs, sep);
    }
  }

  /** One entry holding no separator splits to itself. */
  lemma SinglePiece(x: string)
    requires ListEntry(x, ',')
    ensures JavaSplit(x, [ListSeparator(x)]) == [x]
  {
    MissingMarker(x, [ListSeparator(x)], 0);
  }

  /** A join of two or more entries that fit sep splits back into the
      entries. */
  lemma SeveralPieces(xs: seq<string>, sep: char)
    requires |xs| >= 2
    requires sep == ';' || sep == '|' || sep == ','
    requires forall k | 0 <= k < |xs| :: ListEntry(xs[k], sep)
    ensures JavaSplit(Join(xs, [sep]), [ListSeparator(Join(xs, [sep]))]) == xs
  {
    var line := Join(xs, [sep]);
    JoinSeparator(xs, sep);
    JoinHoldsSeparator(xs, [sep]);
    assert Find(line, [sep]) >= 0;
    SplitJoin(xs, [sep], 0);
    assert ListEntry(xs[|xs| - 1], sep);
    assert DropTrailingEmpty(xs) == xs;
  }

  /** A join of two or more entries that fit sep is read back with sep. */
  lemma JoinSeparator(xs: seq<string>, sep: char)
    requires |xs| >= 2
    requires sep == ';' || sep == '|' || sep == ','
    requires forall k | 0 <= k < |xs| :: ListEntry(xs[k], sep)
    ensures ListSeparator(Join(xs, [sep])) == sep
    ensures forall k | 0 <= k < |xs| :: [sep][0] !in xs[k]
  {
    var line := Join(xs, [sep]);
    if sep != ';' {
      JoinLacks(xs, [sep], ';');
    }
    if sep == ',' {
      JoinLacks(xs, [sep], '|');
    }
    JoinHoldsSeparator(xs, [sep]);
    assert line[|xs[0]|] == sep;
  }
}
