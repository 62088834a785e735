/** String primitives of the Java and JavaScript standard libraries that the
    collaboration-graph code relies on (trim, blank tests, substring search,
    split, join, lower case), stated over Dafny strings.

    A Dafny string is a sequence of Unicode scalar values; UTF-16 surrogate
    pairs, which Java and JavaScript count as two units, are not modelled. */
module Text {

  // ---------------------------------------------------------------------
  // Character classes
  // ---------------------------------------------------------------------

  /** Characters removed by Java's String.trim(): every code point up to U+0020. */
  predicate IsJavaTrimChar(c: char) {
    c <= ' '
  }

  /** Java's Character.isWhitespace, the test behind String.isBlank(): the
      ASCII controls \t \n U+000B \f \r U+001C..U+001F, and the Unicode space,
      line and paragraph separators other than the no-break spaces. */
  predicate IsJavaWhitespace(c: char) {
    || ('\t' <= c <= '\r')
    || ('\U{1C}' <= c <= ' ')
    || c == '\U{1680}'
    || ('\U{2000}' <= c <= '\U{2006}')
    || ('\U{2008}' <= c <= '\U{200A}')
    || c == '\U{2028}' || c == '\U{2029}'
    || c == '\U{205F}' || c == '\U{3000}'
  }

  /** JavaScript's WhiteSpace and LineTerminator characters, which
      String.prototype.trim removes. */
  predicate IsJsWhitespace(c: char) {
    || ('\t' <= c <= '\r')
    || c == ' ' || c == '\U{A0}' || c == '\U{1680}'
    || ('\U{2000}' <= c <= '\U{200A}')
    || c == '\U{2028}' || c == '\U{2029}' || c == '\U{202F}'
    || c == '\U{205F}' || c == '\U{3000}' || c == '\U{FEFF}'
  }

  // ---------------------------------------------------------------------
  // Trimming and blank tests
  // ---------------------------------------------------------------------

  /** s without its longest prefix of characters in the class ws. */
  function TrimStart(s: string, ws: char -> bool): (r: string)
    ensures |r| <= |s| && r == s[|s| - |r|..]
    ensures forall i | 0 <= i < |s| - |r| :: ws(s[i])
    ensures |r| > 0 ==> !ws(r[0])
    decreases |s|
  {
    if |s| > 0 && ws(s[0]) then
      var r := TrimStart(s[1..], ws);
      assert forall i | 1 <= i < |s| - |r| :: s[i] == s[1..][i - 1];
      r
    else s
  }

  /** s without its longest suffix of characters in the class ws. */
  function TrimEnd(s: string, ws: char -> bool): (r: string)
    ensures |r| <= |s| && r == s[..|r|]
    ensures forall i | |r| <= i < |s| :: ws(s[i])
    ensures |r| > 0 ==> !ws(r[|r| - 1])
    decreases |s|
  {
    if |s| > 0 && ws(s[|s| - 1]) then
      var r := TrimEnd(s[..|s| - 1], ws);
      assert forall i | |r| <= i < |s| - 1 :: s[i] == s[..|s| - 1][i];
      r
    else s
  }

  function Trim(s: string, ws: char -> bool): string {
    TrimEnd(TrimStart(s, ws), ws)
  }

  /** Java's String.trim(). */
  function JavaTrim(s: string): string {
    Trim(s, IsJavaTrimChar)
  }

  /** JavaScript's String.prototype.trim(). */
  function JsTrim(s: string): string {
    Trim(s, IsJsWhitespace)
  }

  /** Java's String.isBlank(): empty or whitespace only. */
  predicate IsBlank(s: string) {
    forall i | 0 <= i < |s| :: IsJavaWhitespace(s[i])
  }

  /** A string whose ends carry no character of the class ws is its own trim. */
  lemma TrimIdentity(s: string, ws: char -> bool)
    requires |s| > 0 ==> !ws(s[0]) && !ws(s[|s| - 1])
    ensures Trim(s, ws) == s
  {
  }

  // ---------------------------------------------------------------------
  // Prefixes and substring search
  // ---------------------------------------------------------------------

  predicate StartsWith(s: string, prefix: string) {
    |prefix| <= |s| && s[..|prefix|] == prefix
  }

  /** pat occurs in s starting at index i. */
  predicate OccursAt(s: string, pat: string, i: int) {
    0 <= i && i + |pat| <= |s| && s[i..i + |pat|] == pat
  }

  lemma OccursShift(s: string, pat: string, i: int)
    requires 0 < |s| && 0 <= i
    ensures OccursAt(s, pat, i + 1) <==> OccursAt(s[1..], pat, i)
  {
    if i + 1 + |pat| <= |s| {
      assert s[1..][i..i + |pat|] == s[i + 1..i + 1 + |pat|];
    }
  }

  /** Index of the first occurrence of pat in s, or -1 (Java indexOf,
      JavaScript indexOf). */
  function Find(s: string, pat: string): (r: int)
    ensures -1 <= r <= |s|
    ensures r >= 0 ==> OccursAt(s, pat, r)
    ensures r >= 0 ==> forall i | 0 <= i < r :: !OccursAt(s, pat, i)
    ensures r < 0 ==> forall i | 0 <= i <= |s| :: !OccursAt(s, pat, i)
    decreases |s|
  {
    if StartsWith(s, pat) then
      assert s[0..|pat|] == s[..|pat|];
      0
    else if |s| == 0 then -1
    else
      assert !OccursAt(s, pat, 0) by {
        assert |pat| <= |s| ==> s[0..|pat|] == s[..|pat|];
      }
      var r := Find(s[1..], pat);
      assert forall i | 0 <= i < |s| :: OccursAt(s, pat, i + 1) == OccursAt(s[1..], pat, i) by {
        forall i | 0 <= i < |s| ensures OccursAt(s, pat, i + 1) == OccursAt(s[1..], pat, i) {
          OccursShift(s, pat, i);
        }
      }
      assert forall i | 1 <= i <= |s| :: OccursAt(s, pat, i) == OccursAt(s[1..], pat, i - 1) by {
        forall i | 1 <= i <= |s| ensures OccursAt(s, pat, i) == OccursAt(s[1..], pat, i - 1) {
          OccursShift(s, pat, i - 1);
        }
      }
      if r < 0 then -1 else r + 1
  }

  /** Java's String.contains / JavaScript's String.prototype.includes. */
  predicate Contains(s: string, pat: string) {
    Find(s, pat) >= 0
  }

  /** A pattern holding a character that s lacks does not occur in s. */
  lemma MissingMarker(s: string, pat: string, j: nat)
    requires j < |pat| && pat[j] !in s
    ensures Find(s, pat) < 0
  {
  }

  /** A one-character pattern that does not occur names a character s lacks. */
  lemma AbsentChar(s: string, c: char)
    requires Find(s, [c]) < 0
    ensures c !in s
  {
    forall i | 0 <= i < |s| ensures s[i] != c {
      assert !OccursAt(s, [c], i);
      assert s[i..i + 1] == [s[i]];
    }
  }

  // ---------------------------------------------------------------------
  // Split and join
  // ---------------------------------------------------------------------

  /** sep[j] occurs in sep at position j only: a "marker" that pins down where
      every occurrence of sep can start. */
  predicate IsMarker(sep: string, j: int) {
    0 <= j < |sep| && forall t | 0 <= t < |sep| && t != j :: sep[t] != sep[j]
  }

  function Join(xs: seq<string>, sep: string): string
  {
    if |xs| == 0 then ""
    else if |xs| == 1 then xs[0]
    else xs[0] + sep + Join(xs[1..], sep)
  }

  /** Every element followed by sep, as StringBuilder loops append
      "x," for each x. */
  function Terminated(xs: seq<string>, sep: string): string
  {
    if |xs| == 0 then "" else xs[0] + sep + Terminated(xs[1..], sep)
  }

  /** Splitting on every occurrence of sep, keeping empty pieces:
      JavaScript's split(sep) and Java's split(sep, -1). */
  function SplitAll(s: string, sep: string): (r: seq<string>)
    requires |sep| > 0
    ensures |r| >= 1
    ensures Join(r, sep) == s
    ensures forall k | 0 <= k < |r| :: Find(r[k], sep) < 0
    decreases |s|
  {
    var i := Find(s, sep);
    if i < 0 then [s]
    else
      var rest := SplitAll(s[i + |sep|..], sep);
      var head := s[..i];
      assert Find(head, sep) < 0 by {
        forall t | 0 <= t <= |head| ensures !OccursAt(head, sep, t) {
          if OccursAt(head, sep, t) {
            assert head[t..t + |sep|] == s[t..t + |sep|];
            assert OccursAt(s, sep, t);
          }
        }
      }
      assert s == head + sep + s[i + |sep|..];
      [head] + rest
  }

  /** prefix glued onto the first of a non-empty list of pieces. */
  function PrependTo(prefix: string, r: seq<string>): seq<string>
    requires |r| >= 1
  {
    [prefix + r[0]] + r[1..]
  }

  lemma PrependToTwice(a: string, b: string, r: seq<string>)
    requires |r| >= 1
    ensures PrependTo(a, PrependTo(b, r)) == PrependTo(a + b, r)
  {
    assert a + (b + r[0]) == (a + b) + r[0];
  }

  lemma PrependToEmpty(r: seq<string>)
    requires |r| >= 1
    ensures PrependTo("", r) == r
  {
    assert "" + r[0] == r[0];
  }

  /** Splitting on a one-character separator, read one character at a time:
      the separator starts a new piece, any other character extends the
      current one. */
  lemma SplitAllCons(c: char, t: string, sep: char)
    ensures c == sep ==> SplitAll([c] + t, [sep]) == [""] + SplitAll(t, [sep])
    ensures c != sep ==> SplitAll([c] + t, [sep]) == PrependTo([c], SplitAll(t, [sep]))
  {
    var s := [c] + t;
    assert s[1..] == t;
    if c == sep {
      assert StartsWith(s, [sep]);
      assert s[..0] == "";
    } else {
      assert !StartsWith(s, [sep]);
      var k := Find(t, [sep]);
      if k >= 0 {
        assert s[..k + 1] == [c] + t[..k];
        assert s[k + 2..] == t[k + 1..];
      }
    }
  }

  /** Java's split drops trailing empty pieces when the limit is zero. */
  function DropTrailingEmpty(xs: seq<string>): (r: seq<string>)
    ensures |r| <= |xs| && r == xs[..|r|]
    ensures |r| > 0 ==> r[|r| - 1] != ""
    ensures forall k | |r| <= k < |xs| :: xs[k] == ""
  {
    if |xs| > 0 && xs[|xs| - 1] == "" then DropTrailingEmpty(xs[..|xs| - 1]) else xs
  }

  /** Java's String.split(sep) for a one-character literal separator: the
      string itself when sep does not occur, otherwise every piece with the
      trailing empty ones dropped. */
  function JavaSplit(s: string, sep: string): seq<string>
    requires |sep| > 0
  {
    if Find(s, sep) < 0 then [s] else DropTrailingEmpty(SplitAll(s, sep))
  }

  /** The elements that are not the empty string, in order (JavaScript's
      filter(x => x) on strings). */
  function RemoveEmpty(xs: seq<string>): (r: seq<string>)
    ensures forall k | 0 <= k < |r| :: r[k] != "" && r[k] in xs
  {
    if |xs| == 0 then []
    else if xs[0] == "" then RemoveEmpty(xs[1..])
    else [xs[0]] + RemoveEmpty(xs[1..])
  }

  /** Where x lacks the marker, the first occurrence of sep in x + sep + rest
      is the one right after x. */
  lemma {:induction false} FindAfterPiece(x: string, sep: string, rest: string, j: int)
    requires IsMarker(sep, j) && sep[j] !in x
    ensures Find(x + sep + rest, sep) == |x|
  {
    var s := x + sep + rest;
    assert s[|x|..|x| + |sep|] == sep;
    assert OccursAt(s, sep, |x|);
  }

  /** Splitting a join recovers the pieces when no piece holds the
      separator's marker character. */
  lemma {:induction false} SplitJoin(xs: seq<string>, sep: string, j: int)
    requires |xs| >= 1 && IsMarker(sep, j)
    requires forall k | 0 <= k < |xs| :: sep[j] !in xs[k]
    ensures SplitAll(Join(xs, sep), sep) == xs
  {
    if |xs| == 1 {
      MissingMarker(xs[0], sep, j);
    } else {
      var rest := Join(xs[1..], sep);
      var s := xs[0] + sep + rest;
      assert Join(xs, sep) == s;
      FindAfterPiece(xs[0], sep, rest, j);
      assert s[|xs[0]| + |sep|..] == rest;
      assert s[..|xs[0]|] == xs[0];
      SplitJoin(xs[1..], sep, j);
      calc {
        SplitAll(s, sep);
        [s[..|xs[0]|]] + SplitAll(s[|xs[0]| + |sep|..], sep);
        [xs[0]] + xs[1..];
        xs;
      }
    }
  }

  lemma {:induction false} TerminatedIsJoin(xs: seq<string>, sep: string)
    ensures Terminated(xs, sep) == Join(xs + [""], sep)
  {
    if |xs| > 0 {
      TerminatedIsJoin(xs[1..], sep);
      assert (xs + [""])[1..] == xs[1..] + [""];
    }
  }

  lemma {:induction false} RemoveEmptyAppend(xs: seq<string>, ys: seq<string>)
    ensures RemoveEmpty(xs + ys) == RemoveEmpty(xs) + RemoveEmpty(ys)
  {
    if |xs| > 0 {
      assert (xs + ys)[1..] == xs[1..] + ys;
      RemoveEmptyAppend(xs[1..], ys);
    } else {
      assert xs + ys == ys;
    }
  }

  /** Splitting a separator-terminated list and dropping empty pieces
      recovers the list when its elements are non-empty and lack the marker. */
  lemma SplitTerminated(xs: seq<string>, sep: string, j: int)
    requires IsMarker(sep, j)
    requires forall k | 0 <= k < |xs| :: xs[k] != "" && sep[j] !in xs[k]
    ensures RemoveEmpty(SplitAll(Terminated(xs, sep), sep)) == xs
  {
    TerminatedIsJoin(xs, sep);
    SplitJoin(xs + [""], sep, j);
    RemoveEmptyAppend(xs, [""]);
    RemoveEmptyKeeps(xs);
  }

  lemma {:induction false} RemoveEmptyKeeps(xs: seq<string>)
    requires forall k | 0 <= k < |xs| :: xs[k] != ""
    ensures RemoveEmpty(xs) == xs
  {
    if |xs| > 0 {
      RemoveEmptyKeeps(xs[1..]);
    }
  }

  /** A character in no element and not in the separator is missing from
      the terminated list and from the join. */
  lemma {:induction false} TerminatedLacks(xs: seq<string>, sep: string, c: char)
    requires c !in sep && forall k | 0 <= k < |xs| :: c !in xs[k]
    ensures c !in Terminated(xs, sep)
  {
    if |xs| > 0 {
      TerminatedLacks(xs[1..], sep, c);
    }
  }

  lemma {:induction false} JoinLacks(xs: seq<string>, sep: string, c: char)
    requires c !in sep && forall k | 0 <= k < |xs| :: c !in xs[k]
    ensures c !in Join(xs, sep)
  {
    if |xs| > 1 {
      JoinLacks(xs[1..], sep, c);
    }
  }

  /** A join ends with the last character of its last piece. */
  lemma {:induction false} JoinLast(xs: seq<string>, sep: string)
    requires |xs| >= 1 && |xs[|xs| - 1]| > 0
    ensures |Join(xs, sep)| > 0
    ensures Join(xs, sep)[|Join(xs, sep)| - 1] == xs[|xs| - 1][|xs[|xs| - 1]| - 1]
  {
    if |xs| > 1 {
      JoinLast(xs[1..], sep);
      assert Join(xs, sep) == xs[0] + sep + Join(xs[1..], sep);
    }
  }

  // ---------------------------------------------------------------------
  // Case and order
  // ---------------------------------------------------------------------

  function AsciiLower(c: char): (r: char)
    ensures 'A' <= c <= 'Z' ==> r as int == c as int + 32
    ensures !('A' <= c <= 'Z') ==> r == c
  {
    if 'A' <= c <= 'Z' then (c as int + 32) as char else c
  }

  /** String.toLowerCase(), restricted to ASCII letters. */
  function Lower(s: string): (r: string)
    ensures |r| == |s|
    ensures forall i | 0 <= i < |s| :: r[i] == AsciiLower(s[i])
  {
    seq(|s|, i requires 0 <= i < |s| => AsciiLower(s[i]))
  }

  function Reverse<T>(s: seq<T>): (r: seq<T>)
    ensures |r| == |s|
    ensures forall i | 0 <= i < |s| :: r[i] == s[|s| - 1 - i]
  {
    if |s| == 0 then [] else Reverse(s[1..]) + [s[0]]
  }

  /** The first n elements of xs, or all of them when there are fewer. */
  function Take<T>(xs: seq<T>, n: int): (r: seq<T>)
    ensures |r| == (if n <= 0 then 0 else if |xs| <= n then |xs| else n)
    ensures r == xs[..|r|]
  {
    if n <= 0 then [] else if |xs| <= n then xs else xs[..n]
  }

  predicate NoDuplicates<T(==)>(s: seq<T>) {
    forall i, j | 0 <= i < j < |s| :: s[i] != s[j]
  }
}
