/** parseResult of the front end's PathResult component: reads one text
    block back into the four lists the page shows, turning them around when
    the ids run from the end actor to the start actor. */
module PathResult {
  import opened Text
  import opened Optional
  import opened PathBlock

  /** The object parseResult returns. */
  datatype Parsed = Parsed(actors: seq<string>, movies: seq<string>, actorIds: seq<string>, movieIds: seq<string>)

  /** Array.prototype.find over the lines with a startsWith test. */
  function FindLine(lines: seq<string>, prefix: string): (r: Option<string>)
    ensures r.Some? ==> r.value in lines && StartsWith(r.value, prefix)
    ensures r.Some? ==> exists k | 0 <= k < |lines| ::
              (lines[k] == r.value && forall i | 0 <= i < k :: !StartsWith(lines[i], prefix))
    ensures r.None? <==> forall k | 0 <= k < |lines| :: !StartsWith(lines[k], prefix)
  {
    if |lines| == 0 then None
    else if StartsWith(lines[0], prefix) then Some(lines[0])
    else
      var r := FindLine(lines[1..], prefix);
      if r.Some? then
        var k :| 0 <= k < |lines| - 1 && lines[1..][k] == r.value &&
                 forall i | 0 <= i < k :: !StartsWith(lines[1..][i], prefix);
        assert lines[k + 1] == r.value;
        assert forall i | 0 <= i < k + 1 :: !StartsWith(lines[i], prefix) by {
          forall i | 0 <= i < k + 1 ensures !StartsWith(lines[i], prefix) {
            if i > 0 {
              assert lines[i] == lines[1..][i - 1];
            }
          }
        }
        r
      else
        assert forall k | 0 <= k < |lines| :: !StartsWith(lines[k], prefix) by {
          forall k | 0 <= k < |lines| ensures !StartsWith(lines[k], prefix) {
            if k > 0 {
              assert lines[k] == lines[1..][k - 1];
            }
          }
        }
        r
  }

  /** A line that carries one of the two endpoint tags. */
  predicate IsEndpointLine(line: string) {
    StartsWith(line, StartTag) || StartsWith(line, EndTag)
  }

  /** The first line that is not an endpoint line, or "" when there is none. */
  function FirstContentLine(lines: seq<string>): (r: string)
    ensures r == "" || (r in lines && !IsEndpointLine(r))
    ensures (forall k | 0 <= k < |lines| :: IsEndpointLine(lines[k])) ==> r == ""
  {
    if |lines| == 0 then ""
    else if !IsEndpointLine(lines[0]) then lines[0]
    else FirstContentLine(lines[1..])
  }

  /** The comma list after a tag: split(",") and filter(x => x); empty when
      no line carries the tag. */
  function TaggedList(lines: seq<string>, tag: string): seq<string> {
    match FindLine(lines, tag)
    case None => []
    case Some(line) => RemoveEmpty(SplitAll(line[|tag|..], ","))
  }

  /** The start id, trimmed; None when no line carries the tag. */
  function StartIdOf(lines: seq<string>): Option<string> {
    match FindLine(lines, StartTag)
    case None => None
    case Some(line) => Some(JsTrim(line[|StartTag|..]))
  }

  /** The lists turn around when the start id is a non-empty string and the
      first actor id differs from it. */
  predicate Flips(startId: Option<string>, actorIds: seq<string>) {
    startId.Some? && startId.value != "" && |actorIds| > 0 && actorIds[0] != startId.value
  }

  /** parseResult (PathResult.js:4-37); None for fewer than two lines. */
  function ParseResult(result: string): Option<Parsed> {
    var lines := SplitAll(JsTrim(result), "\n");
    if |lines| < 2 then None
    else
      var startId := StartIdOf(lines);
      var actorIds := TaggedList(lines, ActorIdsTag);
      var movieIds := TaggedList(lines, MovieIdsTag);
      var movies := TaggedList(lines, TitlesTag);
      var actors := SplitAll(FirstContentLine(lines), Arrow);
      if Flips(startId, actorIds) then
        Some(Parsed(Reverse(actors), Reverse(movies), Reverse(actorIds), Reverse(movieIds)))
      else
        Some(Parsed(actors, movies, actorIds, movieIds))
  }

  // ---------------------------------------------------------------------
  // Single-line texts
  // ---------------------------------------------------------------------

  lemma {:induction false} NewlineOccurs(s: string)
    ensures Find(s, "\n") < 0 <==> '\n' !in s
  {
    forall i | 0 <= i < |s| && s[i] == '\n' ensures OccursAt(s, "\n", i) {
      assert s[i..i + 1] == [s[i]];
    }
    forall i | 0 <= i <= |s| && OccursAt(s, "\n", i) ensures '\n' in s {
      assert s[i..i + 1][0] == s[i];
    }
  }

  /** The page shows no path exactly for texts that are a single line once
      trimmed, such as the search's sentinel messages and a lone name. */
  lemma NoPathIffOneLine(result: string)
    ensures ParseResult(result).None? <==> '\n' !in JsTrim(result)
  {
    NewlineOccurs(JsTrim(result));
  }

  // ---------------------------------------------------------------------
  // Reading a rendered block back
  // ---------------------------------------------------------------------

  /** A line carrying any of the five tags. */
  predicate IsTagged(line: string) {
    || StartsWith(line, StartTag) || StartsWith(line, EndTag)
    || StartsWith(line, ActorIdsTag) || StartsWith(line, MovieIdsTag) || StartsWith(line, TitlesTag)
  }

  /** Entries that survive a comma split: non-empty, no comma, no newline. */
  predicate IsListEntry(x: string) {
    x != "" && ',' !in x && '\n' !in x
  }

  /** No field of a block holds a newline, so each of its six lines stays
      one line. */
  predicate OneLinePerField(b: PathBlock) {
    && '\n' !in b.startId && '\n' !in b.endId
    && (forall k | 0 <= k < |b.names| :: '\n' !in b.names[k])
    && (forall k | 0 <= k < |b.actorIds| :: '\n' !in b.actorIds[k])
    && (forall k | 0 <= k < |b.movieIds| :: '\n' !in b.movieIds[k])
    && (forall k | 0 <= k < |b.titles| :: '\n' !in b.titles[k])
  }

  /** What a block must satisfy for the page to read all of it back: one
      line per field, the start id already trimmed, names that cannot be
      mistaken for a tag or an arrow, and list entries that survive a comma
      split. */
  predicate Readable(b: PathBlock) {
    && OneLinePerField(b)
    && JsTrim(b.startId) == b.startId
    && |b.names| >= 1
    && (forall k | 0 <= k < |b.names| :: '>' !in b.names[k])
    && !IsTagged(Join(b.names, Arrow))
    && (forall k | 0 <= k < |b.actorIds| :: IsListEntry(b.actorIds[k]))
    && (forall k | 0 <= k < |b.movieIds| :: IsListEntry(b.movieIds[k]))
    && (forall k | 0 <= k < |b.titles| :: IsListEntry(b.titles[k]))
  }

  /** The lists of a block as the page orders them. */
  function Oriented(b: PathBlock): Parsed {
    if b.startId != "" && |b.actorIds| > 0 && b.actorIds[0] != b.startId then
      Parsed(Reverse(b.names), Reverse(b.titles), Reverse(b.actorIds), Reverse(b.movieIds))
    else
      Parsed(b.names, b.titles, b.actorIds, b.movieIds)
  }

  lemma StartsWithConcat(p: string, x: string)
    ensures StartsWith(p + x, p)
  {
    assert (p + x)[..|p|] == p;
  }

  lemma NotStartsWith(p: string, x: string, q: string, i: nat)
    requires i < |p| && i < |q| && p[i] != q[i]
    ensures !StartsWith(p + x, q)
  {
    if |q| <= |p + x| {
      assert (p + x)[..|q|][i] == p[i];
    }
  }

  /** No line of a readable block holds a newline. */
  lemma LinesLackNewline(b: PathBlock)
    requires OneLinePerField(b)
    ensures forall k | 0 <= k < |Lines(b)| :: '\n' !in Lines(b)[k]
  {
    TerminatedLacks(b.actorIds, ",", '\n');
    TerminatedLacks(b.movieIds, ",", '\n');
    TerminatedLacks(b.titles, ",", '\n');
    JoinLacks(b.names, Arrow, '\n');
  }

  /** A block starts with 'S' and ends with ',' or ':', so trimming leaves
      it alone. */
  lemma RenderIsTrimmed(b: PathBlock)
    ensures JsTrim(Render(b)) == Render(b)
  {
    var ls := Lines(b);
    var last := ls[5];
    assert last[|last| - 1] == ',' || last[|last| - 1] == ':' by {
      if |b.titles| == 0 {
        assert last == TitlesTag;
      } else {
        TerminatedEnds(b.titles, ",");
        assert last[|last| - 1] == Terminated(b.titles, ",")[|Terminated(b.titles, ",")| - 1];
      }
    }
    JoinLast(ls, "\n");
    assert Render(b) == ls[0] + "\n" + Join(ls[1..], "\n");
    assert Render(b)[0] == 'S';
    TrimIdentity(Render(b), IsJsWhitespace);
  }

  /** Splitting a block on newlines gives its six lines. */
  lemma RenderedLines(b: PathBlock)
    requires OneLinePerField(b)
    ensures SplitAll(JsTrim(Render(b)), "\n") == Lines(b)
  {
    LinesLackNewline(b);
    SplitJoin(Lines(b), "\n", 0);
    RenderIsTrimmed(b);
  }

  lemma {:induction false} TerminatedEnds(xs: seq<string>, sep: string)
    requires |xs| > 0 && |sep| > 0
    ensures |Terminated(xs, sep)| > 0
    ensures Terminated(xs, sep)[|Terminated(xs, sep)| - 1] == sep[|sep| - 1]
  {
    if |xs| > 1 {
      TerminatedEnds(xs[1..], sep);
    }
  }

  lemma {:induction false} FindLineAt(lines: seq<string>, prefix: string, k: nat)
    requires k < |lines| && StartsWith(lines[k], prefix)
    requires forall i | 0 <= i < k :: !StartsWith(lines[i], prefix)
    ensures FindLine(lines, prefix) == Some(lines[k])
  {
    if k > 0 {
      FindLineAt(lines[1..], prefix, k - 1);
    }
  }

  /** Which tag each line of a block carries. */
  lemma LineTags(b: PathBlock)
    ensures StartsWith(Lines(b)[0], StartTag) && StartsWith(Lines(b)[1], EndTag)
    ensures StartsWith(Lines(b)[3], ActorIdsTag) && StartsWith(Lines(b)[4], MovieIdsTag)
    ensures StartsWith(Lines(b)[5], TitlesTag)
    ensures !StartsWith(Lines(b)[0], ActorIdsTag) && !StartsWith(Lines(b)[0], MovieIdsTag)
    ensures !StartsWith(Lines(b)[0], TitlesTag)
    ensures !StartsWith(Lines(b)[1], StartTag) && !StartsWith(Lines(b)[1], ActorIdsTag)
    ensures !StartsWith(Lines(b)[1], MovieIdsTag) && !StartsWith(Lines(b)[1], TitlesTag)
    ensures !StartsWith(Lines(b)[3], MovieIdsTag) && !StartsWith(Lines(b)[3], TitlesTag)
    ensures !StartsWith(Lines(b)[4], TitlesTag)
  {
    StartsWithConcat(StartTag, b.startId);
    StartsWithConcat(EndTag, b.endId);
    StartsWithConcat(ActorIdsTag, Terminated(b.actorIds, ","));
    StartsWithConcat(MovieIdsTag, Terminated(b.movieIds, ","));
    StartsWithConcat(TitlesTag, Terminated(b.titles, ","));
    // The tags differ in their first character, except MOVIE_IDS: and
    // MOVIE_TITLES:, which differ in their seventh.
    NotStartsWith(StartTag, b.startId, ActorIdsTag, 0);
    NotStartsWith(StartTag, b.startId, MovieIdsTag, 0);
    NotStartsWith(StartTag, b.startId, TitlesTag, 0);
    NotStartsWith(EndTag, b.endId, StartTag, 0);
    NotStartsWith(EndTag, b.endId, ActorIdsTag, 0);
    NotStartsWith(EndTag, b.endId, MovieIdsTag, 0);
    NotStartsWith(EndTag, b.endId, TitlesTag, 0);
    NotStartsWith(ActorIdsTag, Terminated(b.actorIds, ","), MovieIdsTag, 0);
    NotStartsWith(ActorIdsTag, Terminated(b.actorIds, ","), TitlesTag, 0);
    NotStartsWith(MovieIdsTag, Terminated(b.movieIds, ","), TitlesTag, 6);
  }

  /** The line of a block that carries tag (one of the four that the page
      looks up) is the first that does, unless the names line before it
      carries the tag too. */
  lemma TagFound(b: PathBlock, tag: string, k: nat)
    requires k == 0 || !StartsWith(Lines(b)[2], tag)
    requires (tag, k) in [(StartTag, 0), (ActorIdsTag, 3), (MovieIdsTag, 4), (TitlesTag, 5)]
    ensures FindLine(Lines(b), tag) == Some(Lines(b)[k])
  {
    LineTags(b);
    FindLineAt(Lines(b), tag, k);
  }

  /** The names line is the first line without an endpoint tag. */
  lemma ContentLineFound(b: PathBlock)
    requires !IsTagged(Lines(b)[2])
    ensures FirstContentLine(Lines(b)) == Lines(b)[2]
  {
    var ls := Lines(b);
    LineTags(b);
    assert IsEndpointLine(ls[0]);
    assert FirstContentLine(ls) == FirstContentLine(ls[1..]);
    assert IsEndpointLine(ls[1..][0]);
    assert FirstContentLine(ls[1..]) == FirstContentLine(ls[1..][1..]);
    assert ls[1..][1..][0] == ls[2];
  }

  /** The start id and the actor ids of a block read back whatever its
      names, movie ids and titles hold, as long as every field stays on one
      line, the ids survive a comma split and the names line does not pose
      as the ids line. The start id comes back trimmed. */
  lemma IdsRead(b: PathBlock)
    requires OneLinePerField(b)
    requires !StartsWith(Join(b.names, Arrow), ActorIdsTag)
    requires forall k | 0 <= k < |b.actorIds| :: IsListEntry(b.actorIds[k])
    ensures SplitAll(JsTrim(Render(b)), "\n") == Lines(b)
    ensures StartIdOf(Lines(b)) == Some(JsTrim(b.startId))
    ensures TaggedList(Lines(b), ActorIdsTag) == b.actorIds
    ensures ParseResult(Render(b)).Some?
    ensures ParseResult(Render(b)).value.actorIds ==
              if Flips(Some(JsTrim(b.startId)), b.actorIds) then Reverse(b.actorIds) else b.actorIds
  {
    RenderedLines(b);
    TagFound(b, StartTag, 0);
    assert (StartTag + b.startId)[|StartTag|..] == b.startId;
    TagFound(b, ActorIdsTag, 3);
    ListRead(Lines(b), ActorIdsTag, b.actorIds);
  }

  /** A comma-terminated list behind its tag reads back unchanged. */
  lemma ListRead(lines: seq<string>, tag: string, xs: seq<string>)
    requires FindLine(lines, tag) == Some(tag + Terminated(xs, ","))
    requires forall i | 0 <= i < |xs| :: IsListEntry(xs[i])
    ensures TaggedList(lines, tag) == xs
  {
    assert (tag + Terminated(xs, ","))[|tag|..] == Terminated(xs, ",");
    SplitTerminated(xs, ",", 0);
  }

  /** Each comma list of a readable block reads back unchanged. */
  lemma ListsRead(b: PathBlock)
    requires Readable(b)
    ensures TaggedList(Lines(b), ActorIdsTag) == b.actorIds
    ensures TaggedList(Lines(b), MovieIdsTag) == b.movieIds
    ensures TaggedList(Lines(b), TitlesTag) == b.titles
  {
    TagFound(b, ActorIdsTag, 3);
    TagFound(b, MovieIdsTag, 4);
    TagFound(b, TitlesTag, 5);
    ListRead(Lines(b), ActorIdsTag, b.actorIds);
    ListRead(Lines(b), MovieIdsTag, b.movieIds);
    ListRead(Lines(b), TitlesTag, b.titles);
  }

  /** The names line of a readable block reads back as its names. */
  lemma NamesRead(b: PathBlock)
    requires Readable(b)
    ensures SplitAll(FirstContentLine(Lines(b)), Arrow) == b.names
  {
    ContentLineFound(b);
    SplitJoin(b.names, Arrow, 2);
  }

  /** A rendered block reads back as its own lists, turned around exactly
      when its first actor id is not its (non-empty) start id. */
  lemma ParseRendered(b: PathBlock)
    requires Readable(b)
    ensures ParseResult(Render(b)) == Some(Oriented(b))
  {
    IdsRead(b);
    ListsRead(b);
    NamesRead(b);
  }

  /** A title holding a comma reads back as two titles: the page sees one
      more title than the block has hops, so its titles no longer line up
      with its movie ids. */
  lemma CommaTitleSplits(b: PathBlock, k: nat, x: string, y: string)
    requires k < |b.titles|
    requires Readable(b.(titles := b.titles[..k] + [x, y] + b.titles[k + 1..]))
    ensures ParseResult(Render(b.(titles := b.titles[k := x + "," + y]))) ==
              Some(Oriented(b.(titles := b.titles[..k] + [x, y] + b.titles[k + 1..])))
    ensures |ParseResult(Render(b.(titles := b.titles[k := x + "," + y]))).value.movies| == |b.titles| + 1
  {
    var split := b.(titles := b.titles[..k] + [x, y] + b.titles[k + 1..]);
    TerminatedSplitEntry(b.titles, k, x, y);
    assert Lines(b.(titles := b.titles[k := x + "," + y])) == Lines(split);
    ParseRendered(split);
  }

  /** Writing x + "," + y at position k of a comma-terminated list gives
      the same text as writing x and y as two entries. */
  lemma {:induction false} TerminatedSplitEntry(ts: seq<string>, k: nat, x: string, y: string)
    requires k < |ts|
    ensures Terminated(ts[k := x + "," + y], ",") == Terminated(ts[..k] + [x, y] + ts[k + 1..], ",")
    decreases k
  {
    var joined := ts[k := x + "," + y];
    var split := ts[..k] + [x, y] + ts[k + 1..];
    if k == 0 {
      assert joined == [x + "," + y] + ts[1..];
      assert split[1..] == [y] + ts[1..] && split[1..][1..] == ts[1..];
      assert joined[1..] == ts[1..];
    } else {
      TerminatedSplitEntry(ts[1..], k - 1, x, y);
      assert joined[0] == ts[0] && joined[1..] == ts[1..][k - 1 := x + "," + y];
      assert split[0] == ts[0] && split[1..] == ts[1..][..k - 1] + [x, y] + ts[1..][k..];
    }
  }
}
