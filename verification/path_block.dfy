/** Graph.formatPathFromNodeList: the six-line text block the backend
    sends for one path, and the lookups that fill it. */
module PathBlock {
  import opened Text
  import opened Optional
  import opened CastRows
  import opened CastGraph

  /** The content of one block. */
  datatype PathBlock = PathBlock(
    startId: string,
    endId: string,
    names: seq<string>,
    actorIds: seq<string>,
    movieIds: seq<string>,
    titles: seq<string>)

  const StartTag := "START_ID:"
  const EndTag := "END_ID:"
  const ActorIdsTag := "ACTOR_IDS:"
  const MovieIdsTag := "MOVIE_IDS:"
  const TitlesTag := "MOVIE_TITLES:"
  const Arrow := " -> "

  /** The six lines of a block: the endpoints, the names joined by arrows,
      then the three comma-terminated lists. */
  function Lines(b: PathBlock): seq<string> {
    [StartTag + b.startId, EndTag + b.endId, Join(b.names, Arrow),
     ActorIdsTag + Terminated(b.actorIds, ","), MovieIdsTag + Terminated(b.movieIds, ","),
     TitlesTag + Terminated(b.titles, ",")]
  }

  /** The block as text: its lines separated by newlines, with no newline
      after the last. */
  function Render(b: PathBlock): string {
    Join(Lines(b), "\n")
  }

  /** The movie id and title the formatter writes for the hop from a to b:
      a movie both are in, with its title (or its id when it has none), or
      the two fallbacks when they share no movie. */
  ghost predicate DescribesHop(g: Graph, a: string, b: string, movieId: string, title: string) {
    && (SharesMovie(g, a, b) ==>
          Holds(g.actorMovies, a, movieId) && Holds(g.actorMovies, b, movieId)
          && title == (if movieId in g.movieTitles then g.movieTitles[movieId] else movieId))
    && (!SharesMovie(g, a, b) ==> movieId == "unknown" && title == "Unknown Title")
  }

  /** b is a block for path between startId and endId on g: the ids in
      order, each actor's name, and one hop entry between neighbours. */
  ghost predicate Describes(g: Graph, b: PathBlock, path: seq<string>, startId: string, endId: string) {
    && b.startId == startId && b.endId == endId
    && b.actorIds == path
    && |b.names| == |path|
    && (forall i | 0 <= i < |path| :: b.names[i] == ActorName(g, path[i]))
    && |b.movieIds| == |b.titles| == (if |path| == 0 then 0 else |path| - 1)
    && (forall i | 0 <= i < |path| - 1 :: DescribesHop(g, path[i], path[i + 1], b.movieIds[i], b.titles[i]))
  }

  /** formatPathFromNodeList (Graph.java:350-393). */
  method FormatPath(g: Graph, path: seq<string>, startId: string, endId: string) returns (text: string, b: PathBlock)
    ensures Describes(g, b, path, startId, endId)
    ensures text == Render(b)
  {
    var names := seq(|path|, i requires 0 <= i < |path| => ActorName(g, path[i]));
    var movieIds: seq<string> := [];
    var titles: seq<string> := [];
    var i := 0;
    while i + 1 < |path|
      invariant 0 <= i && (|path| == 0 ==> i == 0) && (|path| > 0 ==> i <= |path| - 1)
      invariant |movieIds| == |titles| == i
      invariant forall k | 0 <= k < i :: DescribesHop(g, path[k], path[k + 1], movieIds[k], titles[k])
    {
      var t := SharedMovie(g, path[i], path[i + 1]);
      movieIds := movieIds + [MovieIdOf(t)];
      titles := titles + [TitleOf(g, t)];
      i := i + 1;
    }
    b := PathBlock(startId, endId, names, path, movieIds, titles);
    text := Render(b);
  }

  /** On a graph built from a cast file, a block for a walk never shows the
      fallbacks: every hop names a movie of both actors under that movie's
      recorded title, and every actor has a name. */
  lemma WalkBlockHasNoFallbacks(g: Graph, b: PathBlock, path: seq<string>, s: string, e: string)
    requires WellFormed(g) && Describes(g, b, path, s, e)
    requires forall k | 0 <= k < |path| - 1 :: Adjacent(g, path[k], path[k + 1])
    requires |path| >= 2
    ensures forall k | 0 <= k < |path| - 1 ::
              Holds(g.actorMovies, path[k], b.movieIds[k]) && Holds(g.actorMovies, path[k + 1], b.movieIds[k])
    ensures forall k | 0 <= k < |path| - 1 ::
              b.movieIds[k] in g.movieTitles && b.titles[k] == g.movieTitles[b.movieIds[k]]
    ensures forall k | 0 <= k < |path| :: path[k] in g.actorNames && b.names[k] == g.actorNames[path[k]]
  {
    forall k | 0 <= k < |path| - 1
      ensures Holds(g.actorMovies, path[k], b.movieIds[k]) && Holds(g.actorMovies, path[k + 1], b.movieIds[k])
      ensures b.movieIds[k] in g.movieTitles && b.titles[k] == g.movieTitles[b.movieIds[k]]
    {
      NeighboursShareMovie(g, path[k], path[k + 1]);
      assert DescribesHop(g, path[k], path[k + 1], b.movieIds[k], b.titles[k]);
    }
    forall k | 0 <= k < |path| ensures path[k] in g.actorNames {
      if k < |path| - 1 {
        NeighboursShareMovie(g, path[k], path[k + 1]);
      } else {
        NeighboursShareMovie(g, path[k - 1], path[k]);
      }
    }
  }
}
