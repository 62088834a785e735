/** The two REST controllers that put the graph on the web: the shortest-path
    endpoint, which clamps the path limit and turns the graph's one-line
    answers into error bodies, and the name search over the graph's actors.
    CelebrityController and ActorController differ only in the wording of
    the missing-id message and in one prefix test of the classification. */
module Controllers {
  import opened Text
  import opened CastGraph
  import opened Walks
  import opened PathBlock
  import opened Sentinels
  import opened AllPaths

  // ---------------------------------------------------------------------
  // Shortest paths (CelebrityController.java:34-49, ActorController.java:34-47)
  // ---------------------------------------------------------------------

  /** Which controller answers. */
  datatype Api = CelebrityApi | ActorApi

  /** A 400 with an error body, a 200 with an error body, or a 200 with
      the list of path blocks. */
  datatype Response =
    | Rejected(error: string)
    | Failed(error: string)
    | Found(results: seq<string>)

  const LowestLimit := 1
  const HighestLimit := 5

  function MissingIds(api: Api): string {
    match api
    case CelebrityApi => "Please provide both celebrity IDs"
    case ActorApi => "Please provide both actor IDs"
  }

  /** Math.max(1, Math.min(5, max)): the requested number of paths, pulled
      into the range the endpoint serves. */
  function Clamp(max: int): (r: int)
    ensures LowestLimit <= r <= HighestLimit
    ensures LowestLimit <= max <= HighestLimit ==> r == max
    ensures max < LowestLimit ==> r == LowestLimit
    ensures max > HighestLimit ==> r == HighestLimit
  {
    if max < LowestLimit then LowestLimit
    else if max > HighestLimit then HighestLimit
    else max
  }

  /** The answer list is one line the controller reports as an error: the
      no-path answer, the unknown-id answer, and for the celebrity
      controller also anything starting with "Invalid". */
  predicate IsError(api: Api, results: seq<string>) {
    && |results| == 1
    && (|| results[0] == NoPath
        || StartsWith(results[0], "One or both")
        || (api == CelebrityApi && StartsWith(results[0], "Invalid")))
  }

  function Classify(api: Api, results: seq<string>): Response {
    if IsError(api, results) then Failed(results[0]) else Found(results)
  }

  /** A line starting with a letter other than I does not start with
      "Invalid"; one starting with a letter other than O does not start
      with "One or both". */
  lemma PrefixesByFirstLetter(s: string)
    requires |s| > 0
    ensures s[0] != 'I' ==> !StartsWith(s, "Invalid")
    ensures s[0] != 'O' ==> !StartsWith(s, "One or both")
  {
    if StartsWith(s, "Invalid") {
      assert s[0] == s[..7][0] == 'I';
    }
    if StartsWith(s, "One or both") {
      assert s[0] == s[..11][0] == 'O';
    }
  }

  /** The fixed answers of the graph start with the letters N and O. */
  lemma SentinelPrefixes()
    ensures StartsWith(UnknownIds, "One or both")
    ensures UnknownIds[0] == 'O' && NoPath[0] == 'N'
  {
    assert UnknownIds[..11] == "One or both";
  }

  /** A list of rendered path blocks is never classified as an error. */
  lemma RenderedIsNoError(api: Api, out: seq<string>, blocks: seq<PathBlock>)
    requires |out| >= 1 && |blocks| >= 1 && out[0] == Render(blocks[0])
    ensures !IsError(api, out)
  {
    RenderIsNoSentinel(blocks[0]);
    PrefixesByFirstLetter(out[0]);
  }

  /** findShortestPath of either controller. A blank id is refused with a
      400. Otherwise the graph's answer for the clamped limit is passed on,
      one-line errors as an error body: unknown ids as the unknown-id
      answer, and between two different actors the no-path answer exactly
      when the end cannot be reached, else between one and the clamped
      limit of blocks, each for a shortest walk. Only a query of one actor
      whose name starts with "Invalid" is classified differently by the
      two controllers. */
  method ShortestPath(api: Api, g: Graph, id1: string, id2: string, max: int)
    returns (resp: Response, ghost results: seq<string>, ghost paths: seq<seq<string>>)
    ensures IsBlank(id1) || IsBlank(id2) ==> resp == Rejected(MissingIds(api))
    ensures !IsBlank(id1) && !IsBlank(id2) ==> resp == Classify(api, results)
    ensures !IsBlank(id1) && !IsBlank(id2) && (id1 !in g.adjacency || id2 !in g.adjacency) ==>
              resp == Failed(UnknownIds)
    ensures !IsBlank(id1) && !IsBlank(id2) && id1 in g.adjacency && id1 == id2 ==>
              resp == Classify(api, [ActorName(g, id1)])
    ensures !IsBlank(id1) && !IsBlank(id2) && id1 in g.adjacency && id2 in g.adjacency && id1 != id2 ==>
              (resp == Failed(NoPath) <==> Unreachable(g, id1, id2))
    ensures !IsBlank(id1) && !IsBlank(id2) && id1 in g.adjacency && id2 in g.adjacency && id1 != id2
            && !Unreachable(g, id1, id2) ==>
              && resp.Found? && 1 <= |resp.results| <= Clamp(max)
              && |paths| == |resp.results|
              && forall p | p in paths :: IsShortestWalk(g, Reverse(p), id1, id2)
    ensures !IsBlank(id1) && !IsBlank(id2) && !(id1 == id2 && StartsWith(ActorName(g, id1), "Invalid")) ==>
              Classify(CelebrityApi, results) == Classify(ActorApi, results)
  {
    if IsBlank(id1) || IsBlank(id2) {
      return Rejected(MissingIds(api)), [], [];
    }
    var out;
    ghost var blocks;
    out, paths, blocks := FindAllShortestPaths(g, id1, id2, Clamp(max));
    results := out;
    resp := Classify(api, out);
    SentinelPrefixes();
    if Screen(g, id1, id2).None? {
      if out == [NoPath] {
        PrefixesByFirstLetter(NoPath);
      } else {
        RenderedIsNoError(CelebrityApi, out, blocks);
        RenderedIsNoError(ActorApi, out, blocks);
      }
    } else if id1 !in g.adjacency || id2 !in g.adjacency {
      PrefixesByFirstLetter(UnknownIds);
    }
  }

  // ---------------------------------------------------------------------
  // Name search (CelebrityController.java:53-76, ActorController.java:51-74)
  // ---------------------------------------------------------------------

  /** One search hit: an actor id and the actor's name. */
  datatype Hit = Hit(nconst: string, name: string)

  const MaxHits := 20

  /** order lists every key of names once: the iteration order of the
      graph's name map, which Java leaves unspecified. */
  predicate Listing(order: seq<string>, names: map<string, string>) {
    NoDuplicates(order) && (forall k | k in order :: k in names) && (forall k | k in names :: k in order)
  }

  /** The query as the search compares it: lower-cased, then trimmed. */
  function Query(q: string): string {
    JavaTrim(Lower(q))
  }

  predicate NameMatches(name: string, query: string) {
    Contains(Lower(name), query)
  }

  /** Every entry of order, in order, whose name contains the query. */
  function Matches(names: map<string, string>, order: seq<string>, query: string): seq<Hit>
    requires forall k | k in order :: k in names
  {
    if |order| == 0 then []
    else
      var last := order[|order| - 1];
      Matches(names, order[..|order| - 1], query)
        + (if NameMatches(names[last], query) then [Hit(last, names[last])] else [])
  }

  /** A hit is among the matches exactly when its id is listed, its name is
      the map's name for that id, and that name contains the query. */
  lemma {:induction false} MatchesMembers(names: map<string, string>, order: seq<string>, query: string, h: Hit)
    requires forall k | k in order :: k in names
    ensures h in Matches(names, order, query) <==>
              h.nconst in order && h.nconst in names && h.name == names[h.nconst] && NameMatches(h.name, query)
  {
    if |order| > 0 {
      var init := order[..|order| - 1];
      assert order == init + [order[|order| - 1]];
      MatchesMembers(names, init, query, h);
    }
  }

  /** The matches of a prefix of the order come first among the matches of
      the whole order. */
  lemma {:induction false} MatchesPrefix(names: map<string, string>, order: seq<string>, query: string, j: nat)
    requires forall k | k in order :: k in names
    requires j <= |order|
    ensures Matches(names, order[..j], query) <= Matches(names, order, query)
  {
    if j < |order| {
      var init := order[..|order| - 1];
      assert init[..j] == order[..j];
      MatchesPrefix(names, init, query, j);
    } else {
      assert order[..j] == order;
    }
  }

  /** The scan loop: entries are taken in order until twenty have matched. */
  method Collect(names: map<string, string>, order: seq<string>, query: string) returns (hits: seq<Hit>)
    requires forall k | k in order :: k in names
    ensures hits == Take(Matches(names, order, query), MaxHits)
  {
    hits := [];
    var i := 0;
    while i < |order|
      invariant 0 <= i <= |order|
      invariant hits == Matches(names, order[..i], query)
      invariant |hits| < MaxHits
    {
      var id := order[i];
      assert order[..i + 1][..i] == order[..i];
      if NameMatches(names[id], query) {
        hits := hits + [Hit(id, names[id])];
        if |hits| >= MaxHits {
          MatchesPrefix(names, order, query, i + 1);
          return;
        }
      }
      i := i + 1;
    }
    assert order[..i] == order;
  }

  /** searchCelebritiesGraph / searchActorsGraph. A blank query gives no
      hits; otherwise the hits are the first twenty entries, in the map's
      iteration order, whose lower-cased name contains the lower-cased and
      trimmed query. Each hit is a real entry of the name map, and when
      fewer than twenty come back every matching entry is among them. */
  method SearchByName(g: Graph, order: seq<string>, q: string) returns (hits: seq<Hit>)
    requires Listing(order, g.actorNames)
    ensures IsBlank(q) ==> hits == []
    ensures !IsBlank(q) ==> hits == Take(Matches(g.actorNames, order, Query(q)), MaxHits)
    ensures |hits| <= MaxHits
    ensures forall h | h in hits ::
              h.nconst in g.actorNames && h.name == g.actorNames[h.nconst] && NameMatches(h.name, Query(q))
    ensures !IsBlank(q) && |hits| < MaxHits ==>
              forall id | id in g.actorNames && NameMatches(g.actorNames[id], Query(q)) ::
                Hit(id, g.actorNames[id]) in hits
  {
    if IsBlank(q) {
      return [];
    }
    var query := Query(q);
    hits := Collect(g.actorNames, order, query);
    HitsAreMatches(g.actorNames, order, query, hits);
  }

  /** What a prefix of the matches says about the name map. */
  lemma HitsAreMatches(names: map<string, string>, order: seq<string>, query: string, hits: seq<Hit>)
    requires forall k | k in order :: k in names
    requires forall k | k in names :: k in order
    requires hits == Take(Matches(names, order, query), MaxHits)
    ensures forall h | h in hits :: h.nconst in names && h.name == names[h.nconst] && NameMatches(h.name, query)
    ensures |hits| < MaxHits ==>
              forall id | id in names && NameMatches(names[id], query) :: Hit(id, names[id]) in hits
  {
    var all := Matches(names, order, query);
    forall h | h in hits
      ensures h.nconst in names && h.name == names[h.nconst] && NameMatches(h.name, query)
    {
      assert h in all;
      MatchesMembers(names, order, query, h);
    }
    if |hits| < MaxHits {
      assert hits == all;
      forall id | id in names && NameMatches(names[id], query)
        ensures Hit(id, names[id]) in hits
      {
        MatchesMembers(names, order, query, Hit(id, names[id]));
      }
    }
  }
}
