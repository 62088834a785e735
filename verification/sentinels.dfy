/** The plain-text answers the two path searches of Graph give instead of
    a path block, and the argument checks both searches make first. */
module Sentinels {
  import opened Text
  import opened Optional
  import opened CastGraph
  import opened PathBlock

  const InvalidIds := "Invalid IDs."
  const UnknownIds := "One or both IDs do not exist."
  const NoPath := "No path found."

  /** The answer given before any search (Graph.java:180-182 and 280-282):
      a blank id, an id without an adjacency list, or the same actor at
      both ends; None when the search has to run. */
  function Screen(g: Graph, startId: string, endId: string): (r: Option<string>)
    ensures r.None? <==> !IsBlank(startId) && !IsBlank(endId) && startId in g.adjacency && endId in g.adjacency && startId != endId
  {
    if IsBlank(startId) || IsBlank(endId) then Some(InvalidIds)
    else if startId !in g.adjacency || endId !in g.adjacency then Some(UnknownIds)
    else if startId == endId then Some(ActorName(g, startId))
    else None
  }

  /** A rendered path block starts with the start tag, so it is never one
      of the one-line answers. */
  lemma RenderIsNoSentinel(b: PathBlock)
    ensures Render(b) != NoPath && Render(b) != InvalidIds && Render(b) != UnknownIds
    ensures |Render(b)| > 0 && Render(b)[0] == 'S'
  {
    assert Render(b) == Lines(b)[0] + "\n" + Join(Lines(b)[1..], "\n");
    assert Render(b)[0] == 'S';
  }
}
