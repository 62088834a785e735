/** Graph.findShortestPath: a breadth-first search from both ends at once,
    one level at a time, the smaller frontier first, stopping at the first
    polled actor the other side has already seen; the path is read off the
    two parent maps. */
module Bidirectional {
  import opened Text
  import opened Optional
  import opened CastGraph
  import opened Walks
  import opened Bfs
  import opened PathBlock
  import opened Sentinels

  /** One direction of the search: its queue, the actors it has seen and
      the parent through which each was first seen (the root has none). */
  datatype Side = Side(queue: seq<string>, visited: set<string>, parent: map<string, string>)

  /** Every actor appears in both directions of the adjacency relation, as
      in a graph built from a cast file. */
  ghost predicate Symmetric(g: Graph) {
    forall a, b | Adjacent(g, a, b) :: Adjacent(g, b, a)
  }

  /** The parent map is a tree of adjacency steps hanging from root, with
      depth counting the steps. */
  ghost predicate Tree(g: Graph, root: string, visited: set<string>, parent: map<string, string>, depth: map<string, int>) {
    && root in visited && root !in parent
    && depth.Keys == visited && depth[root] == 0
    && (forall x | x in visited :: depth[x] >= 0 && (x == root || x in parent))
    && (forall x | x in parent ::
          x in visited && x != root && parent[x] in visited && depth[parent[x]] + 1 == depth[x] && Adjacent(g, parent[x], x))
  }

  /** Every seen actor that has left the queue has all its neighbours
      seen. */
  ghost predicate Expanded(g: Graph, visited: set<string>, queue: seq<string>) {
    forall x, y | x in visited && x !in queue && Adjacent(g, x, y) :: y in visited
  }

  /** What holds of one side between levels: a tree, a queue of seen actors,
      everything else expanded, and the far end, if seen, still queued
      (polling it would have ended the search). */
  ghost predicate SideInv(g: Graph, root: string, target: string, side: Side, depth: map<string, int>) {
    && Tree(g, root, side.visited, side.parent, depth)
    && (forall x | x in side.queue :: x in side.visited)
    && Expanded(g, side.visited, side.queue)
    && (target in side.visited ==> target in side.queue)
  }

  // ---------------------------------------------------------------------
  // One level
  // ---------------------------------------------------------------------

  /** Within a level, after i polls: the queue is the rest of the level and
      the actors added so far, each newly seen with a parent; the polled
      actors are expanded and none was the far end. */
  ghost predicate LevelInv(g: Graph, root: string, target: string, side0: Side, i: int,
                           side: Side, added: seq<string>, depth: map<string, int>) {
    && 0 <= i <= |side0.queue|
    && side.queue == side0.queue[i..] + added
    && Tree(g, root, side.visited, side.parent, depth)
    && side0.visited <= side.visited
    && (forall x | x in side.visited :: x in side0.visited || x in added)
    && (forall k | 0 <= k < |added| :: added[k] !in side0.visited && added[k] in side.visited)
    && (forall x | x in side.queue :: x in side.visited)
    && Expanded(g, side.visited, side.queue)
    && target !in side0.queue[..i]
    && (target in side.visited ==> target in side.queue)
  }

  lemma LevelStart(g: Graph, root: string, target: string, side: Side, depth: map<string, int>)
    requires SideInv(g, root, target, side, depth)
    ensures LevelInv(g, root, target, side, 0, side, [], depth)
  {
    assert side.queue[0..] + [] == side.queue;
  }

  /** Polling an actor without an adjacency list. */
  lemma LevelSkip(g: Graph, root: string, target: string, side0: Side, i: int,
                  side: Side, added: seq<string>, depth: map<string, int>)
    requires LevelInv(g, root, target, side0, i, side, added, depth)
    requires i < |side0.queue| && side.queue[0] != target && side.queue[0] !in g.adjacency
    ensures LevelInv(g, root, target, side0, i + 1, side.(queue := side.queue[1..]), added, depth)
  {
    assert side.queue[0] == side0.queue[i];
    assert side.queue[1..] == side0.queue[i + 1..] + added;
    assert side0.queue[..i + 1] == side0.queue[..i] + [side0.queue[i]];
  }

  /** The neighbour loop of expandLevel (Graph.java:246-251): each neighbour
      not seen yet is marked seen, gets cur as its parent and joins the
      queue. */
  method AddNeighbours(g: Graph, ghost root: string, cur: string, side: Side, ghost depth: map<string, int>)
    returns (side': Side, ghost depth': map<string, int>, ghost newly: seq<string>)
    requires cur in g.adjacency && cur in side.visited
    requires Tree(g, root, side.visited, side.parent, depth)
    ensures Tree(g, root, side'.visited, side'.parent, depth')
    ensures side'.queue == side.queue + newly
    ensures side.visited <= side'.visited
    ensures forall x | x in side'.visited :: x in side.visited || x in newly
    ensures forall k | 0 <= k < |newly| :: newly[k] !in side.visited && newly[k] in side'.visited
    ensures forall y | Adjacent(g, cur, y) :: y in side'.visited
    ensures forall k | 0 <= k < |newly| :: newly[k] in g.adjacency[cur]
  {
    var nbrs := g.adjacency[cur];
    side', depth', newly := side, depth, [];
    for j := 0 to |nbrs|
      invariant Tree(g, root, side'.visited, side'.parent, depth')
      invariant side'.queue == side.queue + newly
      invariant side.visited <= side'.visited
      invariant forall x | x in side'.visited :: x in side.visited || x in newly
      invariant forall k | 0 <= k < |newly| :: newly[k] !in side.visited && newly[k] in side'.visited
      invariant forall k | 0 <= k < j :: nbrs[k] in side'.visited
      invariant forall k | 0 <= k < |newly| :: newly[k] in nbrs
    {
      var n := nbrs[j];
      if n !in side'.visited {
        TreeGrow(g, root, side'.visited, side'.parent, depth', cur, n);
        side' := Side(side'.queue + [n], side'.visited + {n}, side'.parent[n := cur]);
        depth' := depth'[n := depth'[cur] + 1];
        newly := newly + [n];
      }
    }
  }

  /** Hanging a newly seen neighbour under cur keeps the tree. */
  lemma TreeGrow(g: Graph, root: string, visited: set<string>, parent: map<string, string>, depth: map<string, int>,
                 cur: string, n: string)
    requires Tree(g, root, visited, parent, depth)
    requires cur in visited && n !in visited && Adjacent(g, cur, n)
    ensures Tree(g, root, visited + {n}, parent[n := cur], depth[n := depth[cur] + 1])
  {
  }

  lemma GrowQueue(q0: seq<string>, i: int, q: seq<string>, added: seq<string>, q': seq<string>, newly: seq<string>)
    requires 0 <= i < |q0| && q == q0[i..] + added && q' == q[1..] + newly
    ensures q[0] == q0[i] && q' == q0[i + 1..] + (added + newly)
  {
    assert q[1..] == q0[i + 1..] + added;
  }

  lemma GrowAdded(added: seq<string>, newly: seq<string>, v0: set<string>, v: set<string>, v': set<string>)
    requires v0 <= v <= v'
    requires forall k | 0 <= k < |added| :: added[k] !in v0 && added[k] in v
    requires forall k | 0 <= k < |newly| :: newly[k] !in v && newly[k] in v'
    ensures forall k | 0 <= k < |added + newly| :: (added + newly)[k] !in v0 && (added + newly)[k] in v'
  {
    forall k | 0 <= k < |added + newly| ensures (added + newly)[k] !in v0 && (added + newly)[k] in v' {
      if k >= |added| {
        assert (added + newly)[k] == newly[k - |added|];
      } else {
        assert (added + newly)[k] == added[k];
      }
    }
  }

  lemma GrowExpanded(g: Graph, v: set<string>, q: seq<string>, v': set<string>, q': seq<string>, newly: seq<string>)
    requires |q| > 0 && Expanded(g, v, q) && v <= v'
    requires q' == q[1..] + newly
    requires forall x | x in v' :: x in v || x in newly
    requires forall y | Adjacent(g, q[0], y) :: y in v'
    ensures Expanded(g, v', q')
  {
    forall x, y | x in v' && x !in q' && Adjacent(g, x, y) ensures y in v' {
      if x != q[0] {
        assert x !in q[1..] && x !in newly;
        assert x !in q by {
          assert q == [q[0]] + q[1..];
        }
      }
    }
  }

  lemma GrowMembers(target: string, v: set<string>, q: seq<string>, v': set<string>, q': seq<string>, newly: seq<string>)
    requires |q| > 0 && q[0] != target && v <= v'
    requires forall x | x in q :: x in v
    requires target in v ==> target in q
    requires q' == q[1..] + newly
    requires forall x | x in v' :: x in v || x in newly
    requires forall k | 0 <= k < |newly| :: newly[k] in v'
    ensures forall x | x in q' :: x in v'
    ensures target in v' ==> target in q'
  {
    forall x | x in q' ensures x in v' {
      var k :| 0 <= k < |q'| && q'[k] == x;
      if k < |q| - 1 {
        assert x == q[k + 1];
      } else {
        assert x == newly[k - (|q| - 1)];
      }
    }
    if target in v' {
      if target in v {
        var k :| 0 <= k < |q| && q[k] == target;
        assert q'[k - 1] == target;
      } else {
        var k :| 0 <= k < |newly| && newly[k] == target;
        assert q'[|q| - 1 + k] == target;
      }
    }
  }

  /** Expanding a polled actor that is not the far end. */
  lemma LevelGrow(g: Graph, root: string, target: string, side0: Side, i: int,
                  side: Side, added: seq<string>, depth: map<string, int>,
                  side': Side, newly: seq<string>, depth': map<string, int>)
    requires LevelInv(g, root, target, side0, i, side, added, depth)
    requires i < |side0.queue| && side.queue[0] != target
    requires Tree(g, root, side'.visited, side'.parent, depth')
    requires side'.queue == side.queue[1..] + newly
    requires side.visited <= side'.visited
    requires forall x | x in side'.visited :: x in side.visited || x in newly
    requires forall k | 0 <= k < |newly| :: newly[k] !in side.visited && newly[k] in side'.visited
    requires forall y | Adjacent(g, side.queue[0], y) :: y in side'.visited
    ensures LevelInv(g, root, target, side0, i + 1, side', added + newly, depth')
  {
    GrowQueue(side0.queue, i, side.queue, added, side'.queue, newly);
    assert side0.queue[..i + 1] == side0.queue[..i] + [side.queue[0]];
    GrowAdded(added, newly, side0.visited, side.visited, side'.visited);
    GrowExpanded(g, side.visited, side.queue, side'.visited, side'.queue, newly);
    GrowMembers(target, side.visited, side.queue, side'.visited, side'.queue, newly);
    forall x | x in side'.visited ensures x in side0.visited || x in added + newly {
    }
  }

  /** expandLevel (Graph.java:233-254): poll as many actors as the queue
      held on entry; the first one the other side has seen is the meeting
      point; otherwise each polled actor's unseen neighbours join. The tree
      keeps growing; with no meeting, the level has been expanded, and a
      level that sees nothing new leaves the queue empty. */
  method ExpandLevel(g: Graph, ghost root: string, ghost target: string, side: Side, other: set<string>, ghost depth: map<string, int>)
    returns (meet: Option<string>, side': Side, ghost depth': map<string, int>)
    requires SideInv(g, root, target, side, depth) && target in other
    ensures Tree(g, root, side'.visited, side'.parent, depth')
    ensures side.visited <= side'.visited <= side.visited + Nodes(g)
    ensures meet.Some? ==> meet.value in side'.visited && meet.value in other
    ensures meet.None? ==> SideInv(g, root, target, side', depth')
    ensures meet.None? && side'.visited == side.visited ==> side'.queue == []
  {
    var levelSize := |side.queue|;
    ghost var added: seq<string> := [];
    side', depth' := side, depth;
    LevelStart(g, root, target, side, depth);
    for i := 0 to levelSize
      invariant LevelInv(g, root, target, side, i, side', added, depth')
      invariant side'.visited <= side.visited + Nodes(g)
    {
      var cur := side'.queue[0];
      assert cur == side.queue[i];
      if cur in other {
        return Some(cur), side', depth';
      }
      if cur !in g.adjacency {
        LevelSkip(g, root, target, side, i, side', added, depth');
        side' := side'.(queue := side'.queue[1..]);
      } else {
        var next, nextDepth, newly := AddNeighbours(g, root, cur, side'.(queue := side'.queue[1..]), depth');
        forall k | 0 <= k < |newly| ensures newly[k] in Nodes(g) {
          InNodes(g, cur, newly[k]);
        }
        LevelGrow(g, root, target, side, i, side', added, depth', next, newly, nextDepth);
        side', depth', added := next, nextDepth, added + newly;
      }
    }
    meet := None;
    LevelEnd(g, root, target, side, side', added, depth');
  }

  lemma LevelEnd(g: Graph, root: string, target: string, side0: Side, side: Side, added: seq<string>, depth: map<string, int>)
    requires LevelInv(g, root, target, side0, |side0.queue|, side, added, depth)
    ensures SideInv(g, root, target, side, depth)
    ensures side.visited == side0.visited ==> side.queue == []
  {
    assert side.queue == added;
    if |added| > 0 {
      assert added[0] in side.visited - side0.visited;
    }
  }

  // ---------------------------------------------------------------------
  // Reading the path off the parent maps
  // ---------------------------------------------------------------------

  /** reconstructBidirectionalPath (Graph.java:256-275): prepend the meeting
      actor and its forward parents, then append its backward parents. The
      result runs from the start through the meeting actor to the end, one
      adjacency step at a time on a symmetric graph. */
  method Reconstruct(g: Graph, s: string, e: string, forward: map<string, string>, backward: map<string, string>, meeting: string,
                     ghost visitedF: set<string>, ghost depthF: map<string, int>,
                     ghost visitedB: set<string>, ghost depthB: map<string, int>)
    returns (path: seq<string>)
    requires Tree(g, s, visitedF, forward, depthF) && Tree(g, e, visitedB, backward, depthB)
    requires meeting in visitedF && meeting in visitedB
    ensures |path| >= 1 && path[0] == s && path[|path| - 1] == e
    ensures Symmetric(g) ==> Connects(g, path, s, e)
  {
    var front := ClimbForward(g, s, forward, meeting, visitedF, depthF);
    path := ClimbBackward(g, e, backward, meeting, front, visitedB, depthB);
  }

  /** The first loop of reconstructBidirectionalPath (Graph.java:260-264):
      the meeting actor's forward parents, from the start down to it. */
  method ClimbForward(g: Graph, s: string, forward: map<string, string>, meeting: string,
                      ghost visited: set<string>, ghost depth: map<string, int>)
    returns (path: seq<string>)
    requires Tree(g, s, visited, forward, depth) && meeting in visited
    ensures |path| >= 1 && path[0] == s && path[|path| - 1] == meeting
    ensures IsWalk(g, path)
  {
    path := [];
    var cur := Some(meeting);
    while cur.Some?
      invariant cur.Some? ==> cur.value in visited
      invariant cur.Some? && |path| > 0 ==> Adjacent(g, cur.value, path[0])
      invariant |path| == 0 ==> cur == Some(meeting)
      invariant |path| > 0 ==> path[|path| - 1] == meeting
      invariant cur.None? ==> |path| > 0 && path[0] == s
      invariant forall k | 0 <= k < |path| - 1 :: Adjacent(g, path[k], path[k + 1])
      decreases if cur.Some? then depth[cur.value] + 1 else 0
    {
      var x := cur.value;
      path := [x] + path;
      cur := if x in forward then Some(forward[x]) else None;
    }
  }

  /** The second loop of reconstructBidirectionalPath (Graph.java:266-272):
      the meeting actor's backward parents, appended up to the end. */
  method ClimbBackward(g: Graph, e: string, backward: map<string, string>, meeting: string, front: seq<string>,
                       ghost visited: set<string>, ghost depth: map<string, int>)
    returns (path: seq<string>)
    requires Tree(g, e, visited, backward, depth) && meeting in visited
    requires |front| >= 1 && front[|front| - 1] == meeting && IsWalk(g, front)
    ensures |path| >= 1 && path[0] == front[0] && path[|path| - 1] == e
    ensures Symmetric(g) ==> IsWalk(g, path)
  {
    path := front;
    var cur := if meeting in backward then Some(backward[meeting]) else None;
    while cur.Some?
      invariant cur.Some? ==> cur.value in visited
      invariant |path| >= 1 && path[0] == front[0]
      invariant cur.Some? ==> path[|path| - 1] in backward && backward[path[|path| - 1]] == cur.value
      invariant cur.None? ==> path[|path| - 1] == e
      invariant Symmetric(g) ==> IsWalk(g, path)
      decreases if cur.Some? then depth[cur.value] + 1 else 0
    {
      var x := cur.value;
      path := path + [x];
      cur := if x in backward then Some(backward[x]) else None;
    }
  }

  // ---------------------------------------------------------------------
  // The search
  // ---------------------------------------------------------------------

  /** With every seen actor expanded, the seen set is closed: a walk that
      starts inside never leaves it. */
  lemma {:induction false} ClosedWalk(g: Graph, visited: set<string>, w: seq<string>)
    requires Expanded(g, visited, []) && IsWalk(g, w) && w[0] in visited
    ensures w[|w| - 1] in visited
    decreases |w|
  {
    if |w| > 1 {
      WalkPrefix(g, w, |w| - 1);
      ClosedWalk(g, visited, w[..|w| - 1]);
      assert Adjacent(g, w[|w| - 2], w[|w| - 1]);
    }
  }

  /** On a symmetric graph a walk read backwards is a walk. */
  lemma ReverseWalk(g: Graph, w: seq<string>)
    requires Symmetric(g) && IsWalk(g, w)
    ensures IsWalk(g, Reverse(w))
  {
    var r := Reverse(w);
    forall k | 0 <= k < |r| - 1 ensures Adjacent(g, r[k], r[k + 1]) {
      var i := |w| - 2 - k;
      assert r[k] == w[i + 1] && r[k + 1] == w[i];
      assert Adjacent(g, w[i], w[i + 1]);
    }
  }

  /** A side whose queue ran dry without meeting the far end proves the
      ends unconnected (for the backward side, on a symmetric graph). */
  lemma DryUnreachable(g: Graph, root: string, target: string, side: Side, depth: map<string, int>, s: string, e: string)
    requires SideInv(g, root, target, side, depth) && side.queue == []
    requires (root == s && target == e) || (root == e && target == s && Symmetric(g))
    ensures Unreachable(g, s, e)
  {
    forall w ensures !Connects(g, w, s, e) {
      if Connects(g, w, s, e) {
        if root == s {
          ClosedWalk(g, side.visited, w);
        } else {
          ReverseWalk(g, w);
          ClosedWalk(g, side.visited, Reverse(w));
        }
      }
    }
  }

  /** What holds before each round of the main loop. */
  ghost predicate Rounds(g: Graph, s: string, e: string, fwd: Side, bwd: Side, depthF: map<string, int>, depthB: map<string, int>) {
    && SideInv(g, s, e, fwd, depthF) && SideInv(g, e, s, bwd, depthB)
    && e in bwd.visited && s in fwd.visited
    && fwd.visited <= {s, e} + Nodes(g) && bwd.visited <= {s, e} + Nodes(g)
  }

  lemma FewerUnseen(u: set<string>, a: set<string>, b: set<string>)
    requires a <= b <= u
    ensures |u - b| <= |u - a|
    ensures a != b ==> |u - b| < |u - a|
  {
    assert u - a == (u - b) + (b - a);
    assert (u - b) * (b - a) == {};
    if a != b {
      var x :| x in b && x !in a;
      assert x in b - a;
    }
  }

  /** The loop measure falls: fewer unseen actors on the two sides
      together, or as many and shorter queues. */
  predicate Progress(all: set<string>, fwd: Side, bwd: Side, fwd': Side, bwd': Side) {
    var unseen, unseen' := |all - fwd.visited| + |all - bwd.visited|, |all - fwd'.visited| + |all - bwd'.visited|;
    unseen' < unseen || (unseen' == unseen && |fwd'.queue| + |bwd'.queue| < |fwd.queue| + |bwd.queue|)
  }

  lemma RoundProgress(all: set<string>, fwd: Side, bwd: Side, fwd': Side, bwd': Side)
    requires fwd.visited <= fwd'.visited <= all && bwd.visited <= bwd'.visited <= all
    requires fwd'.visited == fwd.visited ==> fwd'.queue == []
    requires bwd'.visited == bwd.visited ==> bwd'.queue == []
    requires |fwd.queue| > 0 && |bwd.queue| > 0
    ensures Progress(all, fwd, bwd, fwd', bwd')
  {
    FewerUnseen(all, fwd.visited, fwd'.visited);
    FewerUnseen(all, bwd.visited, bwd'.visited);
  }

  /** One round of the main loop (Graph.java:196-226): the side with the
      shorter queue expands a level first, then the other; either may meet
      the other side's seen set. Without a meeting the unseen actors or the
      queues shrink. */
  method Round(g: Graph, ghost s: string, ghost e: string, fwd: Side, bwd: Side,
               ghost depthF: map<string, int>, ghost depthB: map<string, int>, ghost all: set<string>)
    returns (meet: Option<string>, fwd': Side, bwd': Side, ghost depthF': map<string, int>, ghost depthB': map<string, int>)
    requires Rounds(g, s, e, fwd, bwd, depthF, depthB) && all == {s, e} + Nodes(g)
    requires |fwd.queue| > 0 && |bwd.queue| > 0
    ensures Tree(g, s, fwd'.visited, fwd'.parent, depthF') && Tree(g, e, bwd'.visited, bwd'.parent, depthB')
    ensures meet.Some? ==> meet.value in fwd'.visited && meet.value in bwd'.visited
    ensures meet.None? ==> Rounds(g, s, e, fwd', bwd', depthF', depthB')
    ensures meet.None? ==> Progress(all, fwd, bwd, fwd', bwd')
  {
    fwd', bwd', depthF', depthB' := fwd, bwd, depthF, depthB;
    if |fwd.queue| <= |bwd.queue| {
      meet, fwd', depthF' := ExpandLevel(g, s, e, fwd, bwd.visited, depthF);
      if meet.Some? {
        return;
      }
      meet, bwd', depthB' := ExpandLevel(g, e, s, bwd, fwd'.visited, depthB);
    } else {
      meet, bwd', depthB' := ExpandLevel(g, e, s, bwd, fwd.visited, depthB);
      if meet.Some? {
        return;
      }
      meet, fwd', depthF' := ExpandLevel(g, s, e, fwd, bwd'.visited, depthF);
    }
    if meet.None? {
      RoundProgress(all, fwd, bwd, fwd', bwd');
    }
  }

  /** out is the rendered block b for path, a sequence of at least two
      actors from s to e that is a walk when the graph is symmetric. */
  ghost predicate Answers(g: Graph, s: string, e: string, out: string, path: seq<string>, b: PathBlock) {
    && out == Render(b) && Describes(g, b, path, s, e)
    && |path| >= 2 && path[0] == s && path[|path| - 1] == e
    && (Symmetric(g) ==> Connects(g, path, s, e))
  }

  /** findShortestPath (Graph.java:179-231). The argument checks answer
      first; otherwise the answer is "No path found." only when the end
      cannot be reached, and else the block for a path that runs from the
      start to the end one adjacency step at a time, when the graph is
      symmetric as a graph built from a cast file is. */
  method FindShortestPath(g: Graph, startId: string, endId: string)
    returns (out: string, ghost path: seq<string>, ghost b: PathBlock)
    ensures Screen(g, startId, endId).Some? ==> out == Screen(g, startId, endId).value
    ensures Screen(g, startId, endId).None? && Symmetric(g) ==> (out == NoPath <==> Unreachable(g, startId, endId))
    ensures Screen(g, startId, endId).None? && out != NoPath ==> Answers(g, startId, endId, out, path, b)
  {
    var screened := Screen(g, startId, endId);
    if screened.Some? {
      return screened.value, [], PathBlock("", "", [], [], [], []);
    }
    var s, e := startId, endId;
    var fwd := Side([s], {s}, map[]);
    var bwd := Side([e], {e}, map[]);
    ghost var depthF, depthB := map[s := 0], map[e := 0];
    ghost var all := {s, e} + Nodes(g);
    while |fwd.queue| > 0 && |bwd.queue| > 0
      invariant Rounds(g, s, e, fwd, bwd, depthF, depthB)
      decreases |all - fwd.visited| + |all - bwd.visited|, |fwd.queue| + |bwd.queue|
    {
      var meet;
      meet, fwd, bwd, depthF, depthB := Round(g, s, e, fwd, bwd, depthF, depthB, all);
      if meet.Some? {
        out, path, b := Finish(g, s, e, fwd, bwd, meet.value, depthF, depthB);
        return;
      }
    }
    if |fwd.queue| == 0 {
      DryUnreachable(g, s, e, fwd, depthF, s, e);
    } else if Symmetric(g) {
      DryUnreachable(g, e, s, bwd, depthB, s, e);
    }
    return NoPath, [], PathBlock("", "", [], [], [], []);
  }

  /** The meeting found: reconstruct the path and format it. */
  method Finish(g: Graph, s: string, e: string, fwd: Side, bwd: Side, meeting: string,
                ghost depthF: map<string, int>, ghost depthB: map<string, int>)
    returns (out: string, path: seq<string>, ghost b: PathBlock)
    requires s != e
    requires Tree(g, s, fwd.visited, fwd.parent, depthF) && Tree(g, e, bwd.visited, bwd.parent, depthB)
    requires meeting in fwd.visited && meeting in bwd.visited
    ensures out != NoPath && Answers(g, s, e, out, path, b)
  {
    path := Reconstruct(g, s, e, fwd.parent, bwd.parent, meeting, fwd.visited, depthF, bwd.visited, depthB);
    out, b := FormatPath(g, path, s, e);
    RenderIsNoSentinel(b);
  }
}
