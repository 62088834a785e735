/** The first phase of Graph.findAllShortestPaths: a breadth-first search
    from the start actor that records each reached actor's distance and the
    list of actors one step closer that lead to it, and stops after the
    level at which the end actor is first seen. */
module Bfs {
  import opened Text
  import opened CastGraph
  import opened Walks

  /** Every actor the graph mentions: adjacency keys and listed neighbours. */
  ghost function Nodes(g: Graph): set<string> {
    g.adjacency.Keys + set u, x | u in g.adjacency && x in g.adjacency[u] :: x
  }

  /** Each adjacency list holds each neighbour once, as lists built from
      sets do. */
  ghost predicate UniqueLists(g: Graph) {
    forall a | a in g.adjacency :: NoDuplicates(g.adjacency[a])
  }

  /** The distance map and predecessor lists form layers: s alone at 0, and
      every other reached actor listing at least one predecessor, each a
      neighbour one layer closer. */
  ghost predicate PredDag(g: Graph, s: string, dist: map<string, int>, preds: map<string, seq<string>>) {
    && s in dist && dist[s] == 0
    && (forall v | v in dist :: dist[v] >= 0 && (dist[v] == 0 ==> v == s))
    && (forall v | v in preds :: v in dist)
    && (forall v, p | v in preds && p in preds[v] :: p in dist && dist[p] + 1 == dist[v] && Adjacent(g, p, v))
    && (forall v | v in dist && v != s :: v in preds && |preds[v]| > 0)
  }

  /** Actors closer than d have been expanded: their neighbours are reached,
      at most one layer further, and those exactly one layer further list
      them as predecessors. */
  ghost predicate Layered(g: Graph, dist: map<string, int>, preds: map<string, seq<string>>, d: int) {
    forall u, v | u in dist && dist[u] < d && Adjacent(g, u, v) ::
      v in dist && dist[v] <= dist[u] + 1 && (dist[v] == dist[u] + 1 ==> v in preds && u in preds[v])
  }

  /** Every reached actor has been expanded. */
  ghost predicate Complete(g: Graph, dist: map<string, int>, preds: map<string, seq<string>>) {
    forall u, v | u in dist && Adjacent(g, u, v) ::
      v in dist && dist[v] <= dist[u] + 1 && (dist[v] == dist[u] + 1 ==> v in preds && u in preds[v])
  }

  // ---------------------------------------------------------------------
  // What layers say about walks
  // ---------------------------------------------------------------------

  /** Following first predecessors gives a walk from s as long as the
      distance says. */
  ghost function PredWalk(g: Graph, s: string, dist: map<string, int>, preds: map<string, seq<string>>, v: string): (w: seq<string>)
    requires PredDag(g, s, dist, preds) && v in dist
    ensures Connects(g, w, s, v) && |w| == dist[v] + 1
    decreases dist[v]
  {
    if v == s then [s]
    else
      var p := preds[v][0];
      var u := PredWalk(g, s, dist, preds, p);
      assert Adjacent(g, p, v);
      u + [v]
  }

  /** A walk from s either reaches an actor whose distance is at most the
      walk's length, or is at least d steps long. */
  lemma {:induction false} WalkBound(g: Graph, s: string, dist: map<string, int>, preds: map<string, seq<string>>, d: int, w: seq<string>)
    requires PredDag(g, s, dist, preds) && Layered(g, dist, preds, d)
    requires IsWalk(g, w) && w[0] == s
    ensures (w[|w| - 1] in dist && dist[w[|w| - 1]] <= |w| - 1) || |w| - 1 >= d
    decreases |w|
  {
    if |w| > 1 {
      var u := w[..|w| - 1];
      WalkPrefix(g, w, |w| - 1);
      WalkBound(g, s, dist, preds, d, u);
      assert Adjacent(g, w[|w| - 2], w[|w| - 1]);
    }
  }

  /** With the end first reached at distance d and every closer actor
      expanded, no walk to the end is shorter than d. */
  lemma FoundIsShortest(g: Graph, s: string, e: string, dist: map<string, int>, preds: map<string, seq<string>>, d: int)
    requires PredDag(g, s, dist, preds) && Layered(g, dist, preds, d)
    requires e in dist && dist[e] == d
    ensures NoShorterWalk(g, s, e, d)
  {
    forall w | Connects(g, w, s, e) ensures |w| - 1 >= d {
      WalkBound(g, s, dist, preds, d, w);
    }
  }

  /** When every reached actor is expanded, what is not reached cannot be
      reached. */
  lemma MissedIsUnreachable(g: Graph, s: string, e: string, dist: map<string, int>, preds: map<string, seq<string>>)
    requires PredDag(g, s, dist, preds) && Complete(g, dist, preds)
    requires e !in dist
    ensures Unreachable(g, s, e)
  {
    forall w ensures !Connects(g, w, s, e) {
      if Connects(g, w, s, e) {
        WalkBound(g, s, dist, preds, |w|, w);
      }
    }
  }

  /** A reached actor's distance is the length of a shortest walk to it,
      as long as it is closer than the expanded depth. */
  lemma DistIsShortest(g: Graph, s: string, dist: map<string, int>, preds: map<string, seq<string>>, d: int, v: string)
    requires PredDag(g, s, dist, preds) && Layered(g, dist, preds, d)
    requires v in dist && dist[v] <= d
    ensures NoShorterWalk(g, s, v, dist[v])
    ensures IsShortestWalk(g, PredWalk(g, s, dist, preds, v), s, v)
  {
    forall w | Connects(g, w, s, v) ensures |w| - 1 >= dist[v] {
      WalkBound(g, s, dist, preds, d, w);
    }
  }

  // ---------------------------------------------------------------------
  // The search
  // ---------------------------------------------------------------------

  /** Actors i < n of the visiting order have been expanded. */
  ghost predicate Processed(g: Graph, dist: map<string, int>, preds: map<string, seq<string>>, order: seq<string>, n: int)
    requires forall i | 0 <= i < |order| :: order[i] in dist
  {
    0 <= n <= |order| &&
    forall i, v | 0 <= i < n && Adjacent(g, order[i], v) ::
      v in dist && dist[v] <= dist[order[i]] + 1 && (dist[v] == dist[order[i]] + 1 ==> v in preds && order[i] in preds[v])
  }

  /** The distances along the visiting order never decrease. */
  ghost predicate Sorted(dist: map<string, int>, order: seq<string>)
    requires forall i | 0 <= i < |order| :: order[i] in dist
  {
    forall i, j | 0 <= i <= j < |order| :: dist[order[i]] <= dist[order[j]]
  }

  /** What holds each time the search is about to poll order[h]: the
      visiting order lists each reached actor once, in layer order, spanning
      at most two layers from h on; actors before h are expanded; found is
      the end's distance once it has been reached; every predecessor
      recorded was expanded. */
  ghost predicate Frontier(g: Graph, s: string, e: string, dist: map<string, int>, preds: map<string, seq<string>>,
                           found: int, order: seq<string>, h: int)
  {
    && 1 <= |order| && order[0] == s && 0 <= h <= |order|
    && NoDuplicates(order)
    && (forall v :: v in dist <==> v in order)
    && PredDag(g, s, dist, preds)
    && Sorted(dist, order)
    && (h < |order| ==> dist[order[|order| - 1]] <= dist[order[h]] + 1)
    && Processed(g, dist, preds, order, h)
    && (found == -1 <==> e !in dist)
    && (found != -1 ==> found == dist[e])
    && (forall v, p | v in preds && p in preds[v] :: p in order[..h])
    && (UniqueLists(g) ==> forall v | v in preds :: NoDuplicates(preds[v]))
  }

  /** Appending a new element keeps a sequence free of duplicates. */
  lemma NoDuplicatesSnoc(xs: seq<string>, x: string)
    requires NoDuplicates(xs) && x !in xs
    ensures NoDuplicates(xs + [x])
  {
    var ys := xs + [x];
    forall a, b | 0 <= a < b < |ys| ensures ys[a] != ys[b] {
      if b == |xs| {
        assert ys[a] == xs[a];
      } else {
        assert ys[a] == xs[a] && ys[b] == xs[b];
      }
    }
  }

  /** Appending p to v's predecessor list, creating the list if v has
      none yet. */
  function AddPred(preds: map<string, seq<string>>, v: string, p: string): map<string, seq<string>> {
    preds[v := (if v in preds then preds[v] else []) + [p]]
  }

  /** The bookkeeping of a partial visit of cur, polled from position h - 1
      of the visiting order when the state was dist0 and order0: the order
      only grows, by neighbours of cur placed one layer beyond it, and no
      distance changes. */
  ghost predicate Shape(s: string, cur: string, nbrs: seq<string>, j: int,
                        dist0: map<string, int>, order0: seq<string>, h: int,
                        dist: map<string, int>, order: seq<string>)
  {
    && cur in dist0 && 0 <= j <= |nbrs| && 1 <= h <= |order0| && order0[h - 1] == cur
    && |order0| <= |order| && order[..|order0|] == order0 && order[0] == s
    && (forall i | 0 <= i < |order0| :: order0[i] in dist0)
    && NoDuplicates(order)
    && (forall v :: v in dist <==> v in order)
    && (forall v | v in dist0 :: v in dist && dist[v] == dist0[v])
    && (forall i | |order0| <= i < |order| :: order[i] in dist && dist[order[i]] == dist0[cur] + 1 && order[i] in nbrs)
    && (forall v | v in dist :: dist[v] <= dist0[cur] + 1)
    && (forall i | |order0| <= i < |order| :: order[i] !in dist0)
  }

  /** The first j neighbours of cur are reached, and those one layer beyond
      cur list it as a predecessor. */
  ghost predicate Looked(g: Graph, dist: map<string, int>, preds: map<string, seq<string>>, cur: string, nbrs: seq<string>, j: int, d: int)
    requires 0 <= j <= |nbrs|
  {
    forall v | v in nbrs[..j] :: v in dist && dist[v] <= d && (dist[v] == d ==> v in preds && cur in preds[v])
  }

  /** found is -1 until the end is reached, then its distance, which is
      beyond cur's layer. */
  ghost predicate FoundAt(e: string, dist: map<string, int>, found: int, d: int) {
    && (found == -1 <==> e !in dist)
    && (found != -1 ==> e in dist && found == dist[e] && d <= found)
  }

  /** Every recorded predecessor was polled before cur, or is cur itself
      for one of its first j neighbours. */
  ghost predicate PredsFrom(preds: map<string, seq<string>>, order0: seq<string>, h: int, cur: string, nbrs: seq<string>, j: int)
    requires 1 <= h <= |order0| && 0 <= j <= |nbrs|
  {
    forall v, p | v in preds && p in preds[v] :: p in order0[..h - 1] || (p == cur && v in nbrs[..j])
  }

  /** No predecessor list repeats an actor. */
  ghost predicate UniquePreds(preds: map<string, seq<string>>) {
    forall v | v in preds :: NoDuplicates(preds[v])
  }

  /** What holds after the first j neighbours of cur have been looked at. */
  ghost predicate Partial(g: Graph, s: string, e: string, cur: string, nbrs: seq<string>, j: int,
                          dist0: map<string, int>, order0: seq<string>, h: int,
                          dist: map<string, int>, preds: map<string, seq<string>>, found: int, order: seq<string>)
  {
    && Shape(s, cur, nbrs, j, dist0, order0, h, dist, order)
    && PredDag(g, s, dist, preds)
    && Sorted(dist, order)
    && Processed(g, dist, preds, order, h - 1)
    && Looked(g, dist, preds, cur, nbrs, j, dist0[cur] + 1)
    && FoundAt(e, dist, found, dist0[cur] + 1)
    && PredsFrom(preds, order0, h, cur, nbrs, j)
    && (UniqueLists(g) ==> UniquePreds(preds))
  }

  /** Polling cur starts a partial visit with nothing looked at. */
  lemma PartialStart(g: Graph, s: string, e: string, cur: string, nbrs: seq<string>,
                     dist: map<string, int>, preds: map<string, seq<string>>, found: int, order: seq<string>, h: int)
    requires 1 <= h <= |order| && order[h - 1] == cur
    requires Frontier(g, s, e, dist, preds, found, order, h - 1)
    requires found == -1 || dist[cur] + 1 <= found
    ensures Partial(g, s, e, cur, nbrs, 0, dist, order, h, dist, preds, found, order)
  {
    forall v | v in dist ensures dist[v] <= dist[cur] + 1 {
      var i :| 0 <= i < |order| && order[i] == v;
      assert dist[order[i]] <= dist[order[|order| - 1]];
    }
    assert order[..|order|] == order;
  }

  // One lemma per part of the partial-visit state, for an unseen
  // neighbour v of cur, which gets distance d.

  lemma ShapeNew(s: string, cur: string, nbrs: seq<string>, j: int,
                 dist0: map<string, int>, order0: seq<string>, h: int,
                 dist: map<string, int>, order: seq<string>)
    requires Shape(s, cur, nbrs, j, dist0, order0, h, dist, order)
    requires j < |nbrs| && nbrs[j] !in dist
    ensures Shape(s, cur, nbrs, j + 1, dist0, order0, h, dist[nbrs[j] := dist0[cur] + 1], order + [nbrs[j]])
  {
    var v := nbrs[j];
    var order' := order + [v];
    NoDuplicatesSnoc(order, v);
    assert order'[..|order0|] == order0 by {
      assert order'[..|order|] == order;
    }
    forall i | |order0| <= i < |order'| ensures order'[i] in nbrs && order'[i] in dist[v := dist0[cur] + 1] {
      if i < |order| {
        assert order'[i] == order[i];
      }
    }
  }

  lemma PredDagNew(g: Graph, s: string, cur: string, v: string, d: int,
                   dist: map<string, int>, preds: map<string, seq<string>>)
    requires PredDag(g, s, dist, preds)
    requires cur in dist && dist[cur] + 1 == d && v !in dist && Adjacent(g, cur, v)
    ensures PredDag(g, s, dist[v := d], AddPred(preds, v, cur))
  {
  }

  lemma SortedNew(dist: map<string, int>, order: seq<string>, v: string, d: int)
    requires forall i | 0 <= i < |order| :: order[i] in dist
    requires Sorted(dist, order) && v !in dist
    requires forall u | u in dist :: dist[u] <= d
    ensures forall i | 0 <= i < |order + [v]| :: (order + [v])[i] in dist[v := d]
    ensures Sorted(dist[v := d], order + [v])
  {
    var dist', order' := dist[v := d], order + [v];
    forall i, k | 0 <= i <= k < |order'| ensures dist'[order'[i]] <= dist'[order'[k]] {
      assert order'[i] in dist';
      if k < |order| {
        assert order'[i] == order[i] && order'[k] == order[k];
        assert dist[order[i]] <= dist[order[k]];
      } else if i < |order| {
        assert order'[i] == order[i];
      }
    }
  }

  lemma ProcessedNew(g: Graph, dist: map<string, int>, preds: map<string, seq<string>>, order: seq<string>, n: int,
                     v: string, d: int, cur: string)
    requires forall i | 0 <= i < |order| :: order[i] in dist
    requires Processed(g, dist, preds, order, n) && v !in dist
    ensures forall i | 0 <= i < |order + [v]| :: (order + [v])[i] in dist[v := d]
    ensures Processed(g, dist[v := d], AddPred(preds, v, cur), order + [v], n)
  {
    var dist', preds', order' := dist[v := d], AddPred(preds, v, cur), order + [v];
    forall i | 0 <= i < |order'| ensures order'[i] in dist' {
      if i < |order| {
        assert order'[i] == order[i];
      }
    }
    forall i, u | 0 <= i < n && Adjacent(g, order'[i], u)
      ensures u in dist' && dist'[u] <= dist'[order'[i]] + 1
      ensures dist'[u] == dist'[order'[i]] + 1 ==> u in preds' && order'[i] in preds'[u]
    {
      assert order'[i] == order[i];
    }
  }

  lemma LookedNew(g: Graph, dist: map<string, int>, preds: map<string, seq<string>>, cur: string, nbrs: seq<string>, j: int, d: int)
    requires 0 <= j < |nbrs| && Looked(g, dist, preds, cur, nbrs, j, d) && nbrs[j] !in dist
    ensures var v := nbrs[j];
            Looked(g, dist[v := d], AddPred(preds, v, cur), cur, nbrs, j + 1, d)
  {
    assert nbrs[..j + 1] == nbrs[..j] + [nbrs[j]];
  }

  lemma PredsFromAdd(preds: map<string, seq<string>>, order0: seq<string>, h: int, cur: string, nbrs: seq<string>, j: int)
    requires 1 <= h <= |order0| && 0 <= j < |nbrs|
    requires PredsFrom(preds, order0, h, cur, nbrs, j)
    ensures var v := nbrs[j];
            PredsFrom(AddPred(preds, v, cur), order0, h, cur, nbrs, j + 1)
  {
    assert nbrs[..j + 1] == nbrs[..j] + [nbrs[j]];
  }

  lemma PredsFromMore(preds: map<string, seq<string>>, order0: seq<string>, h: int, cur: string, nbrs: seq<string>, j: int)
    requires 1 <= h <= |order0| && 0 <= j < |nbrs|
    requires PredsFrom(preds, order0, h, cur, nbrs, j)
    ensures PredsFrom(preds, order0, h, cur, nbrs, j + 1)
  {
    assert nbrs[..j + 1] == nbrs[..j] + [nbrs[j]];
  }

  /** Adding cur to v's list keeps lists unique when cur is not there yet:
      it was polled after every earlier predecessor, and v is not among the
      neighbours of cur already looked at. */
  lemma UniqueAdd(preds: map<string, seq<string>>, order0: seq<string>, h: int, cur: string, nbrs: seq<string>, j: int)
    requires 1 <= h <= |order0| && 0 <= j < |nbrs| && order0[h - 1] == cur
    requires NoDuplicates(order0) && NoDuplicates(nbrs)
    requires PredsFrom(preds, order0, h, cur, nbrs, j) && UniquePreds(preds)
    ensures var v := nbrs[j];
            UniquePreds(AddPred(preds, v, cur))
  {
    var v := nbrs[j];
    var old' := if v in preds then preds[v] else [];
    NoDuplicatesSnoc(old', cur);
  }

  lemma UniqueStep(g: Graph, preds: map<string, seq<string>>, order0: seq<string>, order: seq<string>, h: int,
                   cur: string, nbrs: seq<string>, j: int)
    requires 1 <= h <= |order0| <= |order| && 0 <= j < |nbrs| && order0[h - 1] == cur
    requires order[..|order0|] == order0 && NoDuplicates(order)
    requires cur in g.adjacency && nbrs == g.adjacency[cur]
    requires PredsFrom(preds, order0, h, cur, nbrs, j)
    requires UniqueLists(g) ==> UniquePreds(preds)
    ensures UniqueLists(g) ==> UniquePreds(AddPred(preds, nbrs[j], cur))
  {
    if UniqueLists(g) {
      assert NoDuplicates(order0) by {
        forall a, b | 0 <= a < b < |order0| ensures order0[a] != order0[b] {
          assert order0[a] == order[a] && order0[b] == order[b];
        }
      }
      UniqueAdd(preds, order0, h, cur, nbrs, j);
    }
  }

  /** Looking at an unseen neighbour v. */
  lemma PartialNew(g: Graph, s: string, e: string, cur: string, nbrs: seq<string>, j: int,
                   dist0: map<string, int>, order0: seq<string>, h: int,
                   dist: map<string, int>, preds: map<string, seq<string>>, found: int, order: seq<string>)
    requires Partial(g, s, e, cur, nbrs, j, dist0, order0, h, dist, preds, found, order)
    requires j < |nbrs| && nbrs[j] !in dist
    requires cur in g.adjacency && nbrs == g.adjacency[cur]
    ensures var v := nbrs[j];
            Partial(g, s, e, cur, nbrs, j + 1, dist0, order0, h,
                    dist[v := dist0[cur] + 1], AddPred(preds, v, cur),
                    if v == e then dist0[cur] + 1 else found, order + [v])
  {
    var v := nbrs[j];
    var d := dist0[cur] + 1;
    assert Adjacent(g, cur, v);
    ShapeNew(s, cur, nbrs, j, dist0, order0, h, dist, order);
    PredDagNew(g, s, cur, v, d, dist, preds);
    SortedNew(dist, order, v, d);
    ProcessedNew(g, dist, preds, order, h - 1, v, d, cur);
    LookedNew(g, dist, preds, cur, nbrs, j, d);
    PredsFromAdd(preds, order0, h, cur, nbrs, j);
    UniqueStep(g, preds, order0, order, h, cur, nbrs, j);
  }

  lemma PredDagSeen(g: Graph, s: string, cur: string, v: string,
                    dist: map<string, int>, preds: map<string, seq<string>>)
    requires PredDag(g, s, dist, preds)
    requires cur in dist && v in dist && dist[cur] + 1 == dist[v] && Adjacent(g, cur, v)
    ensures PredDag(g, s, dist, AddPred(preds, v, cur))
  {
  }

  lemma ProcessedSeen(g: Graph, dist: map<string, int>, preds: map<string, seq<string>>, order: seq<string>, n: int,
                      v: string, cur: string)
    requires forall i | 0 <= i < |order| :: order[i] in dist
    requires Processed(g, dist, preds, order, n)
    ensures Processed(g, dist, AddPred(preds, v, cur), order, n)
  {
  }

  lemma LookedSeen(g: Graph, dist: map<string, int>, preds: map<string, seq<string>>, cur: string, nbrs: seq<string>, j: int, d: int)
    requires 0 <= j < |nbrs| && Looked(g, dist, preds, cur, nbrs, j, d) && nbrs[j] in dist && dist[nbrs[j]] == d
    ensures Looked(g, dist, AddPred(preds, nbrs[j], cur), cur, nbrs, j + 1, d)
  {
    assert nbrs[..j + 1] == nbrs[..j] + [nbrs[j]];
  }

  lemma ShapeMore(s: string, cur: string, nbrs: seq<string>, j: int,
                  dist0: map<string, int>, order0: seq<string>, h: int,
                  dist: map<string, int>, order: seq<string>)
    requires Shape(s, cur, nbrs, j, dist0, order0, h, dist, order) && j < |nbrs|
    ensures Shape(s, cur, nbrs, j + 1, dist0, order0, h, dist, order)
  {
  }

  /** Looking at a neighbour v that was already reached, one layer beyond
      cur. */
  lemma PartialSeenNext(g: Graph, s: string, e: string, cur: string, nbrs: seq<string>, j: int,
                        dist0: map<string, int>, order0: seq<string>, h: int,
                        dist: map<string, int>, preds: map<string, seq<string>>, found: int, order: seq<string>)
    requires Partial(g, s, e, cur, nbrs, j, dist0, order0, h, dist, preds, found, order)
    requires j < |nbrs| && nbrs[j] in dist && dist[nbrs[j]] == dist0[cur] + 1
    requires cur in g.adjacency && nbrs == g.adjacency[cur]
    ensures var v := nbrs[j];
            Partial(g, s, e, cur, nbrs, j + 1, dist0, order0, h,
                    dist, AddPred(preds, v, cur),
                    if v == e then dist0[cur] + 1 else found, order)
  {
    SeenNextLayers(g, s, e, cur, nbrs, j, dist0, order0, h, dist, preds, found, order);
    SeenNextBooks(g, s, e, cur, nbrs, j, dist0, order0, h, dist, preds, found, order);
  }

  /** The layer half of PartialSeenNext. */
  lemma SeenNextLayers(g: Graph, s: string, e: string, cur: string, nbrs: seq<string>, j: int,
                       dist0: map<string, int>, order0: seq<string>, h: int,
                       dist: map<string, int>, preds: map<string, seq<string>>, found: int, order: seq<string>)
    requires Partial(g, s, e, cur, nbrs, j, dist0, order0, h, dist, preds, found, order)
    requires j < |nbrs| && nbrs[j] in dist && dist[nbrs[j]] == dist0[cur] + 1
    requires cur in g.adjacency && nbrs == g.adjacency[cur]
    ensures Shape(s, cur, nbrs, j + 1, dist0, order0, h, dist, order)
    ensures PredDag(g, s, dist, AddPred(preds, nbrs[j], cur))
    ensures Processed(g, dist, AddPred(preds, nbrs[j], cur), order, h - 1)
    ensures Looked(g, dist, AddPred(preds, nbrs[j], cur), cur, nbrs, j + 1, dist0[cur] + 1)
  {
    var v := nbrs[j];
    assert cur in dist && Adjacent(g, cur, v);
    assert forall i | 0 <= i < |order| :: order[i] in dist;
    ShapeMore(s, cur, nbrs, j, dist0, order0, h, dist, order);
    LookedSeen(g, dist, preds, cur, nbrs, j, dist0[cur] + 1);
    PredDagSeen(g, s, cur, v, dist, preds);
    ProcessedSeen(g, dist, preds, order, h - 1, v, cur);
  }

  /** The bookkeeping half of PartialSeenNext. */
  lemma SeenNextBooks(g: Graph, s: string, e: string, cur: string, nbrs: seq<string>, j: int,
                      dist0: map<string, int>, order0: seq<string>, h: int,
                      dist: map<string, int>, preds: map<string, seq<string>>, found: int, order: seq<string>)
    requires Partial(g, s, e, cur, nbrs, j, dist0, order0, h, dist, preds, found, order)
    requires j < |nbrs| && nbrs[j] in dist && dist[nbrs[j]] == dist0[cur] + 1
    requires cur in g.adjacency && nbrs == g.adjacency[cur]
    ensures FoundAt(e, dist, if nbrs[j] == e then dist0[cur] + 1 else found, dist0[cur] + 1)
    ensures PredsFrom(AddPred(preds, nbrs[j], cur), order0, h, cur, nbrs, j + 1)
    ensures UniqueLists(g) ==> UniquePreds(AddPred(preds, nbrs[j], cur))
  {
    PredsFromAdd(preds, order0, h, cur, nbrs, j);
    UniqueStep(g, preds, order0, order, h, cur, nbrs, j);
  }

  /** Looking at a neighbour v that was already reached at cur's layer or
      closer: nothing changes. */
  lemma PartialSeenClose(g: Graph, s: string, e: string, cur: string, nbrs: seq<string>, j: int,
                         dist0: map<string, int>, order0: seq<string>, h: int,
                         dist: map<string, int>, preds: map<string, seq<string>>, found: int, order: seq<string>)
    requires Partial(g, s, e, cur, nbrs, j, dist0, order0, h, dist, preds, found, order)
    requires j < |nbrs| && nbrs[j] in dist && dist[nbrs[j]] != dist0[cur] + 1
    ensures nbrs[j] != e
    ensures Partial(g, s, e, cur, nbrs, j + 1, dist0, order0, h, dist, preds, found, order)
  {
    assert nbrs[..j + 1] == nbrs[..j] + [nbrs[j]];
    PredsFromMore(preds, order0, h, cur, nbrs, j);
  }

  lemma InNodes(g: Graph, u: string, x: string)
    requires u in g.adjacency && x in g.adjacency[u]
    ensures x in Nodes(g)
  {
    var listed := set u, x | u in g.adjacency && x in g.adjacency[u] :: x;
    assert x in listed;
  }

  /** An actor without an adjacency list is expanded by doing nothing. */
  lemma FrontierSkip(g: Graph, s: string, e: string, dist: map<string, int>, preds: map<string, seq<string>>,
                     found: int, order: seq<string>, h: int)
    requires 1 <= h <= |order| && order[h - 1] !in g.adjacency
    requires Frontier(g, s, e, dist, preds, found, order, h - 1)
    ensures Frontier(g, s, e, dist, preds, found, order, h)
  {
    ProcessedSkip(g, dist, preds, order, h);
    PredsSkip(preds, order, h);
    if h < |order| {
      assert dist[order[h]] >= dist[order[h - 1]];
    }
  }

  lemma ProcessedSkip(g: Graph, dist: map<string, int>, preds: map<string, seq<string>>, order: seq<string>, h: int)
    requires forall i | 0 <= i < |order| :: order[i] in dist
    requires 1 <= h <= |order| && order[h - 1] !in g.adjacency
    requires Processed(g, dist, preds, order, h - 1)
    ensures Processed(g, dist, preds, order, h)
  {
    forall i, v | 0 <= i < h && Adjacent(g, order[i], v)
      ensures v in dist && dist[v] <= dist[order[i]] + 1
      ensures dist[v] == dist[order[i]] + 1 ==> v in preds && order[i] in preds[v]
    {
      assert i < h - 1;
    }
  }

  lemma PredsSkip(preds: map<string, seq<string>>, order: seq<string>, h: int)
    requires 1 <= h <= |order|
    requires forall v, p | v in preds && p in preds[v] :: p in order[..h - 1]
    ensures forall v, p | v in preds && p in preds[v] :: p in order[..h]
  {
    assert order[..h] == order[..h - 1] + [order[h - 1]];
  }

  lemma ProcessedEnd(g: Graph, dist: map<string, int>, preds: map<string, seq<string>>, order: seq<string>, h: int,
                     cur: string, nbrs: seq<string>)
    requires forall i | 0 <= i < |order| :: order[i] in dist
    requires 1 <= h <= |order| && order[h - 1] == cur && cur in g.adjacency && nbrs == g.adjacency[cur]
    requires Processed(g, dist, preds, order, h - 1)
    requires Looked(g, dist, preds, cur, nbrs, |nbrs|, dist[cur] + 1)
    ensures Processed(g, dist, preds, order, h)
  {
    assert nbrs[..|nbrs|] == nbrs;
    forall i, u | 0 <= i < h && Adjacent(g, order[i], u)
      ensures u in dist && dist[u] <= dist[order[i]] + 1
      ensures dist[u] == dist[order[i]] + 1 ==> u in preds && order[i] in preds[u]
    {
      if i == h - 1 {
        assert u in nbrs;
      }
    }
  }

  lemma PredsEnd(preds: map<string, seq<string>>, order0: seq<string>, order: seq<string>, h: int, cur: string, nbrs: seq<string>)
    requires 1 <= h <= |order0| <= |order| && order[..|order0|] == order0 && order0[h - 1] == cur
    requires PredsFrom(preds, order0, h, cur, nbrs, |nbrs|)
    ensures forall v, p | v in preds && p in preds[v] :: p in order[..h]
  {
    assert order0[..h - 1] == order[..h - 1];
    assert order[..h] == order[..h - 1] + [cur];
  }

  lemma NodesEnd(g: Graph, s: string, cur: string, nbrs: seq<string>,
                 dist0: map<string, int>, order0: seq<string>, h: int, dist: map<string, int>, order: seq<string>)
    requires Shape(s, cur, nbrs, |nbrs|, dist0, order0, h, dist, order)
    requires cur in g.adjacency && nbrs == g.adjacency[cur]
    ensures dist0.Keys <= dist.Keys <= dist0.Keys + Nodes(g)
    ensures |order| > |order0| ==> dist0.Keys < dist.Keys
  {
    if |order| > |order0| {
      assert order[|order0|] in dist;
    }
    forall v | v in dist ensures v in dist0 || v in Nodes(g) {
      if v !in dist0 {
        var i :| 0 <= i < |order| && order[i] == v;
        assert v in nbrs;
        InNodes(g, cur, v);
      }
    }
  }

  lemma KeysSame(s: string, cur: string, nbrs: seq<string>,
                 dist0: map<string, int>, order0: seq<string>, h: int, dist: map<string, int>, order: seq<string>)
    requires Shape(s, cur, nbrs, |nbrs|, dist0, order0, h, dist, order)
    requires forall v | v in dist0 :: v in order0
    ensures |order| == |order0| ==> dist.Keys == dist0.Keys
  {
    if |order| == |order0| {
      assert order == order[..|order0|];
    }
  }

  /** Once every neighbour has been looked at, cur counts as expanded. */
  lemma PartialEnd(g: Graph, s: string, e: string, cur: string, nbrs: seq<string>,
                   dist0: map<string, int>, order0: seq<string>, h: int,
                   dist: map<string, int>, preds: map<string, seq<string>>, found: int, order: seq<string>)
    requires Partial(g, s, e, cur, nbrs, |nbrs|, dist0, order0, h, dist, preds, found, order)
    requires cur in g.adjacency && nbrs == g.adjacency[cur]
    ensures Frontier(g, s, e, dist, preds, found, order, h)
    ensures dist0.Keys <= dist.Keys <= dist0.Keys + Nodes(g)
    ensures |order0| <= |order| && (|order| > |order0| ==> dist0.Keys < dist.Keys)
  {
    assert order[h - 1] == cur by {
      assert order[..|order0|][h - 1] == order0[h - 1];
    }
    ProcessedEnd(g, dist, preds, order, h, cur, nbrs);
    PredsEnd(preds, order0, order, h, cur, nbrs);
    NodesEnd(g, s, cur, nbrs, dist0, order0, h, dist, order);
    if h < |order| {
      assert dist[order[h]] >= dist[order[h - 1]];
    }
  }

  /** One pass of the neighbour loop of Graph.java:302-312, for the j-th
      neighbour v of cur: an unseen v gets the next distance, a predecessor
      entry and a place at the back of the queue; a v already at the next
      distance gets a predecessor entry; meeting the end records the next
      distance as the one found. */
  method Look(g: Graph, ghost s: string, e: string, cur: string, nbrs: seq<string>, j: int,
              dist0: map<string, int>, ghost order0: seq<string>, ghost h: int,
              dist: map<string, int>, preds: map<string, seq<string>>, queue: seq<string>, found: int,
              ghost order: seq<string>)
    returns (dist': map<string, int>, preds': map<string, seq<string>>, queue': seq<string>, found': int,
             ghost order': seq<string>)
    requires cur in g.adjacency && nbrs == g.adjacency[cur] && j < |nbrs|
    requires Partial(g, s, e, cur, nbrs, j, dist0, order0, h, dist, preds, found, order)
    requires queue == order[h..]
    ensures Partial(g, s, e, cur, nbrs, j + 1, dist0, order0, h, dist', preds', found', order')
    ensures queue' == order'[h..]
  {
    if nbrs[j] !in dist {
      dist', preds', queue', found', order' := LookNew(g, s, e, cur, nbrs, j, dist0, order0, h, dist, preds, queue, found, order);
    } else {
      dist', preds', queue', found', order' := LookSeen(g, s, e, cur, nbrs, j, dist0, order0, h, dist, preds, queue, found, order);
    }
  }

  /** Look at a neighbour not reached before. */
  method LookNew(g: Graph, ghost s: string, e: string, cur: string, nbrs: seq<string>, j: int,
                 dist0: map<string, int>, ghost order0: seq<string>, ghost h: int,
                 dist: map<string, int>, preds: map<string, seq<string>>, queue: seq<string>, found: int,
                 ghost order: seq<string>)
    returns (dist': map<string, int>, preds': map<string, seq<string>>, queue': seq<string>, found': int,
             ghost order': seq<string>)
    requires cur in g.adjacency && nbrs == g.adjacency[cur] && j < |nbrs|
    requires Partial(g, s, e, cur, nbrs, j, dist0, order0, h, dist, preds, found, order)
    requires nbrs[j] !in dist
    requires queue == order[h..]
    ensures Partial(g, s, e, cur, nbrs, j + 1, dist0, order0, h, dist', preds', found', order')
    ensures queue' == order'[h..]
  {
    var v := nbrs[j];
    var next := dist0[cur] + 1;
    found' := if v == e then next else found;
    dist' := dist[v := next];
    preds' := AddPred(preds, v, cur);
    queue' := queue + [v];
    order' := order + [v];
    PartialNew(g, s, e, cur, nbrs, j, dist0, order0, h, dist, preds, found, order);
    QueueNew(order, queue, h, v);
  }

  lemma QueueNew(order: seq<string>, queue: seq<string>, h: int, v: string)
    requires 0 <= h <= |order| && queue == order[h..]
    ensures queue + [v] == (order + [v])[h..]
  {
  }

  /** Look at a neighbour reached before: one layer beyond cur it gains cur
      as a predecessor, closer it is left alone. */
  method LookSeen(g: Graph, ghost s: string, e: string, cur: string, nbrs: seq<string>, j: int,
                  dist0: map<string, int>, ghost order0: seq<string>, ghost h: int,
                  dist: map<string, int>, preds: map<string, seq<string>>, queue: seq<string>, found: int,
                  ghost order: seq<string>)
    returns (dist': map<string, int>, preds': map<string, seq<string>>, queue': seq<string>, found': int,
             ghost order': seq<string>)
    requires cur in g.adjacency && nbrs == g.adjacency[cur] && j < |nbrs|
    requires Partial(g, s, e, cur, nbrs, j, dist0, order0, h, dist, preds, found, order)
    requires nbrs[j] in dist
    requires queue == order[h..]
    ensures Partial(g, s, e, cur, nbrs, j + 1, dist0, order0, h, dist', preds', found', order')
    ensures queue' == order'[h..]
  {
    var v := nbrs[j];
    var next := dist0[cur] + 1;
    if dist[v] == next {
      PartialSeenNext(g, s, e, cur, nbrs, j, dist0, order0, h, dist, preds, found, order);
      dist', queue', order' := dist, queue, order;
      preds' := AddPred(preds, v, cur);
      found' := if v == e then next else found;
    } else {
      PartialSeenClose(g, s, e, cur, nbrs, j, dist0, order0, h, dist, preds, found, order);
      dist', preds', queue', found', order' := dist, preds, queue, found, order;
    }
  }

  /** The neighbour loop of one polled actor (Graph.java:302-312). */
  method Relax(g: Graph, ghost s: string, e: string, cur: string, nbrs: seq<string>,
               dist: map<string, int>, preds: map<string, seq<string>>, queue: seq<string>, found: int,
               ghost order: seq<string>, ghost h: int)
    returns (dist': map<string, int>, preds': map<string, seq<string>>, queue': seq<string>, found': int,
             ghost order': seq<string>)
    requires cur in g.adjacency && nbrs == g.adjacency[cur]
    requires Partial(g, s, e, cur, nbrs, 0, dist, order, h, dist, preds, found, order)
    requires queue == order[h..]
    ensures Partial(g, s, e, cur, nbrs, |nbrs|, dist, order, h, dist', preds', found', order')
    ensures queue' == order'[h..]
  {
    dist', preds', queue', found', order' := dist, preds, queue, found, order;
    for j := 0 to |nbrs|
      invariant Partial(g, s, e, cur, nbrs, j, dist, order, h, dist', preds', found', order')
      invariant queue' == order'[h..]
    {
      dist', preds', queue', found', order' := Look(g, s, e, cur, nbrs, j, dist, order, h, dist', preds', queue', found', order');
    }
  }

  /** Expanding one polled actor (Graph.java:298-312); an actor without an
      adjacency list is skipped. */
  method Visit(g: Graph, s: string, e: string, cur: string,
               dist: map<string, int>, preds: map<string, seq<string>>, queue: seq<string>, found: int,
               ghost order: seq<string>, ghost h: int)
    returns (dist': map<string, int>, preds': map<string, seq<string>>, queue': seq<string>, found': int,
             ghost order': seq<string>)
    requires 1 <= h <= |order| && order[h - 1] == cur && queue == order[h..]
    requires Frontier(g, s, e, dist, preds, found, order, h - 1)
    requires found == -1 || dist[cur] + 1 <= found
    ensures Frontier(g, s, e, dist', preds', found', order', h)
    ensures queue' == order'[h..]
    ensures dist.Keys <= dist'.Keys <= dist.Keys + Nodes(g)
    ensures |order| <= |order'| && (|order'| > |order| ==> dist.Keys < dist'.Keys)
    ensures |order'| == |order| ==> dist'.Keys == dist.Keys
  {
    if cur !in g.adjacency {
      FrontierSkip(g, s, e, dist, preds, found, order, h);
      return dist, preds, queue, found, order;
    }
    var nbrs := g.adjacency[cur];
    PartialStart(g, s, e, cur, nbrs, dist, preds, found, order, h);
    dist', preds', queue', found', order' := Relax(g, s, e, cur, nbrs, dist, preds, queue, found, order, h);
    PartialEnd(g, s, e, cur, nbrs, dist, order, h, dist', preds', found', order');
    KeysSame(s, cur, nbrs, dist, order, h, dist', order');
  }

  /** Once the queue is empty, every reached actor has been expanded. */
  lemma FrontierComplete(g: Graph, s: string, e: string, dist: map<string, int>, preds: map<string, seq<string>>,
                         found: int, order: seq<string>)
    requires Frontier(g, s, e, dist, preds, found, order, |order|)
    ensures Complete(g, dist, preds)
  {
    forall u, v | u in dist && Adjacent(g, u, v)
      ensures v in dist && dist[v] <= dist[u] + 1 && (dist[v] == dist[u] + 1 ==> v in preds && u in preds[v])
    {
      var i :| 0 <= i < |order| && order[i] == u;
    }
  }

  /** When the actor at the head of the queue is at distance d or more,
      every actor closer than d has been expanded. */
  lemma FrontierLayered(g: Graph, s: string, e: string, dist: map<string, int>, preds: map<string, seq<string>>,
                        found: int, order: seq<string>, h: int, d: int)
    requires Frontier(g, s, e, dist, preds, found, order, h)
    requires h == |order| || dist[order[h]] >= d
    ensures Layered(g, dist, preds, d)
  {
    forall u, v | u in dist && dist[u] < d && Adjacent(g, u, v)
      ensures v in dist && dist[v] <= dist[u] + 1 && (dist[v] == dist[u] + 1 ==> v in preds && u in preds[v])
    {
      var i :| 0 <= i < |order| && order[i] == u;
    }
  }

  lemma FewerLeft(u: set<string>, a: set<string>, b: set<string>)
    requires a < b <= u
    ensures |u - b| < |u - a|
  {
    var x :| x in b && x !in a;
    var smaller := (u - a) - {x};
    assert u - b <= smaller;
    assert u - a == smaller + {x};
    assert |u - b| <= |smaller| by {
      assert smaller == (u - b) + (smaller - (u - b));
    }
  }

  /** What the search knows when it stops: the queue is empty or its head
      is at the end's layer. */
  lemma Finish(g: Graph, s: string, e: string, dist: map<string, int>, preds: map<string, seq<string>>,
               found: int, order: seq<string>, h: int)
    requires s != e && Frontier(g, s, e, dist, preds, found, order, h)
    requires h == |order| || (found != -1 && dist[order[h]] + 1 > found)
    ensures found == -1 ==> e !in dist && Complete(g, dist, preds) && Unreachable(g, s, e)
    ensures found != -1 ==> e in dist && dist[e] == found && found >= 1
    ensures found != -1 ==> Layered(g, dist, preds, found) && NoShorterWalk(g, s, e, found)
  {
    if found == -1 {
      FrontierComplete(g, s, e, dist, preds, found, order);
      MissedIsUnreachable(g, s, e, dist, preds);
    } else {
      FrontierLayered(g, s, e, dist, preds, found, order, h, found);
      FoundIsShortest(g, s, e, dist, preds, found);
    }
  }

  /** The breadth-first phase of findAllShortestPaths (Graph.java:284-315):
      the distance of each reached actor, its predecessor lists, and the
      distance at which the end was found or -1. Each reached actor's
      predecessors are the neighbours one layer closer; when the end is
      found, every actor closer than it has been expanded, so the lists of
      all actors up to the end's layer are complete and no walk to the end
      is shorter; when it is not, the search has exhausted everything
      reachable from the start. */
  method Explore(g: Graph, s: string, e: string) returns (dist: map<string, int>, preds: map<string, seq<string>>, found: int)
    requires s != e
    ensures PredDag(g, s, dist, preds)
    ensures found == -1 ==> e !in dist && Complete(g, dist, preds) && Unreachable(g, s, e)
    ensures found != -1 ==> e in dist && dist[e] == found && found >= 1
    ensures found != -1 ==> Layered(g, dist, preds, found) && NoShorterWalk(g, s, e, found)
    ensures UniqueLists(g) ==> UniquePreds(preds)
  {
    dist := map[s := 0];
    preds := map[];
    found := -1;
    var queue := [s];
    ghost var order := [s];
    ghost var h := 0;
    ghost var all := {s} + Nodes(g);
    while |queue| > 0
      invariant Frontier(g, s, e, dist, preds, found, order, h)
      invariant queue == order[h..]
      invariant dist.Keys <= all
      decreases |all - dist.Keys|, |queue|
    {
      var cur := queue[0];
      if found != -1 && dist[cur] + 1 > found {
        break;
      }
      assert order[h] == cur;
      queue := queue[1..];
      h := h + 1;
      ghost var keys, n := dist.Keys, |order|;
      dist, preds, queue, found, order := Visit(g, s, e, cur, dist, preds, queue, found, order, h);
      if |order| > n {
        FewerLeft(all, keys, dist.Keys);
      } else {
        assert |queue| == n - h;
      }
    }
    Finish(g, s, e, dist, preds, found, order, h);
  }
}
