/** Walks along the adjacency lists of a graph, and what "shortest" means
    for them. */
module Walks {
  import opened CastGraph

  /** w follows adjacency lists from its first node to its last. */
  predicate IsWalk(g: Graph, w: seq<string>) {
    |w| >= 1 && forall k | 0 <= k < |w| - 1 :: Adjacent(g, w[k], w[k + 1])
  }

  /** w is a walk from s to e. */
  predicate Connects(g: Graph, w: seq<string>, s: string, e: string) {
    IsWalk(g, w) && w[0] == s && w[|w| - 1] == e
  }

  /** Every walk from s to e takes at least n steps. */
  ghost predicate NoShorterWalk(g: Graph, s: string, e: string, n: int) {
    forall w | Connects(g, w, s, e) :: |w| - 1 >= n
  }

  /** No walk leads from s to e. */
  ghost predicate Unreachable(g: Graph, s: string, e: string) {
    forall w :: !Connects(g, w, s, e)
  }

  /** w is a walk from s to e and none is shorter. */
  ghost predicate IsShortestWalk(g: Graph, w: seq<string>, s: string, e: string) {
    Connects(g, w, s, e) && NoShorterWalk(g, s, e, |w| - 1)
  }

  lemma WalkPrefix(g: Graph, w: seq<string>, n: nat)
    requires IsWalk(g, w) && 1 <= n <= |w|
    ensures IsWalk(g, w[..n])
  {
  }

  lemma WalkSuffix(g: Graph, w: seq<string>, n: nat)
    requires IsWalk(g, w) && n < |w|
    ensures IsWalk(g, w[n..])
  {
    forall k | 0 <= k < |w[n..]| - 1 ensures Adjacent(g, w[n..][k], w[n..][k + 1]) {
      assert w[n..][k] == w[n + k] && w[n..][k + 1] == w[n + k + 1];
    }
  }

  /** Two walks that meet glue into one. */
  lemma WalkGlue(g: Graph, u: seq<string>, w: seq<string>)
    requires IsWalk(g, u) && IsWalk(g, w) && u[|u| - 1] == w[0]
    ensures IsWalk(g, u + w[1..])
  {
    var r := u + w[1..];
    forall k | 0 <= k < |r| - 1 ensures Adjacent(g, r[k], r[k + 1]) {
      if k < |u| - 1 {
      } else if k == |u| - 1 {
        assert r[k] == w[0] && r[k + 1] == w[1];
      } else {
        assert r[k] == w[k - |u| + 1] && r[k + 1] == w[k - |u| + 2];
      }
    }
  }
}
