/** Graph.findAllShortestPaths: after the breadth-first phase, a
    depth-first walk down the predecessor lists from the end actor collects
    up to maxPaths paths, each listed from the end back to the start, and
    each is formatted as a path block. */
module AllPaths {
  import opened Text
  import opened Optional
  import opened CastGraph
  import opened Walks
  import opened Bfs
  import opened PathBlock
  import opened Sentinels

  // ---------------------------------------------------------------------
  // Predecessor chains
  // ---------------------------------------------------------------------

  /** Every chain from v down to the start, without v itself, in the order
      the depth-first walk meets them: the chains through v's first
      predecessor, then through its second, and so on. */
  ghost function Chains(g: Graph, s: string, dist: map<string, int>, preds: map<string, seq<string>>, v: string): seq<seq<string>>
    requires PredDag(g, s, dist, preds) && v in dist
    decreases dist[v], 1, 0
  {
    if v == s then [[]] else ChainsVia(g, s, dist, preds, preds[v], dist[v])
  }

  /** The chains through each of ps in turn, one step below layer d. */
  ghost function ChainsVia(g: Graph, s: string, dist: map<string, int>, preds: map<string, seq<string>>, ps: seq<string>, d: int): seq<seq<string>>
    requires PredDag(g, s, dist, preds)
    requires forall p | p in ps :: p in dist && dist[p] < d
    decreases d, 0, |ps|
  {
    if |ps| == 0 then []
    else
      var p := ps[|ps| - 1];
      ChainsVia(g, s, dist, preds, ps[..|ps| - 1], d) + Prefixed(p, Chains(g, s, dist, preds, p))
  }

  /** Each chain with p in front. */
  function Prefixed(p: string, cs: seq<seq<string>>): (r: seq<seq<string>>)
    ensures |r| == |cs| && forall k | 0 <= k < |cs| :: r[k] == [p] + cs[k]
  {
    seq(|cs|, k requires 0 <= k < |cs| => [p] + cs[k])
  }

  /** x steps down predecessor lists from x[0] and ends at the start. */
  ghost predicate PredChain(s: string, preds: map<string, seq<string>>, x: seq<string>) {
    && |x| >= 1 && x[|x| - 1] == s
    && forall k | 0 <= k < |x| - 1 :: x[k] in preds && x[k + 1] in preds[x[k]]
  }

  lemma ViaMembers(g: Graph, s: string, dist: map<string, int>, preds: map<string, seq<string>>, ps: seq<string>, d: int, c: seq<string>)
    requires PredDag(g, s, dist, preds)
    requires forall p | p in ps :: p in dist && dist[p] < d
    requires c in ChainsVia(g, s, dist, preds, ps, d)
    ensures |c| >= 1 && c[0] in ps && c[1..] in Chains(g, s, dist, preds, c[0])
    decreases |ps|
  {
    var p := ps[|ps| - 1];
    var front := ChainsVia(g, s, dist, preds, ps[..|ps| - 1], d);
    if c in front {
      ViaMembers(g, s, dist, preds, ps[..|ps| - 1], d, c);
    } else {
      var cs := Chains(g, s, dist, preds, p);
      var k :| 0 <= k < |cs| && c == [p] + cs[k];
      assert c[1..] == cs[k];
    }
  }

  /** Every chain is a predecessor chain as long as the distance says. */
  lemma {:induction false} ChainsArePredChains(g: Graph, s: string, dist: map<string, int>, preds: map<string, seq<string>>, v: string, c: seq<string>)
    requires PredDag(g, s, dist, preds) && v in dist
    requires c in Chains(g, s, dist, preds, v)
    ensures PredChain(s, preds, [v] + c) && |c| == dist[v]
    decreases dist[v]
  {
    if v != s {
      ViaMembers(g, s, dist, preds, preds[v], dist[v], c);
      var p := c[0];
      ChainsArePredChains(g, s, dist, preds, p, c[1..]);
      var x := [v] + c;
      assert x[1..] == [p] + c[1..];
      forall k | 0 <= k < |x| - 1 ensures x[k] in preds && x[k + 1] in preds[x[k]] {
        if k > 0 {
          assert x[k] == x[1..][k - 1] && x[k + 1] == x[1..][k];
        }
      }
    }
  }

  /** Read backwards, a predecessor chain is a walk from the start. */
  lemma PredChainIsWalk(g: Graph, s: string, dist: map<string, int>, preds: map<string, seq<string>>, x: seq<string>)
    requires PredDag(g, s, dist, preds) && PredChain(s, preds, x)
    ensures Connects(g, Reverse(x), s, x[0])
  {
    var w := Reverse(x);
    forall k | 0 <= k < |w| - 1 ensures Adjacent(g, w[k], w[k + 1]) {
      var i := |x| - 2 - k;
      assert w[k] == x[i + 1] && w[k + 1] == x[i];
    }
  }

  /** Every chain, read backwards from v, is a shortest walk from the
      start, while v is no further than the expanded depth. */
  lemma ChainsAreShortest(g: Graph, s: string, dist: map<string, int>, preds: map<string, seq<string>>, d: int, v: string, c: seq<string>)
    requires PredDag(g, s, dist, preds) && Layered(g, dist, preds, d)
    requires v in dist && dist[v] <= d
    requires c in Chains(g, s, dist, preds, v)
    ensures IsShortestWalk(g, Reverse([v] + c), s, v)
  {
    ChainsArePredChains(g, s, dist, preds, v, c);
    PredChainIsWalk(g, s, dist, preds, [v] + c);
    DistIsShortest(g, s, dist, preds, d, v);
  }

  lemma ViaHas(g: Graph, s: string, dist: map<string, int>, preds: map<string, seq<string>>, ps: seq<string>, d: int, p: string, c: seq<string>)
    requires PredDag(g, s, dist, preds)
    requires forall q | q in ps :: q in dist && dist[q] < d
    requires p in ps && c in Chains(g, s, dist, preds, p)
    ensures [p] + c in ChainsVia(g, s, dist, preds, ps, d)
    decreases |ps|
  {
    var q := ps[|ps| - 1];
    if p == q {
      var cs := Chains(g, s, dist, preds, p);
      var k :| 0 <= k < |cs| && cs[k] == c;
      assert Prefixed(p, cs)[k] == [p] + c;
    } else {
      assert p in ps[..|ps| - 1] by {
        var i :| 0 <= i < |ps| && ps[i] == p;
        assert ps[..|ps| - 1][i] == p;
      }
      ViaHas(g, s, dist, preds, ps[..|ps| - 1], d, p, c);
    }
  }

  /** Every shortest walk from the start to v, read backwards, is one of
      v's chains, while v is no further than the expanded depth. */
  lemma {:induction false} ShortestAreChains(g: Graph, s: string, dist: map<string, int>, preds: map<string, seq<string>>, d: int, v: string, w: seq<string>)
    requires PredDag(g, s, dist, preds) && Layered(g, dist, preds, d)
    requires v in dist && dist[v] <= d
    requires Connects(g, w, s, v) && |w| - 1 == dist[v]
    ensures Reverse(w)[1..] in Chains(g, s, dist, preds, v)
    decreases |w|
  {
    if |w| == 1 {
      assert Reverse(w)[1..] == [];
    } else {
      var u := w[|w| - 2];
      var w' := w[..|w| - 1];
      WalkPrefix(g, w, |w| - 1);
      WalkBound(g, s, dist, preds, d, w');
      assert Adjacent(g, u, v);
      ShortestAreChains(g, s, dist, preds, d, u, w');
      assert Reverse(w)[1..] == [u] + Reverse(w')[1..] by {
        assert Reverse(w)[1..] == Reverse(w');
      }
      ViaHas(g, s, dist, preds, preds[v], dist[v], u, Reverse(w')[1..]);
    }
  }

  lemma NoDuplicatesAppend(a: seq<seq<string>>, b: seq<seq<string>>)
    requires NoDuplicates(a) && NoDuplicates(b)
    requires forall x | x in a :: x !in b
    ensures NoDuplicates(a + b)
  {
    var ab := a + b;
    forall i, j | 0 <= i < j < |ab| ensures ab[i] != ab[j] {
      if j < |a| {
        assert ab[i] == a[i] && ab[j] == a[j];
      } else if i >= |a| {
        assert ab[i] == b[i - |a|] && ab[j] == b[j - |a|];
      } else {
        assert ab[i] == a[i] && ab[j] == b[j - |a|];
        assert a[i] in a;
      }
    }
  }

  lemma PrefixedDistinct(p: string, cs: seq<seq<string>>)
    requires NoDuplicates(cs)
    ensures NoDuplicates(Prefixed(p, cs))
  {
    var r := Prefixed(p, cs);
    forall i, j | 0 <= i < j < |r| ensures r[i] != r[j] {
      assert r[i][1..] == cs[i] && r[j][1..] == cs[j];
    }
  }

  /** With duplicate-free lists, no chain is collected twice. */
  lemma {:induction false} ChainsDistinct(g: Graph, s: string, dist: map<string, int>, preds: map<string, seq<string>>, v: string)
    requires PredDag(g, s, dist, preds) && UniquePreds(preds) && v in dist
    ensures NoDuplicates(Chains(g, s, dist, preds, v))
    decreases dist[v], 1, 0
  {
    if v != s {
      ViaDistinct(g, s, dist, preds, preds[v], dist[v]);
    }
  }

  lemma {:induction false} ViaDistinct(g: Graph, s: string, dist: map<string, int>, preds: map<string, seq<string>>, ps: seq<string>, d: int)
    requires PredDag(g, s, dist, preds) && UniquePreds(preds) && NoDuplicates(ps)
    requires forall p | p in ps :: p in dist && dist[p] < d
    ensures NoDuplicates(ChainsVia(g, s, dist, preds, ps, d))
    decreases d, 0, |ps|
  {
    if |ps| > 0 {
      var p := ps[|ps| - 1];
      var front := ps[..|ps| - 1];
      assert NoDuplicates(front) by {
        forall i, j | 0 <= i < j < |front| ensures front[i] != front[j] {
          assert front[i] == ps[i] && front[j] == ps[j];
        }
      }
      ViaDistinct(g, s, dist, preds, front, d);
      ChainsDistinct(g, s, dist, preds, p);
      PrefixedDistinct(p, Chains(g, s, dist, preds, p));
      forall x | x in ChainsVia(g, s, dist, preds, front, d) ensures x !in Prefixed(p, Chains(g, s, dist, preds, p)) {
        ViaMembers(g, s, dist, preds, front, d, x);
        var i :| 0 <= i < |front| && front[i] == x[0];
        assert ps[i] == x[0];
      }
      NoDuplicatesAppend(ChainsVia(g, s, dist, preds, front, d), Prefixed(p, Chains(g, s, dist, preds, p)));
    }
  }

  /** Every reached actor has at least one chain. */
  lemma {:induction false} ChainsExist(g: Graph, s: string, dist: map<string, int>, preds: map<string, seq<string>>, v: string)
    requires PredDag(g, s, dist, preds) && v in dist
    ensures |Chains(g, s, dist, preds, v)| >= 1
    decreases dist[v]
  {
    if v != s {
      var ps := preds[v];
      var p := ps[0];
      ChainsExist(g, s, dist, preds, p);
      var c := Chains(g, s, dist, preds, p)[0];
      ViaHas(g, s, dist, preds, ps, dist[v], p, c);
    }
  }

  // ---------------------------------------------------------------------
  // The depth-first walk
  // ---------------------------------------------------------------------

  lemma TakeAppend<T>(xs: seq<T>, ys: seq<T>, n: int)
    requires |xs| < n
    ensures Take(xs + ys, n) == xs + Take(ys, n - |xs|)
  {
    if |xs + ys| > n {
      assert (xs + ys)[..n] == xs + ys[..n - |xs|];
    }
  }

  lemma TakeFull<T>(xs: seq<T>, ys: seq<T>, n: int)
    requires |Take(xs, n)| == n
    ensures Take(xs + ys, n) == Take(xs, n)
  {
    assert (xs + ys)[..n] == xs[..n];
  }

  /** The paths the walk records for chains cs when the stack holds trail:
      the stack read from the bottom, followed by the chain. */
  function Emit(trail: seq<string>, cs: seq<seq<string>>): (r: seq<seq<string>>)
    ensures |r| == |cs| && forall k | 0 <= k < |cs| :: r[k] == Reverse(trail) + cs[k]
  {
    seq(|cs|, k requires 0 <= k < |cs| => Reverse(trail) + cs[k])
  }

  lemma ReverseCons(p: string, trail: seq<string>)
    ensures Reverse([p] + trail) == Reverse(trail) + [p]
  {
    assert Reverse([p] + trail) == Reverse(trail) + [p] by {
      var a, b := Reverse([p] + trail), Reverse(trail) + [p];
      assert |a| == |b|;
      forall i | 0 <= i < |a| ensures a[i] == b[i] {
        if i < |trail| {
          assert a[i] == ([p] + trail)[|trail| - i];
        }
      }
    }
  }

  lemma EmitPush(p: string, trail: seq<string>, cs: seq<seq<string>>)
    ensures Emit([p] + trail, cs) == Emit(trail, Prefixed(p, cs))
  {
    ReverseCons(p, trail);
    forall k | 0 <= k < |cs| ensures Emit([p] + trail, cs)[k] == Emit(trail, Prefixed(p, cs))[k] {
      assert (Reverse(trail) + [p]) + cs[k] == Reverse(trail) + ([p] + cs[k]);
    }
  }

  lemma EmitAppend(trail: seq<string>, a: seq<seq<string>>, b: seq<seq<string>>)
    ensures Emit(trail, a + b) == Emit(trail, a) + Emit(trail, b)
  {
  }

  /** The chains through a prefix of ps come first among the chains
      through all of ps. */
  lemma {:induction false} ViaPrefix(g: Graph, s: string, dist: map<string, int>, preds: map<string, seq<string>>, ps: seq<string>, d: int, i: int)
    requires PredDag(g, s, dist, preds)
    requires forall p | p in ps :: p in dist && dist[p] < d
    requires 0 <= i <= |ps|
    ensures ChainsVia(g, s, dist, preds, ps[..i], d) <= ChainsVia(g, s, dist, preds, ps, d)
    decreases |ps|
  {
    if i == |ps| {
      assert ps[..i] == ps;
    } else {
      var init := ps[..|ps| - 1];
      assert init[..i] == ps[..i];
      ViaPrefix(g, s, dist, preds, init, d, i);
    }
  }

  lemma EmitStart(g: Graph, s: string, dist: map<string, int>, preds: map<string, seq<string>>, trail: seq<string>)
    requires PredDag(g, s, dist, preds)
    ensures Emit(trail, Chains(g, s, dist, preds, s)) == [Reverse(trail)]
  {
    assert Chains(g, s, dist, preds, s) == [[]];
    assert Reverse(trail) + [] == Reverse(trail);
  }

  /** Walking on below the i-th predecessor adds that predecessor's chains
      behind the stack with it pushed. */
  lemma ViaStep(g: Graph, s: string, dist: map<string, int>, preds: map<string, seq<string>>, ps: seq<string>, d: int,
                i: int, trail: seq<string>)
    requires PredDag(g, s, dist, preds)
    requires forall p | p in ps :: p in dist && dist[p] < d
    requires 0 <= i < |ps|
    ensures Emit(trail, ChainsVia(g, s, dist, preds, ps[..i + 1], d))
         == Emit(trail, ChainsVia(g, s, dist, preds, ps[..i], d)) + Emit([ps[i]] + trail, Chains(g, s, dist, preds, ps[i]))
  {
    var p := ps[i];
    assert ps[..i + 1][..i] == ps[..i];
    EmitPush(p, trail, Chains(g, s, dist, preds, p));
    EmitAppend(trail, ChainsVia(g, s, dist, preds, ps[..i], d), Prefixed(p, Chains(g, s, dist, preds, p)));
  }

  /** Once the first i predecessors fill the collection, the rest add
      nothing. */
  lemma ViaStop(g: Graph, s: string, dist: map<string, int>, preds: map<string, seq<string>>, ps: seq<string>, d: int,
                i: int, trail: seq<string>, n: int)
    requires PredDag(g, s, dist, preds)
    requires forall p | p in ps :: p in dist && dist[p] < d
    requires 0 <= i <= |ps|
    requires |Take(Emit(trail, ChainsVia(g, s, dist, preds, ps[..i], d)), n)| == n
    ensures Take(Emit(trail, ChainsVia(g, s, dist, preds, ps, d)), n) == Take(Emit(trail, ChainsVia(g, s, dist, preds, ps[..i], d)), n)
  {
    ViaPrefix(g, s, dist, preds, ps, d, i);
    var all := ChainsVia(g, s, dist, preds, ps, d);
    var rest := all[|ChainsVia(g, s, dist, preds, ps[..i], d)|..];
    assert all == ChainsVia(g, s, dist, preds, ps[..i], d) + rest;
    EmitAppend(trail, ChainsVia(g, s, dist, preds, ps[..i], d), rest);
    TakeFull(Emit(trail, ChainsVia(g, s, dist, preds, ps[..i], d)), Emit(trail, rest), n);
  }

  /** findPathsDfs (Graph.java:331-348): stop once maxPaths paths are
      collected; at the start, record the stack read from the bottom and
      reversed; otherwise walk on below each predecessor. What it appends
      is the next of cur's chains, each behind the reversed stack, up to
      the limit. */
  method Dfs(ghost g: Graph, s: string, cur: string, preds: map<string, seq<string>>, trail: seq<string>,
             acc: seq<seq<string>>, maxPaths: int, ghost dist: map<string, int>)
    returns (acc': seq<seq<string>>)
    requires PredDag(g, s, dist, preds) && cur in dist
    ensures acc' == if |acc| >= maxPaths then acc
                    else acc + Take(Emit(trail, Chains(g, s, dist, preds, cur)), maxPaths - |acc|)
    decreases dist[cur], 2
  {
    if |acc| >= maxPaths {
      return acc;
    }
    if cur == s {
      EmitStart(g, s, dist, preds, trail);
      return acc + [Reverse(trail)];
    }
    acc' := DfsPreds(g, s, cur, preds, trail, acc, maxPaths, dist);
  }

  /** The predecessor loop of findPathsDfs (Graph.java:341-347): push each
      predecessor of cur in turn, walk on, pop, and stop as soon as the
      collection is full. */
  method DfsPreds(ghost g: Graph, s: string, cur: string, preds: map<string, seq<string>>, trail: seq<string>,
                  acc: seq<seq<string>>, maxPaths: int, ghost dist: map<string, int>)
    returns (acc': seq<seq<string>>)
    requires PredDag(g, s, dist, preds) && cur in dist && cur != s && |acc| < maxPaths
    ensures acc' == acc + Take(Emit(trail, Chains(g, s, dist, preds, cur)), maxPaths - |acc|)
    decreases dist[cur], 1
  {
    var ps := if cur in preds then preds[cur] else [];
    ghost var n := maxPaths - |acc|;
    acc' := acc;
    var i := 0;
    assert ChainsVia(g, s, dist, preds, ps[..0], dist[cur]) == [];
    assert acc' == acc + Emit(trail, []);
    while i < |ps|
      invariant 0 <= i <= |ps|
      invariant acc' == acc + Emit(trail, ChainsVia(g, s, dist, preds, ps[..i], dist[cur]))
      invariant |acc'| < maxPaths
    {
      acc' := DfsPred(g, s, cur, preds, trail, acc, acc', maxPaths, dist, ps, i);
      i := i + 1;
      if |acc'| >= maxPaths {
        ViaStop(g, s, dist, preds, ps, dist[cur], i, trail, n);
        return;
      }
    }
    assert ps[..i] == ps;
  }

  /** One turn of the predecessor loop: the i-th predecessor's chains are
      appended, up to the limit. */
  method DfsPred(ghost g: Graph, s: string, cur: string, preds: map<string, seq<string>>, trail: seq<string>,
                 ghost acc: seq<seq<string>>, done: seq<seq<string>>, maxPaths: int, ghost dist: map<string, int>,
                 ps: seq<string>, i: int)
    returns (acc': seq<seq<string>>)
    requires PredDag(g, s, dist, preds) && cur in dist && cur != s
    requires ps == if cur in preds then preds[cur] else []
    requires 0 <= i < |ps|
    requires done == acc + Emit(trail, ChainsVia(g, s, dist, preds, ps[..i], dist[cur])) && |done| < maxPaths
    ensures acc' == acc + Take(Emit(trail, ChainsVia(g, s, dist, preds, ps[..i + 1], dist[cur])), maxPaths - |acc|)
    ensures |acc'| < maxPaths ==> acc' == acc + Emit(trail, ChainsVia(g, s, dist, preds, ps[..i + 1], dist[cur]))
    decreases dist[cur], 0
  {
    var p := ps[i];
    ghost var n := maxPaths - |acc|;
    ghost var prev := Emit(trail, ChainsVia(g, s, dist, preds, ps[..i], dist[cur]));
    ghost var next := Emit([p] + trail, Chains(g, s, dist, preds, p));
    assert p in dist && dist[p] < dist[cur];
    acc' := Dfs(g, s, p, preds, [p] + trail, done, maxPaths, dist);
    ViaStep(g, s, dist, preds, ps, dist[cur], i, trail);
    TakeStep(acc, prev, next, Emit(trail, ChainsVia(g, s, dist, preds, ps[..i + 1], dist[cur])), n, acc');
  }

  /** Appending the next part up to what the limit leaves is taking from
      the whole up to the limit. */
  lemma TakeStep<T>(acc: seq<T>, prev: seq<T>, next: seq<T>, all: seq<T>, n: int, acc': seq<T>)
    requires all == prev + next && |prev| < n
    requires acc' == (acc + prev) + Take(next, n - |prev|)
    ensures acc' == acc + Take(all, n)
    ensures |acc'| < |acc| + n ==> acc' == acc + all
  {
    TakeAppend(prev, next, n);
  }

  // ---------------------------------------------------------------------
  // What the collected paths are
  // ---------------------------------------------------------------------

  /** The raw paths collected for the end actor: its chains with the end in
      front, so each runs from the end back to the start, up to the limit. */
  ghost function RawPaths(g: Graph, s: string, e: string, dist: map<string, int>, preds: map<string, seq<string>>, maxPaths: int): seq<seq<string>>
    requires PredDag(g, s, dist, preds) && e in dist
  {
    Take(Emit([e], Chains(g, s, dist, preds, e)), maxPaths)
  }

  lemma RawPathMember(g: Graph, s: string, e: string, dist: map<string, int>, preds: map<string, seq<string>>, maxPaths: int, x: seq<string>)
    requires PredDag(g, s, dist, preds) && e in dist
    requires x in RawPaths(g, s, e, dist, preds, maxPaths)
    ensures |x| >= 1 && x[0] == e && x[1..] in Chains(g, s, dist, preds, e)
  {
    var cs := Chains(g, s, dist, preds, e);
    var raw := RawPaths(g, s, e, dist, preds, maxPaths);
    var k :| 0 <= k < |raw| && raw[k] == x;
    assert x == Emit([e], cs)[k] == Reverse([e]) + cs[k];
    assert Reverse([e]) == [e];
  }

  /** Each raw path, read backwards, is a shortest walk from the start to
      the end. */
  lemma RawPathsShortest(g: Graph, s: string, e: string, dist: map<string, int>, preds: map<string, seq<string>>, maxPaths: int)
    requires PredDag(g, s, dist, preds) && e in dist && Layered(g, dist, preds, dist[e])
    ensures forall x | x in RawPaths(g, s, e, dist, preds, maxPaths) :: IsShortestWalk(g, Reverse(x), s, e)
  {
    forall x | x in RawPaths(g, s, e, dist, preds, maxPaths) ensures IsShortestWalk(g, Reverse(x), s, e) {
      RawPathMember(g, s, e, dist, preds, maxPaths, x);
      assert x == [e] + x[1..];
      ChainsAreShortest(g, s, dist, preds, dist[e], e, x[1..]);
    }
  }

  /** With duplicate-free lists, no raw path is collected twice. */
  lemma RawPathsDistinct(g: Graph, s: string, e: string, dist: map<string, int>, preds: map<string, seq<string>>, maxPaths: int)
    requires PredDag(g, s, dist, preds) && e in dist && UniquePreds(preds)
    ensures NoDuplicates(RawPaths(g, s, e, dist, preds, maxPaths))
  {
    var cs := Chains(g, s, dist, preds, e);
    ChainsDistinct(g, s, dist, preds, e);
    var em := Emit([e], cs);
    forall i, j | 0 <= i < j < |em| ensures em[i] != em[j] {
      assert em[i][1..] == cs[i] && em[j][1..] == cs[j];
    }
    var raw := RawPaths(g, s, e, dist, preds, maxPaths);
    forall i, j | 0 <= i < j < |raw| ensures raw[i] != raw[j] {
      assert raw[i] == em[i] && raw[j] == em[j];
    }
  }

  /** When fewer than maxPaths paths are collected, every shortest walk is
      among them, read backwards. */
  lemma RawPathsComplete(g: Graph, s: string, e: string, dist: map<string, int>, preds: map<string, seq<string>>, maxPaths: int, w: seq<string>)
    requires PredDag(g, s, dist, preds) && e in dist && Layered(g, dist, preds, dist[e])
    requires |RawPaths(g, s, e, dist, preds, maxPaths)| < maxPaths
    requires IsShortestWalk(g, w, s, e)
    ensures Reverse(w) in RawPaths(g, s, e, dist, preds, maxPaths)
  {
    var cs := Chains(g, s, dist, preds, e);
    DistIsShortest(g, s, dist, preds, dist[e], e);
    var pw := PredWalk(g, s, dist, preds, e);
    assert |w| - 1 == dist[e];
    ShortestAreChains(g, s, dist, preds, dist[e], e, w);
    var k :| 0 <= k < |cs| && cs[k] == Reverse(w)[1..];
    assert Reverse(w) == [e] + Reverse(w)[1..];
    assert Reverse([e]) == [e];
    assert Emit([e], cs)[k] == Reverse(w);
  }

  /** A positive limit collects at least one path for a reached end. */
  lemma RawPathsExist(g: Graph, s: string, e: string, dist: map<string, int>, preds: map<string, seq<string>>, maxPaths: int)
    requires PredDag(g, s, dist, preds) && e in dist && maxPaths >= 1
    ensures |RawPaths(g, s, e, dist, preds, maxPaths)| >= 1
  {
    ChainsExist(g, s, dist, preds, e);
  }

  /** What the depth-first phase hands over, once the end is reached at
      layer dist[e] and everything closer has been expanded. */
  lemma RawPathsFacts(g: Graph, s: string, e: string, dist: map<string, int>, preds: map<string, seq<string>>, maxPaths: int)
    requires PredDag(g, s, dist, preds) && e in dist && Layered(g, dist, preds, dist[e])
    requires UniqueLists(g) ==> UniquePreds(preds)
    ensures var raw := RawPaths(g, s, e, dist, preds, maxPaths);
            && |raw| <= (if maxPaths <= 0 then 0 else maxPaths)
            && (maxPaths >= 1 ==> |raw| >= 1)
            && (forall x | x in raw :: IsShortestWalk(g, Reverse(x), s, e))
            && (UniqueLists(g) ==> NoDuplicates(raw))
            && (|raw| < maxPaths ==> forall w | IsShortestWalk(g, w, s, e) :: Reverse(w) in raw)
            && !Unreachable(g, s, e)
  {
    var raw := RawPaths(g, s, e, dist, preds, maxPaths);
    RawPathsShortest(g, s, e, dist, preds, maxPaths);
    if UniqueLists(g) {
      RawPathsDistinct(g, s, e, dist, preds, maxPaths);
    }
    if maxPaths >= 1 {
      RawPathsExist(g, s, e, dist, preds, maxPaths);
    }
    if |raw| < maxPaths {
      forall w | IsShortestWalk(g, w, s, e) ensures Reverse(w) in raw {
        RawPathsComplete(g, s, e, dist, preds, maxPaths, w);
      }
    }
    assert Connects(g, PredWalk(g, s, dist, preds, e), s, e);
  }

  /** The formatting loop of Graph.java:324-327: one block per raw path,
      none of them mistakable for a one-line answer. */
  method FormatAll(g: Graph, raw: seq<seq<string>>, startId: string, endId: string)
    returns (out: seq<string>, ghost blocks: seq<PathBlock>)
    ensures |out| == |raw|
    ensures forall k | 0 <= k < |out| :: out[k] != NoPath && out[k] != InvalidIds && out[k] != UnknownIds
    ensures |blocks| == |raw|
    ensures forall k | 0 <= k < |raw| :: out[k] == Render(blocks[k]) && Describes(g, blocks[k], raw[k], startId, endId)
  {
    out, blocks := [], [];
    for i := 0 to |raw|
      invariant |out| == |blocks| == i
      invariant forall k | 0 <= k < i :: out[k] == Render(blocks[k]) && Describes(g, blocks[k], raw[k], startId, endId)
      invariant forall k | 0 <= k < i :: out[k] != NoPath && out[k] != InvalidIds && out[k] != UnknownIds
    {
      var text, b := FormatPath(g, raw[i], startId, endId);
      RenderIsNoSentinel(b);
      out, blocks := out + [text], blocks + [b];
    }
  }

  // ---------------------------------------------------------------------
  // The query
  // ---------------------------------------------------------------------

  /** findAllShortestPaths (Graph.java:279-329). The argument checks answer
      first; otherwise the answer is "No path found." exactly when the end
      cannot be reached or the limit is below one, and else one block per
      collected path, at most maxPaths of them, each describing a path that
      runs from the end back to the start and is a shortest walk read
      backwards; no path comes twice when adjacency lists hold each
      neighbour once, and when fewer than maxPaths come back, every
      shortest walk is among them. */
  method FindAllShortestPaths(g: Graph, startId: string, endId: string, maxPaths: int)
    returns (out: seq<string>, ghost paths: seq<seq<string>>, ghost blocks: seq<PathBlock>)
    ensures Screen(g, startId, endId).Some? ==> out == [Screen(g, startId, endId).value] && paths == []
    ensures Screen(g, startId, endId).None? ==>
              (out == [NoPath] <==> Unreachable(g, startId, endId) || maxPaths <= 0)
    ensures out == [NoPath] ==> paths == []
    ensures Screen(g, startId, endId).None? && out != [NoPath] ==> paths != []
    ensures paths != [] ==> |out| == |paths| == |blocks| <= maxPaths
    ensures forall i | 0 <= i < |paths| && i < |blocks| && i < |out| ::
              out[i] == Render(blocks[i]) && Describes(g, blocks[i], paths[i], startId, endId)
    ensures forall x | x in paths :: IsShortestWalk(g, Reverse(x), startId, endId)
    ensures UniqueLists(g) ==> NoDuplicates(paths)
    ensures Screen(g, startId, endId).None? && |paths| < maxPaths ==>
              forall w | IsShortestWalk(g, w, startId, endId) :: Reverse(w) in paths
  {
    var screened := Screen(g, startId, endId);
    if screened.Some? {
      return [screened.value], [], [];
    }
    var dist, preds, found := Explore(g, startId, endId);
    if found == -1 {
      return [NoPath], [], [];
    }
    var raw := Dfs(g, startId, endId, preds, [endId], [], maxPaths, dist);
    assert raw == RawPaths(g, startId, endId, dist, preds, maxPaths) by {
      var em := Emit([endId], Chains(g, startId, dist, preds, endId));
      assert [] + Take(em, maxPaths - 0) == Take(em, maxPaths);
    }
    RawPathsFacts(g, startId, endId, dist, preds, maxPaths);
    out, blocks := FormatAll(g, raw, startId, endId);
    paths := raw;
    if |out| == 0 {
      out := [NoPath];
    } else {
      RenderIsNoSentinel(blocks[0]);
    }
  }
}
