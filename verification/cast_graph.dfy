/** The edge pass of Graph.loadCastData and the lookups the path formatter
    makes: two actors are neighbours exactly when some movie lists both. */
module CastGraph {
  import opened Text
  import opened Optional
  import opened CastRows

  /** The four maps a built graph holds (Graph.java:14-17). */
  datatype Graph = Graph(
    adjacency: map<string, seq<string>>,
    actorNames: map<string, string>,
    movieTitles: map<string, string>,
    actorMovies: map<string, set<string>>)

  /** b is on a's adjacency list. */
  predicate Adjacent(g: Graph, a: string, b: string) {
    a in g.adjacency && b in g.adjacency[a]
  }

  /** Some movie of actor a is also a movie of actor b. */
  ghost predicate SharesMovie(g: Graph, a: string, b: string) {
    exists m :: Holds(g.actorMovies, a, m) && Holds(g.actorMovies, b, m)
  }

  /** Two different actors that one movie set lists. */
  ghost predicate CoStars(movieActors: map<string, set<string>>, a: string, b: string) {
    a != b && exists m :: Holds(movieActors, m, a) && Holds(movieActors, m, b)
  }

  /** The shape every graph built from a cast file has. */
  ghost predicate WellFormed(g: Graph) {
    && (forall a, b :: Adjacent(g, a, b) ==> Adjacent(g, b, a))
    && (forall a :: !Adjacent(g, a, a))
    && (forall a | a in g.adjacency :: NoDuplicates(g.adjacency[a]) && |g.adjacency[a]| > 0)
    && (forall a, b :: Adjacent(g, a, b) <==> a != b && SharesMovie(g, a, b))
    && g.actorNames.Keys == g.actorMovies.Keys
    && (forall a, m | Holds(g.actorMovies, a, m) :: m in g.movieTitles)
  }

  // ---------------------------------------------------------------------
  // One movie's actors: the i < j pair loop (Graph.java:123-133)
  // ---------------------------------------------------------------------

  /** Both directions of one edge. */
  function Link(n: map<string, set<string>>, a: string, b: string): map<string, set<string>> {
    AddTo(AddTo(n, a, b), b, a)
  }

  /** The inner loop for outer index i up to (not including) inner index j. */
  function Star(n: map<string, set<string>>, arr: seq<string>, i: nat, j: nat): map<string, set<string>>
    requires i < |arr| && j <= |arr|
  {
    if j <= i + 1 then n else Link(Star(n, arr, i, j - 1), arr[i], arr[j - 1])
  }

  /** The first i rounds of the outer loop. */
  function Clique(n: map<string, set<string>>, arr: seq<string>, i: nat): map<string, set<string>>
    requires i <= |arr|
  {
    if i == 0 then n else Star(Clique(n, arr, i - 1), arr, i - 1, |arr|)
  }

  /** arr[x] and arr[y] form a pair of the loop, in either order. */
  predicate PairAt(arr: seq<string>, x: int, y: int, a: string, b: string) {
    0 <= x < y < |arr| && ((a == arr[x] && b == arr[y]) || (b == arr[x] && a == arr[y]))
  }

  lemma {:induction false} StarHolds(n: map<string, set<string>>, arr: seq<string>, i: nat, j: nat)
    requires i < |arr| && j <= |arr|
    ensures forall a, b :: Holds(Star(n, arr, i, j), a, b) <==>
              Holds(n, a, b) || exists y | y < j :: PairAt(arr, i, y, a, b)
  {
    if j > i + 1 {
      StarHolds(n, arr, i, j - 1);
      LinkHolds(Star(n, arr, i, j - 1), arr[i], arr[j - 1]);
      forall a, b ensures Holds(Star(n, arr, i, j), a, b) <==>
        Holds(n, a, b) || exists y | y < j :: PairAt(arr, i, y, a, b)
      {
        if PairAt(arr, i, j - 1, a, b) {
        } else if exists y | y < j :: PairAt(arr, i, y, a, b) {
          var y :| y < j && PairAt(arr, i, y, a, b);
          assert y < j - 1;
        }
      }
    }
  }

  lemma LinkHolds(n: map<string, set<string>>, x: string, y: string)
    ensures forall a, b :: Holds(Link(n, x, y), a, b) <==>
              Holds(n, a, b) || (a == x && b == y) || (a == y && b == x)
  {
  }

  lemma {:induction false} CliqueHolds(n: map<string, set<string>>, arr: seq<string>, i: nat)
    requires i <= |arr|
    ensures forall a, b :: Holds(Clique(n, arr, i), a, b) <==>
              Holds(n, a, b) || exists x, y | x < i :: PairAt(arr, x, y, a, b)
  {
    if i > 0 {
      CliqueHolds(n, arr, i - 1);
      StarHolds(Clique(n, arr, i - 1), arr, i - 1, |arr|);
      forall a, b ensures Holds(Clique(n, arr, i), a, b) <==>
        Holds(n, a, b) || exists x, y | x < i :: PairAt(arr, x, y, a, b)
      {
        if exists x, y | x < i :: PairAt(arr, x, y, a, b) {
          var x, y :| x < i && PairAt(arr, x, y, a, b);
          if x < i - 1 {
            assert exists x, y | x < i - 1 :: PairAt(arr, x, y, a, b);
          } else {
            assert PairAt(arr, i - 1, y, a, b);
          }
        }
      }
    }
  }

  /** On a duplicate-free array the pair loop links exactly the distinct
      members. */
  lemma CliqueLinksMembers(n: map<string, set<string>>, arr: seq<string>)
    requires NoDuplicates(arr)
    ensures forall a, b :: Holds(Clique(n, arr, |arr|), a, b) <==>
              Holds(n, a, b) || (a in arr && b in arr && a != b)
  {
    CliqueHolds(n, arr, |arr|);
    forall a, b | a in arr && b in arr && a != b
      ensures exists x, y | x < |arr| :: PairAt(arr, x, y, a, b)
    {
      var xa :| 0 <= xa < |arr| && arr[xa] == a;
      var xb :| 0 <= xb < |arr| && arr[xb] == b;
      if xa < xb {
        assert PairAt(arr, xa, xb, a, b);
      } else {
        assert PairAt(arr, xb, xa, a, b);
      }
    }
  }

  /** The nested i < j loop over one movie's actor array. */
  method AddPairs(n: map<string, set<string>>, arr: seq<string>) returns (r: map<string, set<string>>)
    requires NoDuplicates(arr)
    ensures forall a, b :: Holds(r, a, b) <==> Holds(n, a, b) || (a in arr && b in arr && a != b)
    ensures (forall a | a in n :: n[a] != {}) ==> forall a | a in r :: r[a] != {}
  {
    r := n;
    for i := 0 to |arr|
      invariant r == Clique(n, arr, i)
      invariant (forall a | a in n :: n[a] != {}) ==> forall a | a in r :: r[a] != {}
    {
      r := AddStar(r, arr, i);
    }
    CliqueLinksMembers(n, arr);
  }

  /** The inner loop for one outer index i: arr[i] linked with every later
      actor of the array. */
  method AddStar(n: map<string, set<string>>, arr: seq<string>, i: nat) returns (r: map<string, set<string>>)
    requires i < |arr|
    ensures r == Star(n, arr, i, |arr|)
    ensures (forall a | a in n :: n[a] != {}) ==> forall a | a in r :: r[a] != {}
  {
    r := n;
    for j := i + 1 to |arr|
      invariant r == Star(n, arr, i, j)
      invariant (forall a | a in n :: n[a] != {}) ==> forall a | a in r :: r[a] != {}
    {
      r := Link(r, arr[i], arr[j]);
    }
  }

  // ---------------------------------------------------------------------
  // Hash iteration
  // ---------------------------------------------------------------------

  /** A set's elements in some order, each once (toArray, new ArrayList,
      iteration of a HashSet). */
  method SetToSeq(s: set<string>) returns (r: seq<string>)
    ensures NoDuplicates(r)
    ensures forall x :: x in r <==> x in s
  {
    r := [];
    var rest := s;
    while rest != {}
      invariant rest <= s
      invariant NoDuplicates(r)
      invariant forall x :: x in r <==> x in s && x !in rest
      decreases |rest|
    {
      var x :| x in rest;
      r := r + [x];
      rest := rest - {x};
    }
  }

  // ---------------------------------------------------------------------
  // The whole edge pass (Graph.java:119-142)
  // ---------------------------------------------------------------------

  /** Runs the pair loop over every movie, in hash order. */
  method BuildNeighbourSets(movieActors: map<string, set<string>>) returns (n: map<string, set<string>>)
    ensures forall a, b :: Holds(n, a, b) <==> CoStars(movieActors, a, b)
    ensures forall a | a in n :: n[a] != {}
  {
    n := map[];
    var todo := movieActors.Keys;
    while todo != {}
      invariant todo <= movieActors.Keys
      invariant forall a, b :: Holds(n, a, b) <==>
                  a != b && exists m | m in movieActors && m !in todo :: a in movieActors[m] && b in movieActors[m]
      invariant forall a | a in n :: n[a] != {}
      decreases |todo|
    {
      var m :| m in todo;
      var arr := SetToSeq(movieActors[m]);
      n := AddPairs(n, arr);
      todo := todo - {m};
      forall a, b ensures Holds(n, a, b) <==>
        a != b && exists m' | m' in movieActors && m' !in todo :: a in movieActors[m'] && b in movieActors[m']
      {
        if a != b && a in movieActors[m] && b in movieActors[m] {
          assert a in arr && b in arr;
        }
      }
    }
    forall a, b | Holds(n, a, b) ensures CoStars(movieActors, a, b) {
      var m :| m in movieActors && m !in todo && a in movieActors[m] && b in movieActors[m];
      assert Holds(movieActors, m, a) && Holds(movieActors, m, b);
    }
    forall a, b | CoStars(movieActors, a, b) ensures Holds(n, a, b) {
      var m :| Holds(movieActors, m, a) && Holds(movieActors, m, b);
      assert m in movieActors && m !in todo;
    }
  }

  /** Each neighbour set as a duplicate-free list (new ArrayList<>(set)). */
  method BuildAdjacency(n: map<string, set<string>>) returns (adj: map<string, seq<string>>)
    ensures adj.Keys == n.Keys
    ensures forall a | a in adj :: NoDuplicates(adj[a]) && (forall b :: b in adj[a] <==> b in n[a])
  {
    adj := map[];
    var todo := n.Keys;
    while todo != {}
      invariant todo <= n.Keys
      invariant adj.Keys == n.Keys - todo
      invariant forall a | a in adj :: NoDuplicates(adj[a]) && (forall b :: b in adj[a] <==> b in n[a])
      decreases |todo|
    {
      var a :| a in todo;
      var list := SetToSeq(n[a]);
      adj := adj[a := list];
      todo := todo - {a};
    }
  }

  /** Graph.loadCastData on the lines of a cast file: None when a record
      lists fewer names than ids. */
  method BuildGraph(lines: seq<string>) returns (g: Option<Graph>)
    ensures g.Some? <==> NoneThrows(CastFileRows(lines))
    ensures g.Some? ==> WellFormed(g.value)
    ensures g.Some? ==> forall a, b :: Adjacent(g.value, a, b) <==>
              a != b && exists m :: Credits(CastFileRows(lines), a, m) && Credits(CastFileRows(lines), b, m)
    ensures g.Some? ==> LoadRows(CastFileRows(lines)).Some?
    ensures g.Some? ==> g.value.movieTitles == LoadRows(CastFileRows(lines)).value.movieTitles
    ensures g.Some? ==> g.value.actorNames == LoadRows(CastFileRows(lines)).value.actorNames
    ensures g.Some? ==> g.value.actorMovies == LoadRows(CastFileRows(lines)).value.actorMovies
    ensures g.Some? ==> forall a, m | Holds(g.value.actorMovies, a, m) :: m in g.value.movieTitles
  {
    var rows := CastFileRows(lines);
    LoadFailsIffThrows(rows);
    var loaded := LoadRows(rows);
    if loaded.None? {
      return None;
    }
    var c := loaded.value;
    MembershipMatchesRows(rows);
    NamedActorsAreCast(rows);
    CreditedMoviesAreTitled(rows);
    var n := BuildNeighbourSets(c.movieActors);
    var adj := BuildAdjacency(n);
    var r := Graph(adj, c.actorNames, c.movieTitles, c.actorMovies);
    assert forall a, b :: Adjacent(r, a, b) <==> Holds(n, a, b);
    forall a | a in adj ensures |adj[a]| > 0 {
      var b :| b in n[a];
      assert b in adj[a];
    }
    forall a, b ensures CoStars(c.movieActors, a, b) <==> a != b && SharesMovie(r, a, b) {
      if a != b && SharesMovie(r, a, b) {
        var m :| Holds(c.actorMovies, a, m) && Holds(c.actorMovies, b, m);
        assert Holds(c.movieActors, m, a) && Holds(c.movieActors, m, b);
      }
    }
    forall a, b ensures CoStars(c.movieActors, a, b) <==>
      a != b && exists m :: Credits(rows, a, m) && Credits(rows, b, m)
    {
      if a != b && exists m :: Credits(rows, a, m) && Credits(rows, b, m) {
        var m :| Credits(rows, a, m) && Credits(rows, b, m);
        assert Holds(c.movieActors, m, a) && Holds(c.movieActors, m, b);
      }
    }
    g := Some(r);
  }

  // ---------------------------------------------------------------------
  // Lookups of the path formatter (Graph.java:395-411)
  // ---------------------------------------------------------------------

  /** The first movie of a, in its set's iteration order, that b is also
      in. Both common-movie lookups iterate the same set, so they agree on
      the movie they pick. */
  method SharedMovie(g: Graph, a: string, b: string) returns (t: Option<string>)
    ensures t.Some? ==> Holds(g.actorMovies, a, t.value) && Holds(g.actorMovies, b, t.value)
    ensures t.None? <==> !SharesMovie(g, a, b)
  {
    var ta := if a in g.actorMovies then g.actorMovies[a] else {};
    var tb := if b in g.actorMovies then g.actorMovies[b] else {};
    var order := SetToSeq(ta);
    for i := 0 to |order|
      invariant forall k | 0 <= k < i :: order[k] !in tb
    {
      if order[i] in tb {
        assert order[i] in ta;
        return Some(order[i]);
      }
    }
    forall m | Holds(g.actorMovies, a, m) ensures !Holds(g.actorMovies, b, m) {
      assert m in order;
    }
    return None;
  }

  /** findCommonMovieIdBetweenActors, given the shared movie picked. */
  function MovieIdOf(t: Option<string>): string {
    match t
    case None => "unknown"
    case Some(m) => m
  }

  /** findCommonTitleBetweenActors, given the shared movie picked. */
  function TitleOf(g: Graph, t: Option<string>): string {
    match t
    case None => "Unknown Title"
    case Some(m) => if m in g.movieTitles then g.movieTitles[m] else m
  }

  /** formatActor: the actor's name, or "Unknown". */
  function ActorName(g: Graph, id: string): string {
    if id in g.actorNames then g.actorNames[id] else "Unknown"
  }

  /** Neighbours on a graph built from a cast file always have a movie in
      common, so the fallbacks never show up between them. */
  lemma NeighboursShareMovie(g: Graph, a: string, b: string)
    requires WellFormed(g) && Adjacent(g, a, b)
    ensures SharesMovie(g, a, b)
    ensures a in g.actorNames && b in g.actorNames
  {
    var m :| Holds(g.actorMovies, a, m) && Holds(g.actorMovies, b, m);
  }
}
