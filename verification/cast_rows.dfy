/** The row pass of Graph.loadCastData: each parsed row of the cast file
    (movie id, title, comma-joined actor ids, comma-joined actor names)
    records the movie's title and, for a movie with at least two actor ids,
    each actor's name and the actor/movie membership in both directions. */
module CastRows {
  import opened Text
  import opened Optional
  import opened CsvLine

  /** The maps the row pass fills: movieTitles, actorNames and actorMovies
      become fields of the graph; movieActors is local to loadCastData and
      feeds the edge pass. */
  datatype Cast = Cast(
    movieTitles: map<string, string>,
    actorNames: map<string, string>,
    actorMovies: map<string, set<string>>,
    movieActors: map<string, set<string>>)

  const NoCast := Cast(map[], map[], map[], map[])

  /** The id or name list of one column: nothing for an empty column,
      otherwise Java's split(","). */
  function IdList(column: string): seq<string> {
    if column == "" then [] else JavaSplit(column, ",")
  }

  /** A record of the cast file: a row with at least four fields, its id
      and name columns already split. */
  datatype Row = Row(movie: string, title: string, ids: seq<string>, names: seq<string>)

  /** The row a parsed line stands for; None for lines with fewer than four
      fields, which the loader skips. */
  function ReadRow(fields: seq<string>): (r: Option<Row>)
    ensures r.Some? <==> |fields| >= 4
    ensures r.Some? ==> r.value.movie == fields[0] && r.value.title == fields[1]
  {
    if |fields| < 4 then None
    else Some(Row(fields[0], fields[1], IdList(fields[2]), IdList(fields[3])))
  }

  /** The records among the parsed lines, in order. */
  function ReadRows(lines: seq<seq<string>>): (r: seq<Row>)
    ensures |r| <= |lines|
  {
    if |lines| == 0 then []
    else
      match ReadRow(lines[|lines| - 1])
      case None => ReadRows(lines[..|lines| - 1])
      case Some(row) => ReadRows(lines[..|lines| - 1]) + [row]
  }

  /** Every record among the lines comes from one line with at least four
      fields, and every such line gives a record. */
  lemma {:induction false} ReadRowsMembers(lines: seq<seq<string>>)
    ensures forall row :: row in ReadRows(lines) <==>
              exists k | 0 <= k < |lines| :: ReadRow(lines[k]) == Some(row)
  {
    if |lines| > 0 {
      var init := lines[..|lines| - 1];
      ReadRowsMembers(init);
      assert forall k | 0 <= k < |init| :: init[k] == lines[k];
    }
  }

  /** The records of a cast file: the first line is the header, every other
      line goes through Graph.parseCSVLine. */
  function CastFileRows(lines: seq<string>): seq<Row> {
    if |lines| == 0 then []
    else ReadRows(seq(|lines| - 1, i requires 0 <= i < |lines| - 1 => ParseCsvLine(lines[i + 1])))
  }

  /** A record whose actors enter the name and membership maps. */
  predicate IsCredited(row: Row) {
    |row.ids| >= 2
  }

  /** A credited record with fewer names than ids: names.get(i) throws and
      the whole build fails. */
  predicate Throws(row: Row) {
    IsCredited(row) && |row.names| < |row.ids|
  }

  /** s ∪ {v} under key k, creating the set when k is new
      (computeIfAbsent(k, …).add(v)). */
  function AddTo(m: map<string, set<string>>, k: string, v: string): map<string, set<string>> {
    m[k := (if k in m then m[k] else {}) + {v}]
  }

  /** v is in the set that m holds under k. */
  predicate Holds(m: map<string, set<string>>, k: string, v: string) {
    k in m && v in m[k]
  }

  /** One credit of the inner loop (Graph.java:106-111). */
  function Credit(c: Cast, movie: string, actor: string, name: string): Cast {
    c.(actorNames := c.actorNames[actor := name],
       movieActors := AddTo(c.movieActors, movie, actor),
       actorMovies := AddTo(c.actorMovies, actor, movie))
  }

  /** The first k credits of a row. */
  function CreditFirst(c: Cast, movie: string, ids: seq<string>, names: seq<string>, k: nat): Cast
    requires k <= |ids| <= |names|
  {
    if k == 0 then c
    else Credit(CreditFirst(c, movie, ids, names, k - 1), movie, ids[k - 1], names[k - 1])
  }

  /** One record of the read loop (Graph.java:91-113); None when it throws. */
  function AddRow(c: Cast, row: Row): Option<Cast> {
    var titled := c.(movieTitles := c.movieTitles[row.movie := row.title]);
    if !IsCredited(row) then Some(titled)
    else if |row.names| < |row.ids| then None
    else Some(CreditFirst(titled, row.movie, row.ids, row.names, |row.ids|))
  }

  /** All records in order; None when some record throws. */
  function LoadRows(rows: seq<Row>): Option<Cast> {
    if |rows| == 0 then Some(NoCast)
    else
      match LoadRows(rows[..|rows| - 1])
      case None => None
      case Some(c) => AddRow(c, rows[|rows| - 1])
  }

  // ---------------------------------------------------------------------
  // Reference definitions, read off the records directly
  // ---------------------------------------------------------------------

  /** Some credited record lists actor a for movie m. */
  ghost predicate Credits(rows: seq<Row>, a: string, m: string) {
    exists k | 0 <= k < |rows| :: IsCredited(rows[k]) && rows[k].movie == m && a in rows[k].ids
  }

  /** The title of the last record for movie m. */
  function LastTitle(rows: seq<Row>, m: string): Option<string> {
    if |rows| == 0 then None
    else if rows[|rows| - 1].movie == m then Some(rows[|rows| - 1].title)
    else LastTitle(rows[..|rows| - 1], m)
  }

  /** Position of the last x in s, or -1. */
  function LastIndex(s: seq<string>, x: string): (r: int)
    ensures -1 <= r < |s|
    ensures r >= 0 ==> s[r] == x && x !in s[r + 1..]
    ensures r < 0 ==> x !in s
  {
    if |s| == 0 then -1
    else if s[|s| - 1] == x then |s| - 1
    else
      var r := LastIndex(s[..|s| - 1], x);
      assert r >= 0 ==> s[r + 1..] == s[..|s| - 1][r + 1..] + [s[|s| - 1]];
      assert r < 0 ==> s == s[..|s| - 1] + [s[|s| - 1]];
      r
  }

  /** No record throws. */
  predicate NoneThrows(rows: seq<Row>) {
    forall k | 0 <= k < |rows| :: !Throws(rows[k])
  }

  /** The name paired with the last mention of actor a in the last credited
      record that lists a. */
  function LastName(rows: seq<Row>, a: string): Option<string>
    requires NoneThrows(rows)
  {
    if |rows| == 0 then None
    else
      var row := rows[|rows| - 1];
      if IsCredited(row) && a in row.ids then Some(row.names[LastIndex(row.ids, a)])
      else LastName(rows[..|rows| - 1], a)
  }

  // ---------------------------------------------------------------------
  // What one record does
  // ---------------------------------------------------------------------

  /** The first k credits of a record add exactly the memberships of the
      ids they read, in both directions, and leave titles alone. */
  lemma {:induction false} CreditFirstMembers(c: Cast, movie: string, ids: seq<string>, names: seq<string>, k: nat)
    requires k <= |ids| <= |names|
    ensures CreditFirst(c, movie, ids, names, k).movieTitles == c.movieTitles
    ensures forall a, m :: Holds(CreditFirst(c, movie, ids, names, k).actorMovies, a, m)
              <==> Holds(c.actorMovies, a, m) || (m == movie && a in ids[..k])
    ensures forall a, m :: Holds(CreditFirst(c, movie, ids, names, k).movieActors, m, a)
              <==> Holds(c.movieActors, m, a) || (m == movie && a in ids[..k])
  {
    if k > 0 {
      CreditFirstMembers(c, movie, ids, names, k - 1);
      CreditMembers(CreditFirst(c, movie, ids, names, k - 1), movie, ids[k - 1], names[k - 1]);
      assert ids[..k] == ids[..k - 1] + [ids[k - 1]];
    }
  }

  /** The first k credits of a record add the ids they read as actor keys
      and the movie as a movie key. */
  lemma {:induction false} CreditFirstKeys(c: Cast, movie: string, ids: seq<string>, names: seq<string>, k: nat)
    requires k <= |ids| <= |names|
    ensures forall a :: a in CreditFirst(c, movie, ids, names, k).actorMovies
              <==> a in c.actorMovies || a in ids[..k]
    ensures forall m :: m in CreditFirst(c, movie, ids, names, k).movieActors
              <==> m in c.movieActors || (m == movie && k > 0)
  {
    if k > 0 {
      CreditFirstKeys(c, movie, ids, names, k - 1);
      assert ids[..k] == ids[..k - 1] + [ids[k - 1]];
    }
  }

  /** One credit adds exactly one membership in each direction. */
  lemma CreditMembers(c: Cast, movie: string, actor: string, name: string)
    ensures forall a, m :: Holds(Credit(c, movie, actor, name).actorMovies, a, m)
              <==> Holds(c.actorMovies, a, m) || (m == movie && a == actor)
    ensures forall a, m :: Holds(Credit(c, movie, actor, name).movieActors, m, a)
              <==> Holds(c.movieActors, m, a) || (m == movie && a == actor)
  {
  }

  /** The first k credits of a record name each actor they read after its
      last mention and leave other names alone. */
  lemma {:induction false} CreditFirstNames(c: Cast, movie: string, ids: seq<string>, names: seq<string>, k: nat)
    requires k <= |ids| <= |names|
    ensures forall a :: a in CreditFirst(c, movie, ids, names, k).actorNames
              <==> a in c.actorNames || a in ids[..k]
    ensures forall a | a in ids[..k] ::
              CreditFirst(c, movie, ids, names, k).actorNames[a] == names[LastIndex(ids[..k], a)]
    ensures forall a | a !in ids[..k] && a in c.actorNames ::
              CreditFirst(c, movie, ids, names, k).actorNames[a] == c.actorNames[a]
  {
    if k > 0 {
      CreditFirstNames(c, movie, ids, names, k - 1);
      assert ids[..k] == ids[..k - 1] + [ids[k - 1]];
      assert ids[..k][..k - 1] == ids[..k - 1];
    }
  }

  // ---------------------------------------------------------------------
  // What the whole pass does
  // ---------------------------------------------------------------------

  /** The pass fails exactly when some record throws. */
  lemma {:induction false} LoadFailsIffThrows(rows: seq<Row>)
    ensures LoadRows(rows).Some? <==> NoneThrows(rows)
  {
    if |rows| > 0 {
      var init := rows[..|rows| - 1];
      LoadFailsIffThrows(init);
      assert forall k | 0 <= k < |init| :: init[k] == rows[k];
    }
  }

  /** Credits of all records are those of the earlier ones and the last. */
  lemma CreditsSnoc(rows: seq<Row>)
    requires |rows| > 0
    ensures forall a, m :: Credits(rows, a, m) <==>
      Credits(rows[..|rows| - 1], a, m) ||
      (IsCredited(rows[|rows| - 1]) && rows[|rows| - 1].movie == m && a in rows[|rows| - 1].ids)
  {
    var init := rows[..|rows| - 1];
    forall a, m | Credits(rows, a, m)
      ensures Credits(init, a, m) ||
        (IsCredited(rows[|rows| - 1]) && rows[|rows| - 1].movie == m && a in rows[|rows| - 1].ids)
    {
      var k :| 0 <= k < |rows| && IsCredited(rows[k]) && rows[k].movie == m && a in rows[k].ids;
      if k < |init| {
        assert init[k] == rows[k];
      }
    }
    forall a, m | Credits(init, a, m) ensures Credits(rows, a, m) {
      var k :| 0 <= k < |init| && IsCredited(init[k]) && init[k].movie == m && a in init[k].ids;
      assert rows[k] == init[k];
    }
  }

  /** The membership maps hold exactly the credits the records list, in
      both directions, and every key holds a non-empty set. */
  lemma {:induction false} MembershipMatchesRows(rows: seq<Row>)
    requires LoadRows(rows).Some?
    ensures forall a, m :: Holds(LoadRows(rows).value.actorMovies, a, m) <==> Credits(rows, a, m)
    ensures forall a, m :: Holds(LoadRows(rows).value.movieActors, m, a) <==> Credits(rows, a, m)
    ensures forall a | a in LoadRows(rows).value.actorMovies :: LoadRows(rows).value.actorMovies[a] != {}
    ensures forall m | m in LoadRows(rows).value.movieActors :: LoadRows(rows).value.movieActors[m] != {}
  {
    if |rows| > 0 {
      var init := rows[..|rows| - 1];
      var row := rows[|rows| - 1];
      MembershipMatchesRows(init);
      CreditsSnoc(rows);
      var c := LoadRows(init).value;
      if IsCredited(row) {
        var titled := c.(movieTitles := c.movieTitles[row.movie := row.title]);
        CreditFirstMembers(titled, row.movie, row.ids, row.names, |row.ids|);
        CreditFirstKeys(titled, row.movie, row.ids, row.names, |row.ids|);
        assert row.ids[..|row.ids|] == row.ids;
        var r := LoadRows(rows).value;
        forall a | a in r.actorMovies ensures r.actorMovies[a] != {} {
          if a in row.ids {
            assert Holds(r.actorMovies, a, row.movie);
          } else {
            var m :| m in c.actorMovies[a];
            assert Holds(r.actorMovies, a, m);
          }
        }
        forall m | m in r.movieActors ensures r.movieActors[m] != {} {
          if m == row.movie {
            assert Holds(r.movieActors, m, row.ids[0]);
          } else {
            var a :| a in c.movieActors[m];
            assert Holds(r.movieActors, m, a);
          }
        }
      }
    }
  }

  /** Every actor with a name is in some movie, and the other way round. */
  lemma {:induction false} NamedActorsAreCast(rows: seq<Row>)
    requires LoadRows(rows).Some?
    ensures LoadRows(rows).value.actorNames.Keys == LoadRows(rows).value.actorMovies.Keys
  {
    if |rows| > 0 {
      var init := rows[..|rows| - 1];
      var row := rows[|rows| - 1];
      NamedActorsAreCast(init);
      var c := LoadRows(init).value;
      if IsCredited(row) {
        var titled := c.(movieTitles := c.movieTitles[row.movie := row.title]);
        CreditFirstKeys(titled, row.movie, row.ids, row.names, |row.ids|);
        CreditFirstNames(titled, row.movie, row.ids, row.names, |row.ids|);
      }
    }
  }

  /** Every record writes its movie's title, so the last record wins. */
  lemma {:induction false} TitlesAreLastWrites(rows: seq<Row>)
    requires LoadRows(rows).Some?
    ensures forall m :: m in LoadRows(rows).value.movieTitles <==> LastTitle(rows, m).Some?
    ensures forall m | m in LoadRows(rows).value.movieTitles ::
              LoadRows(rows).value.movieTitles[m] == LastTitle(rows, m).value
  {
    if |rows| > 0 {
      var init := rows[..|rows| - 1];
      var row := rows[|rows| - 1];
      TitlesAreLastWrites(init);
      var c := LoadRows(init).value;
      if IsCredited(row) {
        var titled := c.(movieTitles := c.movieTitles[row.movie := row.title]);
        CreditFirstMembers(titled, row.movie, row.ids, row.names, |row.ids|);
      }
    }
  }

  /** A movie some record names has a last title. */
  lemma {:induction false} NamedMovieHasTitle(rows: seq<Row>, k: int)
    requires 0 <= k < |rows|
    ensures LastTitle(rows, rows[k].movie).Some?
    decreases |rows|
  {
    if rows[|rows| - 1].movie != rows[k].movie {
      assert k < |rows| - 1;
      NamedMovieHasTitle(rows[..|rows| - 1], k);
    }
  }

  /** Every movie an actor is credited in has a title: the record that
      credits it wrote one (Graph.java:102). */
  lemma CreditedMoviesAreTitled(rows: seq<Row>)
    requires LoadRows(rows).Some?
    ensures forall a, m | Holds(LoadRows(rows).value.actorMovies, a, m) :: m in LoadRows(rows).value.movieTitles
  {
    MembershipMatchesRows(rows);
    TitlesAreLastWrites(rows);
    forall a, m | Holds(LoadRows(rows).value.actorMovies, a, m) ensures m in LoadRows(rows).value.movieTitles {
      var k :| 0 <= k < |rows| && IsCredited(rows[k]) && rows[k].movie == m && a in rows[k].ids;
      NamedMovieHasTitle(rows, k);
    }
  }

  /** Each actor's name is the one paired with its last mention. */
  lemma {:induction false} NamesAreLastWrites(rows: seq<Row>)
    requires LoadRows(rows).Some?
    ensures NoneThrows(rows)
    ensures forall a :: a in LoadRows(rows).value.actorNames <==> LastName(rows, a).Some?
    ensures forall a | a in LoadRows(rows).value.actorNames ::
              LoadRows(rows).value.actorNames[a] == LastName(rows, a).value
  {
    LoadFailsIffThrows(rows);
    if |rows| > 0 {
      var init := rows[..|rows| - 1];
      var row := rows[|rows| - 1];
      LoadFailsIffThrows(init);
      NamesAreLastWrites(init);
      var c := LoadRows(init).value;
      if IsCredited(row) {
        var titled := c.(movieTitles := c.movieTitles[row.movie := row.title]);
        CreditFirstNames(titled, row.movie, row.ids, row.names, |row.ids|);
        assert row.ids[..|row.ids|] == row.ids;
      }
    }
  }
}
