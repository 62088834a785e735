/** The row loop of DataLoadingService.loadDataFromFiles: every data row of
    the cast file registers its title and its credited celebrities under
    running indices, and queues one celebrity/title link per credit; a full
    batch is handed to persistence, which empties the two id maps but not
    the counters. */
module ImportIndex {
  import opened Text
  import opened Optional
  import opened ImportTokens

  // ---------------------------------------------------------------------
  // Index assignment
  // ---------------------------------------------------------------------

  /** A celebrity or a title as the loader creates it: external id,
      display name, running index. */
  datatype Entity = Entity(id: string, name: string, index: int)

  /** One of the loader's id maps with the counter that numbers it. */
  datatype Registry = Registry(entries: map<string, Entity>, next: int)

  /** The name kept for an entity: the given one, or the id when empty. */
  function NameOr(name: string, id: string): string {
    if name == "" then id else name
  }

  /** Every entry sits under its own id, with an index below the counter,
      and no two entries share an index. */
  ghost predicate Sound(r: Registry) {
    && r.next >= 0
    && (forall x | x in r.entries :: r.entries[x].id == x && 0 <= r.entries[x].index < r.next)
    && (forall x, y | x in r.entries && y in r.entries && x != y :: r.entries[x].index != r.entries[y].index)
  }

  /** The "if absent, create with the next index" step
      (DataLoadingService.java:148-151 for titles, 157-160 for
      celebrities): the counter moves exactly when the id is new, the new
      entity gets the old counter value, and existing entries stay. */
  function Register(r: Registry, id: string, name: string): (r': Registry)
    ensures r'.entries.Keys == r.entries.Keys + {id}
    ensures id in r.entries ==> r' == r
    ensures id !in r.entries ==> r'.next == r.next + 1 && r'.entries[id] == Entity(id, NameOr(name, id), r.next)
    ensures forall x | x in r.entries :: r'.entries[x] == r.entries[x]
    ensures Sound(r) ==> Sound(r')
  {
    if id in r.entries then r
    else Registry(r.entries[id := Entity(id, NameOr(name, id), r.next)], r.next + 1)
  }

  /** The maps after processBatch (DataLoadingService.java:193-195): empty,
      the counter kept. */
  function Cleared(r: Registry): (r': Registry)
    ensures r'.entries == map[] && r'.next == r.next
    ensures Sound(r) ==> Sound(r')
  {
    Registry(map[], r.next)
  }

  /** An id registered before a flush and seen again after it is created a
      second time, under a new and larger index. */
  lemma ReindexAfterFlush(r: Registry, id: string, name: string, name': string)
    requires Sound(r)
    ensures Register(Cleared(Register(r, id, name)), id, name').entries[id].index
            > Register(r, id, name).entries[id].index
  {
    var r1 := Register(r, id, name);
    assert r1.entries[id].index < r1.next;
  }

  // ---------------------------------------------------------------------
  // First-appearance order
  // ---------------------------------------------------------------------

  /** The ids in order of first appearance, each once. */
  function FirstAppearances(ids: seq<string>): (r: seq<string>)
    ensures forall x :: x in r <==> x in ids
    ensures NoDuplicates(r)
  {
    if |ids| == 0 then []
    else
      var d := FirstAppearances(ids[..|ids| - 1]);
      assert forall x :: x in ids <==> x in ids[..|ids| - 1] || x == ids[|ids| - 1];
      if ids[|ids| - 1] in d then d else d + [ids[|ids| - 1]]
  }

  /** Where x first appears in ids. */
  function First(ids: seq<string>, x: string): (k: nat)
    requires x in ids
    ensures k < |ids| && ids[k] == x && x !in ids[..k]
  {
    if x in ids[..|ids| - 1] then First(ids[..|ids| - 1], x)
    else
      assert ids[..|ids| - 1] == ids[..|ids| - 1];
      |ids| - 1
  }

  /** Register every (id, name) pair in order. */
  function RegisterAll(r: Registry, ids: seq<string>, names: seq<string>): Registry
    requires |ids| == |names|
  {
    if |ids| == 0 then r
    else Register(RegisterAll(r, ids[..|ids| - 1], names[..|names| - 1]), ids[|ids| - 1], names[|names| - 1])
  }

  /** r numbers ids from n on in order of first appearance: an id's index
      counts the distinct ids seen before it first appears, and its name
      is the one given with that first appearance. */
  ghost predicate Numbered(r: Registry, n: int, ids: seq<string>, names: seq<string>) {
    && |ids| == |names|
    && r.next == n + |FirstAppearances(ids)|
    && r.entries.Keys == (set x | x in ids)
    && forall x | x in ids ::
         r.entries[x] == Entity(x, NameOr(names[First(ids, x)], x), n + |FirstAppearances(ids[..First(ids, x)])|)
  }

  lemma FirstSnoc(ids: seq<string>, y: string, x: string)
    requires x in ids + [y]
    ensures x in ids ==> First(ids + [y], x) == First(ids, x) && (ids + [y])[..First(ids, x)] == ids[..First(ids, x)]
    ensures x !in ids ==> First(ids + [y], x) == |ids| && (ids + [y])[..|ids|] == ids
  {
    assert (ids + [y])[..|ids|] == ids;
  }

  lemma FirstAppearancesSnoc(ids: seq<string>, y: string)
    ensures y in ids ==> FirstAppearances(ids + [y]) == FirstAppearances(ids)
    ensures y !in ids ==> |FirstAppearances(ids + [y])| == |FirstAppearances(ids)| + 1
  {
    assert (ids + [y])[..|ids|] == ids;
  }

  /** Registering one more pair keeps the numbering. */
  lemma NumberedStep(r: Registry, n: int, ids: seq<string>, names: seq<string>, y: string, name: string)
    requires Numbered(r, n, ids, names)
    ensures Numbered(Register(r, y, name), n, ids + [y], names + [name])
  {
    var ids', names' := ids + [y], names + [name];
    var r' := Register(r, y, name);
    FirstAppearancesSnoc(ids, y);
    assert r'.entries.Keys == (set x | x in ids') by {
      assert forall x :: x in ids' <==> x in ids || x == y;
    }
    EntriesStep(r, n, ids, names, y, name);
  }

  /** The entries half of NumberedStep. */
  lemma EntriesStep(r: Registry, n: int, ids: seq<string>, names: seq<string>, y: string, name: string)
    requires Numbered(r, n, ids, names)
    ensures var ids', names', r' := ids + [y], names + [name], Register(r, y, name);
            forall x | x in ids' ::
              r'.entries[x] == Entity(x, NameOr(names'[First(ids', x)], x), n + |FirstAppearances(ids'[..First(ids', x)])|)
  {
    var ids', names' := ids + [y], names + [name];
    var r' := Register(r, y, name);
    FirstAppearancesSnoc(ids, y);
    forall x | x in ids'
      ensures r'.entries[x] == Entity(x, NameOr(names'[First(ids', x)], x), n + |FirstAppearances(ids'[..First(ids', x)])|)
    {
      FirstSnoc(ids, y, x);
      if x in ids {
        assert names'[First(ids, x)] == names[First(ids, x)];
      } else {
        assert names'[|ids|] == name;
      }
    }
  }

  /** Registering a sequence into an empty map numbers the ids from the
      counter on in order of first appearance. */
  lemma {:induction false} FirstSeenIndices(n: int, ids: seq<string>, names: seq<string>)
    requires |ids| == |names|
    ensures Numbered(RegisterAll(Registry(map[], n), ids, names), n, ids, names)
  {
    if |ids| > 0 {
      var k := |ids| - 1;
      var ids0, names0 := ids[..k], names[..k];
      assert ids0 + [ids[k]] == ids && names0 + [names[k]] == names;
      var r0 := RegisterAll(Registry(map[], n), ids0, names0);
      assert RegisterAll(Registry(map[], n), ids, names) == Register(r0, ids[k], names[k]);
      FirstSeenIndices(n, ids0, names0);
      NumberedStep(r0, n, ids0, names0, ids[k], names[k]);
    }
  }

  // ---------------------------------------------------------------------
  // Rows, links and batches
  // ---------------------------------------------------------------------

  /** One CelebrityTitle relation. */
  datatype Link = Link(celebrityId: string, titleId: string)

  /** What one processBatch call hands to persistence: the values of both
      maps, in no particular order, and the queued links. */
  datatype Saved = Saved(celebrities: set<Entity>, titles: set<Entity>, links: seq<Link>)

  /** The loop state: both registries, the queued links and what has been
      handed to persistence so far. */
  datatype Loader = Loader(celebrities: Registry, titles: Registry, batch: seq<Link>, saved: seq<Saved>)

  const Start := Loader(Registry(map[], 0), Registry(map[], 0), [], [])

  /** Every link handed to persistence, in order. */
  function SavedLinks(saved: seq<Saved>): seq<Link> {
    if |saved| == 0 then [] else SavedLinks(saved[..|saved| - 1]) + saved[|saved| - 1].links
  }

  /** Every link handed over or queued, in order. */
  function Emitted(ld: Loader): seq<Link> {
    SavedLinks(ld.saved) + ld.batch
  }

  /** processBatch followed by batch.clear() (DataLoadingService.java:164-165
      and 185-196): the maps and the batch go to persistence, the maps and
      the batch are emptied and the counters stay. No link is lost or
      reordered. */
  function ProcessBatch(ld: Loader): (r: Loader)
    ensures Emitted(r) == Emitted(ld) && r.batch == []
    ensures r.celebrities == Cleared(ld.celebrities) && r.titles == Cleared(ld.titles)
  {
    var r := Loader(Cleared(ld.celebrities), Cleared(ld.titles), [],
                    ld.saved + [Saved(ld.celebrities.entries.Values, ld.titles.entries.Values, ld.batch)]);
    assert r.saved[..|r.saved| - 1] == ld.saved;
    r
  }

  /** One credit of a row (DataLoadingService.java:155-167): register the
      celebrity, queue the link, and, in the main loop only, flush a full
      batch. */
  function Credit(ld: Loader, id: string, name: string, titleId: string, batchSize: int, flushing: bool): (r: Loader)
    ensures Emitted(r) == Emitted(ld) + [Link(id, titleId)]
    ensures r.titles.next == ld.titles.next
    ensures r.celebrities.next == Register(ld.celebrities, id, name).next
  {
    var queued := ld.(celebrities := Register(ld.celebrities, id, name), batch := ld.batch + [Link(id, titleId)]);
    assert Emitted(queued) == Emitted(ld) + [Link(id, titleId)];
    if flushing && |queued.batch| >= batchSize then ProcessBatch(queued) else queued
  }

  /** The first n id/name pairs of a row, credited in order. */
  function CreditPairs(ld: Loader, ids: seq<string>, names: seq<string>, titleId: string, batchSize: int, flushing: bool, n: nat): Loader
    requires n <= |ids| && n <= |names|
  {
    if n == 0 then ld
    else Credit(CreditPairs(ld, ids, names, titleId, batchSize, flushing, n - 1), ids[n - 1], names[n - 1], titleId, batchSize, flushing)
  }

  /** The links of the first n ids with one title. */
  function Links(ids: seq<string>, titleId: string, n: nat): seq<Link>
    requires n <= |ids|
  {
    seq(n, k requires 0 <= k < n => Link(ids[k], titleId))
  }

  lemma {:induction false} CreditPairsEmit(ld: Loader, ids: seq<string>, names: seq<string>, titleId: string, batchSize: int, flushing: bool, n: nat)
    requires n <= |ids| && n <= |names|
    ensures Emitted(CreditPairs(ld, ids, names, titleId, batchSize, flushing, n)) == Emitted(ld) + Links(ids, titleId, n)
    ensures CreditPairs(ld, ids, names, titleId, batchSize, flushing, n).titles.next == ld.titles.next
  {
    if n > 0 {
      var prev := CreditPairs(ld, ids, names, titleId, batchSize, flushing, n - 1);
      CreditPairsEmit(ld, ids, names, titleId, batchSize, flushing, n - 1);
      LinksSnoc(ids, titleId, n);
      var r := Credit(prev, ids[n - 1], names[n - 1], titleId, batchSize, flushing);
      assert CreditPairs(ld, ids, names, titleId, batchSize, flushing, n) == r;
      assert Emitted(r) == (Emitted(ld) + Links(ids, titleId, n - 1)) + [Link(ids[n - 1], titleId)];
    }
  }

  lemma LinksSnoc(ids: seq<string>, titleId: string, n: nat)
    requires 0 < n <= |ids|
    ensures Links(ids, titleId, n) == Links(ids, titleId, n - 1) + [Link(ids[n - 1], titleId)]
  {
  }

  /** A data row read off its columns (DataLoadingService.java:143-146):
      trimmed title id and name, and the id and name lists. */
  datatype Row = Row(titleId: string, titleName: string, ids: seq<string>, names: seq<string>)

  function ReadRow(cols: seq<string>): Row
    requires |cols| >= 4
  {
    Row(JavaTrim(cols[0]), JavaTrim(cols[1]), SplitList(cols[2]), SplitList(cols[3]))
  }

  function Min(a: int, b: int): int {
    if a < b then a else b
  }

  /** The links a row stands for: its title with each of the first
      min(|ids|, |names|) celebrity ids. */
  function RowLinks(row: Row): seq<Link> {
    Links(row.ids, row.titleId, Min(|row.ids|, |row.names|))
  }

  /** One data row (DataLoadingService.java:110-128 for the first, 143-168
      for the rest): the title registered, then the pairs credited. The
      row's links are queued or handed over in order, and the title
      counter moves exactly when the title id is new. */
  function AddRow(ld: Loader, row: Row, batchSize: int, flushing: bool): (r: Loader)
    ensures Emitted(r) == Emitted(ld) + RowLinks(row)
    ensures r.titles.next == ld.titles.next + (if row.titleId in ld.titles.entries then 0 else 1)
  {
    var withTitle := ld.(titles := Register(ld.titles, row.titleId, row.titleName));
    var n := Min(|row.ids|, |row.names|);
    CreditPairsEmit(withTitle, row.ids, row.names, row.titleId, batchSize, flushing, n);
    CreditPairs(withTitle, row.ids, row.names, row.titleId, batchSize, flushing, n)
  }

  /** A line of the main loop (DataLoadingService.java:134-146): None for
      a blank line or one with fewer than four columns, which the loop
      skips; otherwise its row. */
  function Parse(line: string): Option<Row> {
    if JavaTrim(line) == "" then None
    else
      var cols := SplitSmart(line);
      if |cols| < 4 then None else Some(ReadRow(cols))
  }

  /** The main loop over the parsed lines after the first data row. */
  function Rest(ld: Loader, rows: seq<Option<Row>>, batchSize: int): Loader {
    if |rows| == 0 then ld
    else
      var prev := Rest(ld, rows[..|rows| - 1], batchSize);
      match rows[|rows| - 1]
      case None => prev
      case Some(row) => AddRow(prev, row, batchSize, true)
  }

  /** The links of the rows the main loop does not skip. */
  function RestLinks(rows: seq<Option<Row>>): seq<Link> {
    if |rows| == 0 then []
    else
      match rows[|rows| - 1]
      case None => RestLinks(rows[..|rows| - 1])
      case Some(row) => RestLinks(rows[..|rows| - 1]) + RowLinks(row)
  }

  lemma {:induction false} RestEmit(ld: Loader, rows: seq<Option<Row>>, batchSize: int)
    ensures Emitted(Rest(ld, rows, batchSize)) == Emitted(ld) + RestLinks(rows)
  {
    if |rows| > 0 {
      RestEmit(ld, rows[..|rows| - 1], batchSize);
    }
  }

  /** The final "process remaining batch" (DataLoadingService.java:171-174):
      afterwards everything emitted has been handed over. */
  function Drain(ld: Loader): (r: Loader)
    ensures r.batch == [] && SavedLinks(r.saved) == Emitted(ld)
  {
    if |ld.batch| > 0 then ProcessBatch(ld) else ld
  }

  /** Index of the first non-blank line, or |lines| if there is none
      (DataLoadingService.java:91-93). */
  function FirstNonBlank(lines: seq<string>): (k: nat)
    ensures k <= |lines|
    ensures forall i | 0 <= i < k :: JavaTrim(lines[i]) == ""
    ensures k < |lines| ==> JavaTrim(lines[k]) != ""
  {
    if |lines| == 0 || JavaTrim(lines[0]) != "" then 0
    else
      var k := FirstNonBlank(lines[1..]);
      assert forall i | 1 <= i < k + 1 :: lines[i] == lines[1..][i - 1];
      1 + k
  }

  /** The load does nothing for a missing header, for no non-blank data
      row, or for a first data row with fewer than four columns
      (DataLoadingService.java:69-104). */
  predicate Aborts(lines: seq<string>) {
    |lines| == 0 || FirstNonBlank(lines[1..]) == |lines| - 1
    || |SplitSmart(lines[1..][FirstNonBlank(lines[1..])])| < 4
  }

  /** The lines after the first data row, parsed. */
  function RestRows(lines: seq<string>): seq<Option<Row>>
    requires !Aborts(lines)
  {
    var data := lines[1..];
    var k := FirstNonBlank(data);
    seq(|data| - k - 1, i requires 0 <= i < |data| - k - 1 => Parse(data[k + 1 + i]))
  }

  /** The first data row. */
  function FirstRow(lines: seq<string>): Row
    requires !Aborts(lines)
  {
    ReadRow(SplitSmart(lines[1..][FirstNonBlank(lines[1..])]))
  }

  /** The links of the whole file: the first data row's, then those of the
      rows after it that are not skipped. */
  function FileLinks(lines: seq<string>): seq<Link>
    requires !Aborts(lines)
  {
    RowLinks(FirstRow(lines)) + RestLinks(RestRows(lines))
  }

  /** The first row without the batch check, the rest with it, then the
      final flush: every link handed over, in order. */
  lemma LoadLinks(first: Row, rows: seq<Option<Row>>, batchSize: int)
    ensures Drain(Rest(AddRow(Start, first, batchSize, false), rows, batchSize)).batch == []
    ensures SavedLinks(Drain(Rest(AddRow(Start, first, batchSize, false), rows, batchSize)).saved)
            == RowLinks(first) + RestLinks(rows)
  {
    var ld := AddRow(Start, first, batchSize, false);
    RestEmit(ld, rows, batchSize);
    assert Emitted(Start) == [];
    assert Emitted(ld) == RowLinks(first);
  }

  /** loadDataFromFiles' pure part (DataLoadingService.java:69-174): lines
      holds the header first. The first data row is processed without the
      batch check, the rest with it, and a last partial batch is handed
      over at the end. A load that runs hands over every credited link of
      the file, in file order, and leaves nothing queued. */
  function Load(lines: seq<string>, batchSize: int): (r: Option<Loader>)
    ensures r.None? <==> Aborts(lines)
    ensures r.Some? ==> r.value.batch == [] && SavedLinks(r.value.saved) == FileLinks(lines)
  {
    if Aborts(lines) then None
    else
      LoadLinks(FirstRow(lines), RestRows(lines), batchSize);
      Some(Drain(Rest(AddRow(Start, FirstRow(lines), batchSize, false), RestRows(lines), batchSize)))
  }

  // ---------------------------------------------------------------------
  // Numbering between flushes
  // ---------------------------------------------------------------------

  /** Registering a + b is registering a, then b. */
  lemma {:induction false} RegisterAllAppend(r: Registry, a: seq<string>, c: seq<string>, b: seq<string>, d: seq<string>)
    requires |a| == |c| && |b| == |d|
    ensures RegisterAll(r, a + b, c + d) == RegisterAll(RegisterAll(r, a, c), b, d)
    decreases |b|
  {
    if |b| > 0 {
      var k := |b| - 1;
      RegisterAllAppend(r, a, c, b[..k], d[..k]);
      assert (a + b)[..|a + b| - 1] == a + b[..k];
      assert (c + d)[..|c + d| - 1] == c + d[..k];
    } else {
      assert a + b == a && c + d == c;
    }
  }

  /** The ids and names a row credits: the first min(|ids|, |names|) of
      each. */
  function CreditedIds(row: Row): (r: seq<string>)
    ensures |r| == Min(|row.ids|, |row.names|)
  {
    row.ids[..Min(|row.ids|, |row.names|)]
  }

  function CreditedNames(row: Row): (r: seq<string>)
    ensures |r| == Min(|row.ids|, |row.names|)
  {
    row.names[..Min(|row.ids|, |row.names|)]
  }

  /** The title ids and names of the rows the main loop does not skip. */
  function TitleIds(rows: seq<Option<Row>>): seq<string> {
    if |rows| == 0 then []
    else
      match rows[|rows| - 1]
      case None => TitleIds(rows[..|rows| - 1])
      case Some(row) => TitleIds(rows[..|rows| - 1]) + [row.titleId]
  }

  function TitleNames(rows: seq<Option<Row>>): (r: seq<string>)
    ensures |r| == |TitleIds(rows)|
  {
    if |rows| == 0 then []
    else
      match rows[|rows| - 1]
      case None => TitleNames(rows[..|rows| - 1])
      case Some(row) => TitleNames(rows[..|rows| - 1]) + [row.titleName]
  }

  /** The celebrity ids and names those rows credit, in order. */
  function CelebrityIds(rows: seq<Option<Row>>): seq<string> {
    if |rows| == 0 then []
    else
      match rows[|rows| - 1]
      case None => CelebrityIds(rows[..|rows| - 1])
      case Some(row) => CelebrityIds(rows[..|rows| - 1]) + CreditedIds(row)
  }

  function CelebrityNames(rows: seq<Option<Row>>): (r: seq<string>)
    ensures |r| == |CelebrityIds(rows)|
  {
    if |rows| == 0 then []
    else
      match rows[|rows| - 1]
      case None => CelebrityNames(rows[..|rows| - 1])
      case Some(row) => CelebrityNames(rows[..|rows| - 1]) + CreditedNames(row)
  }

  /** While no flush fires, crediting the first n pairs registers them in
      order and queues their links; the titles and what was handed over
      stay. A flush fires only once the batch reaches batchSize. */
  lemma {:induction false} CreditPairsQuiet(ld: Loader, ids: seq<string>, names: seq<string>, titleId: string, batchSize: int, flushing: bool, n: nat)
    requires n <= |ids| && n <= |names|
    requires !flushing || n == 0 || |ld.batch| + n < batchSize
    ensures CreditPairs(ld, ids, names, titleId, batchSize, flushing, n) ==
              ld.(celebrities := RegisterAll(ld.celebrities, ids[..n], names[..n]),
                  batch := ld.batch + Links(ids, titleId, n))
  {
    if n == 0 {
      assert ld.batch + Links(ids, titleId, 0) == ld.batch;
    } else {
      CreditPairsQuiet(ld, ids, names, titleId, batchSize, flushing, n - 1);
      CreditPairsQuietStep(ld, ids, names, titleId, batchSize, flushing, n,
                           CreditPairs(ld, ids, names, titleId, batchSize, flushing, n - 1));
    }
  }

  /** The nth pair of CreditPairsQuiet. */
  lemma CreditPairsQuietStep(ld: Loader, ids: seq<string>, names: seq<string>, titleId: string, batchSize: int, flushing: bool, n: nat, prev: Loader)
    requires 0 < n <= |ids| && n <= |names|
    requires !flushing || |ld.batch| + n < batchSize
    requires prev == ld.(celebrities := RegisterAll(ld.celebrities, ids[..n - 1], names[..n - 1]),
                         batch := ld.batch + Links(ids, titleId, n - 1))
    ensures Credit(prev, ids[n - 1], names[n - 1], titleId, batchSize, flushing) ==
              ld.(celebrities := RegisterAll(ld.celebrities, ids[..n], names[..n]),
                  batch := ld.batch + Links(ids, titleId, n))
  {
    LinksSnoc(ids, titleId, n);
    RegisterAllSnoc(ld.celebrities, ids, names, n);
    var links, link := Links(ids, titleId, n - 1), Link(ids[n - 1], titleId);
    CreditQuiet(prev, ids[n - 1], names[n - 1], titleId, batchSize, flushing);
    assert (ld.batch + links) + [link] == ld.batch + (links + [link]);
  }

  /** A credit that leaves the batch short of batchSize, or comes before
      the main loop, only registers and queues. */
  lemma CreditQuiet(ld: Loader, id: string, name: string, titleId: string, batchSize: int, flushing: bool)
    requires !flushing || |ld.batch| + 1 < batchSize
    ensures Credit(ld, id, name, titleId, batchSize, flushing) ==
              ld.(celebrities := Register(ld.celebrities, id, name), batch := ld.batch + [Link(id, titleId)])
  {
  }

  /** Registering the first n pairs is registering the first n - 1, then
      the nth. */
  lemma RegisterAllSnoc(r: Registry, ids: seq<string>, names: seq<string>, n: nat)
    requires 0 < n <= |ids| && n <= |names|
    ensures RegisterAll(r, ids[..n], names[..n]) ==
              Register(RegisterAll(r, ids[..n - 1], names[..n - 1]), ids[n - 1], names[n - 1])
  {
    assert ids[..n][..n - 1] == ids[..n - 1] && names[..n][..n - 1] == names[..n - 1];
  }

  /** While no flush fires, a row registers its title, then its credited
      pairs, and queues its links. */
  lemma AddRowQuiet(ld: Loader, row: Row, batchSize: int, flushing: bool)
    requires !flushing || RowLinks(row) == [] || |ld.batch| + |RowLinks(row)| < batchSize
    ensures AddRow(ld, row, batchSize, flushing) ==
              ld.(titles := Register(ld.titles, row.titleId, row.titleName),
                  celebrities := RegisterAll(ld.celebrities, CreditedIds(row), CreditedNames(row)),
                  batch := ld.batch + RowLinks(row))
  {
    var withTitle := ld.(titles := Register(ld.titles, row.titleId, row.titleName));
    CreditPairsQuiet(withTitle, row.ids, row.names, row.titleId, batchSize, flushing, Min(|row.ids|, |row.names|));
  }

  /** While no flush fires, the main loop registers the rows' titles and
      credited pairs in file order and queues their links. */
  lemma {:induction false} RestQuiet(ld: Loader, rows: seq<Option<Row>>, batchSize: int)
    requires RestLinks(rows) == [] || |ld.batch| + |RestLinks(rows)| < batchSize
    ensures Rest(ld, rows, batchSize) ==
              ld.(titles := RegisterAll(ld.titles, TitleIds(rows), TitleNames(rows)),
                  celebrities := RegisterAll(ld.celebrities, CelebrityIds(rows), CelebrityNames(rows)),
                  batch := ld.batch + RestLinks(rows))
  {
    if |rows| == 0 {
      assert ld.batch + [] == ld.batch;
    } else {
      var init := rows[..|rows| - 1];
      RestQuiet(ld, init, batchSize);
      match rows[|rows| - 1]
      case None =>
      case Some(row) =>
        assert RestLinks(rows) == RestLinks(init) + RowLinks(row);
        RestQuietStep(ld, init, row, batchSize, Rest(ld, init, batchSize));
    }
  }

  /** One more row of RestQuiet. */
  lemma RestQuietStep(ld: Loader, init: seq<Option<Row>>, row: Row, batchSize: int, prev: Loader)
    requires prev == ld.(titles := RegisterAll(ld.titles, TitleIds(init), TitleNames(init)),
                         celebrities := RegisterAll(ld.celebrities, CelebrityIds(init), CelebrityNames(init)),
                         batch := ld.batch + RestLinks(init))
    requires RowLinks(row) == [] || |prev.batch| + |RowLinks(row)| < batchSize
    ensures AddRow(prev, row, batchSize, true) ==
              ld.(titles := RegisterAll(ld.titles, TitleIds(init) + [row.titleId], TitleNames(init) + [row.titleName]),
                  celebrities := RegisterAll(ld.celebrities, CelebrityIds(init) + CreditedIds(row), CelebrityNames(init) + CreditedNames(row)),
                  batch := ld.batch + (RestLinks(init) + RowLinks(row)))
  {
    AddRowQuiet(prev, row, batchSize, true);
    RegisterAllAppend(ld.titles, TitleIds(init), TitleNames(init), [row.titleId], [row.titleName]);
    RegisterAllAppend(ld.celebrities, CelebrityIds(init), CelebrityNames(init), CreditedIds(row), CreditedNames(row));
    assert RegisterAll(prev.titles, [row.titleId], [row.titleName]) == Register(prev.titles, row.titleId, row.titleName);
  }

  /** Between two flushes, both maps number what they hold in order of
      first appearance since the last flush (or the start), from where the
      counters stood: an id's index counts the distinct ids registered
      before it, and it keeps the name of its first appearance. */
  lemma NumberedBetweenFlushes(ld: Loader, rows: seq<Option<Row>>, batchSize: int)
    requires ld.titles.entries == map[] && ld.celebrities.entries == map[]
    requires RestLinks(rows) == [] || |ld.batch| + |RestLinks(rows)| < batchSize
    ensures Numbered(Rest(ld, rows, batchSize).titles, ld.titles.next, TitleIds(rows), TitleNames(rows))
    ensures Numbered(Rest(ld, rows, batchSize).celebrities, ld.celebrities.next, CelebrityIds(rows), CelebrityNames(rows))
  {
    RestQuiet(ld, rows, batchSize);
    assert ld.titles == Registry(map[], ld.titles.next);
    assert ld.celebrities == Registry(map[], ld.celebrities.next);
    FirstSeenIndices(ld.titles.next, TitleIds(rows), TitleNames(rows));
    FirstSeenIndices(ld.celebrities.next, CelebrityIds(rows), CelebrityNames(rows));
  }

  /** Up to the first flush, a load numbers titles and celebrities from 0
      in order of first appearance in the file, the first data row
      included. */
  lemma LoadNumbered(first: Row, rows: seq<Option<Row>>, batchSize: int)
    requires RestLinks(rows) == [] || |RowLinks(first)| + |RestLinks(rows)| < batchSize
    ensures var ld := Rest(AddRow(Start, first, batchSize, false), rows, batchSize);
            && Numbered(ld.titles, 0, [first.titleId] + TitleIds(rows), [first.titleName] + TitleNames(rows))
            && Numbered(ld.celebrities, 0, CreditedIds(first) + CelebrityIds(rows), CreditedNames(first) + CelebrityNames(rows))
  {
    var ld0 := AddRow(Start, first, batchSize, false);
    AddRowQuiet(Start, first, batchSize, false);
    assert ld0.titles == RegisterAll(Start.titles, [first.titleId], [first.titleName]);
    assert ld0.batch == RowLinks(first);
    RestQuiet(ld0, rows, batchSize);
    RegisterAllAppend(Start.titles, [first.titleId], [first.titleName], TitleIds(rows), TitleNames(rows));
    RegisterAllAppend(Start.celebrities, CreditedIds(first), CreditedNames(first), CelebrityIds(rows), CelebrityNames(rows));
    FirstSeenIndices(0, [first.titleId] + TitleIds(rows), [first.titleName] + TitleNames(rows));
    FirstSeenIndices(0, CreditedIds(first) + CelebrityIds(rows), CreditedNames(first) + CelebrityNames(rows));
  }

  /** The celebrity names of a row come from splitList, which drops empty
      entries, so the fallback to the id never fires for celebrities. */
  lemma CelebrityNameKept(field: string, k: int, id: string)
    requires 0 <= k < |SplitList(field)|
    ensures NameOr(SplitList(field)[k], id) == SplitList(field)[k]
  {
  }
}
