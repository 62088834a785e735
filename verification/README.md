# Collaboration-graph core of the celebrity shortest-path finder

The backend reads a cast file whose rows hold a movie id, a title, a list of
actor ids and a list of actor names. It builds an in-memory co-star graph
(`Graph.java`) and answers two questions over it:

- "how are these two actors connected": all shortest paths, or one path
  found by a bidirectional search;
- "which actors have this name".

Each path goes to the browser as a six-line text block. The front end
(`PathResult.js`) parses the block back into lists. A second importer
(`DataLoadingService.java`) reads the same file into database entities under
running indices.

This project models that core in Dafny and proves what the code promises.

- **`Text`**: the Java and JavaScript string primitives the code relies on.
  These are `trim`, `isBlank`, `indexOf`, `split` (with and without limit −1),
  `join` and ASCII lower case.
- **`CsvLine`**: the quote-aware comma scanner shared by
  `Graph.parseCSVLine` and `splitSmart`. It is written once as a reference
  grammar with two dialects, and the character loop is proved equal to the
  grammar.
- **`CastRows`, `CastGraph`**: the row pass and the edge pass of
  `loadCastData`.
  - The row pass fills `movieTitles`, `actorNames`, `actorMovies` and
    `movieActors`.
  - The edge pass turns every pair of co-stars into a symmetric adjacency
    list. That list is irreflexive and free of duplicates.
- **`PathBlock`, `Sentinels`**: `formatPathFromNodeList`,
  `findCommon*BetweenActors` and `formatActor`, plus the one-line answers
  the searches give instead of a block.
- **`Walks`, `Bfs`, `AllPaths`**: `findAllShortestPaths`.
  - A breadth-first search records predecessor lists.
  - `findPathsDfs` then enumerates up to `maxPaths` chains of predecessors.
- **`Bidirectional`**: `findShortestPath` with `expandLevel` and
  `reconstructBidirectionalPath`.
- **`PathResult`**: `parseResult`, with the round trip from a rendered block
  back to its lists.
- **`ImportTokens`, `ImportIndex`**: `trimQuotes`, `splitSmart` and
  `splitList`, then the row loop of `loadDataFromFiles`. The row loop covers:
  - first-seen index assignment;
  - id/name pairing;
  - batches handed to `processBatch`, which clears both id maps.
- **`Controllers`**: `findShortestPath` of `CelebrityController` and
  `ActorController`, which clamps `max` and classifies answers. Also the name
  searches of both controllers.

Notes on the code's behaviour that the model follows:

- **Raw paths run backwards.** `findAllShortestPaths` builds each raw path
  from the end actor back to the start actor. `findPathsDfs` pushes onto a
  deque, copies it head to tail and reverses the copy. So the `ACTOR_IDS`
  line of each block lists the end actor first. `parseResult` notices this
  and turns all four lists around. `AllPaths.FindAllShortestPaths` states
  its paths as `Reverse(x)` is a shortest walk from start to end, and
  `PathResult.ParseRendered` states the reorientation.
- **Fewer names than ids.** `loadCastData` reads `names.get(i)` for every
  actor id of a movie with at least two ids. A row with fewer names than ids
  therefore throws, and the whole build fails. The model returns `None` for
  such a build.
- **The "Invalid" prefix.** The celebrity controller also treats an answer
  starting with "Invalid" as an error, and the actor controller does not. The
  two differ on more than blank ids. With both ids equal, the graph answers
  with the actor's name, and a name such as "Invalid Entry" is an error only
  for the celebrity controller. `Controllers.ShortestPath` proves the two
  classifications agree in every other case.
- **Commas and empty titles.** `formatPathFromNodeList` writes each title
  as it is, followed by a comma, and `parseResult` splits the line on commas
  and drops empty pieces. A title such as "The Good, the Bad and the Ugly"
  therefore comes back as two titles, and an empty title disappears. The
  page's titles then no longer line up with its movie ids
  (`PathResult.CommaTitleSplits`). The start id and the actor ids read back
  regardless (`PathResult.IdsRead`).
- **An empty quoted field.** `parseCSVLine` reads `""` as a literal quote
  even outside quotes. So it reads the field `""` as `"`, where `splitSmart`
  reads it as the empty string (`CsvLine.EmptyQuotedFieldIsQuote`).

## Model

| member | source | states |
|---|---|---|
| Text.Find | backend/src/main/java/com/example/service/DataLoadingService.java:200 | indexOf: the result is the first position where the pattern occurs, or −1 exactly when it occurs nowhere |
| Text.SplitAll | backend/src/main/java/com/example/service/DataLoadingService.java:201 | split with limit −1 (and JavaScript split): at least one piece, the pieces joined with the separator give back the line, and no piece contains the separator |
| Text.SplitJoin | backend/src/main/java/com/example/service/DataLoadingService.java:201 | splitting a join gives back the pieces when they lack a character that occurs only once in the separator |
| Text.DropTrailingEmpty | backend/src/main/java/com/example/Graph.java:99-100 | Java's split without a limit drops exactly the trailing empty pieces and keeps everything before them |
| Text.SplitTerminated | frontend/src/components/PathResult.js:15 | splitting a comma-terminated list of non-empty entries and dropping empty pieces gives back the entries, so the formatter's trailing comma adds no entry |
| Text.Lower | backend/src/main/java/com/example/CelebrityController.java:58 | lower case keeps the length and maps each character to its lower-case letter (ASCII) |
| Text.Reverse | frontend/src/components/PathResult.js:30-33 | the reversed list has the same length and holds element i at position length−1−i |
| CsvLine.ScanLine | backend/src/main/java/com/example/Graph.java:417-442 | the character loop of parseCSVLine and of splitSmart's CSV branch yields exactly the fields of the reference grammar for its dialect |
| CsvLine.FieldCount | backend/src/main/java/com/example/Graph.java:425-440 | a line always has one field more than it has commas outside quotes |
| CsvLine.UnquotedIsSplit | backend/src/main/java/com/example/Graph.java:432-434 | a line without quotes is split on every comma |
| CsvLine.ReadEscaped | backend/src/main/java/com/example/Graph.java:425-431 | inside quotes, a field with its quotes doubled reads back as the field up to the closing quote |
| CsvLine.QuotedLineRoundTrip | backend/src/main/java/com/example/service/DataLoadingService.java:207-224 | a line of fully quoted fields reads back as exactly those fields under splitSmart's dialect, and under parseCSVLine's when no field is empty or starts with a quote |
| CsvLine.EmptyQuotedFieldIsQuote | backend/src/main/java/com/example/Graph.java:426-428 | `a,"",b` reads as a, a lone quote, b under parseCSVLine but as a, empty, b under splitSmart, which escapes only inside quotes |
| CastRows.ReadRow | backend/src/main/java/com/example/Graph.java:92-100 | a line gives a row exactly when it has at least four fields, with movie id and title from the first two |
| CastRows.ReadRowsMembers | backend/src/main/java/com/example/Graph.java:90-100 | the rows read are exactly those of the lines with at least four fields |
| CastRows.CreditFirstMembers | backend/src/main/java/com/example/Graph.java:105-112 | the first k credits of a movie add exactly that movie to the movie sets of its first k actors, and those actors to its cast, and leave the titles alone |
| CastRows.CreditFirstNames | backend/src/main/java/com/example/Graph.java:105-109 | after k credits, each credited actor's name is the one paired with its last mention in the row, and other names are unchanged |
| CastRows.LoadFailsIffThrows | backend/src/main/java/com/example/Graph.java:104-107 | the row pass fails exactly when some movie with at least two ids lists fewer names than ids |
| CastRows.MembershipMatchesRows | backend/src/main/java/com/example/Graph.java:102-112 | after the row pass, actor a is in movie m's cast and m is in a's movies exactly when some row with at least two ids lists a for m, and no set is empty |
| CastRows.NamedActorsAreCast | backend/src/main/java/com/example/Graph.java:104-111 | exactly the actors with a movie have a name |
| CastRows.TitlesAreLastWrites | backend/src/main/java/com/example/Graph.java:102 | every row records its title, whatever its actors, and the last row for a movie wins |
| CastRows.CreditedMoviesAreTitled | backend/src/main/java/com/example/Graph.java:102-112 | every movie in an actor's movie set has a title, because the row that credits the actor also records the title |
| CastRows.NamesAreLastWrites | backend/src/main/java/com/example/Graph.java:104-109 | an actor's name is the one paired with its last mention in the last row with at least two ids that lists it |
| CastGraph.CliqueLinksMembers | backend/src/main/java/com/example/Graph.java:125-133 | the i < j pair loop over a duplicate-free array links exactly every two different actors of the array, in both directions |
| CastGraph.AddPairs | backend/src/main/java/com/example/Graph.java:123-133 | one movie adds exactly the links between its different actors to the neighbour sets and never leaves an empty set |
| CastGraph.SetToSeq | backend/src/main/java/com/example/Graph.java:123 | toArray lists every member of the set exactly once |
| CastGraph.BuildNeighbourSets | backend/src/main/java/com/example/Graph.java:122-138 | b is a neighbour of a exactly when a and b are different actors of one movie, and every neighbour set is non-empty |
| CastGraph.BuildAdjacency | backend/src/main/java/com/example/Graph.java:140-142 | the adjacency lists have the keys of the neighbour sets and list each neighbour exactly once |
| CastGraph.BuildGraph | backend/src/main/java/com/example/Graph.java:82-144 | the build fails only when a row throws; a built graph is symmetric, irreflexive, duplicate-free, links exactly the co-stars of a row, carries the row pass's titles, names and movie sets, and has a title for every movie an actor is in |
| CastGraph.SharedMovie | backend/src/main/java/com/example/Graph.java:402-407 | the movie found lies in both actors' movie sets, and none is found exactly when they share no movie |
| CastGraph.NeighboursShareMovie | backend/src/main/java/com/example/Graph.java:395-407 | neighbours in a built graph always share a movie and both have names, so the "unknown" fallbacks never show up for them |
| PathBlock.FormatPath | backend/src/main/java/com/example/Graph.java:350-393 | the block names both endpoints and lists the path's ids and each actor's name. It has exactly one movie id and title per hop, each a movie both actors share, or the two fallbacks when they share none |
| PathBlock.WalkBlockHasNoFallbacks | backend/src/main/java/com/example/Graph.java:395-411 | on a built graph, a block for a walk gives every hop a movie both actors are in, under that movie's recorded title rather than the id fallback, and every actor its recorded name |
| Sentinels.Screen | backend/src/main/java/com/example/Graph.java:180-182 | the search runs exactly when both ids are non-blank, both have adjacency lists and they differ |
| Sentinels.RenderIsNoSentinel | backend/src/main/java/com/example/Graph.java:353 | a rendered block starts with S, so it is never one of the one-line answers |
| PathResult.FindLine | frontend/src/components/PathResult.js:8 | find returns the first line with the prefix, and nothing exactly when no line has it |
| PathResult.NoPathIffOneLine | frontend/src/components/PathResult.js:6-7 | parseResult gives null exactly when the trimmed text has no newline, so the single-name answer for a one-actor query shows as no path |
| PathResult.RenderedLines | frontend/src/components/PathResult.js:6 | trimming a block whose fields hold no newline and splitting it on newlines gives back its six lines |
| PathResult.IdsRead | frontend/src/components/PathResult.js:6-15 | whatever the names, movie ids and titles hold, the start id reads back trimmed and the actor ids read back unchanged, turned around exactly when the start id is set and differs from the first id, provided no field holds a newline, the ids are non-empty and comma-free, and the names line does not start with the actor-ids tag |
| PathResult.ListsRead | frontend/src/components/PathResult.js:14-26 | the actor ids, movie ids and titles read back are exactly the block's lists |
| PathResult.NamesRead | frontend/src/components/PathResult.js:21-22 | the first untagged line split on arrows gives back the block's names |
| PathResult.CommaTitleSplits | frontend/src/components/PathResult.js:25-26 | a block whose title k is "x,y" parses exactly as the block with x and y as two titles, so the page gets one title more than the block has |
| PathResult.ParseRendered | frontend/src/components/PathResult.js:4-37 | parsing a rendered block gives its four lists, turned around together exactly when the start id is set and the first actor id differs from it |
| Bfs.Visit | backend/src/main/java/com/example/Graph.java:294-312 | polling one actor keeps the search invariant: distances never decrease along the queue, every predecessor is a neighbour one layer closer, every polled actor is a predecessor of each neighbour one layer further, and the found distance is the end's |
| Bfs.FoundIsShortest | backend/src/main/java/com/example/Graph.java:309-311 | when the end is reached at distance d, no walk from the start to the end is shorter than d |
| Bfs.MissedIsUnreachable | backend/src/main/java/com/example/Graph.java:315 | an end the exhausted search never reached has no walk from the start |
| Bfs.DistIsShortest | backend/src/main/java/com/example/Graph.java:301-305 | each recorded distance is the length of a shortest walk, and following predecessors back gives one |
| Bfs.Finish | backend/src/main/java/com/example/Graph.java:293-296 | after the loop or its break, found = −1 means unreachable; otherwise found is the end's distance, the shortest length |
| Bfs.Explore | backend/src/main/java/com/example/Graph.java:284-313 | the first search ends with predecessor lists forming a layered DAG back to the start, and with the end's shortest distance or a proof that it cannot be reached |
| AllPaths.ChainsArePredChains | backend/src/main/java/com/example/Graph.java:341-344 | every chain enumerated from an actor follows predecessor lists back to the start in exactly its distance of steps |
| AllPaths.ChainsAreShortest | backend/src/main/java/com/example/Graph.java:331-347 | every enumerated chain, read backwards, is a shortest walk from the start |
| AllPaths.ShortestAreChains | backend/src/main/java/com/example/Graph.java:331-347 | every shortest walk from the start is among the enumerated chains |
| AllPaths.ChainsDistinct | backend/src/main/java/com/example/Graph.java:341-347 | with duplicate-free adjacency lists, no chain is enumerated twice |
| AllPaths.Dfs | backend/src/main/java/com/example/Graph.java:331-348 | findPathsDfs appends exactly the first maxPaths − |acc| enumerated chains, in order, and stops once maxPaths paths are collected |
| AllPaths.RawPathsFacts | backend/src/main/java/com/example/Graph.java:317-322 | the raw paths number between 1 and maxPaths (none when maxPaths ≤ 0), each reversed is a shortest walk, they are distinct when the adjacency lists are, and below the cap every shortest walk is among them |
| AllPaths.FormatAll | backend/src/main/java/com/example/Graph.java:324-327 | one block per raw path, in order, each describing its path, and none equal to one of the one-line answers |
| AllPaths.FindAllShortestPaths | backend/src/main/java/com/example/Graph.java:279-329 | the sentinels for bad, unknown or equal ids; "No path found." exactly when unreachable or maxPaths ≤ 0; otherwise at most maxPaths blocks of shortest walks, distinct when the adjacency lists are, all of them when fewer than maxPaths |
| Bidirectional.ExpandLevel | backend/src/main/java/com/example/Graph.java:233-254 | one level keeps the parent tree, returns a polled actor the other side has seen, or else expands the whole level and keeps the side's invariant |
| Bidirectional.AddNeighbours | backend/src/main/java/com/example/Graph.java:246-251 | every neighbour of the polled actor ends up seen, and exactly the newly seen ones join the queue with it as parent |
| Bidirectional.ClimbForward | backend/src/main/java/com/example/Graph.java:260-264 | climbing the forward parents from the meeting actor gives a walk from the start to the meeting actor |
| Bidirectional.ClimbBackward | backend/src/main/java/com/example/Graph.java:266-271 | appending the backward parents reaches the end actor, and on a symmetric graph is still a walk |
| Bidirectional.Reconstruct | backend/src/main/java/com/example/Graph.java:256-275 | the reconstructed path runs from the start to the end, one adjacency step at a time on a symmetric graph |
| Bidirectional.DryUnreachable | backend/src/main/java/com/example/Graph.java:202 | a side whose queue runs dry has seen everything reachable, so the end cannot be reached |
| Bidirectional.Round | backend/src/main/java/com/example/Graph.java:202-227 | one round, the smaller queue first, keeps both trees and either finds an actor both sides have seen or keeps the invariant and makes progress |
| Bidirectional.FindShortestPath | backend/src/main/java/com/example/Graph.java:179-231 | the sentinels first; otherwise, on a symmetric graph, "No path found." exactly when unreachable, and any other answer is the block for a path from the start to the end |
| ImportTokens.TrimQuotes | backend/src/main/java/com/example/service/DataLoadingService.java:257-263 | the trimmed string loses exactly one enclosing pair of quotes when it has one, and is otherwise returned unchanged |
| ImportTokens.UnquoteQuoted | backend/src/main/java/com/example/service/DataLoadingService.java:259-260 | a quoted string loses exactly its enclosing quotes |
| ImportTokens.TrimQuotesKeeps | backend/src/main/java/com/example/service/DataLoadingService.java:262 | a trimmed string without enclosing quotes comes back unchanged |
| ImportTokens.SplitSmart | backend/src/main/java/com/example/service/DataLoadingService.java:198-226 | a line with a tab is cut at every tab, keeping empty fields; otherwise it gets one field more than it has commas outside quotes |
| ImportTokens.SplitSmartTabs | backend/src/main/java/com/example/service/DataLoadingService.java:200-201 | tab-joined fields without tabs split back into exactly those fields, empty ones included |
| ImportTokens.SplitSmartQuoted | backend/src/main/java/com/example/service/DataLoadingService.java:204-225 | trimmed, tab-free fields without enclosing quotes, each written quoted and joined by commas, split back into exactly those fields |
| ImportTokens.ListSeparator | backend/src/main/java/com/example/service/DataLoadingService.java:234-240 | `;` when the field has one, else `\|` when it has one, else `,` |
| ImportTokens.SplitList | backend/src/main/java/com/example/service/DataLoadingService.java:228-255 | empty for an empty or "null" field; otherwise every entry is non-empty, trimmed and free of the chosen separator |
| ImportTokens.SplitListJoin | backend/src/main/java/com/example/service/DataLoadingService.java:228-255 | a list joined by one separator splits back into exactly that list, in order, when its entries are non-empty, trimmed, quote-free and free of that separator and of any separator splitList prefers to it; a single entry must hold no separator at all |
| ImportTokens.SingleEntryIsResplit | backend/src/main/java/com/example/service/DataLoadingService.java:234-240 | a one-entry list holding a separator other than the one it was written with is cut at that separator |
| ImportTokens.SplitListClean | backend/src/main/java/com/example/service/DataLoadingService.java:243-254 | when the pieces are already trimmed and non-empty, splitList returns them all in order |
| ImportIndex.Register | backend/src/main/java/com/example/service/DataLoadingService.java:148-151 | a new id gets the counter's value and the counter moves by one; a known id changes nothing; other entries stay |
| ImportIndex.Cleared | backend/src/main/java/com/example/service/DataLoadingService.java:193-195 | processBatch empties the map and keeps the counter |
| ImportIndex.ReindexAfterFlush | backend/src/main/java/com/example/service/DataLoadingService.java:157-164 | an id seen before a flush and again after it is created a second time, under a larger index |
| ImportIndex.FirstSeenIndices | backend/src/main/java/com/example/service/DataLoadingService.java:153-160 | registering pairs into an empty map numbers the ids from the counter consecutively in order of first appearance, each with the name of that first appearance |
| ImportIndex.ProcessBatch | backend/src/main/java/com/example/service/DataLoadingService.java:185-196 | a flush loses and reorders no link, empties the batch and both maps and keeps both counters |
| ImportIndex.Credit | backend/src/main/java/com/example/service/DataLoadingService.java:155-167 | one credit appends exactly its link and moves the celebrity counter only for a new id |
| ImportIndex.CreditPairsEmit | backend/src/main/java/com/example/service/DataLoadingService.java:153-168 | the pairs of a row emit one link per pair, in order, and leave the title counter alone |
| ImportIndex.AddRow | backend/src/main/java/com/example/service/DataLoadingService.java:143-168 | a row emits the links of its first min(ids, names) pairs and moves the title counter exactly when the title id is new |
| ImportIndex.CreditPairsQuiet | backend/src/main/java/com/example/service/DataLoadingService.java:153-167 | while the batch stays below batchSize, crediting a row's pairs registers them in order and queues their links, and changes nothing else |
| ImportIndex.AddRowQuiet | backend/src/main/java/com/example/service/DataLoadingService.java:143-167 | while no flush fires, a row registers its title, then its first min(ids, names) pairs, and queues its links |
| ImportIndex.RestQuiet | backend/src/main/java/com/example/service/DataLoadingService.java:134-168 | while no flush fires, the main loop registers the titles and credited pairs of the rows it does not skip, in file order, and queues their links |
| ImportIndex.NumberedBetweenFlushes | backend/src/main/java/com/example/service/DataLoadingService.java:143-168 | from empty maps, until the next flush both maps number their ids from where the counters stood, in order of first appearance, with the names of first appearance |
| ImportIndex.LoadNumbered | backend/src/main/java/com/example/service/DataLoadingService.java:110-168 | up to the first flush, a load numbers titles and celebrities from 0 in order of first appearance in the file, the first data row included |
| ImportIndex.Drain | backend/src/main/java/com/example/service/DataLoadingService.java:171-174 | the final flush hands over everything emitted and leaves nothing queued |
| ImportIndex.FirstNonBlank | backend/src/main/java/com/example/service/DataLoadingService.java:91-93 | the first data row is the first line that is not blank after trimming |
| ImportIndex.LoadLinks | backend/src/main/java/com/example/service/DataLoadingService.java:110-174 | the first row, the main loop and the last flush hand over every link of the rows, in file order |
| ImportIndex.Load | backend/src/main/java/com/example/service/DataLoadingService.java:69-174 | the load stops early exactly for a missing header, no data row or a short first row; otherwise it hands over every credited link of the file in order and leaves nothing queued |
| ImportIndex.CelebrityNameKept | backend/src/main/java/com/example/service/DataLoadingService.java:158 | entries of splitList are never empty, so a celebrity's name never falls back to its id |
| Controllers.Clamp | backend/src/main/java/com/example/CelebrityController.java:43 | the limit passed to the graph lies in 1..5: the requested value when in range, else the nearer bound |
| Controllers.PrefixesByFirstLetter | backend/src/main/java/com/example/ActorController.java:43 | only a line starting with I can start with "Invalid", and only one starting with O can start with "One or both" |
| Controllers.RenderedIsNoError | backend/src/main/java/com/example/CelebrityController.java:44-48 | an answer headed by a rendered block is never classified as an error by either controller |
| Controllers.ShortestPath | backend/src/main/java/com/example/CelebrityController.java:34-49 | a 400 for a blank id; otherwise the graph's answer for the clamped limit. Unknown ids and "No path found." become error bodies, the latter exactly when unreachable; a reachable pair gives 1 to clamp(max) shortest-walk blocks. ActorController.java:34-47 agrees except on a one-actor answer whose name starts with "Invalid" |
| Controllers.MatchesMembers | backend/src/main/java/com/example/CelebrityController.java:61-69 | an (id, name) pair is a match exactly when the id is listed, the name is the map's name for it and the lower-cased name contains the query |
| Controllers.Collect | backend/src/main/java/com/example/CelebrityController.java:61-73 | the scan returns the first twenty matches in iteration order, or all of them when fewer |
| Controllers.SearchByName | backend/src/main/java/com/example/CelebrityController.java:53-76 | nothing for a blank query; otherwise at most 20 hits, each a real (id, name) entry whose lower-cased name contains the lower-cased, trimmed query, and every match when fewer than 20 come back. ActorController.java:51-74 is the same |
| Controllers.HitsAreMatches | backend/src/main/java/com/example/CelebrityController.java:65-71 | the hits are genuine entries of the name map, and a short result misses no matching entry |

## Left out

- **Bidirectional.FindShortestPath:** the answer is proved to be a path from the start to the end. It is not proved to be a shortest one. Only validity is stated.
- **Bidirectional.FindShortestPath:** "No path found." ⇔ unreachable, and adjacency along the backward half, are stated only for symmetric graphs. The backward search follows adjacency lists out of the end actor, and a graph built from a cast file is symmetric (`CastGraph.BuildGraph`).
- **Bidirectional.Reconstruct:** the walk property needs the same symmetry hypothesis.
- **Java `null` ids and queries:** these are not modelled, and ids are plain strings. The code treats `null` the same as a blank id.
- **HashMap and HashSet iteration order:** this order is left unspecified. It appears in the model as:
  - the `order` parameter of the name search;
  - a choice (`:|`) when a set becomes an array or a shared movie is picked;
  - the adjacency lists given as input.
- **Text.Lower:** lower-cases ASCII letters only. Java's locale-dependent, full-Unicode `toLowerCase` is not modelled. Strings are sequences of Unicode scalar values, so UTF-16 surrogate pairs are not modelled either.
- **File and cache handling:** GZIP reading, `loadOrBuild`, `saveCache`, Java serialization and mtime checks are I/O. Lines come in as a sequence of strings.
- **Environment and logging:**
  - `GRAPH_RESOURCE_DIR` and `BATCH_SIZE` are read from the environment, so `batchSize` is a parameter.
  - Progress printing and `lineCount` only feed the log.
  - The header's `splitSmart` result is only logged.
- **ImportIndex.ProcessBatch:** persistence (`saveAll`) is recorded as the sets of entities and the list of links handed over. Repository order and the database are not modelled.
- **ImportIndex.NumberedBetweenFlushes:** the numbering is stated for runs of whole rows during which no flush fires. A flush that fires between two credits of one row is covered by `ProcessBatch` and `ReindexAfterFlush` only.
- **PathResult.ListsRead:** movie ids and titles are proved to read back only for a block whose every field is readable. A title with a comma is covered by `PathResult.CommaTitleSplits`.
- **ImportIndex.Register:** the counters are unbounded integers. Java `int` wrap-around after 2^31 ids is not modelled.
- **Graph status flags and `trimAdjacencyLists`:** the volatile `building` and `statusMessage` flags are concurrency plumbing. `trimAdjacencyLists` is not part of this model.
- **Other endpoints and classes:**
  - the controllers' status, photo and TMDB endpoints (network);
  - `DatabaseGraphService` (SQL-backed, foreign calls);
  - repositories, entities and application bootstrap;
  - the front end apart from `parseResult`.
