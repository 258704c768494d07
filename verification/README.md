# gourl: verified model

A Dafny model of the stateful parts of gourl, a URL shortener: click counting
from the redirect through Redis to SQLite, the link store with its lookup cache,
batch import, edits and their snapshots, the login limiter, session tokens, and
three hand-written scanners (SQL statements, CSV, server-sent events).

`dafny verify dfyconfig.toml` checks the whole project.

## How it is built

* SQLite is a value of type `Tables.Db`: rows of `links` by id, rows of
  `daily_clicks` by (link id, date), `backups` by `b_id`, and the AUTOINCREMENT
  mark. Every SQL statement is a pure function on it. Redis is a `map<string, int>`
  with INCR, GETDEL and INCRBY as its steps.
* Objects that the program updates in place are classes with the same fields:
  `Store.LinkCache`, `Store.LinkStore`, `Flusher.Counter`, `Flusher.Task`,
  `LoginLimiter.Limiter`, `Sse.Reader`. Rows are handed around as heap objects
  (`Store.LinkRef`), so that copying in and out of the cache is part of what is
  proved. Each method is proved against a function of the old state, and the
  properties of runs are lemmas about those functions. What each function means is
  a lemma of its own, about rows, counters and answers.
* The lines in the reply of a batch import are in request order, and so are its
  updated codes; its other code lists name the items refused by validation first.
  `Batch.BatchCreate` states both.
* Loops over Go maps pick keys in an arbitrary order; their results are proved
  for every order.
* Clocks, random codes, URL parsing, the configuration, HMAC and base64url,
  and what the network or SQLite happens to answer are parameters.

| file | about |
|---|---|
| `MapSum.dfy`, `Text.dfy` | sums over maps; splitting and trimming |
| `ShortCode.dfy`, `CounterKeys.dfy` | the grammar of codes; Redis keys |
| `Tables.dfy`, `Counts.dfy` | tables and statements; what a flush does to them |
| `TableLaws.dfy` | what each statement leaves in the tables, row by row |
| `World.dfy`, `Clicks.dfy` | runs with clicks and flushes as atomic steps; where their clicks are |
| `CachedStore.dfy`, `CacheLaws.dfy`, `Store.dfy` | the store with and without cache; what the cache remembers; the store as objects |
| `Flusher.dfy`, `Protocol.dfy` | the flush task; its interleavings with clicks, writes and crashes |
| `Staleness.dfy` | the cache under concurrency |
| `Batch.dfy`, `ImportLaws.dfy` | import in phases; what becomes of each item |
| `LinkEdits.dfy`, `EditLaws.dfy` | PATCH and the snapshot journal; what a PATCH leaves in the row |
| `Listing.dfy` | expiry filters, the sweep, pages |
| `SqlSplit.dfy`, `SqlTokens.dfy`, `Csv.dfy`, `Sse.dfy` | the scanners; SQL scripts as tokens |
| `LoginLimiter.dfy`, `Session.dfy` | login attempts; session tokens and their epoch |

## Where the code does not do what is said of it

* A flush is described as all-or-nothing, losing at most one interval in a crash
  (`internal/counter/flush.go:15-18`). When the GETDEL pipeline itself reports an
  error, the values it already took are not added back
  (`internal/counter/flush.go:59-62`). `Flusher.AllOrNothingIff` is the exact
  condition for one flush, `Protocol.BrokenPipelineLoses` a run from the empty system
  that loses a click without any crash, `Protocol.LossesAreExact` what each step
  loses, and `Protocol.LosesNothingIff` when a run loses nothing. The pipeline may
  also keep running on the server after the client gave up.
* A counter without a value is meant to be passed over
  (`internal/counter/flush.go:129-132`). The pipeline call before it
  (`internal/counter/flush.go:114-122`) returns the first error among its replies, and
  go-redis counts a missing key (`redis.Nil`) as one, so that line is not reached: one
  missing key, as when SCAN lists a key twice, fails the flush and loses everything it
  took: `Flusher.ListedTwiceIsLost`. Both models assume this of go-redis, which is not part of this model.
* `gourl reset password` clears the password hash and leaves the epoch
  (`internal/cli/cli.go:584-606`), so with a fixed SESSION_SECRET it revokes no
  session. It suspends them until the next setup, unless the legacy ADMIN_PASSWORD
  stands in at once (`internal/api/admin.go:87-105`): `Session.PasswordResetSuspends`.
* `gourl reset config` deletes the file and with it the epoch
  (`internal/cli/cli.go:608-622`), so a revoked session can become good again.
  `Session.DeletedConfigRevives` is such a run, `Session.RevokedForGoodIff` the exact
  condition.
* Every write is said to invalidate the cache entry it affects. A flush skips the
  empty code (`internal/store/counts.go:57`), so a cached link with an empty code
  would go stale: `CachedStore.CountsKeepCacheIff` gives the exact condition. Codes
  accepted by the handlers are never empty.
* Every edit is said to leave a snapshot. A PATCH that gives no field and no
  different code still writes `updated_at` and leaves none:
  `LinkEdits.SnapshotIff`. A PATCH that is rejected after the snapshot leaves one
  all the same (`internal/api/links.go:352-357` comes before the checks); the
  journal lemmas account for these.
* A conflict update is said to update the existing link with the item's fields
  (`internal/api/batch.go:24`). It sets `created_at` on its copy of the row
  (`internal/api/batch.go:420-422`), but the UPDATE does not write it
  (`internal/store/store.go:349-351`). `Batch.UpdateTakesFieldsIff` is the exact
  condition under which the link takes every field given, `Batch.CreatedAtNotTaken` an
  item reported as updated whose creation time it does not take.

## Model

| member | source | states |
|---|---|---|
| ShortCode.Validate | internal/shortcode/shortcode.go:89-118 | accepts exactly the codes of a left-to-right grammar, and otherwise names the very fault met first when reading from left to right, though it works by splitting and looping |
| ShortCode.ValidIffSegments | internal/shortcode/shortcode.go:16-20 | a code is valid if and only if it is the root or at most 64 characters in one to five segments, each non-empty and of code characters |
| ShortCode.CodeCharIs | internal/shortcode/shortcode.go:83-118 | codes are made of the characters of generated ones, dash, underscore and common Chinese characters |
| ShortCode.RandomCodesAreValid | internal/shortcode/shortcode.go:35-47 | generated codes satisfy the grammar of custom codes |
| ShortCode.ValidCodesAreClean | internal/shortcode/shortcode.go:89-118 | a valid code is not empty and holds no key separator |
| CounterKeys.TotalDecodesIff | internal/counter/flush.go:141-160 | the total key of any text decodes back if and only if the text does not end in a separator and a calendar date |
| CounterKeys.DailyDecodesIff | internal/counter/flush.go:141-160 | the daily key of any text and any date text decodes back if and only if the code is not empty and the date is a calendar date |
| CounterKeys.ParsedKeysPrintBack | internal/counter/flush.go:144-152 | whatever a scanned key decodes to encodes to that key again |
| CounterKeys.CleanKeysNeverCollide | internal/counter/counter.go:79-82 | keys of valid codes and calendar dates, total or daily, coincide only when they are the same key |
| CounterKeys.KeyTexts | internal/counter/counter.go:14-18 | the two key forms as they stand in Redis |
| CounterKeys.DatesAreTheCalendar | internal/counter/flush.go:154-160 | ten characters of year, month and day are recognised as a date exactly when the calendar has that day, leap years included |
| CounterKeys.DayAfterIsDate | internal/counter/counter.go:84-85 | the day after a recognised date is one, through month ends and the turn of the year |
| Counts.DailiesAnyOrder | internal/store/counts.go:36-50 | any two orders of the same daily counts, repetitions included, leave the same table |
| Counts.FlushedDates | internal/store/counts.go:36-50 | a flush adds a code's daily counters to the dates of its live link's id, and to no other row |
| Counts.DailyTotal | internal/store/counts.go:43-47 | one upsert raises the overall total by its count if the code is live and by nothing otherwise |
| World.StepKeeps | internal/store/store.go:242-532 | every handler action, click and flush keeps ids bounded, live codes unique, rows valid, click counts equal to their daily sums and the buffer balanced |
| World.ClickCountsAlwaysAddUp | internal/store/counts.go:26-53 | in every run from an empty database each link row, deleted or not, has click_count equal to the sum of its daily counts by link id |
| World.TotalClicksNeverFall | internal/store/stats.go:14-23 | the dashboard total never falls in any run |
| World.IdsAreNeverReused | internal/store/store.go:135-146 | an id that names no row any more, hard deletion included, never names one again |
| World.CreatedStartsFromZero | internal/store/store.go:247-265 | a created link gets a larger id than any before and has no daily counts, even under a reused code |
| Clicks.ClickAddsOne | internal/counter/counter.go:48-58 | a click adds one to the total counter of its code and to that of its date, and nothing to any other |
| Clicks.ClickIsTwoIncrs | internal/counter/counter.go:51-57 | a click as one step is two INCRs of the interleaved protocol |
| Clicks.IssuedIsSent | internal/counter/counter.go:51-57 | the book of clicks sent is the number of INCRs, key by key |
| Clicks.ActionIsCall | internal/store/store.go:247-532 | every action of a run but click and flush is the store call it stands for |
| Clicks.ImportCreates | internal/api/batch.go:97-117 | an import of a run leaves no admissible row out: its code is in use afterwards |
| Clicks.ServedClicksAreCounted | internal/api/redirect.go:55-65 | over any run the clicks served are exactly those the tables and the buffer gain and those that leave with a flush without a live link or a row deleted physically, for totals and for dates |
| Clicks.DashboardShowsServedClicks | internal/store/stats.go:14-23 | the dashboard total is the clicks served less those buffered and those dropped |
| TableLaws.CreateAdds | internal/store/store.go:247-265 | a create is refused exactly for a code in use; otherwise the row is found with every field as given, and nothing else changes |
| TableLaws.CreateManyAdds | internal/store/store.go:270-304 | the rows that get in stand under the rising ids reported for them with their fields as given, and nothing else changes |
| TableLaws.CreateManyTakesFirst | internal/store/store.go:281-286 | exactly those rows get in whose code is free and not used by an earlier one |
| TableLaws.UpdateWrites | internal/store/store.go:348-367 | an edit writes five fields of the live row of its code and no other field or row |
| TableLaws.MetaKeeps | internal/store/store.go:306-317 | an empty fetched title replaces nothing, a fetched description only fills an empty one |
| TableLaws.RenameMoves | internal/store/store.go:370-402 | when a rename finds no row, a taken code, or moves exactly one row, labels following and counts staying |
| TableLaws.FreedCodeCanBeTaken | internal/store/store.go:404-410 | a code freed by a deletion, soft or hard, can be renamed to, and the row kept for it stays |
| TableLaws.DeleteLaw | internal/store/store.go:411-435 | a deletion succeeds exactly for a code in use, which is free then; its row is gone or flagged and every other row stays |
| TableLaws.DeleteManyLaw | internal/store/store.go:441-483 | no listed code is in use afterwards, rows live under one are gone or flagged, others stay, and the number reported is that of links live no more |
| TableLaws.SweepLaw | internal/store/store.go:500-532 | the sweep takes away or flags the expired live rows and no others, and reports their number |
| TableLaws.TotalsLaw | internal/store/counts.go:26-35 | a live row gets the positive total of its code and the time, every other row and field stays |
| TableLaws.SnapshotGivesRowBack | internal/store/backups.go:29-45 | a snapshot gives the live row back, field by field |
| Store.LinkCache.Lookup | internal/store/cache.go:30-40 | returns a fresh copy of an unexpired entry and nothing otherwise |
| Store.LinkCache.Put | internal/store/cache.go:42-47 | keeps a copy of its own for sixty seconds and changes no other entry |
| Store.LinkStore.CreateLink | internal/store/store.go:247-265 | new tables, cache, id and status are those of the specified step; the caller's row never becomes the cached one |
| Store.LinkStore.CreateLinks | internal/store/store.go:270-304 | inserts in order, skipping taken codes, stamps ids in place, and fills the cache after the commit; without a commit nothing changes |
| Store.LinkStore.UpdateMeta | internal/store/store.go:310-325 | the step of the specification, on tables and cache |
| Store.LinkStore.GetLink | internal/store/store.go:330-344 | answers and fills as specified, with a row that the cache does not hold |
| Store.LinkStore.UpdateLink | internal/store/store.go:348-367 | the step of the specification; a missing link changes nothing |
| Store.LinkStore.RenameLink | internal/store/store.go:370-402 | the step of the specification, with a missing link reported before a taken code |
| Store.LinkStore.DeleteLink | internal/store/store.go:411-435 | the step of the specification, soft or hard |
| Store.LinkStore.DeleteLinks | internal/store/store.go:441-483 | deletes the live ones among the codes, counts them, names the first in request order, and invalidates every code |
| Store.LinkStore.DeleteExpired | internal/store/store.go:500-532 | the sweep, its count, one of the links that expired first, and an empty cache |
| Store.LinkStore.ApplyCounts | internal/store/counts.go:19-63 | a committed flush has the specified effect in any order of the totals; a failed one has none |
| Store.LinkStore.AddTotals | internal/store/counts.go:26-35 | whatever order the totals are visited in, each positive one lands once on the live row of its code |
| Store.LinkStore.BackupLink | internal/store/backups.go:29-45 | appends the snapshot under the next number and changes nothing else |
| Store.LinkStore.ClearBackups | internal/store/backups.go:59-70 | empties the snapshots and returns how many there were |
| CachedStore.StepRefines | internal/store/store.go:248-532 | on a coherent cache every store call answers and writes as if there were no cache, and leaves it coherent |
| CachedStore.CacheNeverShows | internal/store/cache.go:9-61 | over whole runs the outputs and tables are those of a store without a cache |
| CachedStore.CountsKeepCacheIff | internal/store/counts.go:54-60 | a flush leaves the cache coherent if and only if it adds no clicks to a cached link with an empty code |
| CachedStore.CreateKeepsCacheIff | internal/store/store.go:259-262 | a successful create leaves the cache coherent if and only if the row came undeleted |
| CacheLaws.LookupFills | internal/store/store.go:330-344 | a lookup that misses and finds a row is answered from the cache for exactly sixty seconds after; any other leaves the cache alone |
| CacheLaws.CreateFills | internal/store/store.go:259-262 | a created link is answered from the cache at once |
| CacheLaws.CreateManyFills | internal/store/store.go:296-301 | so is every link an import created |
| CacheLaws.OthersStay | internal/store/cache.go:42-61 | a call touches only cache entries it names; the sweep and an explicit invalidation forget all |
| Flusher.Counter.Incr | internal/counter/counter.go:48-58 | one click raises exactly its total and its daily counter |
| Flusher.Counter.ScanKeys | internal/counter/flush.go:99-109 | lists every counter key and nothing else, as often as SCAN does, or fails |
| Flusher.Counter.GetAndResetMany | internal/counter/flush.go:113-139 | succeeds if and only if the pipeline replies in full and every key has a value when its turn comes; takes exactly the values of the commands that ran either way |
| Flusher.Partition | internal/counter/flush.go:64-75 | the totals and dailies built in any order have the effect of the decoded counters as a whole |
| Flusher.Task.FlushOnce | internal/counter/flush.go:50-96 | what Redis, the tables and the cache hold after each of the five ways a flush can end, which of them it is, and exactly which keys lost their values |
| Flusher.AllOrNothingIff | internal/counter/flush.go:15-18 | a flush counts everything or leaves the buffer as it was if and only if a condition on the answers of Redis and SQLite holds |
| Flusher.BrokenPipelineLoses | internal/counter/flush.go:59-62 | a broken pipeline on distinct keys loses exactly as many counters as the server got to |
| Flusher.ListedTwiceIsLost | internal/counter/flush.go:98-122 | one counter listed twice is lost although Redis answers everything |
| Flusher.FlushOnceIsOneAction | internal/counter/flush.go:47-83 | a flush without failures is the atomic flush of whole runs |
| Protocol.ClicksAreConserved | internal/counter/flush.go:50-139 | at every moment of every interleaving, for each key, clicks sent are buffered, in flight, counted, dropped or lost, none is counted that was not sent, and what was counted is the sum over daily_clicks and over the click_count of all rows, those physically deleted included |
| Protocol.DashboardTotalConserved | internal/store/stats.go:18-39 | the sum over daily_clicks is the daily counters sent, less those buffered, in flight, dropped and lost |
| Protocol.RowsTotalConserved | internal/store/counts.go:26-35 | the sum of all click counts, with those of physically deleted rows, is the total counters sent, less those buffered, in flight, dropped and lost |
| Protocol.LossesAreExact | internal/counter/flush.go:59-96 | by how much each step raises the number of clicks of a key that are nowhere any more |
| Protocol.LosesNothingIff | internal/counter/flush.go:50-96 | a run loses nothing if and only if each of its steps is harmless in the state it meets |
| Protocol.BrokenPipelineLoses | internal/counter/flush.go:59-62 | a run from the empty system, for any code, in which a click ends up in no place and no table |
| Protocol.MissedTakeIsForgotten | internal/counter/flush.go:114-122 | after a GETDEL without a value neither commit nor add-back can follow, only the loss of all that was taken |
| Protocol.CalmRunsLoseNothing | internal/counter/flush.go:85-96 | runs without crash, broken pipeline, failed add-back or repeated scan key lose nothing |
| Protocol.FlushTotal | internal/store/counts.go:36-50 | a committed flush raises the dashboard total by the daily values it took for live codes, each once |
| Protocol.FlushRowsTotal | internal/store/counts.go:26-35 | a committed flush raises the sum of click counts by the totals it took for live codes, each once |
| Protocol.WritesMoveNoClicks | internal/store/store.go:242-532 | any other write lowers that sum by the counts of the rows it physically deletes and by nothing else |
| Protocol.CommitCountsRow | internal/store/counts.go:26-50 | a commit adds to each live row exactly the values taken under its own total key and its own daily keys, and nothing to deleted rows |
| Protocol.EachLinkHoldsItsCredits | internal/store/counts.go:26-50 | in every interleaving, each link row's click count is the sum of what commits took under the total counter of the code it had then, and each date's count, even of a row that is gone, the sum for that date, through renames, deletions and reuse of codes |
| Staleness.HitsAreRecent | internal/store/cache.go:11-47 | under any interleaving a hit was the committed live row no earlier than sixty seconds and the largest read-to-fill gap ago |
| Staleness.BoundIsReached | internal/store/store.go:330-344 | a run reaches that bound, serving a deleted row |
| Batch.PhasesCommute | internal/api/batch.go:113-165 | inserting all items first and settling conflicts afterwards gives the same tables, ids, snapshots and outcomes as placing them in turn, repeated codes included |
| Batch.ImportIsOneByOne | internal/api/batch.go:54-165 | validation, phases and the final sort give exactly the result of importing the items one at a time in order |
| Batch.BatchCreate | internal/api/batch.go:34-185 | the handler on the cached store, with the policy as text, has that result, with lines and updated codes in request order, the four counts, the other code lists and the first created link; a failed insert transaction changes nothing |
| Batch.UpdateTakesFieldsIff | internal/api/batch.go:410-424 | a conflict update gives the link every field of the item if and only if the item brings no creation time or the one the link has, which never moves |
| Batch.CreatedAtNotTaken | internal/api/batch.go:420-422 | an item with a creation time that is reported as updated while the link keeps its own |
| Batch.PhasesInOrder | internal/api/batch.go:113-156 | the phases write the lines of created and updated links in request order |
| ImportLaws.FirstFaultIsReported | internal/api/batch.go:435-462 | an item is accepted if and only if nothing is wrong with it; otherwise the first thing wrong is reported |
| ImportLaws.ImportOneLaw | internal/api/batch.go:72-156 | what becomes of one item: no trace if skipped or refused, a row with all it gives if created, and what the policy says for a code in use, to that row and no other |
| ImportLaws.PolicyTexts | internal/api/batch.go:48-51 | the four texts of the conflict policy |
| ImportLaws.ImportKeepsLinks | internal/api/batch.go:54-165 | an import removes, renames, deletes and restores no link and moves no click; unless it is to update, it changes no row and takes no snapshot |
| ImportLaws.ImportedRowsAreAdmissible | internal/api/batch.go:435-462 | the rows it brings are such as the runs of the service start from |
| Batch.ApplyConflict | internal/api/batch.go:397-425 | snapshots the live row, then writes the merged one, whether the row came from the cache or not |
| Batch.SortedIsNumbered | internal/api/batch.go:160-164 | sorting by index has one possible result, the lines in request order |
| LinkEdits.UpdateLink | internal/api/links.go:329-435 | a PATCH looks up, snapshots, checks, renames and writes as specified, on a row of its own |
| EditLaws.PatchWrites | internal/api/links.go:365-435 | after a successful PATCH the stored row is the one answered: every given field has the given value, every other the old one, no other row changes and no count moves |
| EditLaws.PatchedIff | internal/api/links.go:329-435 | a PATCH succeeds if and only if the link is there, nothing is wrong with it and its new code is free; otherwise it names the first thing wrong |
| LinkEdits.StepJournals | internal/store/backups.go:27-45 | every event adds to the journal exactly the pre-edit row it owes; numbers stay 1, 2, ... and old rows stay as they are |
| LinkEdits.JournalIsExact | internal/api/links.go:347-357 | over any run the journal grows by the pre-edit row of every attempted edit, in order, and by nothing else |
| LinkEdits.JournalHoldsReplacedRows | internal/api/batch.go:405-409 | over any run, every row of a link that an edit made with snapshots on has changed in the tables, in anything but updated_at, stands as it was among its snapshots, in order |
| LinkEdits.ReplacedIsOwed | internal/api/links.go:347-357 | the row an edit changes is the row it snapshots, and no edit removes a row |
| LinkEdits.FailedEditsChangeNoLink | internal/api/links.go:358-435 | an edit answered with an error leaves links and daily counts as they were, the failure after a rename being impossible |
| LinkEdits.SnapshotIff | internal/api/links.go:350-357 | a successful PATCH leaves no snapshot if and only if it gives no field and no different code; then only updated_at moves |
| Listing.ExpiryViewsAgree | internal/store/store.go:487-532 | in every reachable state active and expired split the live links, the redirect serves the active ones, and the sweep removes exactly what was counted |
| Listing.ServedRow | internal/api/redirect.go:55-61 | the redirect serves a live link exactly when the list calls it active |
| Listing.ListingIsUnique | internal/store/store.go:580-582 | column and row id in one direction order the matching rows in only one way |
| Listing.ListingExists | internal/store/store.go:576-582 | and there is such an order of the matching rows for every table |
| Listing.ListingRises | internal/store/store.go:545-552 | along the list the chosen column rises or falls, and among equals the id does |
| Listing.LessIs | internal/store/store.go:545-552 | codes are compared as in a dictionary |
| Listing.FiltersSplit | internal/store/store.go:563-570 | the expired and the active filter share no link and together give all, and the expired are as many as CountExpired says |
| Listing.PageRules | internal/store/store.go:536-544 | page sizes from 1 to 100 as asked, 20 below, 100 above; pages below the first are the first |
| Listing.PagesTile | internal/store/store.go:535-596 | the pages answered, put together, are the selected links in order, each once; every answer gives their number as total; only the last page may be short and nothing follows it |
| SqlSplit.SplitSqlStatements | internal/api/dbconsole.go:92-163 | the scanner with flags and lookahead finds the statements of a one-character automaton that toggles on every quote, whose meaning is CutsAtSemicolons |
| SqlTokens.CutsAtSemicolons | internal/api/dbconsole.go:92-163 | a script is cut exactly at its semicolon tokens: never inside a string of either kind, however quotes are doubled, or a comment of either kind, closed or not |
| SqlTokens.EveryScriptHasTokens | internal/api/dbconsole.go:92-163 | every script whatever is the print of some tokens, so that law covers all inputs |
| SqlSplit.PiecesRebuild | internal/api/dbconsole.go:99-162 | the raw pieces joined by semicolons are the script |
| SqlSplit.EachStatementAlone | internal/api/dbconsole.go:149-161 | every emitted statement splits to itself alone |
| SqlSplit.SplitJoinSplit | internal/api/dbconsole.go:92-163 | splitting, joining with a semicolon on its own line and splitting again gives the same statements |
| Csv.ParseCSV | frontend/src/lib/csv.ts:4-49 | the loop computes the specified rows and objects |
| Csv.ReadPrinted | frontend/src/lib/csv.ts:10-38 | reading any RFC 4180 print of records gives them back, less those of one empty field |
| Csv.RoundTripIff | frontend/src/lib/csv.ts:28-38 | the round trip is exact if and only if no record is a single empty field |
| Csv.ReturnsAreDropped | frontend/src/lib/csv.ts:34-36 | outside quotes carriage returns are dropped wherever they stand |
| Csv.QuotesInside | frontend/src/lib/csv.ts:16-27 | a quote in the middle of a field opens a quoted part of it |
| Csv.TableReadsBack | frontend/src/lib/csv.ts:40-48 | each row object has the columns whose trimmed names a plain object can keep and no others, and gives a distinct one its own trimmed field, empty for short rows |
| Csv.ObjectAt | frontend/src/lib/csv.ts:42-47 | under a name, unless empty or __proto__, stands the trimmed field of the last column so named, empty for short rows |
| Sse.Reader.OnChunk | frontend/src/lib/api.ts:394-411 | a chunk delivers the payloads of the frames it completes and leaves the rest buffered |
| Sse.FirstDataLine | frontend/src/lib/api.ts:396-405 | of several data lines in a frame the first is delivered, of none none |
| Sse.ChunksDoNotMatter | frontend/src/lib/api.ts:386-412 | any way of cutting a text into chunks delivers the same payloads |
| Sse.BrokenStreamDeliversPrefix | frontend/src/lib/api.ts:389-393 | a connection that ends anywhere has delivered a prefix |
| Sse.StreamInvertsIff | internal/api/logs.go:80-97 | frames and pings come back as the payloads sent if and only if every payload is one trimmed line |
| Sse.PumpAll | frontend/src/lib/api.ts:386-413 | a fresh reader fed any chunks delivers the payloads of the whole text, and the records sent, in order, when the text is what the server wrote |
| LoginLimiter.Limiter.Locked | internal/api/ratelimit.go:35-51 | locked until the window is over, then a clean slate; other addresses unaffected |
| LoginLimiter.Limiter.RecordFailure | internal/api/ratelimit.go:53-69 | counts the failure and locks at the threshold; other addresses unaffected |
| LoginLimiter.Limiter.Clear | internal/api/ratelimit.go:71-77 | forgets one address only |
| LoginLimiter.Limiter.Login | internal/api/admin.go:204-232 | the order of lock check, body, password check and bookkeeping; success clears the address |
| LoginLimiter.Limiter.ChangePassword | internal/api/admin.go:347-376 | the same order; a right old password clears nothing |
| LoginLimiter.AnswerIs | internal/api/admin.go:204-232 | inside its lock window an address is refused whatever it sends, outside never; otherwise the body and the password decide |
| LoginLimiter.LockedRefusesAll | internal/api/ratelimit.go:35-51 | over any attempts while a lock lasts all are refused and the lock does not move |
| LoginLimiter.ThresholdLocks | internal/api/ratelimit.go:53-69 | the wrong password that reaches the threshold locks for exactly the set time |
| LoginLimiter.BelowThreshold | internal/api/ratelimit.go:60-69 | before that one failure is counted and nothing locked |
| LoginLimiter.RightPassword | internal/api/admin.go:226-227 | after a right login all that follows is as if the address had never been seen; after a right password change nothing is cleared |
| LoginLimiter.SwitchedOff | internal/api/admin.go:213-217 | with a setting at zero nobody is ever refused |
| LoginLimiter.AttemptBound | internal/api/ratelimit.go:35-69 | within d seconds and without a successful login at most max * (1 + d div (lock + 1)) wrong passwords of an address are checked, by login and password change together, whatever others do and however often the password is changed |
| LoginLimiter.BoundIsReached | internal/api/ratelimit.go:53-69 | that many really can be |
| Session.VerifiesIff | internal/api/admin.go:131-164 | a token verifies if and only if the epoch is its own and its lifetime is not over |
| Session.AlteredVerifiesIff | internal/api/admin.go:146-164 | a token put together under the signature of any payload verifies if and only if its epoch is right, it is not over, and the two payloads have the same mac |
| Session.ParseIntReads | internal/api/admin.go:151-157 | signs and leading zeros make no difference to the number read |
| Session.NotANumber | internal/api/admin.go:151-157 | nothing but an optional sign and digits is read as a number |
| Session.SessionSurvivesIff | internal/api/admin.go:168-181 | a session is accepted after a run of configuration acts if and only if there is a password then, configured or legacy, the epoch is back where it was, and its own lifetime lasts |
| Session.EpochIsBackIff | internal/cli/cli.go:539-541 | the epoch is where it was if and only if there was no revocation, or the configuration file was deleted and since then as many revocations were made as it counts |
| Session.PasswordResetSuspends | internal/cli/cli.go:584-606 | after a password reset by the CLI old sessions are accepted only if a legacy password stands in, and after the next setup exactly as before |
| Session.RevokedForGood | internal/api/admin.go:347-395 | while the configuration file stays, no act makes a revoked token valid again |
| Session.RevokedForGoodIff | internal/cli/cli.go:608-622 | a revoked token is good again if and only if the file was deleted since, exactly as many revocations followed as its epoch counts, there is a password and its lifetime lasts |
| Session.DeletedConfigRevives | internal/cli/cli.go:608-622 | a run in which that happens |
| Session.EpochCountsBumps | internal/api/config.go:31-36 | while the file stays, the epoch rises by the password changes and session resets and by nothing else |
| Session.PasswordStays | internal/cli/cli.go:584-622 | a password goes away only with a reset of it or of the configuration |
| Session.SetupOnlyOnce | internal/api/admin.go:284-288 | setup works exactly where there is no password of either kind |
| Session.PutConfigSets | internal/api/config.go:24-44 | a saved lifetime is in force and nothing else moves; a refused one moves nothing |
| Session.LifetimeStaysValid | internal/config/config.go:180-185 | no run leaves a lifetime that the settings do not allow |

## Left out

- Protocol.ClicksAreConserved: one flusher at a time; SQLite commits are taken as atomic, so a commit that takes effect but reports an error is not modelled.
- Flusher.Task.FlushOnce: scan, take and commit happen without clicks in between; Protocol has the interleavings.
- World.ClickCountsAlwaysAddUp: a click is one step and a flush is one step; with a flush between the two INCRs of one click total and daily counts differ until the next flush, and for good when the code is renamed, deleted or given to another link between the flushes of the two halves.
- Session.RevokedForGood: every handler is one step; a configuration PUT that read before a password change and wrote after it would put the old epoch back.
- Session.SessionSurvivesIff: SESSION_SECRET and ADMIN_PASSWORD stay the same; without the first a restart makes a new secret, and no older token verifies. Configuration files edited by hand are not modelled.
- LoginLimiter.AttemptBound: attempts of one address are sequential; requests that pass the lock check together are not modelled.
- Batch.BatchCreate: database errors while a conflict is settled and the meta-fetch queue are not modelled; generated codes are taken as not empty.
- SqlSplit.SplitSqlStatements: works on characters where the source works on bytes; all the characters it looks at are ASCII, so the two agree on valid UTF-8.
- Csv.TableReadsBack: lower-casing is a parameter.
- Counters, ids and the epoch are unbounded integers; the source has int64. The range matters, and is modelled, only where tokens are parsed.
- Text search of the link list is a parameter; per-day sums of the dashboard are not modelled.
- Base64, HMAC, bcrypt, URL parsing, JSON, YAML and date parsing beyond calendar dates: library code that is not part of this model.
- Fan-out of log records to slow subscribers (internal/logx/logx.go): it only drops.
- The link rate limiter, reserved codes, UA and IP blocks: single checks without state of their own, or library code.
- HTTP routing, pages, icons, exports, the CLI, the SQL console's allow list, and the user interface.
- Databases from before schema version 5 and edits made past the store (SQL console, CLI resets of the database and of Redis).
