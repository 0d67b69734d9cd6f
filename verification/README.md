# Verified model of the kine log store and its DDS query engine

An etcd-style multi-version key-value store kept as an append-only table, and the query engine over DDS samples that
stands in for the SQL the store was written for. The project models the code of both and proves, with Dafny 4.11, what
they promise; where the code does not keep a promise, it proves exactly when it does.

`dafny verify dfyconfig.toml` checks everything.

| file | what it models |
|---|---|
| `Tables.dfy` | rows, tables in id order, the newest row of a key at a revision |
| `SqlQueries.dfy`, `QueryEngine.dfy` | LIKE, the list queries; the engine's grouping loops over unordered samples |
| `PointReads.dfy` | reads of one key as the first row of a list, and for which keys that is the key's newest row |
| `Compaction.dfy` | the DELETE of the SQL drivers on tables whose keys form chains |
| `Operations.dfy` | Create, Update, Delete as read, decision and guarded append; compare-and-set on a map as the reference |
| `Protocol.dfy`, `Runs.dfy` | any number of clients interleaving reads, appends and compactions; whole runs |
| `LogStructuredStore.dfy`, `LimitedServerTxn.dfy` | the backend's methods on one table; recognition and handling of etcd transactions |
| `Paging.dfy` | range requests with continuation keys, the lease loader's page loop, List with its relist |
| `Allocator.dfy` | row ids from the max-id topic, on one node and on several |
| `WatchStitching.dfy` | the join of snapshot and live feed, and the poll loop behind the feed |
| `Broadcasting.dfy` | fan-out over bounded channels with asynchronous eviction |
| `KeyCodec.dfy` | etcd keys as base58 subject tokens |

## What came out

The promises hold for every run or input unless listed here; each exception has its exact condition.

- **Reads of one key.** The store looks a key up by listing it as a pattern with limit 1. That is the key's newest row in
  every table exactly for keys that do not end in a slash and hold no wildcard, and under DDS no percent sign
  (`PointReads.ExactKeyIff`, per table `PointReads.ListedIsLatestIff`). For any other key there is a table in which
  Create takes a stranger for the key, Delete deletes the stranger and Update writes the key over the stranger's version
  (`Operations.InexactKeyMisfires`), so exactly on the exact keys the store is a map with compare-and-set in every situation (`Operations.ExactKeysRefine`). Statements
  about runs and transactions are about keys that read themselves in the tables at hand: exact keys always, others as
  long as no other name there matches them (`PointReads.ReadsItself`), which a set of keys none of which matches another
  keeps throughout a run (`Runs.ApartKeysReadThemselves`).
- **Get and Update under DDS.** They ask for live rows, and the first sample to arrive settles what they see: the read is
  right exactly when it agrees with the newest one on being deleted (`PointReads.FoundInSamplesIff`,
  `Operations.UpdateDecidesRightIff`). An update of a deleted key at its tombstone's revision otherwise goes through
  (`Operations.TombstoneIsUpdated`).
- **Refused deletes.** A Delete whose append is refused answers "not deleted" and shows the version it reads then.
  Compare-and-set says the same exactly if the Delete is conditional and the key is there at that second read
  (`Protocol.RefusalIsHonest`); an unconditional Delete overtaken by an Update fails on a key that is there
  (`Runs.RefusedDeleteDiffers`).
- **Fillers.** Filling a missing revision keeps all chains and views (`Compaction.FillKeepsChains`,
  `Compaction.FillKeepsViews`). A Create of the filler's own name in flight is refused on account of it, though the key
  is not live (`Protocol.FillMisleads`, `Protocol.FillKeepsInvIff`).
- **Compaction against operations in flight.** Staying at or below the revision at which every pending operation read
  is not enough. A Create that has read a tombstone carries the tombstone's id as `prev_revision`; once that tombstone
  is compacted, another Create finds no row and carries 0. The index sees two different pairs and lets both in
  (`Runs.ReadRevisionBoundIsNotEnough`). `Runs.CompactSafeIsExact` has the exact condition, `Runs.BelowReadsIsSafe`
  one a compactor can meet by revisions alone. With the retained 1000 revisions and no operation that takes longer than
  a thousand ids, all that is left to avoid is a Create that has just read an old tombstone
  (`Runs.RetainedCompactionIsSafeIff`).
- **The reserved key.** The first half of the compaction rule leaves `compact_rev_key` out, the second half does not, so
  a tombstone on that key uncovers an older row (`Compaction.ReservedKeyView`).
- **Transactions.** Five forms are recognised; for each, written out, the store left and the response are proved
  (`LimitedServerTxn.UpdateForm` and those beside it), and everything else is an error
  (`LimitedServerTxn.OtherForms`). On plain transactions about one key "delete if absent" deletes a present key, "delete this version"
  of an absent key reports success, and the create form of an update on a present key is an error rather than a failed
  comparison (`LimitedServerTxn.PlainTransactions`). In general the update handler ignores the options of its put, all
  handlers ignore range ends, and each takes its key from either the comparison or the write;
  `LimitedServerTxn.TxnEffectIsEtcds` and `LimitedServerTxn.TxnOutcomeIsEtcds` say exactly when that makes a difference.
- **Grouping in the engine.** With "f" the first sample to arrive decides whether a name shows, not the newest
  (`QueryEngine.LiveAnswerIsSqlListIff`), so some order of arrival is wrong as soon as a name has selected rows of both
  kinds (`QueryEngine.OrderProofIff`).
- **Patterns.** The engine's filter for `p%` looks for `p` anywhere in the name (`SqlQueries.FilterListsEqual`), and
  under LIKE a prefix with a wildcard lists keys from elsewhere (`SqlQueries.PrefixPatternIff`,
  `Paging.ForeignNamesIff`).
- **Continuing a list.** After a key without a row SQL compares with NULL and returns nothing, the engine starts over
  (`QueryEngine.MissingStartKey`). With "f" the engine's continued list is not always the rest of its full list
  (`QueryEngine.LiveQuery09Iff`).
- **Counting.** A count is told as the revision, tombstones included, and the maximum id as the count
  (`QueryEngine.CountUnder`).
- **Pages.** A start key equal to the prefix means "from the beginning", so a live key that equals the prefix and ends a
  continued page sends the walk back to its start for ever (`Paging.WalkEndsIff`, `Paging.RestartsAtPageEnds`,
  `Paging.WalkCanRestart`). This concerns range clients and, for the key "/", the lease loader. A range client also
  needs that no continued page ends with a name ending in NUL, which the server trims (`Paging.TrimsWell`).
- **Range ends.** A client's prefix is recovered with a slash behind it if it had none (`Paging.RangeEndRoundTrip`). Then
  the request's key is no longer the prefix and counts as a start key: at a given revision, or after a relist, such a
  request lists nothing unless its key has a row of its own, and then only what was written after that row
  (`Paging.RangeUnderKey`).
- **Ids on several nodes.** Unique over a run exactly when every allocation happens where the previous write has arrived
  (`Allocator.UniqueIffLastWriteArrived`).
- **Watches.** Complete when rows become visible in id order; a row that becomes visible below the revision reported with
  a non-empty snapshot is lost, whether it is overtaken by other rows or, as under DDS, the reported maximum comes from
  a topic of its own and runs ahead (`WatchStitching.HolesInTheSnapshotAreLost`). A prefix with a wildcard brings rows
  from elsewhere with the snapshot; in the engine any prefix that ends in a slash does, and one that its own filter does
  not find loses rows (`WatchStitching.FeedAndSnapshotMatchAlike`, `WatchStitching.PrefixesFindThemselves`).
- **Ids in flight.** An allocation empties its node's cache, and until its own write has come back that node starts over
  at 1 (`Allocator.TakenIsGone`).
- **Fan-out.** A subscriber that missed an item and drains its buffer before its eviction runs sees a stream with a hole
  (`Broadcasting.HoleIff`, `Broadcasting.HoleIsReachable`).
- **Keys.** The codec returns a key exactly when it starts with a slash and has no wildcard part
  (`KeyCodec.RoundTripIff`).

Where code and comments disagree, the code was followed: the comments at `filter_query01` say `id < $2` where the code
compares with `>`.

## Model

| member | source | states |
|---|---|---|
| `Tables.LatestIsLatest` | kine/pkg/drivers/generic/generic.go:57-64 | MAX(id) per name at or below a revision: the row found has the largest id among those of the key, and none is found only if there is none |
| `Tables.DecimalReadsBack` | kine/pkg/drivers/generic/generic.go:440-442 | the number in a filler's name is written in decimal digits and reads back as that number |
| `Tables.PrefixInterval` | kine/pkg/server/list.go:17-17 | the byte strings from a prefix up to the prefix with its last byte incremented are exactly those that start with it |
| `PointReads.ExactKeyIff` | kine/pkg/logstructured/logstructured.go:60-76 | listing a key with limit 1 finds its newest row in every table if and only if the key does not end in a slash and holds nothing special to the matcher |
| `PointReads.ListedIsLatestIff` | kine/pkg/logstructured/sqllog/sql.go:270-323 | in a given table it does so if and only if the key matches itself and no other name it matches has its newest row before the key's |
| `PointReads.ApartReadsItself` | kine/pkg/logstructured/logstructured.go:60-76 | keys none of which matches another, nor the store's own rows, read themselves in every table of theirs |
| `PointReads.FoundExactly` | kine/pkg/logstructured/logstructured.go:60-76 | for keys that read themselves in the table, now or at a revision, with or without tombstones |
| `PointReads.FoundInSamplesIff` | DdsDatabase/src/Database.cpp:1148-1172 | under DDS a read that wants tombstones is right in every order of arrival, one that does not exactly when first and newest sample agree |
| `Compaction.DoomedMeans` | kine/pkg/drivers/sqlite/sqlite.go:70-86 | in a chained table the DELETE removes exactly tombstones, and predecessors of rows, at or below the target |
| `Compaction.DoomedIsPrefix` | kine/pkg/drivers/sqlite/sqlite.go:70-86 | what compaction removes of a key is a prefix of its chain |
| `Compaction.CompactKeepsViews` | kine/pkg/drivers/sqlite/sqlite.go:70-86 | no live view at or above the target changes: nothing is lost, no older row resurfaces under a removed tombstone |
| `Compaction.CompactKeepsOnlyLive` | kine/pkg/drivers/sqlite/sqlite.go:70-86 | at or below the target exactly the rows that are live at the target stay |
| `Compaction.CompactKeepsChains` | kine/pkg/drivers/sqlite/sqlite.go:70-86 | suffixes of chains are left, so compaction can be repeated |
| `Compaction.FillKeepsChains` | kine/pkg/drivers/generic/generic.go:436-453 | a filler row at a free revision, in the middle or not, keeps all chains |
| `Compaction.FillKeepsViews` | kine/pkg/logstructured/sqllog/sql.go:507-517 | no live view of any key at any revision changes |
| `Compaction.BatchesCompose` | kine/pkg/drivers/sqlite/sqlite.go:70-86 | the rule applied in batches to growing targets, as the compactor is laid out to do, ends in the same table as one application to the last target |
| `Compaction.JoinFormEqualsInForm` | kine/pkg/drivers/mysql/mysql.go:78-94 | MySQL's join form removes the same rows as the IN form |
| `Compaction.ReservedKeyView` | kine/pkg/drivers/sqlite/sqlite.go:76-77 | at every revision from the target on, the view of compact_rev_key survives compaction exactly unless its newest row is a removed tombstone over an older live row |
| `Operations.ExpectedNeverClashes` | kine/pkg/drivers/sqlite/sqlite.go:45-45 | the unique index lets through the row that continues its key's chain |
| `Operations.AttemptContinues` | kine/pkg/logstructured/logstructured.go:98-114 | after a read of the key's own newest row, the row attempted names that row's id and value, creates only over nothing or a tombstone, and keeps the create revision otherwise |
| `Operations.AppendKeepsChains` | kine/pkg/logstructured/sqllog/sql.go:556-582 | an append above every id keeps all chains exactly when its row continues its key's chain |
| `Operations.ExecRefinesMap` | kine/pkg/logstructured/logstructured.go:88-160 | uninterrupted, with the list as its read, every operation on a key that reads itself is compare-and-set on a map from keys to versioned values, in effect and in reply; deleting an absent key shows its tombstone, if there still is one |
| `Operations.ExactKeysRefine` | kine/pkg/logstructured/logstructured.go:60-76 | the keys for which that holds in every situation are exactly the exact keys |
| `Operations.InexactKeyMisfires` | kine/pkg/logstructured/logstructured.go:120-149 | for every other key a table in which Create reports a stranger as the key, Delete appends a tombstone for the stranger, and Update writes the key over the stranger's version |
| `Operations.UpdateDecidesRightIff` | kine/pkg/logstructured/logstructured.go:223-234 | under DDS Update decides as it ought to exactly when the first and newest sample of the key agree on being deleted |
| `Operations.TombstoneIsUpdated` | kine/pkg/logstructured/logstructured.go:223-245 | a table and order of arrival in which Update writes over a tombstone and breaks the key's chain |
| `Protocol.ReadKeepsInv` | kine/pkg/logstructured/logstructured.go:60-76 | a read step, returning what the list query of either driver returns for a key that reads itself, keeps the protocol invariant: chains, histories, and every pending operation current or blocked |
| `Protocol.AppendKeepsInv` | kine/pkg/logstructured/sqllog/sql.go:556-582 | so does an append step, successful or refused |
| `Protocol.FillKeepsInvIff` | kine/pkg/logstructured/sqllog/sql.go:507-517 | so does a fill, under a name no row has had, if and only if no operation is about to write that name |
| `Protocol.IndexCatchesStale` | kine/pkg/drivers/sqlite/sqlite.go:45-45 | the index refuses exactly those appends whose key was written since their read |
| `Protocol.AppendIsAtomic` | kine/pkg/logstructured/logstructured.go:94-116 | a successful append has the effect and reply of its whole operation run at that moment |
| `Protocol.RefusedWasOvertaken` | kine/pkg/drivers/sqlite/sqlite.go:45-45 | a refused operation was overtaken by a row of its key after its read, Create by a live one; it leaves everything as it is and is no longer in flight |
| `Protocol.RefusalIsHonest` | kine/pkg/logstructured/logstructured.go:246-253 | in any later state a refused Update answers as compare-and-set; a refused Delete, conditional or not, shows the present version of a key that is there, else its tombstone, else what it had read, and answers "not deleted", as compare-and-set does if and only if it is conditional and the key is there |
| `Protocol.SeenIsRead` | kine/pkg/logstructured/logstructured.go:130-141 | what an Update or Delete in flight is taken to have seen is the row its read returned |
| `Runs.RefusalsStayHonest` | kine/pkg/logstructured/logstructured.go:149-157 | the same wherever in the rest of a run the second read comes |
| `Runs.RefusedDeleteDiffers` | kine/pkg/logstructured/logstructured.go:149-157 | a run in which an unconditional Delete of a present key answers "not deleted" |
| `Runs.RefusedCreateMetTheKey` | kine/pkg/logstructured/logstructured.go:94-116 | a refused Create answers as compare-and-set would have in some state of the run since its read |
| `Runs.AnswerIsCompareAndSet` | kine/pkg/logstructured/logstructured.go:102-141 | what an operation answers from its read alone is the answer of compare-and-set at the read; a Delete of an absent key shows the tombstone read |
| `Runs.SuccessIsCompareAndSet` | kine/pkg/logstructured/logstructured.go:159-159 | what it answers after a successful append is the answer at the append |
| `Protocol.LeaseExpiryHitsItsVersion` | kine/pkg/logstructured/logstructured.go:302-319 | an expiry appends its tombstone only over the very version that carried the lease |
| `Protocol.UnindexedAppend` | kine/pkg/drivers/generic/generic.go:464-488 | without the index an append keeps the chains exactly when nothing was written for the key since its read |
| `Runs.CompactKeepsInv` | kine/pkg/drivers/sqlite/sqlite.go:70-86 | a safe compaction step keeps the protocol invariant |
| `Runs.BelowReadsIsSafe` | kine/pkg/logstructured/sqllog/sql.go:216-228 | compaction at or below every pending read and below every tombstone read is safe |
| `Runs.RetainedCompactionIsSafeIff` | kine/pkg/logstructured/sqllog/sql.go:616-626 | with the retained target and reads no older than the retention, a compaction is safe if and only if no Create stands on a tombstone at or below it |
| `Runs.CompactSafeIsExact` | kine/pkg/drivers/sqlite/sqlite.go:70-86 | a compaction is safe if and only if no run of reads and appends after it ends in a stale append that succeeds |
| `Runs.ReadRevisionBoundIsNotEnough` | kine/pkg/logstructured/logstructured.go:94-116 | a reachable state in which a compaction at no more than every read revision is unsafe |
| `Runs.SafeRunsAreCompareAndSet` | kine/pkg/logstructured/logstructured.go:88-160 | over every run of operations on keys that read themselves, with fills and safe compactions: successful operations, in append order, all find their comparison true, and the table shows what they leave |
| `Runs.ApartKeysReadThemselves` | kine/pkg/logstructured/logstructured.go:60-76 | keys none of which matches another read themselves throughout a run on them |
| `Runs.UncontendedRunsAreCompareAndSet` | kine/pkg/drivers/generic/generic.go:464-488 | the same without the index, with reads in any order of arrival, for runs in which no append is overtaken and no Update's first sample misleads it |
| `LogStructuredStore.SafeCompactRev` | kine/pkg/logstructured/sqllog/sql.go:616-626 | the largest revision that is at most the target and not among the most recent 1000, or 0 if that is negative |
| `LogStructuredStore.CompactRevIsMax` | kine/pkg/drivers/generic/generic.go:37-40 | the compact revision is the largest `prev_revision` of the reserved key's rows, or 0 |
| `LogStructuredStore.LogStructured.Append` | kine/pkg/logstructured/sqllog/sql.go:556-582 | an INSERT under the index: the next id and the row, or a refusal that changes nothing |
| `LogStructuredStore.LogStructured.Get` | kine/pkg/logstructured/logstructured.go:47-86 | the first row the key lists, for a key that reads itself its live version now or at a revision, and the revision it is told for |
| `LogStructuredStore.LogStructured.Create` | kine/pkg/logstructured/logstructured.go:88-118 | table and reply of the operation, and the current revision afterwards |
| `LogStructuredStore.LogStructured.Update` | kine/pkg/logstructured/logstructured.go:213-257 | the same for Update |
| `LogStructuredStore.LogStructured.Delete` | kine/pkg/logstructured/logstructured.go:120-160 | the same for Delete, with the version read again when its append is refused |
| `LogStructuredStore.LogStructured.CompactTo` | kine/pkg/logstructured/sqllog/sql.go:190-241 | refused exactly when someone else compacted or nothing is left to do; otherwise, on chained rows, no view from the new compact revision on changes, nor the current revision, and the reserved row records the target |
| `LimitedServerTxn.LimitedServer.Dispatch` | kine/pkg/server/limited.go:28-42 | table and response of a transaction are those of the dispatch function, which the following rows spell out form by form |
| `LimitedServerTxn.UpdateForm` | kine/pkg/server/update.go:10-72 | compare MOD = rev of k, put, range: k takes the value and lease if it is at rev, or for rev 0 if it is absent; otherwise nothing changes and the present version is shown, or for rev 0 it is an error |
| `LimitedServerTxn.CreateForm` | kine/pkg/server/create.go:9-54 | compare MOD = 0, put, nothing: the key of the put is created if absent, otherwise a failed comparison; with any option an error |
| `LimitedServerTxn.ConditionalDeleteForm` | kine/pkg/server/delete.go:18-67 | compare MOD = rev, delete range, range: the key of the delete goes if it is at rev, or for rev 0 in any case, and is shown; otherwise it stays and is shown |
| `LimitedServerTxn.UnconditionalDeleteForm` | kine/pkg/server/delete.go:10-17 | range and delete range without comparison: the key goes and is shown; of an absent key the tombstone is shown |
| `LimitedServerTxn.CompactForm` | kine/pkg/server/compact.go:10-41 | the API server's compaction check always fails, with one empty key |
| `LimitedServerTxn.OtherForms` | kine/pkg/server/limited.go:28-42 | a transaction of no other form than these five is an error that leaves the table alone |
| `LimitedServerTxn.LimitedServer.UpdateTxn` | kine/pkg/server/update.go:26-72 | revision 0 acts as Create, with its error; other revisions as Update |
| `LimitedServerTxn.LimitedServer.DeleteTxn` | kine/pkg/server/delete.go:30-67 | deletes and shows what was deleted, or shows the present version |
| `LimitedServerTxn.LimitedServer.CreateTxn` | kine/pkg/server/create.go:22-54 | creates or reports a failed comparison; unsupported options are errors |
| `LimitedServerTxn.HandleOnMap` | kine/pkg/server/limited.go:28-42 | a recognised transaction on a key that reads itself is one compare-and-set on the map, or an error of the create handler; its outcome and revision are reported |
| `LimitedServerTxn.TxnEffectIsEtcds` | kine/pkg/server/delete.go:9-28 | the store left is etcd's except exactly when keys, versions, options or range ends of the transaction make the handler write what etcd does not, or the other way round |
| `LimitedServerTxn.TxnOutcomeIsEtcds` | kine/pkg/server/update.go:33-41 | so is the outcome reported, an error or how the comparison came out |
| `LimitedServerTxn.PlainTransactions` | kine/pkg/server/update.go:10-24 | for plain transactions about one key the exceptions are one for the store and three for the outcome |
| `LimitedServerTxn.TxnBodyShowsStore` | kine/pkg/server/update.go:43-71 | a failure shows the present version, a delete the deleted one, a put is stored at the reported revision with its value and lease |
| `SqlQueries.LikePrefix` | kine/pkg/logstructured/sqllog/sql.go:277-287 | p% matches exactly the names that start with p, for wildcard-free p |
| `SqlQueries.LikeIsPartition` | kine/pkg/drivers/generic/generic.go:52-71 | LIKE as SQL defines it: a name matches if and only if it can be cut into parts, one per byte of the pattern, "%" standing for any part and "_" for any one byte |
| `SqlQueries.PrefixPatternIff` | kine/pkg/logstructured/sqllog/sql.go:277-287 | p% finds nothing but extensions of p if and only if p has no wildcard |
| `SqlQueries.ListIsLiveView` | kine/pkg/drivers/generic/generic.go:52-71 | the grouped list at a revision has one row per matching live key, its newest |
| `SqlQueries.CutBeforeGroupIsCutAfter` | kine/pkg/drivers/generic/generic.go:42-50 | filtering ids before the grouping cuts the grouped list at the same id |
| `SqlQueries.AfterKeyIsSuffix` | kine/pkg/drivers/generic/generic.go:42-50 | the query for the rest of a list is the list strictly after the start key's newest row |
| `SqlQueries.ContinueAfterEntry` | kine/pkg/drivers/generic/generic.go:388-393 | continuing after an entry of a list gives the entries after it |
| `SqlQueries.ListsAreStable` | kine/pkg/drivers/generic/generic.go:52-71 | rows appended later do not show in a list at an earlier revision |
| `SqlQueries.FilterAgainstLike` | DdsDatabase/src/Database.cpp:754-763 | the engine's percentage filter takes every name LIKE takes, and without a percent sign the same names |
| `SqlQueries.DdsMatchesIff` | DdsDatabase/src/Database.cpp:754-763 | a pattern with one percent sign matches, in the engine, exactly the names that contain the rest of the pattern; one without exactly itself |
| `SqlQueries.FilterListsEqual` | DdsDatabase/src/Database.cpp:1565-1617 | both filters give the same list exactly when no name in range holds the prefix further in |
| `QueryEngine.GroupSamples` | DdsDatabase/src/Database.cpp:1130-1175 | after the loop each name has its newest row, and the visibility of its first sample |
| `QueryEngine.ValidRowsAre` | DdsDatabase/src/Database.cpp:1134-1137 | the rows looked at are those of the valid samples and no others, in their order |
| `QueryEngine.QueryCommonSubquery` | DdsDatabase/src/Database.cpp:1127-1189 | the answer is ascending and holds exactly the newest row of each visible name |
| `QueryEngine.AnswerShows` | DdsDatabase/src/Database.cpp:1177-1188 | for either flag the answer is the SQL list of everything without the names whose first sample hides them |
| `QueryEngine.AnswerIsSqlList` | DdsDatabase/src/Database.cpp:1127-1189 | with any flag but "f" the answer is the SQL list whatever the order of arrival |
| `QueryEngine.LiveAnswerIsSqlListIff` | DdsDatabase/src/Database.cpp:1148-1172 | with "f" it is the SQL list if and only if first and newest sample of every name agree on being deleted |
| `QueryEngine.OrderProofIff` | DdsDatabase/src/Database.cpp:1148-1172 | it is right in every order in which the rows can arrive, each once, if and only if no name has selected rows of both kinds |
| `QueryEngine.SortSorts` | DdsDatabase/src/QueryStructure.h:75-81 | sorting by the eleven-field comparison orders an answer by id |
| `QueryEngine.Query01` | DdsDatabase/src/Database.cpp:1203-1266 | the matching rows above a revision in id order, cut to the limit |
| `QueryEngine.Query04` | DdsDatabase/src/Database.cpp:1285-1351 | exactly the newest row of each name the flag lets through, cut to the limit: the current list with "t", and with "f" under the condition above |
| `QueryEngine.MaxIdOfKey` | DdsDatabase/src/Database.cpp:1412-1431 | the start key's largest id at or below the revision, 0 if it has none |
| `QueryEngine.Query09` | DdsDatabase/src/Database.cpp:1353-1459 | the same for the rows after the start key's id |
| `QueryEngine.Query11` | DdsDatabase/src/Database.cpp:1461-1521 | the same for the rows at or below a revision |
| `QueryEngine.Query09IsSuffixOfQuery11` | DdsDatabase/src/Database.cpp:1353-1459 | with "t" query 9 is the part of query 11 above the start id, all of it when the start key has no row |
| `QueryEngine.LiveQuery09Iff` | DdsDatabase/src/Database.cpp:1353-1459 | with "f" it is that part if and only if, for names that changed after the start id, the first sample of all and the first one above the start id agree on being deleted |
| `QueryEngine.CountUnder` | kine/pkg/drivers/generic/generic.go:399-410 | the revision told is the number of names, deleted ones included, and the count told is the maximum id |
| `QueryEngine.MissingStartKey` | kine/pkg/drivers/generic/generic.go:42-50 | for a start key without a row, engine and SQL agree exactly when nothing is selected, or with "f" every selected name is hidden by its first sample |
| `Paging.LiveListIsComplete` | kine/pkg/logstructured/sqllog/sql.go:270-323 | for every prefix the list names exactly the live keys that match, each once, and those under the prefix are among them |
| `Paging.ForeignNamesIff` | kine/pkg/logstructured/sqllog/sql.go:277-287 | no table makes it name a key from elsewhere if and only if the prefix has no wildcard |
| `Paging.RestAfterEntry` | kine/pkg/logstructured/sqllog/sql.go:277-287 | a continued list is what follows the entry, or everything if the entry's key is the prefix |
| `Paging.RestartsAtPageEnds` | kine/pkg/server/list.go:21-53 | a walk restarts exactly if the key equal to the prefix sits at the end of a page that is continued |
| `Paging.WalkEndsIff` | kine/pkg/logstructured/logstructured.go:269-286 | a walk in pages ends if and only if it does not restart |
| `Paging.WalkCanRestart` | kine/pkg/server/list.go:21-53 | with "/a/" and "/a/b" live, a walk in pages of one key does not end |
| `Paging.EvolutionIsSteady` | kine/pkg/drivers/sqlite/sqlite.go:70-86 | appends beyond the walked revision, fills, and compactions at or below it leave every list under a slash-ended prefix at that revision as it is |
| `Paging.RangeEndRoundTrip` | kine/pkg/server/list.go:17-20 | the recovered prefix is the client's, with a slash behind it if it had none |
| `Paging.RecoverPrefix` | kine/pkg/server/list.go:17-20 | the prefix is recovered in place, over the request's own range end |
| `Paging.ServePage` | kine/pkg/server/list.go:34-53 | at a revision or at the current one: the first limit rows of what the backend's List answers, More exactly if more than limit remain, and then a count of one more than shown |
| `Paging.ServeRange` | kine/pkg/server/list.go:12-56 | the same from the wire form of the request, or the backend's count for the prefix; an empty range end is an error |
| `Paging.LogListShows` | kine/pkg/logstructured/sqllog/sql.go:270-323 | a list from a start key on holds exactly the live matching rows newer than the start key's own row; without a slash at the end of the prefix the start key does not count |
| `Paging.RangeUnderKey` | kine/pkg/server/list.go:12-56 | for a prefix that does not end in a slash: at the current revision, found at once, exactly the live keys under the prefix and a slash; at a given revision or after a relist nothing without a row of the prefix's own key, and with one only the keys newer than it |
| `Paging.TrimNuls` | kine/pkg/server/list.go:21-21 | all trailing NULs are cut off and nothing else |
| `Paging.FollowContinuations` | kine/pkg/server/list.go:12-56 | while the list at its revision stays as it is, a client following last key + NUL until More is false gets every live key that matches at the first answer's revision once, in order |
| `Paging.LoadLeases` | kine/pkg/logstructured/logstructured.go:269-286 | whatever is appended, filled or compacted meanwhile that leaves the list as it is, the loader sends exactly the live keys with a positive lease at the first page's revision, in order, for every page size |
| `Paging.List` | kine/pkg/logstructured/logstructured.go:162-190 | at most one self-call when there are rows, and the list at exactly the one revision reported |
| `Allocator.MaxIdTopic.QueryMaxId` | DdsDatabase/src/Database.cpp:1006-1048 | the largest id in the cache, which is left as it is |
| `Allocator.MaxIdTopic.QueryMaxIdAndReplace` | DdsDatabase/src/Database.cpp:1050-1112 | one more than the largest id, which is then the only sample |
| `Allocator.OneNode` | DdsDatabase/src/Database.cpp:1006-1112 | on one node ids are 1, 2, 3, ... under any interleaving with queries, each of which answers the last one |
| `Allocator.UniqueIffLastWriteArrived` | DdsDatabase/src/Database.cpp:1050-1112 | on several nodes ids are unique, and then counting, if and only if every allocation happens where the previous write has arrived |
| `Allocator.TwoNodesCanCollide` | DdsDatabase/src/Database.cpp:1050-1112 | a run in which two nodes allocate the same id |
| `Allocator.TakenIsGone` | DdsDatabase/src/Database.cpp:1075-1097 | two allocations of a node with no write arriving in between: the second gets 1 |
| `Allocator.WriteCanArrive` | DdsDatabase/src/Database.cpp:1086-1093 | what an allocation publishes can arrive at every node, and the next id there lies beyond it |
| `Allocator.DeliveryIsSeen` | DdsDatabase/src/Database.cpp:1075-1090 | where a write has arrived the next id lies beyond it, and no other node notices |
| `WatchStitching.FeedAndSnapshotMatchAlike` | kine/pkg/logstructured/sqllog/sql.go:410-421 | the live filter and the snapshot's pattern select the same names if and only if the prefix is no filler's and, under LIKE, has no wildcard, or in the engine is a single key without a percent sign |
| `WatchStitching.PrefixesFindThemselves` | kine/pkg/logstructured/sqllog/sql.go:251-268 | every prefix under LIKE, and in the engine every prefix without a percent sign, is found by its own pattern |
| `WatchStitching.DropCovered` | kine/pkg/logstructured/logstructured.go:364-370 | dropping leading covered events leaves exactly the events above the revision, of an ascending batch |
| `WatchStitching.Stitch` | kine/pkg/logstructured/logstructured.go:343-359 | sends the snapshot and then, of every batch, what the snapshot does not cover |
| `WatchStitching.WatchDeliversEverythingOnce` | kine/pkg/logstructured/logstructured.go:321-370 | with LIKE or the engine's filter behind the snapshot, for every prefix that its own pattern finds and every interleaving of commits, polls, subscription and snapshot: ascending, the wanted rows from the revision on each once as far as the feed has come, and nothing else exactly if the snapshot found nothing else |
| `WatchStitching.WantedIsSentIff` | kine/pkg/logstructured/logstructured.go:328-359 | for every interleaving, a wanted row is sent if and only if it is in the log, at or above the revision asked for (any, for 0 or below), and within what snapshot or feed have reached |
| `WatchStitching.WatchStartsComplete` | kine/pkg/logstructured/logstructured.go:324-359 | with the snapshot taken, every wanted row that was in the log has been sent, however far behind the feed was |
| `WatchStitching.CommittedIsSent` | kine/pkg/logstructured/logstructured.go:354-357 | a row committed while a watch streams is sent with the poll that reaches it |
| `WatchStitching.HolesInTheSnapshotAreLost` | kine/pkg/logstructured/logstructured.go:344-347 | with rows visible out of order or a reported revision ahead of them, complete if and only if the snapshot is empty or has no hole up to that revision |
| `WatchStitching.PollRound` | kine/pkg/logstructured/sqllog/sql.go:481-541 | a round feeds, without fillers, up to the first missing revision not waited for, and asks for that one |
| `WatchStitching.FedWithoutGaps` | kine/pkg/logstructured/sqllog/sql.go:487-519 | fed events continue one another, but for a revision that was waited for |
| `WatchStitching.StopsAtTheGap` | kine/pkg/logstructured/sqllog/sql.go:487-519 | the event a round stops at does not continue what was fed, nor is the revision before it overdue |
| `WatchStitching.RoundIsPoll` | kine/pkg/logstructured/sqllog/sql.go:481-541 | what a round hands a subscriber is the wanted rows of the log between the old cursor and the new one, as a poll step of the watched system does |
| `Broadcasting.StepKeepsInv` | kine/pkg/broadcaster/broadcaster.go:16-83 | every step keeps the broadcaster's invariant |
| `Broadcasting.EveryRunIsSafe` | kine/pkg/broadcaster/broadcaster.go:16-83 | in every run no channel is closed twice or sent to after close, subscribers are the open channels, items are an in-order selection of the input |
| `Broadcasting.HoleIff` | kine/pkg/broadcaster/broadcaster.go:66-73 | an item breaks a stream exactly when its channel missed one, is not evicted yet and has room again |
| `Broadcasting.HoleIsReachable` | kine/pkg/broadcaster/broadcaster.go:66-73 | a run that ends with a hole: one subscriber, 101 items, one of them taken, one more item |
| `Broadcasting.PromptEvictionLeavesNoHoles` | kine/pkg/broadcaster/broadcaster.go:63-75 | when evictions run before the next item, every subscriber has an unbroken stretch of the input from its subscription on |
| `Broadcasting.Broadcaster.Subscribe` | kine/pkg/broadcaster/broadcaster.go:16-37 | starts the stream if needed and adds one open, empty channel, or fails and changes nothing |
| `Broadcasting.Broadcaster.Unsub` | kine/pkg/broadcaster/broadcaster.go:39-50 | the channel is closed and forgotten, and no other channel changes |
| `Broadcasting.Broadcaster.Evict` | kine/pkg/broadcaster/broadcaster.go:39-50 | so does the goroutine of a slow consumer, once |
| `Broadcasting.EndedForGood` | kine/pkg/broadcaster/broadcaster.go:31-50 | in every run, after a channel's cancellation, its eviction or the end of the input it is closed in every continuation, never a subscriber again, and nothing more is sent to it |
| `Broadcasting.OfferToAll` | kine/pkg/broadcaster/broadcaster.go:66-73 | in whatever order the subscribers come, each gets the item if it has room, and exactly the full ones are slow |
| `Broadcasting.CloseAll` | kine/pkg/broadcaster/broadcaster.go:77-80 | in whatever order the subscribers come, each is closed once and no other channel changes |
| `Broadcasting.Broadcaster.StreamItem` | kine/pkg/broadcaster/broadcaster.go:65-74 | every subscriber with fewer than 100 items waiting has the item behind them, every other one missed it and its eviction is due; no other channel changes |
| `Broadcasting.Broadcaster.StreamEnd` | kine/pkg/broadcaster/broadcaster.go:77-82 | every subscriber is closed, none is left, no other channel changes, and the stream stops |
| `KeyCodec.Encode` | kine/pkg/drivers/nats/kv/etcd_encoder.go:37-55 | the loop computes the dotted base58 form of the key |
| `KeyCodec.Decode` | kine/pkg/drivers/nats/kv/etcd_encoder.go:57-73 | the loop decodes every word or fails at the first that is not base58 |
| `KeyCodec.Base58RoundTrip` | kine/pkg/drivers/nats/kv/etcd_encoder.go:47-47 | base58 over the Bitcoin alphabet loses nothing, leading zero bytes included |
| `KeyCodec.Base58Inverse` | kine/pkg/drivers/nats/kv/etcd_encoder.go:63-66 | a word decodes if and only if it has only letters of the alphabet, and it is then the form of what it decodes to |
| `KeyCodec.EncodesTheNumber` | kine/pkg/drivers/nats/kv/etcd_encoder.go:47-47 | as many ones as there are leading zero bytes, and behind them letters that spell the same number in base 58 |
| `KeyCodec.LettersInOrder` | kine/pkg/drivers/nats/kv/etcd_encoder.go:47-47 | the letters of the alphabet ascend with their values |
| `KeyCodec.ThreeWords` | kine/pkg/drivers/nats/kv/etcd_encoder.go:41-54 | "/a/b/c" becomes the words of a, b and c with dots between them |
| `KeyCodec.OneByteWords` | kine/pkg/drivers/nats/kv/etcd_encoder.go:42-47 | the wildcard tokens stay what they are, and "a" becomes "2g" |
| `KeyCodec.RoundTripIff` | kine/pkg/drivers/nats/kv/etcd_encoder.go:37-73 | a key is returned if and only if it starts with a slash and no part is a wildcard |

## Left out

- Protocol.Next: a compaction step is the DELETE alone; the rewriting of the reserved row that goes with it is in `LogStructuredStore.LogStructured.CompactTo`, and no statement about client keys depends on that row. A fill step takes a name no client uses; what happens otherwise is `Protocol.FillKeepsInvIff`.
- Runs.UncontendedRunsAreCompareAndSet: at every read the DDS reader holds the whole table; a reader that lags behind is not modelled there.
- LogStructuredStore.LogStructured.Update: the class reads as the SQL drivers do; reads under DDS are in `PointReads` and `Operations`.
- LimitedServerTxn.TxnEffectIsEtcds: on keys that read themselves; transactions the server does not recognise and the compaction check are errors or fixed answers here as in the source, and etcd's checks for a value or lease given along with the option to keep it are not modelled.
- LimitedServerTxn.TxnBodyShowsStore: response bodies are compared with the store, not with etcd's list of responses.
- LogStructuredStore.LogStructured.CompactTo: database transactions and metrics are not modelled. In this source nothing calls compact: its calls are commented out at kine/pkg/logstructured/sqllog/sql.go:160 and 432; what is proved about compaction is about the code as it stands there.
- LogStructuredStore.LogStructured.Get: ErrCompacted, which the code ignores for single keys, is not modelled; nor is it for lists and watches.
- Paging.ServeRange: the backend's Count is a parameter; what it answers is `QueryEngine.CountUnder`. An empty log at revision 0, on which List calls itself for ever, is excluded. Compaction above a walk's revision, after which requests fail with ErrCompacted, is not part of the walks, and lists here go through LIKE; how the engine's lists differ is in `QueryEngine`.
- Paging.LoadLeases: the goroutines and the live half of ttlEvents are not modelled; what an expiry may do is `Protocol.LeaseExpiryHitsItsVersion`.
- QueryEngine.Query04: the reader is taken to hold no more samples than `maximum_messages_`, the bound of one read; the maximum id and compact revision that every row of an answer carries are parameters.
- QueryEngine.SortSorts: std::sort is modelled as insertion by the same comparison.
- WatchStitching.WatchDeliversEverythingOnce: commits in id order; the order of visibility is the subject of `WatchStitching.HolesInTheSnapshotAreLost`. Channels are unbounded there, and cancellation is not modelled. Filler rows count as not wanted.
- Allocator.OneNode: writes that fail after the take are excluded; the taken maximum is then lost.
- Broadcasting.Broadcaster.Subscribe: a channel is a number with a buffer; the goroutine waiting for the context is the Cancel step.
- KeyCodec.Base58RoundTrip: the base58 library is defined here as numbers in two bases; EncodeRange is not modelled.
- Ids are mathematical integers and are assumed to fit the int, unsigned long and int64 the code mixes.
- SQLite's LIKE ignores the case of ASCII letters, and MySQL and PostgreSQL take a backslash in a pattern as an escape; here LIKE compares bytes and has no escape, so on those drivers fewer keys are exact.
- DDS quality of service, discovery and waitsets; gRPC and protobuf code; connection handling, retries, metrics, TLS, DSN parsing.
- query_mass_dispose_compaction, which is unfinished in the source; the republish functions, which depend on writer liveliness.
- Logging, time and tickers; PollRound takes "has this gap been due for a second" as a parameter.
