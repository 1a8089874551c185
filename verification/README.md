# QuipuDB: a verified model of its core algorithms

This project models, in Dafny, the parts of QuipuDB that decide whether it answers correctly, and
proves what they promise. It covers the measured extendible hash table, INSERT and DELETE with
secondary indexes and their compensation, planning and executing queries over join trees, the closed
ranges that stand in for half-open ones, UTF-8 checking by blocks, table locks and how statements use
them, background multimedia loads, k-means codebooks, reservoir sampling, point in polygon, and the
relevance and recall measures of the benchmarks.

`dafny verify dfyconfig.toml` checks everything.

## How it is built

Objects that the source changes in place are classes here, and each method is proved against a
function on a value of the same state; the lemmas are then about these functions. Loops keep the form
they have in the source. Concurrency is modelled as interleaved atomic steps.

| subject | files |
|---|---|
| Extendible hash table | `Bits`, `HashLayout` (directory), `HashBuckets`, `HashPlacement`, `HashTables` (operations as functions), `HashLaws` (when buckets merge), `HashGrowth` (how far they split), `ExtendibleHash` (the class), `HashRuns` (whole runs and the measured scenarios) |
| DML with indexes | `Store` (the native table as a contract), `Dml`, `DeleteExecution`, `Undo` (the undo log of a transaction), `Rollbacks` (what rolling back restores), `MovedRows` (after a statement that failed), `EveryChoice` (whichever identifiers are chosen) |
| Queries | `Plans` (the optimizer), `Routes` (what it must choose), `Bags` (lists as bags), `Operators` (execution), `Probes` (when a join may probe) |
| Values and predicates | `Utf8`, `Values`, `Predicates` |
| Bulk load | `BulkLoad` |
| Locks | `Locks`, `Sessions` (statements and transactions), `LockProtocol` (interleavings), `Deadlocks`, `DeadlockRuns` (which programs can deadlock) |
| Multimedia jobs | `MediaReport`, `MediaJobs`, `MediaOutcomes` (what runs report) |
| Codebooks | `Vectors`, `KMeans`, `Settling` (how long it can take), `Seeding`, `Codebook` |
| Sampling, geometry, measures | `Reservoir`, `Subsets`, `Polygon`, `Convex` and `PolygonCuts` (what the crossing count means), `Relevance`, `Recall` |
| Shared | `Arithmetic`, `Collections`, `Wrappers` |

## Assumptions

- The native core is not part of this model; `Store.Table` is its contract. An insertion gives an
  identifier of the core's choice that is not in use, freed ones included, or fails without effect; a
  removal fails without effect or removes the rows with the key; removing an index pair fails without
  effect or says whether the pair was there; inserting an index pair may fail before or after adding
  it. Every call that fails although nothing it was given is wrong counts as a fault of the table, and
  what a statement promises is stated in terms of how many there were; in a reliable table there are
  none. Reading a row does not fail. A join in the core is an equijoin.
- `h64` is an arbitrary function into the 64-bit numbers, and a merge condition an arbitrary predicate.
- Numbers in k-means, polygons and measures are exact; random choices are free, restricted to what
  the source can draw.
- Doubles have no NaN, which neither SQL literals nor CSV fields can produce.
- Every owner of locks is unique, and job identifiers never repeat.

## What the proofs found

- The oscillation counter of the hash table can never move: a merge forgets the last split, and
  without a merge no bucket has the same depth twice. The statement in `docs/arquitectura.md` (lines
  850-853) that no scenario oscillated holds whatever the table does.
- In the merge of the hash table the tests for a sibling entry beyond the directory and for a sibling
  that is the bucket itself never succeed; `HashTable.Fuse` leaves them out.
- With a page size of 0 no bucket ever has room, so insertion never ends; for every other page size it
  does. `HashTable.Insert` asks for at least 1.
- SELECT takes its locks in the order of table names to avoid deadlock. Outside transactions no order
  is needed: whoever waits while holding a lock only asks to share. Transactions can deadlock exactly if
  prefixes of them that do not conflict can be followed by requests that conflict in a round. An order
  of tables rules that out even if tables are asked for again and again, as long as no request asks for
  more than an earlier one for the same table: an upgrade from shared to exclusive blocks two readers
  until one of them times out.
- The plan classes and the check before execution accept plans that answer wrongly, such as one that
  probes a table behind a filtered leaf, which is right exactly if the filter rejects no row that a left
  row joins with, or one that reads a closed range for `<` or `>` without filtering, which is right
  exactly if no row has the literal; correctness rests on what the planner produces, which is proved
  right.
- The checks of an index scan for a repeated or dangling identifier (`engine/executor/dml.py`, lines
  146-155) never fire while the indexes are exact: an exact index pairs no identifier with two keys.
- The errors of a DELETE for a pair an index does not have and for a row that has vanished never fire
  for candidates read from a table with exact indexes.
- With an index, the recorded undo of an INSERT deletes by the identifier the row was given then. A row
  that the transaction deleted comes back elsewhere, the undo asks the indexes for a pair they do not
  have, its error is suppressed, and the row stays. Should a row be at the recorded identifier by then
  that the indexes cannot tell from it, the undo succeeds and leaves wrong indexes. So for transactions
  that insert only new keys, and whose statements all succeeded, rollback restores the table whichever
  identifiers the core chooses exactly if no row that the transaction inserted was deleted by it, or there
  are no indexes.
- Undoing a DELETE stops at the first key that is taken, and its remaining rows are not tried. With an
  index, DELETE {a, b}; INSERT a; DELETE a loses b when it is rolled back and a does not come back at its
  old identifier. If the indexes tell rows apart, any transaction is restored whichever identifiers the
  core chooses exactly if every row it deletes was stored when it began, and the first DELETE of a row
  lists none before it that is deleted again later; DELETE z; INSERT z; DELETE z with one row z is.
- A statement that fails rolls the transaction back, and a DELETE that fails half way may have moved rows
  first. INSERT x; DELETE {x, y} where removing y fails puts x back elsewhere; the rollback does not find
  it, and with an index x stays although the transaction ended. `MovedRows` says exactly from which states
  rollback restores the table.
- K-means settles by itself after at most as many iterations as there are ways to label the points,
  though an empty centroid can move far without lowering the cost. That rests on the sort of the
  distances giving the same rows for the same distances, which numpy's does.
- K-means never needs the random fallback for empty centroids, since it has at least as many points
  as centroids.
- Strict recall depends on which of equally near rows the exact search lists, unless exactly k rows are
  no farther than the last of these; tie-aware recall is full exactly for the results an exact search
  could have given.

## Model

| member | source | states |
|---|---|---|
| `HashRuns.RunRefinesMultiset` | docs/medir-condicion-merge.py:46-132 | After any run of insertions and removals, under any merge condition, the table holds the multiset the run means: each insertion adds one occurrence, each removal takes one away |
| `HashRuns.ReachableContents` | docs/medir-condicion-merge.py:46-132 | In every reachable table the contents are exactly what the buckets list, and every listed hash is in the bucket its own directory entry names |
| `HashRuns.ReachableDirectory` | docs/medir-condicion-merge.py:63-132 | In every reachable table the directory has 2^g entries, no depth exceeds g, two entries name the same bucket exactly when they agree modulo 2^L, and some bucket has depth g |
| `HashRuns.ReachableAccounts` | docs/medir-condicion-merge.py:28-161 | In every reachable table the live buckets are those the directory names, each in 2^(g-L) entries that add up to 2^g; their number is 1 + splits - merges, g = doublings - halvings, numbers never repeat, and the oscillation counter is 0 |
| `HashRuns.FreshRunsStayTidy` | docs/medir-condicion-merge.py:49-68 | With pages of at least two hashes and a merge condition that respects the page, runs that never insert a stored hash again leave no overflow page and no bucket over its page |
| `HashRuns.MeasuredConditionsAreRespectful` | docs/medir-condicion-merge.py:135-141 | Each of the five measured conditions holds exactly when one bucket is empty or both together fill at most a quarter, a half, three quarters or all of a page, and so lets two siblings merge only if they fit one page |
| `HashRuns.MeasuredRunsStayTidy` | docs/medir-condicion-merge.py:104-141 | Under each of the five measured conditions, runs of different hashes leave every overflow count at 0 and every bucket within its page |
| `HashRuns.MergesOfRun` | docs/medir-condicion-merge.py:95-132 | The merges of a run are its removals that find two buckets that may merge, each counted once |
| `ExtendibleHash.HashTable.Insert` | docs/medir-condicion-merge.py:54-61 | The insertion loop ends for every page size of at least one, repeated 64-bit hashes included, and leaves the table of the specification, in which the hash is where `HashGrowth.InsertedExactly` says |
| `HashTables.InsertTurn` | docs/medir-condicion-merge.py:56-92 | A turn of the loop on a full bucket leads to the same final table, and the bucket that serves the hash either distinguishes one more of 64 bits or misses less room |
| `HashTables.RoomNeedsCapacity` | docs/medir-condicion-merge.py:50-61 | Exactly with pages of size 0 no bucket of any table ever has room, and neither overflow pages nor splits change the page size: insertion can end only for pages of at least one hash |
| `HashTables.InsertedOk` | docs/medir-condicion-merge.py:54-92 | Insertion keeps the whole invariant and adds exactly one occurrence of the hash |
| `HashGrowth.InsertedExactly` | docs/medir-condicion-merge.py:54-92 | An insertion splits the bucket of its hash to the least depth at which the entries that agree with the hash leave room for it or are all equal, gives it the least number of overflow pages that is enough, puts the hash behind those entries, counts one split for each bit, and leaves every other bucket alone |
| `HashPlacement.SeparableIsShallow` | docs/medir-condicion-merge.py:64-73 | A bucket the split test finds separable distinguishes fewer than 64 bits, so a split never runs out of bits |
| `HashBuckets.OneHighMeansOneHash` | docs/medir-condicion-merge.py:64-68 | The set of high parts of a bucket has one element exactly when the bucket is not empty and all its hashes are equal |
| `ExtendibleHash.HashTable.Grow` | docs/medir-condicion-merge.py:63-92 | Making room adds an overflow page if all hashes of the bucket are equal and splits the bucket otherwise |
| `ExtendibleHash.HashTable.Split` | docs/medir-condicion-merge.py:69-92 | A split doubles the directory if it has to, redirects every entry with the low bits of the bucket by the next bit, divides the hashes the same way, and keeps the counters |
| `HashLayout.DoubledConsistent` | docs/medir-condicion-merge.py:69-72 | Doubling the directory keeps who shares an entry |
| `HashLayout.SplitConsistent` | docs/medir-condicion-merge.py:73-86 | Redirecting the entries of a split bucket keeps the directory congruent for every bucket |
| `HashTables.StoredWhereItPoints` | docs/medir-condicion-merge.py:95-102 | A hash is stored exactly when the one bucket its directory entry names lists it, and as often |
| `ExtendibleHash.HashTable.Remove` | docs/medir-condicion-merge.py:95-102 | Removal returns true exactly when the hash was stored, and counts one more merge exactly if it was, its bucket has a sibling of the same depth, neither has overflow pages, and the condition holds of what is left in the one and of the other |
| `HashTables.RemovedOk` | docs/medir-condicion-merge.py:95-132 | Removal keeps the whole invariant and takes away exactly one occurrence of a stored hash |
| `HashLaws.RemovedExactly` | docs/medir-condicion-merge.py:95-132 | Removing a stored hash merges its bucket with the one that the entry differing in its last bit names exactly if both have the same depth, neither has overflow pages and the condition holds of their sizes without the hash; then one bucket has the entries of both and one bit less, and the directory is as small as the buckets allow. Otherwise only the hash is gone |
| `HashLaws.MergesCounted` | docs/medir-condicion-merge.py:104-126 | A removal adds one merge and leaves one bucket fewer exactly if it merges, and otherwise neither |
| `HashLayout.FlippedEntry` | docs/medir-condicion-merge.py:108-114 | The entry that differs in the last distinguished bit exists and names another bucket, so two guards of the merge never fire |
| `ExtendibleHash.HashTable.Fuse` | docs/medir-condicion-merge.py:104-118 | A merge happens exactly when the sibling has the same depth, neither has overflow pages and the condition allows it |
| `ExtendibleHash.HashTable.MergeWith` | docs/medir-condicion-merge.py:119-132 | A merge joins the contents, renames the directory entries, forgets the sibling and shrinks the directory as far as it goes |
| `HashLayout.MergeConsistent` | docs/medir-condicion-merge.py:119-125 | Taking over a sibling keeps the directory congruent for every remaining bucket |
| `HashTables.MergedTidy` | docs/medir-condicion-merge.py:115-121 | Merging under a respectful condition never fills a bucket beyond its page |
| `HashLayout.HalvedConsistent` | docs/medir-condicion-merge.py:129-131 | Dropping the upper half of the directory keeps it congruent when no bucket has depth g |
| `ExtendibleHash.HashTable.ShrinkDirectory` | docs/medir-condicion-merge.py:128-132 | The shrinking loop halves the directory until some bucket has depth g, and counts the halvings |
| `HashLayout.EntriesAgree` | docs/medir-condicion-merge.py:83-86 | Two entries name the same bucket exactly when their positions agree modulo 2^L |
| `HashLayout.EveryBucketIsNamed` | docs/medir-condicion-merge.py:161 | The live buckets are exactly those the directory names |
| `HashLayout.ReferencesPerBucket` | docs/medir-condicion-merge.py:63-132 | Each live bucket is named by exactly 2^(g-L) directory entries |
| `HashLayout.SharesCoverDirectory` | docs/medir-condicion-merge.py:63-132 | The shares 2^(g-L) of all live buckets add up to 2^g |
| `HashRuns.Scenario` | docs/medir-condicion-merge.py:144-165 | A scenario run against a new table leaves what the requests that are not skipped lead to, with the hashes of exactly the live keys, one merge for each removal that finds two buckets that may merge, 1 + splits - merges buckets, and an oscillation count of 0; for different hashes no bucket is over its page |
| `HashRuns.CountBuckets` | docs/medir-condicion-merge.py:161 | Counting the different directory entries gives 1 + splits - merges |
| `Dml.InsertWithIndexes` | engine/executor/dml.py:29-62 | INSERT succeeds exactly when the width is right, the key is new and no call fails; then the row is added and every index exact. If the only failing call is the one that ended it, table and indexes are as they were, even if the failing index had added its pair |
| `Dml.UndoInsert` | engine/executor/dml.py:54-60 | Taking back a half-done insertion restores rows and indexes if no compensating call fails |
| `Dml.UndoEntries` | engine/executor/dml.py:55-57 | Removing the attempted pairs last first restores every index, whichever of the pairs had been added |
| `Dml.Validate` | engine/executor/dml.py:207-230 | Validation objects exactly when a column is missing, a key repeats, or, with indexes, an identifier is missing or repeats |
| `Dml.RemoveEntries` | engine/executor/dml.py:180-191 | The log lists exactly the pairs taken from each index; without a failing call all pairs of all candidates are taken exactly if every index had them |
| `Dml.RemoveRows` | engine/executor/dml.py:193-199 | The candidates' rows are removed by key, in order, until a call fails or, without a failing call, a key is not stored; exactly the rows with the keys before that are gone. Where all the rows are stored, none is ever found missing |
| `Dml.RemoveAll` | engine/executor/dml.py:180-199 | Whatever the table holds, the steps of the try block stop at the first that fails; without a failing call they are all done exactly if every index lists every candidate and every key is stored, and otherwise the first missing pair or key is where they stop |
| `Dml.LiveIsIndexed` | engine/executor/dml.py:184-190 | Exact indexes list every candidate that is where it says, so the missing-pair error never fires for these |
| `Dml.ExactlyOne` | engine/executor/dml.py:193-198 | When the key of a candidate whose row is stored is removed exactly one row has it, so the vanished-row error never fires for these |
| `Dml.RestoreRows` | engine/executor/dml.py:238-244 | Rows that are there stay where they are, and whatever comes back is at an identifier of the allocator's choice; if the keys are missing the table has no reason to refuse a row, so unless a call fails all of them are back |
| `Dml.ReinsertEntries` | engine/executor/dml.py:246-268 | Each index gets back at most the logged pairs with the identifiers the rows have now, and all of them if nothing fails |
| `Dml.Rollback` | engine/executor/dml.py:233-268 | Of a statement that began with exact indexes: whatever fails during a rollback, no index ends with a pair that is not in the table; if nothing fails, the records are those from before and every index is exact, for any allocator, one that reuses freed slots included. In any case rows that were not removed stay, and with no row removed the indexes get the pairs the log calls for |
| `Dml.NoPairIsMissing` | engine/executor/dml.py:246-268 | Once all rows are back, every pair the indexes need was either never removed or is called for by the log |
| `Dml.ReinsertedPairsAreRight` | engine/executor/dml.py:246-268 | Every pair the log calls for belongs to the row where it is now |
| `Dml.RemainingPairsAreRight` | engine/executor/dml.py:182-191 | Pairs left after the logged ones are gone belong to rows that were not removed |
| `Dml.DeleteWithIndexes` | engine/executor/dml.py:160-204 | Whatever the table holds, DELETE is rejected exactly for unacceptable candidates, without effect, and otherwise succeeds exactly if every index lists every candidate, every key is stored and no call fails; then exactly the candidates' rows and pairs are gone. For candidates that are where exact indexes say, these errors never fire, one failing call leaves records and exact indexes as they were, and no pair dangles however many fail. For one candidate the outcome without a failing call is `Withdrawn`, whatever the table and its indexes hold |
| `DeleteExecution.CollectCandidates` | engine/executor/dml.py:82-116 | Under a plan that fits, the candidates are exactly the rows that satisfy the predicate, each once, with identifiers where indexes need them |
| `DeleteExecution.ReadCandidates` | engine/executor/dml.py:97-108 | Each route brings exactly the rows whose column lies in the range it looks up, or says why it cannot |
| `DeleteExecution.IndexListsRowsOnce` | engine/executor/dml.py:141-157 | An index search yields one identifier for each pair it finds; from an exact index these are the rows in the range, each once, so the checks for repeated and dangling identifiers never fire |
| `DeleteExecution.OptimizedDeleteFits` | engine/planner/optimizer.py:586-614 | The plan the optimizer makes for a DELETE fits, for every predicate and every set of indexes |
| `DeleteExecution.DeleteRouteIsRight` | engine/planner/optimizer.py:586-614 | A DELETE takes the route a SELECT would take, but searches the table itself only where there are no indexes |
| `DeleteExecution.CollectedIsDeletable` | engine/executor/dml.py:65-79 | Removing the candidates by primary key removes exactly the rows they were read from |
| `DeleteExecution.ExecuteDelete` | engine/executor/dml.py:65-79 | From plan to result: under a plan that fits, DELETE succeeds exactly if no call fails, and then leaves exactly the rows that do not satisfy the predicate and exact indexes; with one failing call it leaves the records it found and exact indexes |
| `Undo.UndoInsertion` | engine/transactions/transaction.py:70-88 | Whatever table and indexes hold, undoing an INSERT deletes by the recorded identifier and by key: if no call fails meanwhile, the row and its pairs go exactly if every index pairs it with that identifier and the key is stored, and otherwise the rows stay as they are |
| `Undo.UndoDeletion` | engine/transactions/transaction.py:90-111 | Whatever table and indexes hold, undoing a DELETE inserts its rows again in their order, each at an unused identifier of the table's choice; if no call fails meanwhile, until the table refuses one, and the rest is not tried |
| `Undo.UndoChanges` | engine/transactions/transaction.py:113-126 | The changes are undone last first, and the next is undone whatever became of one, failed calls included; if no call fails, each gets as far as it can |
| `Undo.TakenExactly` | engine/transactions/transaction.py:70-88 | In a table with exact indexes, undoing the INSERT of a stored row leaves exact indexes and exactly that row less exactly if it is at the recorded identifier or there are no indexes |
| `Undo.MisplacedStays` | engine/transactions/transaction.py:70-88 | If the row is elsewhere, undoing its INSERT changes nothing, unless the indexes cannot tell the row now at the recorded identifier from it: exactly then they are wrong afterwards |
| `Undo.UndoBoth` | engine/transactions/transaction.py:113-126 | A row inserted and then deleted in one transaction, and put back at some identifier: undoing both restores records and indexes exactly when that is where it was, or there are no indexes |
| `Undo.UndoLog.Insert` | engine/executor/processor.py:479-508 | A successful INSERT is recorded with its identifier; a failing one with a single failing call leaves the log right and every row in place |
| `Undo.UndoLog.Delete` | engine/executor/processor.py:790-824 | A successful DELETE of something is recorded with its candidates, and nothing else is; if a single call fails, the table still holds the records the log says, with exact indexes, and all rows but the candidates are where they were |
| `Undo.UndoLog.Rollback` | engine/transactions/transaction.py:113-126 | At any time, after failed calls too, rollback undoes the recorded changes last first and goes on whatever fails. If no call fails while it does, it restores the records from before the transaction and exact indexes, for any allocator, if there are no indexes, or the transaction deleted no row that it had inserted and the rows it inserted are where it put them |
| `Undo.UndoLog.InsertOrRollBack` | engine/executor/processor.py:479-508 | An INSERT that fails ends the transaction: with no failing call but the one that ended it, the records are those from the beginning, with exact indexes, if the transaction deleted no row that it had inserted, or there are no indexes |
| `Undo.UndoLog.DeleteOrRollBack` | engine/executor/processor.py:790-824 | A DELETE that fails ends the transaction: with no failing call but the one that ended it, the records are those from the beginning, with exact indexes, if neither it nor an earlier DELETE was to delete a row that the transaction had inserted, or there are no indexes |
| `MovedRows.RestoredFromExactly` | engine/transactions/transaction.py:113-126 | From any table with exact indexes and the records of the log, wherever a failed statement has moved rows, for transactions that inserted new keys and deleted none of their own rows: rollback restores the table for every choice of identifiers if and only if there are no indexes, or the identifiers of the log are where its rows are now, each with a row the indexes cannot tell from the one recorded, and no deleted row can come back at a place where it shares an indexed value with a row still to be removed |
| `MovedRows.RestoredIfRestorable` | engine/transactions/transaction.py:113-126 | The same at every stage of a rollback and for any contents of the indexes: every way to go on restores the table if and only if every pair still to be removed is there, the other pairs are those of the rows that stay, and no row can come back where it would clash |
| `MovedRows.MovedRowStays` | engine/transactions/transaction.py:113-126 | INSERT of a row, then a DELETE that fails and puts the row back elsewhere: rolled back, the table keeps the row of the transaction |
| `MovedRows.MovedBackIsRestored` | engine/transactions/transaction.py:113-126 | A row inserted, deleted, inserted again, and moved to its first place is removed by every rollback, so for moved rows a transaction may be restored although it deleted a row that it had inserted |
| `Rollbacks.RestoredExactly` | engine/transactions/transaction.py:113-126 | For transactions none of whose statements failed and that inserted no key that was stored when they began: rollback restores records and exact indexes for every choice of identifiers if and only if there are no indexes or the transaction deleted no row that it had inserted |
| `Rollbacks.FreshRollback` | engine/transactions/transaction.py:113-126 | For any transaction on an indexed table, if rows come back at identifiers that were not used before: rollback ends with exact indexes and with the rows `KeyedAt` computes from the log, so it restores the records exactly if that gives the rows from the beginning |
| `Rollbacks.AlwaysRestoredIsFreshlyRestored` | engine/transactions/transaction.py:113-126 | What restores the table for every choice of identifiers restores it for new ones, for any transaction |
| `Rollbacks.CanRollBack` | engine/transactions/transaction.py:113-126 | From any table and log the rollback can go on with identifiers as far back as one likes, so no statement about all choices is empty |
| `Rollbacks.FreshlyRestoredExactly` | engine/transactions/transaction.py:113-126 | For transactions that may insert keys again that they deleted, if in every DELETE the rows whose keys are deleted again later come last: with new identifiers rollback restores the records if and only if of every deleted key the row deleted last is the one stored at the beginning |
| `Rollbacks.LostExactly` | engine/transactions/transaction.py:100-126 | With an index and new identifiers, a row from before the transaction is not in the table after rollback if and only if the first change to its key is a DELETE whose undoing stops before it, because the key of a row listed earlier is taken |
| `Rollbacks.StoppedByTakenBack` | engine/transactions/transaction.py:100-126 | The key that stops the undoing of a DELETE is one that was inserted again and deleted again after it |
| `Rollbacks.NoneIsLost` | engine/transactions/transaction.py:100-126 | With an index and new identifiers, if in every DELETE the rows whose keys are deleted again later come last, every key from before is in the table after rollback |
| `Rollbacks.HowARowIsLost` | engine/transactions/transaction.py:100-126 | With an index, DELETE of two rows, INSERT of the first key, DELETE of it: rolled back with new identifiers, the second row is not in the table |
| `Rollbacks.WithoutIndexes` | engine/transactions/transaction.py:113-126 | Without indexes every way to roll back restores the records |
| `EveryChoice.RestoredForEveryChoice` | engine/transactions/transaction.py:70-126 | For any transaction on a table whose indexes tell rows with different keys apart, insertions of deleted keys included: rollback restores records and exact indexes for every choice of identifiers if and only if every row it deleted was stored when it began, and the first DELETE of a row lists none before it that is deleted again later |
| `EveryChoice.OriginalsAreNeeded` | engine/transactions/transaction.py:70-126 | On any indexed table: if rollback restores the table for every choice of identifiers, the transaction deleted only rows that were stored, wherever, when it began |
| `EveryChoice.CutOffIsLost` | engine/transactions/transaction.py:100-126 | On any indexed table: if the first DELETE of a row lists one before it that is deleted again later, some choice of identifiers loses the row |
| `EveryChoice.KeyIndexDistinguishes` | engine/transactions/transaction.py:70-126 | An index on the primary key tells rows with different keys apart |
| `Undo.InsertionsStay` | engine/transactions/transaction.py:70-111 | Rows a transaction inserted and did not delete stay at their recorded identifiers |
| `Plans.BestIndex` | engine/planner/optimizer.py:810-838 | The chosen index is applicable and none applicable comes before it by kind and name; without one there is none |
| `Plans.ChosenRouteFits` | engine/planner/optimizer.py:617-765 | The chosen route finds every matching row of the leaf, and a filter follows wherever it may bring more |
| `Routes.RouteIsRight` | engine/planner/optimizer.py:617-765 | The table itself is searched exactly for predicates on its key, unless it is a heap with a usable index; else the best usable index, hash before ordered and then by name; else everything is read. Hash indexes are usable for equality with texts they can hold. A filter remains exactly after reading everything and for strict comparisons |
| `Routes.ProbeIsRight` | engine/planner/optimizer.py:503-529 | A join may probe exactly a table that is read whole: by its key unless it is a heap, and else by the best index on the join column; the choice is left to the core exactly when there is something to probe |
| `Plans.ChooseProbe` | engine/planner/optimizer.py:503-529 | A table is probed only where its leaf is read whole and unfiltered |
| `Plans.OwnerFound` | engine/planner/optimizer.py:428-446 | The leaf that owns a column is found exactly when the column belongs to the source |
| `Plans.OptimizedPlanIsWellPlanned` | engine/planner/optimizer.py:448-529 | For every join tree and every predicate the binder accepts, the plan is right at every node and takes care of the predicate exactly when there is one |
| `Routes.OptimizedPlanIsRight` | engine/planner/optimizer.py:448-529 | For every join tree and every predicate the binder accepts, the leaf with its column takes the right route, all others are read whole, joins probe what is right, and none filters |
| `Operators.ExecuteSource` | engine/executor/operators.py:209-269 | For every plan that can be executed, right or not, walking plan and source together yields the bag the plan's semantics names, with offsets for the right children, predicates at any depth and probes of whatever column their index has, and fails exactly where that does |
| `Operators.ExecuteJoin` | engine/executor/operators.py:281-349 | A join node yields the joined rows of its sides, as often as `Operators.JoinCounts` says, where the core joins by hash, and joins with the right table itself by the column of the probe where the core probes; which it does is an arbitrary choice per node. An automatic join with nothing to probe fails |
| `Operators.JoinCounts` | engine/executor/operators.py:281-349 | A joined row occurs as often as its left part occurs on the left times as often as its right part occurs on the right if the two agree in the join columns, and otherwise not at all |
| `Operators.AllRowsCounts` | engine/executor/operators.py:209-349 | In a whole join tree a row occurs as often as the product of how often each table has its part of the row, if all join conditions hold, and otherwise not at all |
| `Operators.RightPlansDeliver` | engine/executor/operators.py:209-349 | A right plan delivers, at every node and whichever way the automatic joins go, exactly what the predicate leaves of the full join of the node |
| `Operators.WithoutAPredicate` | engine/executor/operators.py:209-269 | Without a predicate, execution fails exactly for plans with a part that takes care of one or an automatic join with nothing to probe |
| `Operators.ReadCandidates` | engine/executor/operators.py:392-434 | A leaf yields the bag of rows its route looks up, before any filter, and fails exactly when the route cannot serve the predicate |
| `Operators.ConsumerSpans` | engine/executor/operators.py:592-606 | In a right plan whatever takes care of the predicate spans its column |
| `Operators.JoinedAnswers` | engine/executor/operators.py:209-349 | Filtering one side, the other, or neither before the join gives what the node has to give |
| `Operators.FilteredAnswers` | engine/executor/operators.py:255-268 | What a node has to yield is what its own filter leaves of what its children yield, even where a child has filtered already |
| `Operators.ExecutePlan` | engine/executor/operators.py:583-606 | A plan that filters without a predicate, or takes no care of one that is there, is refused with the error for that; a right plan delivers the rows of the full join that satisfy the predicate |
| `Operators.Query` | engine/executor/operators.py:63-142 | From query to rows: optimized and executed, every query the binder accepts delivers each row as often as the product of how often each table has its part of the row, if all join conditions hold and the row satisfies the predicate, and no other rows |
| `Probes.ProbeIsRightExactly` | engine/executor/operators.py:281-378 | A join that probes the join column of the right table delivers the right bag exactly when its right leaf is unfiltered, or the join filters again, or every right row that a left row joins with satisfies the predicate |
| `Probes.AnyProbeIsRightExactly` | engine/executor/operators.py:355-378 | Whichever index the plan names: a join that probes some column behind a leaf read whole delivers the right bag exactly when every left row finds the same right rows by that column as by the join column |
| `Probes.SomeDatabaseGoesWrong` | engine/planner/optimizer.py:503-529 | A join that may probe behind a filtered leaf delivers a wrong bag for some database as soon as the filter rejects one row of the right types that can join, so the planner's rule is needed |
| `Probes.ProbingBehindAFilterGoesWrong` | engine/planner/optimizer.py:222-229 | The constructors and the check before execution accept a plan that probes a table behind a filtered leaf, and executing it with that probe delivers a wrong bag |
| `Probes.LeafIsRightExactly` | engine/executor/operators.py:392-434 | A leaf the constructors accept, for a predicate on its columns, fails exactly if its route cannot serve the predicate, and otherwise delivers the right bag if and only if it filters, or its route is no range, or the operator is not strict, or no row has the literal |
| `Predicates.RangeCaptures` | engine/executor/predicates.py:34-94 | Reading the closed range misses nothing that matches, brings nothing else under <=, >= and BETWEEN, and under < and > exactly the values equal to the literal |
| `Predicates.EqualityCaptures` | engine/executor/predicates.py:24-31 | An equality search finds exactly what matches |
| `Predicates.MatchesMeans` | engine/executor/predicates.py:63-94 | In memory each operator holds of values of one kind as its name says, and BETWEEN includes both ends |
| `Predicates.BoundsEncloseTheDomain` | engine/executor/native.py:161-186 | For every column type the bounds are values of the column and enclose every value it can hold |
| `Values.LessIsTotal` | engine/executor/predicates.py:235-242 | Comparing by < alone gives 0 exactly for equal values of one kind |
| `Values.LessIsTransitive` | engine/executor/predicates.py:235-242 | The comparison of values of one kind is transitive, so ranges are intervals |
| `Values.LessMeans` | engine/executor/predicates.py:235-242 | Doubles compare as numbers with the infinities at the ends, texts where they first differ or one ends, points by latitude and then longitude |
| `Values.TextOrderIsOctetOrder` | engine/executor/predicates.py:235-242 | Texts compare by code points as their UTF-8 octets do |
| `Utf8.GreatestFillsTheColumn` | engine/executor/native.py:174-179 | The upper bound of VARCHAR(n) encodes to exactly n octets |
| `Utf8.GreatestIsGreatest` | engine/executor/native.py:174-179 | No text of scalar values that takes at most n octets is greater than the upper bound of VARCHAR(n) |
| `Utf8.EncodingKeepsOrder` | engine/executor/native.py:174-179 | Code-point order and octet order of encoded texts are the same order |
| `Utf8.EncodingIsInjective` | engine/executor/native.py:174-179 | Different texts have different encodings |
| `Utf8.WellFormedIsScanned` | engine/executor/bulk_load.py:253-270 | Scanning octets finds no fault exactly when they are the encoding of some scalar values |
| `Utf8.ReachIsLongest` | engine/executor/bulk_load.py:253-266 | The scan reaches to the end of the longest well-formed beginning |
| `BulkLoad.CheckUtf8` | engine/executor/bulk_load.py:245-271 | However the file is cut into blocks, the check gives the verdict on the whole file |
| `BulkLoad.VerdictMeans` | engine/executor/bulk_load.py:245-271 | The verdict accepts exactly the encodings of scalar values, and otherwise names the line, counted by line feeds, on which the first ill-formed sequence starts |
| `BulkLoad.HasUtf8Multibyte` | engine/executor/bulk_load.py:307-314 | Searching block by block, with the last octet carried over, finds exactly whether somewhere in the whole file an octet that starts the encoding of a character above 0x7F stands before one that comes later in some encoding |
| `BulkLoad.DetectEncoding` | engine/executor/bulk_load.py:277-304 | The encoding found does not depend on how the file is cut into blocks: UTF-8 exactly if the file encodes a string, and Windows-1252 only if it nowhere has the start of a multi-octet character |
| `BulkLoad.EncodingMeans` | engine/executor/bulk_load.py:277-304 | UTF-8 is found exactly for what encodes a string; Windows-1252 exactly for other files whose octets it defines and in which no multi-octet character starts; the rest is rejected with the line, counted by line feeds, on which the longest well-formed beginning ends |
| `BulkLoad.HasMultibyteMeans` | engine/executor/bulk_load.py:274 | The pattern of two octets is found exactly where the first octet of an encoded character above 0x7F stands before a later octet of an encoding |
| `BulkLoad.WholeCharacterIsSeen` | engine/executor/bulk_load.py:277-304 | A file in which some character above 0x7F is encoded whole is never taken for Windows-1252 |
| `Locks.TryGrantsWhatIsCompatible` | engine/transactions/locks.py:55-71 | A request is granted exactly when no other owner stands in the way; granted, the owner holds that mode or a stronger one and everybody else what they held; refused, nothing changes |
| `Locks.DropTakesOne` | engine/transactions/locks.py:73-78 | A release takes away one owner and nobody else, and does nothing for an owner who does not hold the lock |
| `Locks.DropForgetsTry` | engine/transactions/locks.py:55-78 | A lock taken by a newcomer and released is as it was |
| `Locks.TableLock.TryAcquire` | engine/transactions/locks.py:55-71 | One attempt, with reentrance and upgrade, changes the lock as specified |
| `Locks.LockManager.Acquire` | engine/transactions/locks.py:88-103 | Asking for a table grants exactly what is compatible and touches no other table's lock |
| `Locks.LockManager.Release` | engine/transactions/locks.py:105-108 | Releasing changes one table's lock only, and none that nobody ever asked for |
| `Sessions.Transaction.EnsureLock` | engine/transactions/transaction.py:50-68 | A remembered lock spares the request only where it would be granted without change, so the outcome is that of asking |
| `Sessions.Transaction.ReleaseLocks` | engine/transactions/transaction.py:128-130 | Ending a transaction takes its owner from every lock and from nothing else |
| `Sessions.Session.LockOrAbort` | engine/executor/processor.py:411-430 | A refused lock ends the active transaction and gives back all its locks; outside a transaction nothing changes |
| `Sessions.Session.Select` | engine/executor/processor.py:614-661 | A SELECT asks for shared use of its tables in their order. Outside a transaction it leaves every lock as it was, whether it completes, fails or times out; inside one it keeps its shared locks, unless a timeout ends the transaction |
| `Sessions.Session.Mutate` | engine/executor/processor.py:479-508 | A change of one table asks for exclusive use of it and nothing else. Outside a transaction it leaves every lock as it was on every exit path; inside one it keeps its lock, and a failure gives back all locks of the transaction |
| `Sessions.Session.Begin` | engine/executor/processor.py:385-389 | A transaction begins only where none is active, and then holds no locks |
| `Sessions.Session.End` | engine/executor/processor.py:391-396 | Locks of a transaction are given back only when it ends |
| `LockProtocol.StepKeepsInv` | engine/executor/processor.py:411-436 | Every step of every session keeps the lock table equal to who holds what, in which mode |
| `LockProtocol.NoDeadlock` | engine/executor/processor.py:614-661 | As long as a statement outside a transaction is unfinished, some session can move without a timeout; no order of locking is needed |
| `LockProtocol.EveryRunIsSafeAndEnds` | engine/executor/processor.py:411-436 | In every interleaving, transactions included, exclusive use excludes everybody else, and no run is longer than the work there was |
| `LockProtocol.DisciplinedRunsFinish` | engine/executor/processor.py:254-307 | A run of statements outside transactions that cannot go on without a timeout has finished all work, and every lock is free |
| `LockProtocol.UpgradesDeadlock` | engine/transactions/locks.py:55-62 | Two transactions that read a table and then write it block each other, and a timeout lets the other through |
| `Deadlocks.StatementsKeepTheRules` | engine/executor/processor.py:614-661 | What statements ask for outside a transaction is never more than shared locks or one exclusive lock, and in one order where the tables of a SELECT are sorted; asking for one table exclusively again and again is in order too |
| `Deadlocks.BlockedMeans` | engine/transactions/locks.py:43-71 | A session waits in vain exactly when another one holds the table it asks for and one of the two needs it exclusively |
| `Deadlocks.DeadlockIsACycle` | engine/transactions/locks.py:43-71 | Where nobody can move without a timeout, work is left over exactly when some sessions wait for each other in a round |
| `Deadlocks.CycleLastsForever` | engine/transactions/locks.py:43-71 | Sessions that wait for each other in a round get nowhere, in every run, until one of them times out |
| `Deadlocks.OrderedRunsFinish` | engine/executor/processor.py:411-436 | Transactions and statements never deadlock if every request is covered by an earlier one for the same table, exclusive or in the same mode, or comes later in one order of tables than all earlier ones: a run that cannot go on without a timeout has finished all work |
| `Deadlocks.CoveredIsGranted` | engine/transactions/transaction.py:50-68 | A request that an earlier one covers never waits for anybody |
| `DeadlockRuns.DeadlocksExactly` | engine/executor/processor.py:411-436 | Some run of given programs, transactions included, comes to a standstill if and only if there are for each session a number of finished programs and a prefix of the next one such that the locks of the prefixes do not conflict and the requests that follow them conflict in a round |
| `DeadlockRuns.PossibleIsReached` | engine/executor/processor.py:411-436 | Whatever prefixes of programs do not conflict, some run leads exactly there |
| `MediaReport.MediaLoadReport.Fail` | engine/executor/media_load.py:78-81 | Recording a failure keeps the report that of the history with one more failed file |
| `MediaReport.MediaLoadReport.Merge` | engine/executor/media_load.py:83-87 | Merging two reports gives the report of the two histories one after the other |
| `MediaReport.MergingConcatenates` | engine/executor/media_load.py:83-87 | No error is lost in a merge that one report of both loads would have kept, and none kept that it would have dropped |
| `MediaReport.FailingExtends` | engine/executor/media_load.py:78-81 | A failure adds one to the count and its message to the list while that is short of a hundred |
| `MediaReport.SummaryMeans` | engine/executor/media_load.py:60-87 | A report counts the files that went in and those that did not, and names the first hundred failures in their order, each with the first 1024 characters of its message |
| `MediaJobs.StepKeepsInv` | engine/api/media_load.py:83-216 | Every step of requests and worker keeps the invariant: one unfinished job at most, which is the active one, and every discovered file in the report, in the batch, or being extracted |
| `MediaJobs.ReachableStatesAreSound` | engine/api/media_load.py:83-216 | The invariant holds after every run from the start of the server |
| `MediaJobs.ClosingEnds` | engine/api/media_load.py:128-131 | In every run the worker takes at most ten more steps once closing has begun |
| `MediaJobs.AnswersAddUp` | engine/api/media_load.py:105-126 | After every run, in every answer next_id is start_id + discovered, processed is at most discovered and equal to it when completed, and as many errors are named as there were, up to a hundred |
| `MediaOutcomes.AnswersAreOfMoves` | engine/api/media_load.py:105-126 | After every run an answer is what the actions tell: whose requests the job serves, how many files were given a number, the status its moves decided, and the report of the outcomes they named in their order, one failure for each failed extraction and what the table answered about each merged batch |
| `MediaOutcomes.ReportCounts` | engine/api/media_load.py:182-216 | In every answer the files reported as inserted are those the table answered so about in merged batches, and every failed extraction is reported as failed, besides the failures the table answered |
| `MediaOutcomes.FailureIsReported` | engine/api/media_load.py:182-184 | A file whose extraction fails is, in every later answer, the next failure of its job, and named if fewer than a hundred failed before it |
| `MediaOutcomes.StartsAreAllowed` | engine/api/media_load.py:91-102 | After every run a load is accepted exactly while the server is not closing and every load so far has ended |
| `MediaOutcomes.MovesAreAllowed` | engine/api/media_load.py:133-216 | After every run the worker can take exactly the moves that may follow its last one: each file is numbered and then extracted or failed, a batch is written when full or when the files end, and nothing follows once its fate is decided |
| `MediaOutcomes.DecidedJobsEnd` | engine/api/media_load.py:133-201 | A job ends exactly with what its last move decided: cancelled by a check after closing began, failed when identifiers run out or something fatal happens, completed when the files end with nothing left to write or the last batch is merged |
| `MediaOutcomes.EndedAsDecided` | engine/api/media_load.py:185-201 | Every job shown as ended has the status that its moves had decided when it ended |
| `MediaJobs.RecentJobsAreRetained` | engine/api/media_load.py:91-98 | After every run a job can be looked up exactly until thirty-two more have been started, and the active job always |
| `MediaJobs.OneAtATime` | engine/api/media_load.py:91-102 | After every run at most one job is unfinished, and a new one is submitted only to an idle executor that was not shut down |
| `MediaJobs.RunsGoFurther` | engine/api/media_load.py:133-216 | Reports only grow, and a finished job never changes again |
| `MediaJobs.StoppedWorkerRunsOut` | engine/api/media_load.py:128-131 | Once told to stop, every step brings the worker nearer to its end |
| `MediaJobs.BusyWorkerCanWork` | engine/api/media_load.py:133-201 | A worker with a job is never stuck |
| `MediaJobs.Jobs.StartJob` | engine/api/media_load.py:91-102 | Starting refuses while a job is active or the server closes, and otherwise evicts the oldest jobs and submits the new one |
| `MediaJobs.Jobs.TakeNumber` | engine/api/media_load.py:163-168 | Each discovered file takes the next identifier, and none past 32 bits |
| `MediaJobs.Jobs.FinishJob` | engine/api/media_load.py:196-201 | However a job ends, it gets its final status and is no longer active |
| `KMeans.Assign` | engine/multimedia/kmeans.py:258-285 | Every point is labelled with its nearest centroid, the first of equally near ones, for every block size |
| `KMeans.ReducedFindsNearest` | engine/multimedia/kmeans.py:261-265 | Comparing the expanded distance without the point's own norm finds the nearest centroid |
| `Vectors.DistancesAddUp` | engine/multimedia/kmeans.py:243-254 | The squared distance adds up over the coordinates, each adding the square of its difference |
| `KMeans.NearestIsUnique` | engine/multimedia/kmeans.py:280-284 | The label of a point is determined: no other centroid is the first nearest one |
| `KMeans.Average` | engine/multimedia/kmeans.py:288-321 | Every centroid with points moves to their mean, and the empty ones to different rows than which no other row is farther from its centroid |
| `KMeans.EmptiesAreFew` | engine/multimedia/kmeans.py:314-319 | There are never more empty centroids than centroids, so with enough rows the random fallback is not reached |
| `KMeans.MovingToTheMean` | engine/multimedia/kmeans.py:302-309 | Moving one centroid to the mean of its points saves, for each of them, the square of the way it moves |
| `KMeans.AveragingSaves` | engine/multimedia/kmeans.py:302-309 | Averaging lowers the total squared distance by exactly what the moves of all centroids save |
| `KMeans.NearestCostsLeast` | engine/multimedia/kmeans.py:258-285 | No labelling costs less than the nearest centroids |
| `KMeans.ReseatingSpares` | engine/multimedia/kmeans.py:314-320 | Moving empty centroids to the worst rows spares the whole distances of these rows |
| `KMeans.IterationLowersCost` | engine/multimedia/kmeans.py:205-212 | An iteration lowers the total squared distance by at least what the means save and the moved empty centroids spare |
| `KMeans.Iterate` | engine/multimedia/kmeans.py:204-212 | The centroids come from the seeds by iterations, each of which labels every point with its nearest centroid and recentres, breaking ties alike; the loop ends after the first in which no centroid moves farther than the tolerance, or after the last allowed one, and never describes the data worse than the seeds |
| `KMeans.StepsLowerCost` | engine/multimedia/kmeans.py:205-212 | Over any number of iterations the total squared distance to the nearest centroids never rises |
| `KMeans.UnsettledRoundsAreFew` | engine/multimedia/kmeans.py:205-212 | While no centroid loses all its points, at most so many iterations pass without settling as squares of the tolerance fit into the total squared distance of the seeds |
| `Settling.NoLabellingTwice` | engine/multimedia/kmeans.py:205-212 | Before the centroids settle no two iterations label all points alike, empty centroids or not, whichever way the sort breaks ties, as long as it breaks them alike for equal distances |
| `Settling.LabelsFall` | engine/multimedia/kmeans.py:288-321 | After an iteration that does not lower the cost no point has a higher label than before, wherever the empty centroids went |
| `Settling.EveryRunSettles` | engine/multimedia/kmeans.py:205-212 | However many iterations are allowed, at most k^n pass without settling, for n points and any tolerance that is a distance |
| `Settling.IterationsAreFew` | engine/multimedia/kmeans.py:205-214 | With more than k^n + 1 iterations allowed the loop ends because the centroids have settled |
| `Settling.TiesMatter` | engine/multimedia/kmeans.py:316-320 | If the sort could break ties otherwise each time, an empty centroid could go back and forth for ever without saving anything: three points, three centroids |
| `Seeding.Seed` | engine/multimedia/kmeans.py:228-255 | Whatever is drawn: with at least k different rows the seeds are pairwise different and nothing is filled up; with fewer, every row is a seed |
| `Seeding.DrawSeeds` | engine/multimedia/kmeans.py:240-254 | Seeds drawn by weight are different rows, and drawing stops early only when every row is a seed |
| `Seeding.NothingLeft` | engine/multimedia/kmeans.py:245-250 | The weights add up to nothing exactly when every row is a seed |
| `Seeding.WeightOfNewRows` | engine/multimedia/kmeans.py:243-254 | A row has weight exactly when it is not a seed yet |
| `Seeding.Reweigh` | engine/multimedia/kmeans.py:252-254 | The weights stay the squared distances to the nearest seed |
| `Codebook.BuildCodebook` | engine/multimedia/kmeans.py:162-214 | Arguments are refused for the first of five reasons that applies, and a codebook is built exactly if none does; then the words come by such iterations from k seeds among the sampled rows, pairwise different if there are k different rows, and describe the sample at least as well as these |
| `Reservoir.Sample` | engine/executor/vector_search.py:168-176 | The sample has min(n, capacity) rows, those at the kept positions: all rows while there is room, and as many as there is room for afterwards |
| `Reservoir.KeptAreDifferent` | engine/executor/vector_search.py:170-176 | The kept positions are different rows among those seen |
| `Reservoir.KeptIsLastDrawn` | engine/executor/vector_search.py:170-176 | Each place of the sample ends with the last row that drew it, or with its first row if none did |
| `Reservoir.AllDrawsAreAll` | engine/executor/vector_search.py:173-175 | The list of ways to draw holds exactly the sequences whose draws are at most the position of their row |
| `Reservoir.AllDrawsAreDifferent` | engine/executor/vector_search.py:173-175 | No way to draw is listed twice |
| `Reservoir.EveryRowHasTheSameChance` | engine/executor/vector_search.py:170-176 | Over all ways to draw, each of n rows is kept in exactly capacity/n of them |
| `Subsets.EverySetHasTheSameChance` | engine/executor/vector_search.py:170-176 | The sample is uniform: over all ways to draw, each set of capacity of the n rows is the sample in exactly (n - capacity)! of them |
| `Polygon.ContainsPoint` | engine/executor/predicates.py:162-191 | Fewer than three vertices are refused; otherwise the answer is whether the point touches a side or the ray from it crosses an odd number of sides |
| `Polygon.AnswerKeeps` | engine/executor/predicates.py:162-191 | The answer is the same wherever the list of vertices starts and in whichever direction it goes |
| `Polygon.FarPointsAreOutside` | engine/executor/predicates.py:162-205 | A point farther than the tolerance outside the box around the vertices is not inside |
| `Polygon.ClosedPassesEvenly` | engine/executor/predicates.py:182-191 | A closed polygon passes any height an even number of times |
| `Polygon.BorderIsInside` | engine/executor/predicates.py:174-180 | Every point of the border counts as inside, vertices included |
| `Polygon.MeetingTurns` | engine/executor/predicates.py:188 | Where a side meets the height of the point does not depend on which end comes first |
| `Polygon.OnSegmentTurns` | engine/executor/predicates.py:194-205 | Whether a point lies on a side does not depend on which end comes first |
| `Polygon.TouchingMeans` | engine/executor/predicates.py:194-205 | A point touches a side exactly if the area of their triangle is at most a 10^12th of the squared scale and the point leaves the box of the side by at most a 10^12th of the scale; the scale is the least bound of 1 and all coordinates |
| `Convex.InsideConvex` | engine/executor/predicates.py:162-191 | For a strictly convex polygon whose vertices go round counter-clockwise, a point is inside exactly if it touches a side or lies on the left of every side |
| `Convex.InsideClockwise` | engine/executor/predicates.py:162-191 | If they go round clockwise, exactly if it touches a side or lies on the right of every side |
| `Convex.TriangleIsConvex` | engine/executor/predicates.py:162-191 | Every triangle whose corners go round counter-clockwise is such a polygon |
| `Convex.CrossedBetween` | engine/executor/predicates.py:182-191 | At each height one side of such a polygon rises and one falls, or none passes, and the ray crosses an odd number of sides exactly from points between the two |
| `PolygonCuts.Cutting` | engine/executor/predicates.py:162-191 | Cut along a chord between two vertices, a polygon contains a point that touches neither it nor the chord exactly if one part does and the other does not |
| `PolygonCuts.OddTriangle` | engine/executor/predicates.py:182-191 | The ray from a point on no side of a triangle, flat ones included, crosses it oddly exactly if the point is left of all sides or right of all sides |
| `PolygonCuts.InsideIsOdd` | engine/executor/predicates.py:162-191 | For every polygon: a point that touches no side is inside exactly if an odd number of the triangles between the sides and any one point hold it, left or right of all their sides, provided it is on no line from that point to a vertex |
| `PolygonCuts.SomePointTells` | engine/executor/predicates.py:162-191 | For every point that touches no side there is such a point, so these triangles decide the answer for every polygon and every point off its border |
| `Relevance.Shorten` | benchmarks/scripts/relevancia_texto.py:121-135 | The short list is the first k results and exactly those that follow with the score of the k-th |
| `Relevance.ExpectedIsTheMean` | benchmarks/scripts/relevancia_texto.py:149-159 | The expected hits are the mean of the hits over all tops: added up over every set of k documents with everything above the cut and nothing below it, the hits are the expected number times their number |
| `Relevance.ShortListSuffices` | benchmarks/scripts/relevancia_texto.py:121-159 | The short list gives the same expected hits as the whole ranking |
| `Relevance.OrderInsideTiesDoesNotMatter` | benchmarks/scripts/relevancia_texto.py:149-159 | Rankings that differ only inside ties give the same expected hits |
| `Relevance.ExpectedIsBounded` | benchmarks/scripts/relevancia_texto.py:115-159 | The expected hits are at most k and at most the number of relevant documents, so no ranking exceeds the ceiling |
| `Relevance.SharedIsQuotient` | benchmarks/scripts/relevancia_texto.py:159 | Adding the share of hits once for each place is the places times the hits over the size of the tie |
| `Relevance.FewResultsAreCounted` | benchmarks/scripts/relevancia_texto.py:152-153 | Of no more results than places every relevant one counts |
| `Recall.StrictIsAtMostTieAware` | benchmarks/scripts/ejecutar_benchmarks_vectoriales.py:62-72 | Both measures are shares of the k places, and the strict one is at most the tie-aware one, for exact lists of k rows and for shorter ones |
| `Recall.FullRecallMeans` | benchmarks/scripts/ejecutar_benchmarks_vectoriales.py:62-72 | Tie-aware recall is full exactly when every strictly closer row was found and the places left went to rows at the threshold, for exact lists of k rows and for shorter ones |
| `Recall.FullRecallIsExactSearch` | benchmarks/scripts/ejecutar_benchmarks_vectoriales.py:62-72 | Tie-aware recall is full exactly when the results are k rows than which no row left out is nearer |
| `Recall.SuccessMeans` | benchmarks/scripts/casos_galeria.py:61-75 | A gallery case is a success exactly when its results are as near as any, and rows missing from a success are at the threshold distance |
| `Recall.ExactListIsSettled` | benchmarks/scripts/ejecutar_benchmarks_vectoriales.py:62-72 | Every exact search lists the same rows exactly when only k rows are no farther than the last of them |
| `Recall.FullStrictRecallMeans` | benchmarks/scripts/ejecutar_benchmarks_vectoriales.py:62-72 | Strict recall is full exactly when the results are the rows of the exact list |
| `Recall.MeasuresCount` | benchmarks/scripts/ejecutar_benchmarks_vectoriales.py:62-72 | The strict measure is the share of the k places that hold rows of the exact list; the tie-aware one has those nearer than its last row and, up to the places left, results as far as that |
| `Recall.StrictIsFairExactly` | benchmarks/scripts/ejecutar_benchmarks_vectoriales.py:62-72 | Strict recall is full for every result as near as any exactly when only k rows are no farther than the last row of the exact list |
| `Recall.StrictCanMissTies` | benchmarks/scripts/ejecutar_benchmarks_vectoriales.py:62-72 | Strict recall can be 0 for results as near as any, where tie-aware recall is full |

## Left out

- Spatial, full-text and vector routes of the planner and executor (R-Tree, inverted index, IVF, HNSW), ordering by score, LIMIT, GROUP BY and external sorting: the native core decides them, and its code is not part of this model.
- `match_header`, `convert_row` and the field parsers of the bulk load, and the row counters of its report: each is settled by reading one branch.
- `distance_between` (Haversine), TF-IDF, mel scale and other trigonometry and logarithms: no exact-arithmetic meaning.
- Floating-point rounding and float32 casts in k-means, polygons and measures; the tolerance of the polygon test is kept.
- `precision_at_k`, `recall_at_k` and the summaries of the benchmarks: quotients of what is modelled; the paired permutation test is randomised.
- The choice of sample in a codebook and of rows in a reservoir is free among what can be drawn; the random generators are not modelled.
- Timers, statistics, EXPLAIN text, error wording, the HTTP layer and the parser and binder; bound statements are taken as given.
- Dml.DeleteWithIndexes: when several candidates are not rows of a table with exact indexes and the deletion stops, only rows that are not theirs are promised to stay; for one candidate, as undoing an INSERT needs it, the outcome is exact.
- Dml.InsertWithIndexes: when a compensating call fails as well, nothing is promised about the pairs left behind, because the source only tries its best.
- Undo.UndoLog.Rollback: is about a log of changes to one table, as the changes to different tables do not touch each other; when a call fails while it is undone, it only says that the table stays valid, because the source only tries its best.
- Undo.UndoLog.Delete: when two calls or more fail during a DELETE, what is promised is what `Dml.DeleteWithIndexes` promises then.
- MovedRows.RestoredFromExactly: asks that the transaction deleted none of its own rows; otherwise, once rows have moved, a row may be removed by the undo of an INSERT that recorded an earlier place of it, as `MovedRows.MovedBackIsRestored` shows, so the condition would have to follow every place each row ever had.
- Operators.ReadCandidates: the vector, spatial, nearest-neighbour and text routes of the cited function are decided by native structures that are not part of this model.
- Operators.Query: projection, score columns, the order by score and LIMIT come after the rows it is about.
- KMeans.UnsettledRoundsAreFew: asks that no centroid loses all its points, because an empty centroid can move far without saving anything, as the centroids of `Settling.TiesMatter` show; the bound of `Settling.EveryRunSettles` does not ask for it.
- KMeans.Iterate: rows that are equally far are taken in their order; `Settling` is about any sort that treats equal distances alike, as numpy's does.
- EveryChoice.RestoredForEveryChoice: asks for indexes that tell rows with different keys apart, as one on the primary key does; without, its condition is still necessary, and for transactions that insert only new keys `Rollbacks.RestoredExactly` needs no such thing.
- Convex.InsideConvex: is about polygons none of whose vertices lies on the line of a side it is no end of; for other polygons there is `PolygonCuts.InsideIsOdd`.
- Operators.ExecuteSource: probing an index whose column has another type than the join column finds nothing here, where the core may raise an error.
- HashTables.InsertedOk: asks for pages of at least one hash, because with none the source never returns.
- Recall.SuccessMeans: is about lists of exactly k results without repetition, which the source checks before it classifies.
- Relevance.ExpectedIsTheMean: is about rankings in order of score and k of at least 1, as the source asks of its callers.
- Locks.LockManager.Acquire: one session alone cannot see others move while it waits, so waiting is left to `LockProtocol`.
- The locks of CREATE INDEX, DROP TABLE and the bulk loads follow the pattern of `Sessions.Session.Mutate`: one exclusive lock, taken and given back around the work.
