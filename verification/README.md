# Artie Transfer: a verified model of the replication pipeline

Artie Transfer turns a log of change events into a destination table. Events are fetched from Kafka,
compacted in memory per primary key, merged into the table, and committed. Any of these steps may fail,
and a crash replays from the committed offsets. This project models that pipeline in Dafny and proves
what it promises.

`dafny verify dfyconfig.toml` checks everything.

## What is modelled

| layer | modules |
|---|---|
| cells, rows, texts | `Values`, `Texts`, `Sizes` |
| change events | `RelationalEvents` (row of an event, well-formed streams), `PrimaryKeys`, `Events` (`Save`) |
| the buffer | `ColumnLists`, `Buffers` (`InsertRow`, reconciliation with the destination), `Compaction` (folds of `InsertRow`) |
| the merge programs | `Sql` (meaning of statements), `Dml` (the three builders), `MergeMeaning`, `MergePrograms`, `MergeLaws` |
| batches | `Replay` (what a sequence of changes does to a row), `BatchMerge`, `SoftDelete`, `IdempotentKeys`, `Examples` (concrete batches) |
| the consumer | `Pipeline` (transition system), `CommitSafety`, `ExactlyOnce`, `Replication` (runs of the consumer's own steps, which the transition system simulates), `LiveSafety` (no run loses an event), `Consumer` (the objects that do these steps) |
| the schema side | `Diffs`, `TableConfigs`, `Ddl`, `SchemaRuns`, `SchemaConvergence`, `SchemaAgreement`, `SchemaSchedule` |
| kernel | `DecimalCodec`, `PartitionKeys`, `Jitter` |

Statements are syntax trees over rows. `Sql.Exec` gives their meaning on tables, which are maps from key
tuples to rows: comparisons with NULL are unknown (section 8.2 of ISO/IEC 9075-2), and a MERGE applies the
first clause that fires to every row (section 14.12 of ISO/IEC 9075-2:2011). The builders in `Dml` return
these trees, and `MergePrograms` proves that each program means one reference merge,
`MergeMeaning.MergeTable`.

Code that changes state is a class or a method with its loops. Such a method is tied to a function of the
old state, and the properties are proved about that function. A map is visited in an arbitrary order, as
Go does. Outcomes of foreign calls are inputs: which merge, statement or commit fails, the clock, and the
kind that type inference finds for a value.

## Assumptions of the pipeline theorems

`Replication.GoodConfig`, `Replication.GoodSource` and `Pipeline.AscendingLog` collect them
(`IdempotentKeys.Mergeable` and `Pipeline.GoodLog` for the transition system); `LiveSafety` and
`CommitSafety` need none of them. `RelationalEvents.StreamIsGood` derives `GoodSource` from a stream of events.

- One topic per table, and all changes of a key in one partition (README.md:43-44).
- The delete marker agrees with the operation, and key columns have values. The code computes marker and
  operation separately; `RelationalEvents.ProperExactly` says when they agree.
- A placeholder only follows a live row that carries the column, on the rows as Save buffers them.
  `RelationalEvents.StreamIsChained` derives this from the shape of a source's stream, and
  `Replay.FollowsIsNecessary` shows that it cannot be weakened.
- Equal primary-key texts mean equal keys; `RelationalEvents.KeysAreGood` derives this from key values that
  print without `=`, and `PrimaryKeys.KeyTextExact` shows that over all values it fails for composite keys.
- Hard delete, or Redshift's soft delete; `SoftDelete` has the exact condition for the others.
- Without an idempotent key, nothing more. With one, the live changes to a key never go down in it, across
  deletes too; `Examples.RestoredRowIsLost` shows what is lost otherwise.
- The table's column names are fixed during the run: they are the columns that an event lists together with
  the cells of its row, in lower case in the destination. Order and kinds are free.

The schema theorems (`SchemaAgreement.Consistent`, `SchemaAgreement.TidySource`) ask for unique names in lower
case, which is how columns are named when they are made (lib/typing/columns/columns.go:15-17) and read
(clients/shared/table_config.go:91-105), and that a table which is still to be created is not there.

## Where the code does less than it seems to promise

Each of these is proved, with the exact condition where the code does meet the promise.

- Soft delete through a single MERGE does not insert unmatched deleted rows, while Redshift's parts do, so a
  row inserted and deleted within one batch never arrives (`Examples.InsertThenDeleteIsLost`,
  `SoftDelete.SoftBatchingExact`).
- A row deleted and restored within one batch, with a smaller idempotent key than it had, stays as it was
  (`Examples.RestoredRowIsLost`, `IdempotentKeys.GatedBatchingExact`).
- Encoding a decimal drops leading zero bytes of the complement, so some negative numbers do not come back
  (`DecimalCodec.NegativeRoundTripExact`), and decoding inverts the caller's bytes
  (`DecimalCodec.SecondDecodeDiffers`).
- Key texts have no separator between pairs, so over all values they identify a key exactly when it has one
  column (`PrimaryKeys.KeyTextExact`, `PrimaryKeys.Collision`).
- A DROP that fails after another column was dropped leaves the cache listing a column that is gone
  (`Examples.PartialDrop`), which is the one way in which cache and table come apart; until a restart reads the
  columns anew, no later merge brings them together (`SchemaAgreement.RunAgreement`). As long as sources lack
  the column, each merge of that process that holds operations other than deletes and a change later than the
  column's scheduled time tries to drop it again and fails (`SchemaAgreement.PartialDropSticks`).

Two programs would do less on inputs that no buffer gives them. MSSQL's leaves out rows with a NULL marker
(`MergePrograms.MSSQLAgreesWithMerge`), and Redshift's parts without the DELETE part keep, and even insert,
rows marked deleted (`MergePrograms.HardPartsMeaning`). No row that GetData makes has a NULL marker, and the
buffer's flag puts the DELETE part in (`BatchMerge.DeletesAreFlagged`), so with hard deletes all destinations
make the same table of a buffer (`BatchMerge.DestinationsAgree`).

## Model

| member | source | states |
|---|---|---|
| Replication.ReplicatedExactlyOnce | README.md:25 | Exactly once, end to end: over every run of the consumer's own steps from the empty buffer, whatever saves, failed flushes, partial commits and restarts it holds, the flush that takes it past everything merged before leaves the table that merging every accepted event once, in order and by itself, gives; with no idempotent key, or with one in which the live changes to a key never go down |
| Replication.RunSimulated | processes/consumer/process.go:70-89 | Every run of saves, flushes and restarts from the empty slot, with columns that come with events and cells in any order and of any kind, is matched by a run of the pipeline's transition system on the log the source amounts to: same table, offsets, positions and frontier, and buffers that differ in order and kinds of columns only |
| Replication.OpeningMirrors | models/event/event.go:135-225 | The save that opens a buffer, for an event whose columns and cells together make up the schema: it inserts the event's own change, and the columns it leaves have the schema's names and exactly the flags of a Fetch |
| Replication.ContinuingMirrors | models/event/event.go:143-225 | A save into an existing buffer mirrors a Fetch, whatever order and kinds the buffer's columns have |
| Replication.MirrorsMerge | clients/shared/merge.go:71-181 | After the destination's kinds are taken over, two buffers whose columns differ in order and kinds only merge to the same table, in every destination |
| Replication.ReconciledNames | lib/optimization/table_data.go:293-342 | Taking the columns from a destination of the same names keeps names and flags and leaves exactly the destination's columns known |
| Replication.PlaceholdersStayFlagged | models/event/event.go:137-210 | Over every run of saves that bring any new columns, flushes and restarts, each buffered placeholder sits in a column flagged as unavailable |
| Replication.FlushKeepsValues | lib/typing/columns/columns.go:257-266 | So no flush of any run, given a complete merge argument and tables keyed by the primary key, writes the placeholder over a stored value |
| ExactlyOnce.ExactlyOnce | processes/consumer/flush.go:68-112 | The same for the transition system, for states: in every reachable state in which each partition's latest merge (or commit) is at the furthest position ever merged, the destination is the table of an undisturbed run |
| ExactlyOnce.ReachAfterMerge | lib/destination/dml/merge.go:205-208 | One key under the idempotent-key gate: whether the gate lets a batch through or holds it back, replaying converges afterwards from every offset between the base and a reach that covers the position, and no change beyond that reach will be held back |
| ExactlyOnce.NewsPasses | lib/destination/dml/merge.go:205-208 | A batch that goes beyond the reach is never held back by the gate |
| ExactlyOnce.OnceAt | lib/destination/dml/merge.go:68-363 | Merging what was accepted one by one and once, under the gate, leaves each row as its key's history applied in order |
| ExactlyOnce.ReplayRestores | README.md:25 | The promise that processing is idempotent: the merge that takes a replay past everything merged before it restores the table of an undisturbed run, whatever merges, commits and crashes came before |
| ExactlyOnce.StepKeepsInv | processes/consumer/flush.go:92-112 | Every transition keeps the whole invariant: buffer and log agree, per-key order is kept, and replaying any key from its committed offset converges to the log applied once |
| ExactlyOnce.RowIsLogAppliedOnce | models/event/event.go:211-225 | Per key, the destination row is the key's history up to the frontier replayed once on the initial row |
| ExactlyOnce.ConvergesAfterMerge | processes/consumer/flush.go:92-112 | Merging the buffered part of a key's history onto a converging row converges again, from every offset between the buffer's base and the position, before and beyond the old frontier |
| ExactlyOnce.MergeKeepsConvergence | processes/consumer/flush.go:101-112 | A merge with any subset of partitions committed keeps every key convergent from base, committed and applied offsets |
| ExactlyOnce.FetchKeepsOrder | models/event/event.go:211-225 | Saving a message from any partition keeps, for every key, the buffered changes in the order of its own partition |
| ExactlyOnce.SequentialInterleaves | README.md:43-44 | With every key in one partition, reading the partitions one after the other lists every accepted message exactly once in per-key order, so the reference table of ExactlyOnce exists |
| LiveSafety.NoDeliveryLost | processes/consumer/configs.go:41-57 | Over every run of the consumer's own steps, for any source, settings, columns and events, a delivery below a partition's committed offset was saved into a buffer that a successful merge of the run then merged |
| LiveSafety.LiveStepIsSafe | processes/consumer/flush.go:92-112 | Delivery, failed flush, merge with partial commit, and restart all keep: the buffer is what the saves of its deliveries lead to, it holds everything delivered since the committed offsets, the remembered message of a partition is its last delivery, and everything before was merged |
| LiveSafety.CommitsStay | processes/consumer/configs.go:41-57 | No step of any run moves a committed offset back, or past what was read |
| CommitSafety.NoLostEvent | processes/consumer/configs.go:41-57 | The same for the transition system: in every reachable state, for every log, an accepted message below a partition's committed offset was in the buffer of a merge of that run which succeeded |
| CommitSafety.MergedWasBuffered | processes/consumer/flush.go:92-112 | A message recorded as merged was among the changes that make up the buffer when some successful merge of the run took place |
| CommitSafety.CommitsNeverMoveBack | processes/consumer/configs.go:41-57 | No step of any run moves a partition's committed offset back, nor past the end of its log |
| CommitSafety.StepIsSafe | processes/consumer/flush.go:92-112 | Fetch, failed merge, merge with partial commit, and crash all keep: arrivals cover everything accepted since the base, the remembered message of a partition is its last accepted one, and nothing committed is unmerged |
| CommitSafety.CommitOffsets | processes/consumer/configs.go:41-57 | A committed offset lands between the old committed offset and the position, and only skipped messages follow it when its partition was committed |
| CommitSafety.WipedIsSkipped | models/memory.go:74-78 | After the wipe that follows a complete commit, only skipped messages lie between the new base and the position |
| Consumer.CommitOffset | processes/consumer/configs.go:41-57 | For lists of any messages, partition by partition in any order, stopping at the first error: offsets and acknowledgements are those of the messages that went through, all messages of the committed partitions are among them, an error means that a Kafka message of an unreachable partition stopped it, and without one every Pub/Sub message is acknowledged |
| Consumer.CommitPartition | processes/consumer/configs.go:42-53 | Commits the Kafka message of a partition or acknowledges every Pub/Sub message of it, and stops at an error |
| Consumer.Merge | clients/shared/merge.go:71-181 | A buffer without rows is not merged; otherwise the column kinds are taken from the destination and its program runs as one transaction: on failure or an unbuildable statement the table is unchanged, otherwise it is the meaning of that program on the staged buffer |
| Consumer.FlushTable | processes/consumer/flush.go:68-112 | Merge, then commit, then wipe is exactly one flush step of a run; the buffer survives unless merge and every commit succeeded, and a cleared slot means that all its Pub/Sub messages are acknowledged; an empty slot is left alone |
| Consumer.SaveMessage | models/event/event.go:124-230 | Every valid event, the one that opens the buffer included, is one save of a run; it asks for a flush exactly when the table is over its limits; an invalid event changes nothing |
| Consumer.Process | processes/consumer/process.go:70-89 | One message is a delivery step of a run, followed by a flush step exactly when the table outgrew its limits; only an invalid event is an error; whenever the flush cleared the slot the table is back within its row and size limits; skipped and invalid messages change nothing |
| Events.TableSlot.Wipe | models/memory.go:19-22 | Empties the slot and records the flush time |
| Events.TableSlot.SetTableData | models/memory.go:43-50 | Puts a buffer into the slot and leaves the flush time alone |
| Events.Event.Save | models/event/event.go:124-230 | Fails exactly on an event without table, keys, data or, outside history mode, delete marker, and then changes nothing; otherwise it opens the buffer with sorted primary keys or adds the event's columns, and leaves the normalised row inserted, its cells tracked, every unknown kind that a cell has a value for inferred and every other kind as it was, the message remembered, the CDC time set, and the flush verdict of the limits |
| Events.Event.SaveCells | models/event/event.go:155-210 | The loop over the cells in any order: every key normalised and every value sanitised, no column lost or renamed, known kinds kept, every cell's column present, placeholder columns flagged; if no column is new, only flags and kinds change |
| Events.Event.TrackCell | models/event/event.go:186-207 | One cell either flags its column, adds it with the inferred kind, or upgrades an unknown kind to the inferred one; the kinds of all columns afterwards are stated one by one |
| Events.KindsAfterSave | models/event/event.go:186-207 | After a save the column of a cell with a value has its old kind if that was known and the inferred one otherwise, that of a placeholder keeps its kind, and so does a column without a cell |
| Events.SavedCellIs | models/event/event.go:174-184 | Each saved cell is the event's, but for an object that holds the placeholder as a key, which becomes the placeholder |
| Texts.EscapeNameIs | models/event/event.go:162-172 | Normalising a name turns each capital into its small letter and each space into two underscores, wherever they stand |
| Events.Event.Open | models/event/event.go:135-150 | An empty slot gets a new buffer with the event's columns and sorted keys; otherwise the event's columns are added to the buffer's |
| Events.AfterCellLaws | models/event/event.go:186-207 | Tracking one cell keeps names unique and non-empty, loses no column, never changes a known kind or clears a flag, and leaves the cell's column present and, for a placeholder, flagged |
| Events.SaveKeepsPlaceholdersFlagged | models/event/event.go:174-210 | If every buffered placeholder sits in a flagged column, it still does after a save that brings or reveals new columns |
| Events.TakingOverKeepsFlags | models/event/event.go:143-149 | Adding the columns of an event keeps every flag |
| PrimaryKeys.SortedNames | models/event/event.go:102-110 | The key names come out sorted and without repetition whatever order the map yields them in |
| Texts.LexIs | models/event/event.go:102-110 | The order of the sort: a prefix comes first, and otherwise the first byte that differs decides |
| PrimaryKeys.PrimaryKeyValue | models/event/event.go:113-120 | The text is the same for every iteration order of the key map: it is that of any sorted listing of the key names |
| PrimaryKeys.ListingIsUnique | models/event/event.go:100-110 | There is only one sorted listing of a set of names, so the text is a function of the key map |
| PrimaryKeys.KeyTextInjective | models/event/event.go:113-120 | For one set of key names, texts are equal if and only if the values are, provided no value but the last column's contains `=` |
| PrimaryKeys.KeyTextExact | models/event/event.go:113-120 | Over all values, the text identifies the key if and only if the key has at most one column |
| PrimaryKeys.Collision | models/event/event.go:116-116 | Any key of two or more columns has two different values with one text |
| PrimaryKeys.KeyTextCollides | models/event/event.go:116-116 | A concrete pair of two-column keys with one text |
| Buffers.TableData.InsertRow | lib/optimization/table_data.go:126-165 | The new state of the buffer for both modes: placeholders resolved from the buffered row of the same key, running size moved by the difference, flags raised |
| Buffers.TableData.CopyFromPrevious | lib/optimization/table_data.go:137-148 | The loop over the cells, in any order, resolves exactly the placeholders that the previous row can resolve |
| Buffers.TableData.ShouldFlush | lib/optimization/table_data.go:275-285 | Asks for a flush exactly when the row or the size limit is exceeded, and names rows before size |
| Buffers.TableData.MergeColumnsFromDestination | lib/optimization/table_data.go:293-342 | Takes kind and backfill state from the destination column of the same lower-cased name, keeps a decimal's precision against an integer, and keeps names, order and flags |
| Buffers.ReconciledIs | lib/optimization/table_data.go:293-342 | Kind and backfill state are those of the destination column of the lower-cased name, but a decimal stays one against an integer; everything else, and a column that the destination lacks, stays |
| Buffers.TableData.ReadOnlyInMemoryCols | lib/optimization/table_data.go:96-107 | A fresh list with the same columns in the same order |
| Buffers.TableData.RememberMessage | models/event/event.go:218-225 | Kafka keeps the latest message per partition, Pub/Sub appends each to those before it |
| LiveSafety.PubSubSavesRemember | models/event/event.go:218-225 | From Pub/Sub every message saved since the buffer was opened is remembered, in the order in which they came |
| LiveSafety.KafkaSavesRemember | models/event/event.go:218-225 | From Kafka the last message of every partition saved since the buffer was opened is remembered |
| Consumer.EverySavedIsAcked | processes/consumer/configs.go:41-57 | Once a commit went through without an error, every Pub/Sub message saved since the buffer was opened is acknowledged |
| Buffers.TableData.constructor | lib/optimization/table_data.go:109-121 | A new buffer is empty, with no flag raised and nothing remembered |
| Compaction.RunningSizeAgrees | lib/optimization/table_data.go:126-154 | After any sequence of inserts, in both modes, the running size equals the size recomputed from all buffered rows |
| Compaction.SizeOfSaved | lib/optimization/table_data.go:126-154 | A buffer that starts empty has the summed size of its rows after any saves |
| Compaction.HistoryKeepsRows | lib/optimization/table_data.go:126-131 | In history mode every saved row is kept, in order, and counted |
| Compaction.ReplicationCountsKeys | lib/optimization/table_data.go:133-154 | In replication mode the row count is that of the different primary-key texts |
| Compaction.FlagsAreExact | lib/optimization/table_data.go:156-164 | containOtherOperations holds exactly when some non-delete was inserted, containsHardDeletes exactly when some delete was and the topic deletes hard |
| Compaction.BufferedAt | lib/optimization/table_data.go:133-154 | The buffered row of a key text is the compaction of exactly that text's changes, in order |
| Compaction.StagingAt | lib/optimization/table_data.go:168-186 | For faithful key texts the staging table holds, under every touched key tuple, the compaction of that key's changes, and nothing else |
| Sizes.GetApproxSize | lib/size/size.go:7-66 | The recursive size over the cases of a value, independent of the order maps are visited in |
| Sizes.SizeIs | lib/size/size.go:7-35 | The size of every leaf in numbers: nothing for NULL, 1 for a boolean, 1, 2, 4, 8 or 16 by width, the length of texts, bytes and printed forms |
| Sizes.ObjectSize | lib/size/size.go:36-41 | An empty object has size 0, and each field adds its own size |
| Sizes.ListSizeIs | lib/size/size.go:42-65 | An empty list has size 0, and each item adds its own size |
| Sizes.TotalSizeInsert | lib/size/size.go:7-66 | Replacing or adding one row moves the total size by exactly the difference of the two rows |
| IdempotentKeys.CompactionIsInvisible | lib/optimization/table_data.go:133-154 | Without an idempotent key, for hard delete on every destination and for Redshift's soft delete, one merge of the buffer gives the same table as merging the changes one by one |
| IdempotentKeys.GatedMergeAt | lib/optimization/table_data.go:133-154 | One merge of the buffer leaves each row as its key's compacted changes say, under the gate if there is an idempotent key |
| IdempotentKeys.MergedOrHeld | lib/destination/dml/merge.go:205-208 | A merge applies a key's batched changes in order, or leaves the row as it was, exactly as the gate decides on the last of them |
| BatchMerge.MergeBufferIsReference | clients/shared/merge.go:121-181 | Whatever was saved, the program chosen for the destination means the reference merge of the staged rows; in particular the DELETE part is there whenever a staged row is marked deleted |
| BatchMerge.DeletesAreFlagged | lib/optimization/table_data.go:161-164 | A buffered row marked deleted on a hard-delete topic implies containsHardDeletes, so no deleted row is left behind |
| BatchMerge.DestinationsAgree | lib/destination/dml/merge.go:68-363 | With hard deletes every destination, MSSQL and Redshift included, makes the same table of the same saved changes: no buffered row has a NULL marker, and the DELETE part is there when needed |
| BatchMerge.BufferedPlaceholdersAreFlagged | lib/optimization/table_data.go:137-148 | After any sequence of saves every buffered placeholder sits in a column flagged as unavailable |
| BatchMerge.PlaceholderSafety | lib/typing/columns/columns.go:257-266 | Whatever was saved and however the destination's columns override the buffered ones, no merge replaces a stored value with the placeholder |
| BatchMerge.ReconcilingKeepsFlags | lib/optimization/table_data.go:293-342 | Taking the columns from the destination keeps every placeholder flag |
| IdempotentKeys.GatedOneByOneAt | lib/destination/dml/merge.go:68-363 | Merging changes one by one leaves each row as its key's changes applied in order, each under the gate if there is an idempotent key |
| Replay.CompactionRefines | lib/optimization/table_data.go:133-154 | Merging the compacted row of a key does to every stored row what applying its changes one at a time does |
| Replay.FollowsIsNecessary | lib/optimization/table_data.go:137-148 | For two changes compaction is invisible on every stored row if and only if a placeholder only follows a live row that carries the column |
| Replay.ReplayAbsorbs | README.md:25 | Replaying a whole sequence of changes gives the same row whether or not any part of it had already been applied |
| RelationalEvents.SchemaEventPayload.GetData | lib/cdc/util/relational_event.go:82-135 | The row of an event: an empty `after` becomes a marked row of the key, otherwise `after` itself is marked, stamped and parsed in place |
| RelationalEvents.DataCells | lib/cdc/util/relational_event.go:82-135 | That row cell by cell: each stamp is its own clock exactly if its setting is on, a delete carries the key values and, if set, the idempotent key with the execution time, a live event the cells of `after`, each as its field's parser reads it or as it was, and nothing else |
| RelationalEvents.ProperExactly | lib/cdc/util/relational_event.go:70-72 | The marker agrees with the operation exactly when `op` is `d` for the events with an empty `after` and no other, given that nothing else is called like the marker |
| RelationalEvents.PlaceholdersComeFromAfter | lib/cdc/util/relational_event.go:84-132 | A placeholder in the row of an event was in its `after`; deletes carry none |
| RelationalEvents.StreamIsChained | lib/cdc/util/relational_event.go:84-103 | If, per key, live events share one column set and none right after a delete carries a placeholder, not even wrapped in an object, then on the rows that Save buffers a placeholder only ever follows a live row with that column: the log is chained, as compaction and replay need it |
| RelationalEvents.NextFollows | models/event/event.go:155-210 | Of two readable events next to each other, the buffered row of the second holds only placeholders that the buffered row of the first can resolve |
| RelationalEvents.StreamIsGood | lib/cdc/util/relational_event.go:82-135 | A well-formed stream whose operations agree with their rows, whose key columns have values, and whose keys keep their partition and print without `=` meets everything the end-to-end theorem asks of a source |
| RelationalEvents.KeysAreGood | models/event/event.go:113-120 | If printed key values agree with the key cells of the rows, contain no `=` but in the last column, and events of one key share a partition, then key texts identify keys throughout the log and every key stays in one partition |
| SoftDelete.SoftBatchingExact | lib/destination/dml/merge.go:245-247 | With soft deletes through one MERGE, batching is invisible if and only if no key absent from the target ends in a delete after some other change |
| SoftDelete.SoftCompactionExact | lib/destination/dml/merge.go:222-258 | Per key, the compacted row merges like the single changes if and only if the row exists, or the last change is no delete, or all are |
| SoftDelete.SoftMergeAt | lib/destination/dml/merge.go:222-258 | What a soft-delete MERGE of the buffer leaves under every key |
| IdempotentKeys.GatedBatchingExact | lib/destination/dml/merge.go:205-208 | With an idempotent key that rises along every key's changes, or with none, one merge of the buffer equals merging the changes one by one if and only if it does not delete a stored row and restore it with a smaller idempotent key |
| IdempotentKeys.GatedCompactionExact | lib/optimization/table_data.go:133-154 | Per key and under the gate, the compacted row merges like the single changes if and only if it ends in a delete, or the row is absent, or the last change is not older than the stored row |
| IdempotentKeys.RisingIsNotGated | lib/destination/dml/merge.go:167-172 | A rising stream is never held back by the gate: applied one by one it is the plain replay |
| Examples.InsertThenDeleteIsLost | lib/destination/dml/merge.go:245-247 | An order of any version, with the rows that GetData makes, inserted and deleted in one batch of soft deletes: no row after the merge of the buffer, a row marked deleted after merging one by one |
| Examples.RestoredRowIsLost | lib/destination/dml/merge.go:198-201 | A stored order, with its key and a stamped delete, deleted and restored with any older version in one batch: the old row after the merge of the buffer, the restored one after merging one by one |
| Examples.PartialDrop | lib/destination/ddl/ddl.go:177-203 | A concrete merge with two columns due whose second DROP fails: cache and table agree before, and afterwards the cache lists a column that is gone |
| Dml.BuildsExactly | lib/destination/dml/merge.go:40-66 | Exactly which arguments each builder accepts: all refuse an incomplete argument with one and the same problem, a complete one is refused by GetStatement only without its key columns or the marker to read deletes from, by GetMSSQLStatement only without that marker, and by GetParts also for other destinations and unset flags |
| Dml.GetParts | lib/destination/dml/merge.go:68-191 | Builds INSERT, UPDATE and, only with hard deletes in the batch, DELETE, or fails for other destinations and missing flags |
| Dml.GetStatement | lib/destination/dml/merge.go:193-289 | Builds the single MERGE of its mode, with the idempotent-key gate, or fails on an invalid argument, a key column that is missing or a missing delete marker |
| Dml.GetMSSQLStatement | lib/destination/dml/merge.go:291-363 | Builds MSSQL's MERGE, which compares the marker explicitly and does not insert rows with a NULL marker |
| Dml.RemoveMarker | lib/destination/dml/merge.go:157-166 | Cuts the delete marker out of the column names once and fails exactly if it is not there |
| MergePrograms.ProgramMeaning | lib/destination/dml/merge.go:68-363 | Every destination's program, hard or soft delete, gated or not, means the same reference merge on every target and staging table with unique non-NULL keys, provided the DELETE part is present when a staged row is marked deleted |
| MergePrograms.PartsAgreeWithMerge | lib/destination/dml/merge.go:151-190 | The parts and the single MERGE yield the same table if and only if the DELETE part is present or no staged row is marked deleted |
| MergePrograms.MSSQLAgreesWithMerge | lib/destination/dml/merge.go:345-362 | MSSQL yields the same table as the others if and only if no unmatched staged row has a NULL marker |
| MergePrograms.HardPartsMeaning | lib/destination/dml/merge.go:151-190 | What the hard-delete parts leave under every key with and without the DELETE part: without it deleted rows stay, or even enter |
| MergePrograms.SoftPartsMeaning | lib/destination/dml/merge.go:106-149 | INSERT then UPDATE of the soft-delete parts means the reference merge that also inserts unmatched deleted rows |
| MergePrograms.SoftMergeClauses | lib/destination/dml/merge.go:222-258 | The clauses of the soft-delete MERGE give, for every row and marker, the reference outcome |
| MergePrograms.HardMergeClauses | lib/destination/dml/merge.go:272-288 | The clauses of the hard-delete MERGE give, for every row and marker, including NULL, the reference outcome |
| MergePrograms.InsertMeaning | lib/destination/dml/merge.go:106-113 | The anti-join on the key inserts exactly the staged rows whose key is not in the target |
| MergePrograms.UpdateMeaning | lib/destination/dml/merge.go:115-149 | The UPDATE changes exactly the matched rows that pass the filter, each with its own staged row |
| MergePrograms.DeleteMeaning | lib/destination/dml/merge.go:175-188 | The DELETE removes exactly the rows whose key is staged as deleted |
| MergePrograms.GatedHolds | lib/destination/dml/merge.go:89-92 | The idempotent-key condition passes exactly when the staged key compares as at least the target's; a NULL on either side blocks |
| MergePrograms.MergeTableKeyed | lib/destination/dml/merge.go:151-190 | A merge keeps every row stored under its own non-NULL primary key |
| MergeMeaning.AssignmentValue | lib/typing/columns/columns.go:273-302 | The assignment of a flagged column takes the target's value exactly where the staged cell is the placeholder, for plain and struct columns in every dialect |
| MergeMeaning.UpdatedIsMerged | lib/typing/columns/columns.go:244-271 | Evaluating the whole assignment list on any matched pair gives the reference merged row |
| MergeMeaning.KeyJoin | lib/destination/dml/merge.go:77-87 | The key equalities hold exactly for equal non-NULL key tuples, by SQL's NULL comparison |
| MergeMeaning.AdditionalEqualitiesHold | lib/destination/dml/merge.go:198-220 | GetStatement's ON clause also asks for the additional equalities, for BigQuery and for no other destination |
| MergeMeaning.PartnerIsOwnKey | lib/destination/dml/merge.go:77-87 | Between keyed tables every target row is joined with the staged row of its own key and no other |
| MergeLaws.ProgramIdempotent | lib/destination/dml/merge.go:68-363 | Merging the same batch twice equals merging it once, for every destination, mode and idempotent key, with placeholders, NULL markers, unmatched deletes and with or without the DELETE part |
| MergeLaws.ProgramKeepsValues | lib/typing/columns/columns.go:257-266 | If staged placeholders are flagged, no program replaces an existing value of the target with the placeholder |
| MergeLaws.IdempotentKeyNeverDecreases | lib/destination/dml/merge.go:167-172 | Over any sequence of merges, each with columns and flags of its own, the idempotent key of a surviving row never goes down |
| MergeLaws.OrderedKeyNeverDecreases | lib/destination/dml/merge.go:167-172 | For numbers that is their order and for texts the lexicographic one, and a key never turns into NULL |
| Sql.AtLeastIs | lib/destination/dml/merge.go:167-172 | What the comparison of the gate decides: the orders of numbers, instants and texts, and nothing for NULL or for different types |
| MergeLaws.LateRowIgnored | lib/destination/dml/merge.go:205-208 | A staged row whose key is not at least the live row's leaves that row unchanged, otherwise the row is merged |
| ColumnLists.Columns.AddColumn | lib/typing/columns/columns.go:154-168 | Appends the column unless its name is empty or taken |
| ColumnLists.Columns.UpsertColumn | lib/typing/columns/columns.go:112-152 | Patches the first column of the name with the given settings, or appends one of unknown kind; an empty name changes nothing |
| ColumnLists.UpsertedIs | lib/typing/columns/columns.go:112-152 | What each setting of an upsert changes on the column that is there, or on a new one of unknown kind, and that no other column changes |
| ColumnLists.Columns.UpdateColumn | lib/typing/columns/columns.go:219-229 | Replaces the first column of the same name and nothing else |
| ColumnLists.Columns.DeleteColumn | lib/typing/columns/columns.go:231-241 | Removes the first column of the name and keeps the order of the others |
| ColumnLists.Columns.GetColumn | lib/typing/columns/columns.go:170-181 | Finds the first column of the name, or none |
| ColumnLists.GetColumnsToUpdate | lib/typing/columns/columns.go:185-203 | The names of the columns of known kind, in order |
| ColumnLists.UpdatableKeepsOrder | lib/typing/columns/columns.go:185-203 | Of any two of these names, the one whose column came first comes first |
| ColumnLists.UpdateQuery | lib/typing/columns/columns.go:244-271 | One assignment per column of known kind, in order, without the delete marker if it is skipped |
| Diffs.Diff | lib/typing/columns/diff.go:38-75 | The two case-folded differences minus the skipped names, in the order of the lists |
| Diffs.SkippedExactly | lib/typing/columns/diff.go:12-36 | A column is skipped if its name contains `__artie`, except that the delete, updated-at, database-updated-at and operation columns each follow their own setting |
| Texts.ToLowerIs | lib/typing/columns/diff.go:77-85 | Lower-casing moves capitals 32 places on and changes nothing else |
| Texts.ContainsIs | lib/typing/columns/diff.go:35-35 | Containing a text is having it at some position |
| Diffs.MissingIn | lib/typing/columns/diff.go:12-75 | A column is reported if and only if it is on its own side, its name is not on the other, and it is not skipped; names stay unique |
| Diffs.MissingKeepsOrder | lib/typing/columns/diff.go:12-75 | Of any two reported columns, the one that came first in its list comes first |
| Diffs.CloneColumns | lib/typing/columns/diff.go:77-85 | A fresh list of the lower-cased columns, first occurrence first |
| Diffs.ClonedFirst | lib/typing/columns/diff.go:77-85 | Of columns whose lower-cased names fall together the first one is there, with its new name and otherwise as it was |
| TableConfigs.DwhTableConfig.AddColumns | lib/destination/types/table_config.go:59-70 | Adds the columns, forgets their scheduled drops and sets createTable |
| TableConfigs.DwhTableConfig.DeleteColumns | lib/destination/types/table_config.go:71-77 | Removes the columns and their scheduled drops |
| TableConfigs.DwhTableConfig.AuditColumnsToDelete | lib/destination/types/table_config.go:82-103 | With drops enabled, keeps exactly the scheduled drops whose column is still missing |
| TableConfigs.DwhTableConfig.ShouldDeleteColumn | lib/destination/types/table_config.go:112-144 | Says yes only for a scheduled column past its time; schedules an unknown one for four hours from now; changes nothing for delete-only batches or with drops disabled |
| SchemaSchedule.MissingIsScheduled | lib/destination/types/table_config.go:136-143 | A missing column of known kind that was not scheduled is, after a merge with other operations and drops enabled whose Add step goes through, scheduled for its clock plus 14,400,000,000,000 nanoseconds, even if the DROP step or staging then fails |
| SchemaSchedule.MissingIsDropped | lib/destination/types/table_config.go:112-144 | Over any run of merges without the column after that one, the first that holds more than deletes, brings a change past that time and goes through drops it from table, cache and schedule; every other merge leaves it cached and scheduled |
| SchemaSchedule.WaitsOrIsDropped | clients/shared/merge.go:23-80 | A scheduled column through one whole merge without it: dropped exactly if the merge is due and goes through, otherwise still scheduled for the same time |
| SchemaSchedule.ReturnedIsForgotten | lib/destination/types/table_config.go:82-103 | A column that the source brings back is no longer scheduled once a merge got past its DDL |
| SchemaSchedule.StagedIsCached | lib/destination/ddl/ddl.go:131-200 | Staging puts every column of the batch that has a kind by then into the cache, and the table is no longer to be created |
| SchemaSchedule.ReloadedIs | clients/shared/table_config.go:128-136 | After a restart the table is to be created exactly if it is not there, and no drop is scheduled |
| TableConfigs.SchedulesAfter | lib/destination/types/table_config.go:54-80 | Adding or dropping columns ends their schedules and no others |
| Ddl.AlterTable | lib/destination/ddl/ddl.go:57-203 | Refuses invalid arguments without an effect, and otherwise drops, creates the temporary table, creates the table or adds columns |
| Ddl.AlterStepIs | lib/destination/ddl/ddl.go:57-79 | Which arguments are refused, and which step each valid combination takes |
| Ddl.KeyClauseFails | lib/destination/ddl/ddl.go:101-126 | After all columns there is one more statement exactly if, outside history mode, one of them is tagged as key |
| Ddl.AlterTableAdd | lib/destination/ddl/ddl.go:81-200 | One ADD per column of known kind, then the key clause in replication mode, up to the first statement that fails; the cache gains the columns only if all went through |
| Ddl.AlterTableCreate | lib/destination/ddl/ddl.go:129-200 | One CREATE with all columns of known kind; an existing table stays as it is; a failure changes nothing |
| Ddl.AlterTableTemporary | lib/destination/ddl/ddl.go:131-200 | Creating the temporary table adds its columns to the cache of the target table, whose columns stay |
| Ddl.AlterTableDrop | lib/destination/ddl/ddl.go:81-203 | Drops exactly the due columns up to the first failure; the cache loses them only if all went through |
| Ddl.DropEach | lib/destination/ddl/ddl.go:139-175 | The statements run in order and stop at the first column that fails or is not there |
| SchemaRuns.Merge | clients/shared/merge.go:23-80 | Diff, add, drop, audit, reconcile and stage in this order; a DDL error ends the merge with the state it had reached |
| SchemaRuns.ColumnDropSafety | lib/destination/types/table_config.go:112-144 | Over every run of merges and restarts a column is dropped only if an earlier merge of the same process scheduled it, it was missing in every merge since that got past its DDL, drops are enabled, both batches held other operations, and the change time is more than four hours after the scheduling merge's clock |
| SchemaRuns.NothingDropsWhenDisabled | lib/destination/types/table_config.go:124-126 | With drops disabled no step of any run drops a column |
| SchemaRuns.DroppedWasScheduled | clients/shared/merge.go:55-68 | A dropped column is missing from the source and was already scheduled and due before this merge |
| SchemaRuns.ScheduleAfter | clients/shared/merge.go:55-72 | A scheduled drop after a merge is an old one whose column is still missing, or one this merge made for its own clock plus four hours |
| SchemaConvergence.AddConverges | lib/destination/ddl/ddl.go:94-126 | After a successful Add step a second Diff reports as missing in the target only the columns of unknown kind |
| SchemaConvergence.RetriesConverge | lib/destination/ddl/ddl.go:127-200 | However many merges failed while creating the table or part way through adding columns, the merge whose Add step goes through ends exactly as it would have without them, and it goes through exactly when it would have |
| SchemaAgreement.RunAgreement | lib/destination/ddl/ddl.go:127-203 | After any run of merges and restarts every cached column, other than Artie's own, is a column of the destination if and only if every merge since the last restart dropped cleanly and, without a restart, that held at the start: creating, altering, staging and their failures never break it, and within one process nothing restores it |
| SchemaAgreement.ReloadAgrees | clients/shared/table_config.go:44-136 | A restart, after which the columns are read from the destination, makes cache and table agree whatever went wrong before |
| SchemaAgreement.MergeAgreement | clients/shared/merge.go:23-80 | The same for one whole merge, through diff, CREATE or ALTER, drops, audit and the staging that adds in-memory columns to the cache |
| SchemaAgreement.DropsCleanlyIff | lib/destination/ddl/ddl.go:177-203 | Where cache and table agree and only source columns are due, a merge drops cleanly if and only if no DROP but the first is made to fail |
| SchemaAgreement.DropAgreement | lib/destination/ddl/ddl.go:177-203 | One DROP step keeps the agreement if and only if no statement fails or no cached column before the first failing one is other than Artie's |
| SchemaAgreement.FirstFailureIs | lib/destination/ddl/ddl.go:177-195 | The first failing DROP is the first that is made to fail or whose column the table lacks |
| SchemaAgreement.AddNames | lib/destination/ddl/ddl.go:127-200 | An Add step that goes through adds the same names to cache and table, by ALTER or by CREATE; one that fails leaves the cache and adds only some of them to the table |
| SchemaAgreement.StagedNames | lib/destination/ddl/ddl.go:131-200 | The columns that staging adds to the cache are all in it already, besides Artie's own |
| SchemaAgreement.StuckStays | lib/destination/ddl/ddl.go:177-203 | A column that the cache lists, the table lacks and the schedule holds stays so through any merge whose source lacks it; that merge fails if it holds more than deletes and its change is past the scheduled time |
| SchemaAgreement.PartialDropSticks | lib/destination/ddl/ddl.go:177-203 | After a merge that dropped a column and then failed, and any run of merges of the same process whose sources lack the column, the cache still lists it and the table lacks it, and the next merge without it that holds more than deletes and is past the scheduled time fails |
| DecimalCodec.EncodeInteger | lib/debezium/decimal.go:19-47 | The bytes of any integer: big-endian, complemented for negatives, with a sign byte where the top bit would lie |
| DecimalCodec.DecodeInteger | lib/debezium/decimal.go:52-68 | The two's-complement value of every byte string; a negative input is left inverted in the caller's array |
| DecimalCodec.NonNegativeRoundTrip | lib/debezium/decimal.go:11-68 | Decoding an encoded non-negative integer gives it back |
| DecimalCodec.NegativeRoundTripExact | lib/debezium/decimal.go:31-47 | A negative integer comes back if and only if its absolute value is at most 255 * 256^(L-1), L its byte length |
| DecimalCodec.FenceExample | lib/debezium/decimal.go:36-36 | -65281 encodes as the single byte 255 and decodes as -1 |
| DecimalCodec.SecondDecodeDiffers | lib/debezium/decimal.go:58-60 | Decoding the same slice a second time never gives the negative number again but its bitwise complement |
| PartitionKeys.ParsePartitionKeyString | lib/debezium/keys.go:31-65 | Nothing but the text between prefix and suffix, split at commas and at the first `=` of each part, stripped of the routing key and normalised; every malformed key is refused |
| PartitionKeys.SanitizePayload | lib/debezium/keys.go:98-105 | Normalises the names of all entries in whatever order the map yields them |
| PartitionKeys.ParseInvertsPrint | lib/debezium/keys.go:31-65 | Parsing the printed form of any non-empty list of distinct normalised keys gives the map back; values may contain `=` and `}` |
| PartitionKeys.ParseNormalisesNames | lib/debezium/keys.go:31-65 | Names that are not normalised come out normalised, each with its own value as long as no two fall together, and no other names come out |
| PartitionKeys.AcceptedExactly | lib/debezium/keys.go:31-65 | A key is accepted if and only if it is `Struct{...}` around something, each comma-separated part of which contains `=` |
| PartitionKeys.RoutingKeyIsLeftOut | lib/debezium/keys.go:58-62 | A leading pair that names the physical table is left out of the result |
| Jitter.SafePowerOfTwo | lib/jitter/sleep.go:12-19 | 2^n in 64 bits, 0 below zero and the largest int64 above 62 |
| Jitter.UpperBoundExact | lib/jitter/sleep.go:22-32 | For a positive base the bound is the mathematical min(maxMs, baseMs * 2^attempts) |
| Jitter.UpperBoundElsewhere | lib/jitter/sleep.go:22-32 | Without a positive maximum the bound is 0, and for a negative base it is the maximum, but for the least 64-bit integer with a negative number of attempts |
| Jitter.ProductFits | lib/jitter/sleep.go:28-31 | The product is only computed where it fits into an int64 |
| Jitter.UpperBoundMonotone | lib/jitter/sleep.go:22-32 | More attempts never lower the bound, and it stays between 0 and maxMs |

## Left out

- Replication.ReplicatedExactlyOnce: one table, Kafka messages, replication mode, and a fixed set of column names with the kinds of the destination. Columns that appear in mid-run, and events without a column list whose deletes carry the key only, are covered by Replication.PlaceholdersStayFlagged, LiveSafety, SchemaConvergence and SchemaAgreement only: a buffer that lacks a column leaves the stored cells of that column, where the one-by-one reference over all columns would write NULL, and that the two tables agree again once a replay has caught up is not proved.
- Replication.RunSimulated: the same fixed columns.
- ExactlyOnce.ExactlyOnce: the same.
- ExactlyOnce.ReplayRestores: the same.
- IdempotentKeys.GatedBatchingExact: for streams whose idempotent key rises. On others compaction keeps the last change of a key, while merging one by one would skip a late one.
- IdempotentKeys.GatedCompactionExact: the same.
- IdempotentKeys.CompactionIsInvisible: the same fixed columns.
- BatchMerge.BufferedPlaceholdersAreFlagged: for saves within fixed columns, as the batch theorems use it; Replication.PlaceholdersStayFlagged is the general form.
- BatchMerge.PlaceholderSafety: the same fixed columns; Replication.FlushKeepsValues is the general form. Both speak of rows that are in the target; an inserted row may carry a placeholder that the stream never resolved.
- Events.SaveKeepsPlaceholdersFlagged: excludes a column with an empty name, because such a column is never added to the list.
- MergeLaws.LateRowIgnored: only for rows not marked deleted under hard delete, because the code does not gate deletes.
- MergePrograms.ProgramMeaning: no additional equality strings; the builder of the statement does append BigQuery's, but their meaning is arbitrary SQL.
- Consumer.SaveMessage: events of a topic in replication mode, from Kafka; Events.Event.Save covers history mode and Pub/Sub as well.
- Consumer.Merge: of the schema steps only the reconciliation of column kinds is in this method; staging files, backfill and temporary-table cleanup are not; SchemaRuns.Merge models the schema steps up to staging. Statement execution is atomic: it happens as a whole or fails without effect.
- Consumer.FlushTable: one table at a time, without the cooldown of time-based flushes and the sleep after a failure; the history-mode append is not modelled.
- Consumer.Process: topic lookup and decoding of the message are left out, and so are its log tags.
- Buffers.TableData.MergeColumnsFromDestination: string precision, time layouts and decimal details are not copied, because kinds carry none here.
- Buffers.TableData.InsertRow: the running size is an unbounded integer.
- RelationalEvents.SchemaEventPayload.GetData: parsing of a field is an input; GetColumns and the history-mode rewriting of the row in ToMemoryEvent are left out.
- RelationalEvents.DataCells: a schema names each of its fields once.
- PartitionKeys.ParsePartitionKeyString: the JSON form of partition keys is left out.
- DecimalCodec.EncodeInteger: the scaling through big floats before the integer is reached is left out, and so is its inverse.
- Jitter.UpperBoundExact: the random draw below the bound is left out.
- Ddl.AlterTable: which statement fails is an input, and so is whether the error means that a column already exists (such a statement counts as gone through); the types of columns and the wording of statements are left out. A statement happens as a whole or not at all.
- SchemaRuns.Merge: the clock of each scheduled column is an input.
- SchemaAgreement.RunAgreement: a table whose columns are read after a restart has at least one column if it is there, because the code takes a table without columns for a missing one.
- SQL text, quoting and escaping of names: statements are modelled by their meaning.
- Lower-casing covers ASCII letters only; a `char` stands for a byte.
- Kinds of columns carry no precision or layout; struct, decimal and integer kinds are kept apart because the code tells them apart.
- Goroutines and locks: a save and the phases of a flush are each one step, as the per-table mutex makes them.
- The map of tables (`DatabaseData`), BigQuery's batched append, retry wrappers and sweeping of temporary tables.
- Value casting per destination, type tables, JSON, BSON and geometry decoding, configuration, metrics and logging.
