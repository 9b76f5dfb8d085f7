# Transaction manager of a relational storage engine

This project models the transaction manager of the engine's transactional
write path, `src/transaction/transaction_manager.cpp`, and proves
properties of the model.

- **Transaction lifecycle.** `begin` hands out transaction ids from a counter
  and registers each transaction in the id-to-transaction table. `commit`
  discards the write set (the undo log). `abort` inverts the write set. Both
  then release every lock in the lock set, flush the log and set the final
  state.
- **Undo-log replay.** `abort` walks the write set from the most recent
  record to the oldest. Each record goes to one of three rollback routines:
  - `rollback_insert` deletes the inserted row;
  - `rollback_delete` re-inserts the saved image;
  - `rollback_update` writes the saved image back.

  Each routine updates the record file and every secondary index of the
  table together, as `UndoLog.TableDeleteEffect`, `UndoLog.TableInsertEffect`
  and `UndoLog.TableUpdateEffect` state.
- **Composite index key packing.** Each rollback routine builds index keys
  by copying the byte range of every index column out of the raw record, in
  column order, into one buffer of the index's total column length.

The project has four modules:

- `KeyPack` (`key_pack.dfy`):
  - `PackKey` is the specification of a key;
  - `CopyKey` is the `curlen`/`memcpy` loop over a byte array, proved to
    compute `PackKey`.
- `Storage` (`storage.dfy`) holds the collaborators the rollback routines drive:
  - each table has its metadata, its record file and its secondary indexes;
  - a record file is a map from record id to bytes, plus a count of the
    inserts and deletes made so far, which stands for the state of its slot
    allocator;
  - the slot allocator is an `Allocator`, a function from a file state to a
    record id. The model only assumes that the id it returns is not in use;
  - each secondary index is a map from packed key to record id;
  - the `SmManager` class holds all tables and has one method per call made
    on a file handle or an index handle.
- `UndoLog` (`undo.dfy`) holds the value-level specification:
  - the write record;
  - the three inversions as functions on the storage state;
  - `Undo`, which dispatches on the write type;
  - `Rollback`, which replays a whole write set;
  - lemmas about the effect, validity and round trips of these.
- `TxnManager` (`transaction_manager.dfy`) holds the classes:
  - `Transaction`, `LockManager`, `LogManager` and `TransactionManager`;
  - `EventLog`, a ghost record of the calls made into them;
  - `Begin`, `Commit` and `Abort` with their loops;
  - the three rollback routines as methods. Each is proved to compute exactly
    the matching `UndoLog` function.

Model decisions:

- **Faults.** The storage layer throws C++ exceptions. Looking up a missing
  table throws, and so does reading a missing record. These are modelled as
  `Error` values.
  - In the model a rollback routine that faults changes nothing: the table
    and record lookups come before the first mutation, and the `j`-th index
    of a table always exists. In the source, `rollback_insert` (line 124)
    and `rollback_update` (line 181) look up their index handles before
    they change anything, but `rollback_delete` looks up each index handle
    (line 157) after `insert_record` (line 152). A missing index handle
    there would throw with the row already inserted; the model has no such
    fault.
  - `Abort` then stops with the faulting record still on the write set. The
    locks, the log and the state are left as they were, as when the
    exception leaves `abort`.
- **Event log.** `LockManager.Unlock`, `LogManager.FlushLogToDisk` and
  `Transaction.SetState` each append their own call to one shared ghost
  `EventLog`. The transaction manager never writes to that log. So "every lock
  released once, then flush, then state" is a statement about the calls the
  manager actually makes. `Commit` and `Abort` require the log manager to
  record into the same log as the lock manager.
- **No state guard.** `commit` and `abort` do not check the transaction's
  state before setting it (lines 68, 112). The model runs the full protocol
  on every non-null transaction and claims no idempotence.
- **Abort flushes.** `abort` flushes the log (line 110) before setting the
  state, as `commit` does (line 66), and so does the model.
- **Re-inserted rows.** `rollback_delete` stores the row under whatever id
  `insert_record` returns (line 152), and that may or may not be the freed
  slot. `UndoLog.UpdateThenDeleteRolledBack` covers a row that one
  transaction updated and then deleted, and states both outcomes:
  - when the allocator hands back the old id, the whole rollback succeeds;
  - otherwise the older update record, which names the old id, faults with
    "record not found", and the rollback stops there.

## Model

| member | source | states |
|---|---|---|
| KeyPack.Column | src/transaction/transaction_manager.cpp:135 | the bytes one `memcpy` copies for a column are exactly the column's `len` bytes |
| KeyPack.PackKey | src/transaction/transaction_manager.cpp:131-138 | the key of an index has as many bytes as its columns together, which is `col_tot_len` when the index is well formed |
| KeyPack.PackCols | src/transaction/transaction_manager.cpp:133-138 | the packed key of a column list is as long as the sum of the column lengths |
| KeyPack.ColumnIsSlice | src/transaction/transaction_manager.cpp:135 | a column that lies inside the record contributes exactly its byte range `rec[offset, offset+len)` |
| KeyPack.PackColsAppend | src/transaction/transaction_manager.cpp:134-138 | packing the columns `a + b` gives the key of `a` followed by the key of `b`, and the lengths add |
| KeyPack.TotalLenPrefix | src/transaction/transaction_manager.cpp:136 | the running length after any prefix of the columns never exceeds the total column length |
| KeyPack.PackKeyAt | src/transaction/transaction_manager.cpp:131-138 | byte `i` of column `k` of the record sits at position (length of the columns before `k`) + `i` of the key |
| KeyPack.PackKeyDeterministic | src/transaction/transaction_manager.cpp:158-163 | two records that agree on every byte of every index column give byte-identical keys |
| KeyPack.ContiguousKeyIsPrefix | src/transaction/transaction_manager.cpp:131-138 | when the columns tile the record back to back from byte 0, the key is the record's prefix of total-column-length bytes; no separators and no padding |
| KeyPack.TwoColumnKey | src/transaction/transaction_manager.cpp:131-138 | for a 4-byte column at 0 and an 8-byte column at 4, the key of a 12-byte record is the whole record |
| KeyPack.PackColsSnoc | src/transaction/transaction_manager.cpp:134-136 | one more loop iteration appends the next column's bytes and adds its length |
| KeyPack.ColumnCopied | src/transaction/transaction_manager.cpp:135-136 | once a column's bytes are copied at `curlen`, the filled prefix is the old prefix followed by exactly that column |
| KeyPack.Memcpy | src/transaction/transaction_manager.cpp:135 | `len` bytes of the source from `from` land at `at`; all other buffer bytes are unchanged |
| KeyPack.CopyColumn | src/transaction/transaction_manager.cpp:135-136 | the buffer's prefix up to `curlen + len` is the old prefix followed by the column's bytes |
| KeyPack.CopyKey | src/transaction/transaction_manager.cpp:131-138 | the loop's buffer holds exactly `PackKey(idx, rec)`, of length `col_tot_len`, when every column lies inside the record and `col_tot_len` is the sum of the column lengths |
| Storage.FileInsert | src/transaction/transaction_manager.cpp:152 | `insert_record` stores the image under the given id, keeps every other row, keeps the file valid and advances the allocator state |
| Storage.FileDelete | src/transaction/transaction_manager.cpp:143 | `delete_record` removes exactly that id and keeps every other row |
| Storage.FileUpdate | src/transaction/transaction_manager.cpp:204 | `update_record` keeps the set of ids and gives that id the new bytes; every other row is unchanged |
| Storage.EntryInserted | src/transaction/transaction_manager.cpp:164 | `insert_entry` changes only the index contents of the table and keeps the table valid |
| Storage.EntryDeleted | src/transaction/transaction_manager.cpp:140 | `delete_entry` changes only the index contents of the table and keeps the table valid |
| Storage.SmManager.GetRecord | src/transaction/transaction_manager.cpp:127 | `get_record` returns the stored bytes, of the table's record length, exactly when the record exists |
| Storage.SmManager.InsertRecord | src/transaction/transaction_manager.cpp:152 | returns the id the allocator hands out, which is not in use, and the table's file becomes `FileInsert` of the old one at that id |
| Storage.SmManager.DeleteRecord | src/transaction/transaction_manager.cpp:143 | the table's file becomes `FileDelete` of the old one; nothing else changes |
| Storage.SmManager.UpdateRecord | src/transaction/transaction_manager.cpp:204 | the table's file becomes `FileUpdate` of the old one; nothing else changes |
| Storage.SmManager.InsertEntry | src/transaction/transaction_manager.cpp:164 | the `j`-th index of the table maps the key to the id; nothing else changes |
| Storage.SmManager.DeleteEntry | src/transaction/transaction_manager.cpp:140 | the key leaves the `j`-th index of the table; nothing else changes |
| UndoLog.KeysDeletedStep | src/transaction/transaction_manager.cpp:128-141 | one iteration of the index loop of `rollback_insert` extends the index-by-index deletion by index `j` |
| UndoLog.KeysInsertedStep | src/transaction/transaction_manager.cpp:155-165 | one iteration of the index loop of `rollback_delete` extends the index-by-index insertion by index `j` |
| UndoLog.KeysReplacedStep | src/transaction/transaction_manager.cpp:185-202 | one iteration of the index loop of `rollback_update` extends the index-by-index replacement by index `j` |
| UndoLog.TableDelete | src/transaction/transaction_manager.cpp:115-144 | the table after `rollback_insert`; its own contract keeps the metadata, and `TableDeleteEffect` states the full effect |
| UndoLog.TableInsert | src/transaction/transaction_manager.cpp:146-166 | the table after `rollback_delete`, with the row under the given id; its own contract keeps the metadata, and `TableInsertEffect` states the full effect |
| UndoLog.TableUpdate | src/transaction/transaction_manager.cpp:168-205 | the table after `rollback_update`; its own contract keeps the metadata, and `TableUpdateEffect` states the full effect |
| UndoLog.TableDeleteKeepsValid | src/transaction/transaction_manager.cpp:115-144 | removing an existing row keeps a valid table valid |
| UndoLog.TableInsertKeepsValid | src/transaction/transaction_manager.cpp:146-166 | re-inserting an image of the table's record length keeps a valid table valid |
| UndoLog.TableUpdateKeepsValid | src/transaction/transaction_manager.cpp:168-205 | writing back an image of the table's record length keeps a valid table valid |
| UndoLog.TableDeleteEffect | src/transaction/transaction_manager.cpp:127-143 | `rollback_insert`: the id is gone, every other row is untouched, and each index lost exactly the key packed from the current image |
| UndoLog.TableInsertEffect | src/transaction/transaction_manager.cpp:152-165 | `rollback_delete` with an unused id: the image is stored under that id, every other row is untouched, and each index maps the image's key to the new id and keeps its other entries |
| UndoLog.TableUpdateEffect | src/transaction/transaction_manager.cpp:176-204 | `rollback_update`: the id is kept and not reallocated, it holds the old image, and each index had the current image's key replaced by the old image's key, mapped to the same id; nothing else changes |
| UndoLog.DeleteRow | src/transaction/transaction_manager.cpp:115-144 | faults exactly when the table or the row is missing, with that error; otherwise only that table changes, by `TableDelete` |
| UndoLog.InsertRow | src/transaction/transaction_manager.cpp:146-166 | faults exactly when the table is missing; otherwise only that table changes, by `TableInsert` at the id the allocator hands out |
| UndoLog.UpdateRow | src/transaction/transaction_manager.cpp:168-205 | faults exactly when the table or the row is missing, with that error; otherwise only that table changes, by `TableUpdate` |
| UndoLog.Undo | src/transaction/transaction_manager.cpp:88-98 | faults exactly when the table is missing or, for an insert or update record, the row is gone; otherwise it keeps the set of tables and every other table, and never changes table metadata |
| UndoLog.Rollback | src/transaction/transaction_manager.cpp:84-100 | what is left pending is a prefix of the write set; it is empty exactly when there was no fault; after a fault, the last pending record is one whose inversion fails with that fault |
| UndoLog.RollbackStep | src/transaction/transaction_manager.cpp:85-99 | when the most recent record is inverted, the rest of the rollback runs on the older records from the new state |
| UndoLog.RollbackStops | src/transaction/transaction_manager.cpp:86-99 | when the most recent record cannot be inverted, the rollback stops there, with nothing changed and that record still pending |
| UndoLog.RollbackSplit | src/transaction/transaction_manager.cpp:84-100 | rolling back `older + newer` first rolls back all of `newer`, and goes on with `older` only when that succeeds (strict LIFO) |
| UndoLog.UndoKeepsValid | src/transaction/transaction_manager.cpp:88-98 | inverting a record whose saved image has the table's record length keeps every table valid |
| UndoLog.UndoKeepsImagesFit | src/transaction/transaction_manager.cpp:84-100 | after the most recent record is inverted, the saved images of the older records still fit their tables |
| UndoLog.RollbackKeepsValid | src/transaction/transaction_manager.cpp:84-100 | a rollback ends in a valid storage with the same tables and metadata, where the pending records' images still fit |
| UndoLog.InsertUndone | src/transaction/transaction_manager.cpp:115-144 | when the row went in under an unused id and its keys were absent before, inserting and then undoing gives back exactly the rows and index entries |
| UndoLog.UpdateUndone | src/transaction/transaction_manager.cpp:168-205 | an update followed by undoing it restores the old image at the original id, and the whole table, when the indexes were consistent before |
| UndoLog.DeleteUndone | src/transaction/transaction_manager.cpp:146-166 | a delete followed by undoing it brings the image back under whatever unused id the allocator hands out, possibly the old one; the indexes map its keys to that id; everything else is as before the delete; when the id is the old one, the rows and index entries are exactly those before the delete |
| UndoLog.InsertThenUpdateUndone | src/transaction/transaction_manager.cpp:168-205 | for a row inserted under an unused id and then updated, undoing the update gives back the table after the insert, and undoing the insert then gives back the original rows and index entries |
| UndoLog.RollbackTwo | src/transaction/transaction_manager.cpp:84-100 | a two-record write set whose inversions succeed is rolled back newer record first, ending with nothing pending |
| UndoLog.InsertThenUpdateRolledBack | src/transaction/transaction_manager.cpp:84-100 | for an insert then an update of one row, undoing the update alone gives back the state after the insert, and the full rollback gives back the original rows and index entries with no fault |
| UndoLog.UpdateThenDeleteRolledBack | src/transaction/transaction_manager.cpp:146-205 | after an update and then a delete of one row, the rollback re-inserts the row under the allocator's id; when that is the old id, it then undoes the update with nothing pending; otherwise it stops on the update record with "record not found" |
| TxnManager.ReleasedSnoc | src/transaction/transaction_manager.cpp:60-62 | releasing one more lock that was not released before extends a release in which each lock appears exactly once |
| TxnManager.LocksOfSnoc | src/transaction/transaction_manager.cpp:61 | one more `unlock` removes exactly that lock of the transaction from what the lock manager still holds |
| TxnManager.UnlockingStep | src/transaction/transaction_manager.cpp:60-62 | after one more `unlock` of a record not unlocked before, the held locks lose exactly that lock and the recorded calls gain exactly that call |
| TxnManager.LockManager.Unlock | src/transaction/transaction_manager.cpp:61 | the transaction no longer holds a lock on the record, and the call is recorded in the event log |
| TxnManager.LogManager.FlushLogToDisk | src/transaction/transaction_manager.cpp:66 | one more flush is performed, and it is recorded in the event log |
| TxnManager.Transaction.constructor | src/transaction/transaction_manager.cpp:30 | a new transaction has the given id, an empty write set and an empty lock set |
| TxnManager.Transaction.SetState | src/transaction/transaction_manager.cpp:68 | the state becomes the given one, nothing else of the transaction changes, and the change is recorded in the event log |
| TxnManager.TransactionManager.Begin | src/transaction/transaction_manager.cpp:23-38 | with null, a fresh transaction gets the old `next_txn_id_` and `next_timestamp_` as start time, and the counter rises by exactly one; otherwise the given transaction is returned unchanged; either way the table maps its id to it and no other entry changes |
| TxnManager.TransactionManager.UnlockAll | src/transaction/transaction_manager.cpp:58-63 | the lock manager's own log of `unlock` calls grows by exactly one call per record of the lock set, and the lock manager drops exactly those locks |
| TxnManager.TransactionManager.ReleaseLocks | src/transaction/transaction_manager.cpp:58-64 | the event log grows by one `unlock` call per lock of the lock set, then the lock set is cleared; the write set, state and start timestamp are unchanged |
| TxnManager.TransactionManager.Finish | src/transaction/transaction_manager.cpp:66-68 | the event log grows by the flush and then the state change, in that order; the write set, lock set and start timestamp are unchanged |
| TxnManager.TransactionManager.Commit | src/transaction/transaction_manager.cpp:45-69 | with null, nothing changes; otherwise the write set and lock set end empty, each entry lock is unlocked exactly once, then the log is flushed, then the state becomes committed; the start timestamp is unchanged |
| TxnManager.TransactionManager.Abort | src/transaction/transaction_manager.cpp:76-113 | with null, nothing changes; otherwise the storage and the write set end as `Rollback` of the old ones says; without a fault, every entry lock is unlocked once, then the log is flushed, then the state becomes aborted; after a fault, the locks, the log and the state are untouched; the start timestamp is never changed |
| TxnManager.TransactionManager.RollbackWriteSet | src/transaction/transaction_manager.cpp:84-100 | the loop that pops the write set from the back computes exactly `Rollback` of the old storage and write set; the lock set, state and start timestamp are unchanged |
| TxnManager.TransactionManager.UndoWrite | src/transaction/transaction_manager.cpp:88-98 | dispatching on the write type computes exactly `Undo`; after a fault nothing changes |
| TxnManager.TransactionManager.RollbackInsert | src/transaction/transaction_manager.cpp:115-144 | the key-packing and index loop, then the record delete, computes exactly `DeleteRow`; after a fault nothing changes |
| TxnManager.TransactionManager.RollbackDelete | src/transaction/transaction_manager.cpp:146-166 | the record insert, then the key-packing and index loop with the new id, computes exactly `InsertRow`; after a fault nothing changes |
| TxnManager.TransactionManager.RollbackUpdate | src/transaction/transaction_manager.cpp:168-205 | the per-index delete of the current key and insert of the old key, then the record rewrite, computes exactly `UpdateRow`; after a fault nothing changes |

## Left out

- The `latch_` scoped locks (lines 26, 48, 79) are left out. Every method is treated as atomic; concurrency is not modelled.
- The heap-allocated key buffers that are never freed are left out, and so is the extra trailing `'\0'` byte of the buffers in `rollback_insert` and `rollback_update` (lines 131-137, 188-198). Keys are values of length `col_tot_len`.
- The per-record `Context` (line 87) is left out. It hands the lock manager, the log manager and the transaction to the storage calls of the rollback routines (lines 127, 140, 143, 152, 164, 176, 200, 201, 204). Any lock or log record those calls take is not modelled: the lock set that `abort` releases (lines 102-108) is taken to be the one the transaction had on entry, and the rollbacks write nothing to the log.
- The key-packing loops run up to `index_meta.col_num` (lines 134, 160, 193). The model has no `col_num` and loops over the index's column list; the two are taken to be equal.
- `begin` does not use its `log_manager` argument, so `Begin` has no such parameter.
- `txn_map` is a static member in the source (line 15). It is modelled as a field of the single `TransactionManager`.
- The inside of the lock manager is abstracted to a set of held locks. Lock-set elements are record ids: the lock-data-id type is not part of this model.
- The log manager is abstracted to a flush counter. Disk I/O is not modelled.
- The record file handle, the B+ tree index handle and the name and handle lookups of the system manager are not part of this model. Files and indexes are maps.
  - Index handle lookup (lines 122-125, 157, 179-182) is "the `j`-th index of the table".
  - `get_table` and `fhs_.at` failing are both modelled as `TableNotFound`.
- Storage.SmManager.InsertRecord: the free-slot search of the record file (page free list and slot bitmaps) is not part of this model. The allocator is any function from the file state to an id not in use. The file state counts inserts and deletes, so the same live records at two points of one run can still get different ids. Every result holds for every such allocator.
- Storage.SmManager.InsertEntry: an insert overwrites any entry already under that key. How the B+ tree treats duplicate keys is not part of this model.
- KeyPack.Column: a column that does not lie inside the record reads as zero bytes; the source reads past the record buffer. `CopyKey` and every key lemma that talks about record bytes require the columns to fit, so no result depends on this choice.
- TxnManager.TransactionManager.RollbackUpdate: `rollback_update` packs the old and the current key together in one loop (lines 193-199). The model packs them with two `CopyKey` calls. This is the same copy, column by column.
- TxnManager.Transaction.constructor: the transaction class is not part of this model. Its start state and start timestamp (default state, timestamp 0) are assumed, and `Begin` overwrites the timestamp.
- TxnManager.TransactionManager.Abort: faults are the storage layer's exceptions, returned as a value. After a fault the model promises no more than the source does: the failing record stays in the write set and nothing after it runs.
- TxnManager.TransactionManager.Abort: it requires every saved image in the write set to have its table's record length, and `RollbackDelete` and `RollbackUpdate` require the same of their image. The forward operations that fill the write set are not part of this model; they save whole records of the table.
- `src/execution/executor_delete.h` is not part of this model. Its `Next` is an empty placeholder with no behaviour.
