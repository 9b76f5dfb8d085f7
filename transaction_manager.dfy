/**
 The transaction manager: it hands out transaction ids and registers
 transactions, and it ends them. Commit discards the write set; abort
 replays the write set backwards through the three rollback routines. Both
 then release every lock the transaction holds, flush the log and set the
 final state.
 */
module TxnManager {
  import opened KeyPack
  import opened Storage
  import opened UndoLog

  type TxnId = nat

  datatype TransactionState = Default | Growing | Shrinking | Committed | Aborted

  /** Observable calls into the collaborators, in the order they are made. */
  datatype Event = Unlocked(txn: TxnId, rid: Rid) | Flushed | StateSet(txn: TxnId, state: TransactionState)

  /**
   The calls made into the lock manager, the log manager and the
   transactions' state, recorded by those objects themselves as they are
   called. It exists only for the proofs.
   */
  class EventLog {
    ghost var evs: seq<Event>

    constructor ()
      ensures evs == []
    {
      evs := [];
    }
  }

  /** A lock held by a transaction on a record. */
  datatype LockKey = LockKey(txn: TxnId, rid: Rid)

  /** The lock table, abstracted to the set of granted locks. */
  class LockManager {
    var held: set<LockKey>
    /** Where every `unlock` call is recorded. */
    const events: EventLog

    constructor (events: EventLog)
      ensures held == {} && this.events == events
    {
      held := {};
      this.events := events;
    }

    /** `unlock`: the transaction no longer holds a lock on the record. */
    method Unlock(txn: Transaction, rid: Rid)
      modifies this, events
      ensures held == old(held) - {LockKey(txn.id, rid)}
      ensures events.evs == old(events.evs) + [Unlocked(txn.id, rid)]
    {
      held := held - {LockKey(txn.id, rid)};
      events.evs := events.evs + [Unlocked(txn.id, rid)];
    }
  }

  /** The log manager, abstracted to the number of flushes it has performed. */
  class LogManager {
    var flushCount: nat
    /** Where every flush is recorded. */
    const events: EventLog

    constructor (events: EventLog)
      ensures flushCount == 0 && this.events == events
    {
      flushCount := 0;
      this.events := events;
    }

    method FlushLogToDisk()
      modifies this, events
      ensures flushCount == old(flushCount) + 1
      ensures events.evs == old(events.evs) + [Flushed]
    {
      flushCount := flushCount + 1;
      events.evs := events.evs + [Flushed];
    }
  }

  /** A transaction: its id, start timestamp, state, write set (oldest first) and lock set. */
  class Transaction {
    const id: TxnId
    var startTs: nat
    var state: TransactionState
    var writeSet: seq<WriteRecord>
    var lockSet: set<Rid>

    constructor (id: TxnId)
      ensures this.id == id && startTs == 0 && state == Default && writeSet == [] && lockSet == {}
    {
      this.id := id;
      startTs := 0;
      state := Default;
      writeSet := [];
      lockSet := {};
    }

    /** `set_state`: the state change is recorded in `events`. */
    method SetState(s: TransactionState, ghost events: EventLog)
      modifies this, events
      ensures state == s && startTs == old(startTs) && writeSet == old(writeSet) && lockSet == old(lockSet)
      ensures events.evs == old(events.evs) + [StateSet(id, s)]
    {
      state := s;
      events.evs := events.evs + [StateSet(id, s)];
    }
  }

  /** The locks on the records `rids` held by transaction `txn`. */
  ghost function LocksOf(txn: TxnId, rids: set<Rid>): set<LockKey>
  {
    set r | r in rids :: LockKey(txn, r)
  }

  /** `evs` unlocks each record of `rids` for `txn` exactly once, and does nothing else. */
  ghost predicate Released(evs: seq<Event>, txn: TxnId, rids: set<Rid>)
  {
    && |evs| == |rids|
    && (forall i :: 0 <= i < |evs| ==> evs[i].Unlocked? && evs[i].txn == txn && evs[i].rid in rids)
    && (forall r :: r in rids ==> Unlocked(txn, r) in evs)
    && (forall i, k :: 0 <= i < k < |evs| ==> evs[i] != evs[k])
  }

  /** Unlocking one more record, not unlocked before, extends a release. */
  lemma {:induction false} ReleasedSnoc(evs: seq<Event>, txn: TxnId, rids: set<Rid>, r: Rid)
    requires Released(evs, txn, rids) && r !in rids
    ensures Released(evs + [Unlocked(txn, r)], txn, rids + {r})
  {
    var evs' := evs + [Unlocked(txn, r)];
    forall i, k | 0 <= i < k < |evs'| ensures evs'[i] != evs'[k] {
      if k == |evs| {
        assert evs'[i] == evs[i];
      }
    }
  }

  /** Releasing one more lock of `txn` removes it from what is left of `held0`. */
  lemma {:induction false} LocksOfSnoc(held0: set<LockKey>, txn: TxnId, rids: set<Rid>, r: Rid)
    ensures (held0 - LocksOf(txn, rids)) - {LockKey(txn, r)} == held0 - LocksOf(txn, rids + {r})
  {
    assert LocksOf(txn, rids + {r}) == LocksOf(txn, rids) + {LockKey(txn, r)};
  }

  /**
   How a transaction ends, as seen in the event log: every lock it held is
   released exactly once, then the log is flushed, and only then is the
   final state set.
   */
  ghost predicate Ended(evs: seq<Event>, evs0: seq<Event>, txn: TxnId, rids: set<Rid>, s: TransactionState)
  {
    && |evs| == |evs0| + |rids| + 2
    && evs[..|evs0|] == evs0
    && Released(evs[|evs0|..|evs0| + |rids|], txn, rids)
    && evs[|evs0| + |rids|] == Flushed
    && evs[|evs0| + |rids| + 1] == StateSet(txn, s)
  }

  /**
   Progress of unlocking the records `done` for `txn`: each of their locks
   is gone from what was held at the start, and the calls recorded since
   the start are exactly one `unlock` per record of `done`.
   */
  ghost predicate Unlocking(held: set<LockKey>, evs: seq<Event>, held0: set<LockKey>, evs0: seq<Event>, txn: TxnId, done: set<Rid>)
  {
    && held == held0 - LocksOf(txn, done)
    && |evs| >= |evs0| && evs[..|evs0|] == evs0
    && Released(evs[|evs0|..], txn, done)
  }

  /** Before any unlock, nothing is released. */
  lemma {:induction false} UnlockingStart(held0: set<LockKey>, evs0: seq<Event>, txn: TxnId)
    ensures Unlocking(held0, evs0, held0, evs0, txn, {})
  {
    assert LocksOf(txn, {}) == {};
    assert evs0[|evs0|..] == [];
  }

  /** One more `unlock` of a record not unlocked before extends the progress by that record. */
  lemma {:induction false} UnlockingStep(held: set<LockKey>, evs: seq<Event>, held0: set<LockKey>, evs0: seq<Event>, txn: TxnId, done: set<Rid>, r: Rid)
    requires Unlocking(held, evs, held0, evs0, txn, done) && r !in done
    ensures Unlocking(held - {LockKey(txn, r)}, evs + [Unlocked(txn, r)], held0, evs0, txn, done + {r})
  {
    LocksOfSnoc(held0, txn, done, r);
    ReleasedSnoc(evs[|evs0|..], txn, done, r);
    assert (evs + [Unlocked(txn, r)])[|evs0|..] == evs[|evs0|..] + [Unlocked(txn, r)];
    assert (evs + [Unlocked(txn, r)])[..|evs0|] == evs[..|evs0|];
  }

  class TransactionManager {
    var nextTxnId: TxnId
    var nextTimestamp: nat
    /** The global table of registered transactions, by id. */
    var txnMap: map<TxnId, Transaction>
    const sm: SmManager
    const lockMgr: LockManager

    constructor (sm: SmManager, lockMgr: LockManager)
      ensures this.sm == sm && this.lockMgr == lockMgr
      ensures nextTxnId == 0 && nextTimestamp == 0 && txnMap == map[]
    {
      this.sm := sm;
      this.lockMgr := lockMgr;
      nextTxnId := 0;
      nextTimestamp := 0;
      txnMap := map[];
    }

    /**
     `begin`: with no transaction, creates one with the next id and the
     current timestamp and advances the id counter; either way the
     transaction is registered under its id.
     */
    method Begin(txn: Transaction?) returns (t: Transaction)
      modifies this
      ensures txn == null ==>
        && fresh(t) && t.id == old(nextTxnId) && nextTxnId == old(nextTxnId) + 1
        && t.startTs == nextTimestamp && t.state == Default && t.writeSet == [] && t.lockSet == {}
      ensures txn != null ==> t == txn && nextTxnId == old(nextTxnId)
      ensures txnMap == old(txnMap)[t.id := t]
      ensures nextTimestamp == old(nextTimestamp)
    {
      if txn == null {
        t := new Transaction(nextTxnId);
        nextTxnId := nextTxnId + 1;
        t.startTs := nextTimestamp;
      } else {
        t := txn;
      }
      txnMap := txnMap[t.id := t];
    }

    /**
     Calls `unlock` once for every record in the transaction's lock set, in
     no particular order; the lock manager records each call.
     */
    method UnlockAll(txn: Transaction)
      modifies lockMgr, lockMgr.events
      ensures Unlocking(lockMgr.held, lockMgr.events.evs, old(lockMgr.held), old(lockMgr.events.evs), txn.id, txn.lockSet)
    {
      ghost var evs0, held0 := lockMgr.events.evs, lockMgr.held;
      var id := txn.id;
      var lm := lockMgr;
      ghost var done: set<Rid> := {};
      var remaining := txn.lockSet;
      UnlockingStart(held0, evs0, id);
      while remaining != {}
        invariant remaining !! done && remaining + done == txn.lockSet
        invariant Unlocking(lm.held, lm.events.evs, held0, evs0, id, done)
        decreases |remaining|
      {
        var r :| r in remaining;
        UnlockingStep(lm.held, lm.events.evs, held0, evs0, id, done, r);
        lm.Unlock(txn, r);
        done := done + {r};
        remaining := remaining - {r};
      }
    }

    /** Releases every lock in the transaction's lock set, then clears it. */
    method ReleaseLocks(txn: Transaction)
      modifies txn, lockMgr, lockMgr.events
      ensures txn.lockSet == {} && txn.state == old(txn.state) && txn.writeSet == old(txn.writeSet)
      ensures txn.startTs == old(txn.startTs)
      ensures lockMgr.held == old(lockMgr.held) - LocksOf(txn.id, old(txn.lockSet))
      ensures |lockMgr.events.evs| >= |old(lockMgr.events.evs)|
      ensures lockMgr.events.evs[..|old(lockMgr.events.evs)|] == old(lockMgr.events.evs)
      ensures Released(lockMgr.events.evs[|old(lockMgr.events.evs)|..], txn.id, old(txn.lockSet))
    {
      UnlockAll(txn);
      txn.lockSet := {};
    }

    /** Flushes the log and then sets the transaction's final state. */
    method Finish(txn: Transaction, log: LogManager, s: TransactionState)
      requires log.events == lockMgr.events
      modifies txn, log, lockMgr.events
      ensures txn.state == s && txn.lockSet == old(txn.lockSet) && txn.writeSet == old(txn.writeSet)
      ensures txn.startTs == old(txn.startTs)
      ensures log.flushCount == old(log.flushCount) + 1
      ensures lockMgr.events.evs == old(lockMgr.events.evs) + [Flushed, StateSet(txn.id, s)]
    {
      log.FlushLogToDisk();
      txn.SetState(s, lockMgr.events);
    }

    /**
     `commit`: discards the write set front to back, releases every lock,
     flushes the log and sets the state to committed. A null transaction
     is ignored.
     */
    method Commit(txn: Transaction?, log: LogManager)
      requires log.events == lockMgr.events
      modifies if txn == null then {} else {txn, lockMgr, log, lockMgr.events}
      ensures txn != null ==>
        && txn.writeSet == [] && txn.lockSet == {} && txn.state == Committed
        && lockMgr.held == old(lockMgr.held) - LocksOf(txn.id, old(txn.lockSet))
        && log.flushCount == old(log.flushCount) + 1
        && Ended(lockMgr.events.evs, old(lockMgr.events.evs), txn.id, old(txn.lockSet), Committed)
      ensures txn != null ==> txn.startTs == old(txn.startTs)
    {
      if txn == null {
        return;
      }
      while txn.writeSet != []
        invariant txn.lockSet == old(txn.lockSet) && txn.state == old(txn.state) && txn.startTs == old(txn.startTs)
        modifies txn
        decreases |txn.writeSet|
      {
        txn.writeSet := txn.writeSet[1..];
      }
      ReleaseLocks(txn);
      ghost var evs1 := lockMgr.events.evs;
      Finish(txn, log, Committed);
      assert lockMgr.events.evs[..|evs1|] == evs1;
    }

    /**
     `abort`: inverts the write records from the most recent to the oldest,
     popping each one after its rollback succeeded, then releases every lock,
     flushes the log and sets the state to aborted. A rollback that faults
     ends the abort at once: the failing record stays on the write set and
     the locks, the log and the state are left as they were. A null
     transaction is ignored.
     */
    method Abort(txn: Transaction?, log: LogManager) returns (fault: Option<Error>)
      requires sm.Valid()
      requires txn != null ==> ImagesFit(sm.tables, txn.writeSet)
      requires log.events == lockMgr.events
      modifies if txn == null then {} else {txn, sm, lockMgr, log, lockMgr.events}
      ensures txn == null ==> fault == None
      ensures txn != null ==>
        && var r := Rollback(old(sm.tables), old(txn.writeSet), sm.alloc);
        && sm.Valid() && sm.tables == r.db && txn.writeSet == r.pending && fault == r.fault
      ensures txn != null && fault.Some? ==>
        && txn.lockSet == old(txn.lockSet) && txn.state == old(txn.state)
        && lockMgr.held == old(lockMgr.held) && log.flushCount == old(log.flushCount)
        && lockMgr.events.evs == old(lockMgr.events.evs)
      ensures txn != null && fault.None? ==>
        && txn.writeSet == [] && txn.lockSet == {} && txn.state == Aborted
        && lockMgr.held == old(lockMgr.held) - LocksOf(txn.id, old(txn.lockSet))
        && log.flushCount == old(log.flushCount) + 1
        && Ended(lockMgr.events.evs, old(lockMgr.events.evs), txn.id, old(txn.lockSet), Aborted)
      ensures txn != null ==> txn.startTs == old(txn.startTs)
    {
      fault := None;
      if txn == null {
        return;
      }
      fault := RollbackWriteSet(txn);
      if fault.Some? {
        return;
      }
      ReleaseLocks(txn);
      ghost var evs1 := lockMgr.events.evs;
      Finish(txn, log, Aborted);
      assert lockMgr.events.evs[..|evs1|] == evs1;
    }

    /**
     The rollback loop of `abort`: while the write set is not empty, inverts
     its last record and then pops it. A fault ends the loop with that record
     still on the write set.
     */
    method RollbackWriteSet(txn: Transaction) returns (fault: Option<Error>)
      requires sm.Valid() && ImagesFit(sm.tables, txn.writeSet)
      modifies txn, sm
      ensures var r := Rollback(old(sm.tables), old(txn.writeSet), sm.alloc);
        sm.Valid() && sm.tables == r.db && txn.writeSet == r.pending && fault == r.fault
      ensures txn.lockSet == old(txn.lockSet) && txn.state == old(txn.state) && txn.startTs == old(txn.startTs)
    {
      ghost var target := Rollback(sm.tables, txn.writeSet, sm.alloc);
      while txn.writeSet != []
        invariant sm.Valid() && ImagesFit(sm.tables, txn.writeSet)
        invariant Rollback(sm.tables, txn.writeSet, sm.alloc) == target
        invariant txn.lockSet == old(txn.lockSet) && txn.state == old(txn.state) && txn.startTs == old(txn.startTs)
        decreases |txn.writeSet|
      {
        var ws := txn.writeSet;
        ghost var db := sm.tables;
        var f := UndoWrite(ws[|ws| - 1]);
        if f.Some? {
          RollbackStops(db, ws, sm.alloc);
          return f;
        }
        RollbackStep(db, ws, sm.alloc, sm.tables);
        UndoKeepsImagesFit(db, ws, sm.alloc);
        txn.writeSet := ws[..|ws| - 1];
      }
      fault := None;
    }

    /** Dispatches one write record to the rollback routine for its kind. */
    method UndoWrite(w: WriteRecord) returns (fault: Option<Error>)
      requires sm.Valid() && ImageFits(sm.tables, w)
      modifies sm
      ensures sm.Valid()
      ensures var u := Undo(old(sm.tables), w, sm.alloc);
        if u.Ok? then fault == None && sm.tables == u.value
        else fault == Some(u.error) && sm.tables == old(sm.tables)
    {
      match w.wtype {
        case InsertTuple =>
          fault := RollbackInsert(w.tabName, w.rid);
        case DeleteTuple =>
          fault := RollbackDelete(w.tabName, w.record);
        case UpdateTuple =>
          fault := RollbackUpdate(w.tabName, w.rid, w.record);
      }
    }

    /**
     `rollback_insert`: packs each index's key from the record now stored at
     `rid` and deletes it from that index, then deletes the record. Faults,
     changing nothing, when the table or the record does not exist.
     */
    method RollbackInsert(tab: string, rid: Rid) returns (fault: Option<Error>)
      requires sm.Valid()
      modifies sm
      ensures sm.Valid()
      ensures var r := DeleteRow(old(sm.tables), tab, rid);
        if r.Ok? then fault == None && sm.tables == r.value
        else fault == Some(r.error) && sm.tables == old(sm.tables)
    {
      if tab !in sm.tables {
        return Some(TableNotFound(tab));
      }
      var meta := sm.tables[tab].meta;
      var rec := sm.GetRecord(tab, rid);
      if rec.None? {
        return Some(RecordNotFound(tab, rid));
      }
      ghost var t0 := sm.tables[tab];
      assert KeysDeleted(meta.indexes, t0.ixs, rec.value, 0) == t0.ixs;
      assert old(sm.tables)[tab := t0.(ixs := t0.ixs)] == old(sm.tables);
      var j := 0;
      while j < |meta.indexes|
        invariant 0 <= j <= |meta.indexes|
        invariant sm.Valid() && tab in sm.tables
        invariant sm.tables == old(sm.tables)[tab := t0.(ixs := KeysDeleted(meta.indexes, t0.ixs, rec.value, j))]
      {
        var key := CopyKey(meta.indexes[j], rec.value);
        ghost var tj := t0.(ixs := KeysDeleted(meta.indexes, t0.ixs, rec.value, j));
        KeysDeletedStep(t0, rec.value, j);
        ReplaceTwice(old(sm.tables), tab, tj, EntryDeleted(tj, j, key));
        sm.DeleteEntry(tab, j, key);
        j := j + 1;
      }
      sm.DeleteRecord(tab, rid);
      fault := None;
    }

    /**
     `rollback_delete`: stores the saved image again under the record id
     the allocator hands out, then maps each index's key packed from the image
     to that id. Faults, changing nothing, when the table does not exist.
     */
    method RollbackDelete(tab: string, rec: Record) returns (fault: Option<Error>)
      requires sm.Valid()
      requires tab in sm.tables ==> |rec| == sm.tables[tab].meta.recordSize
      modifies sm
      ensures sm.Valid()
      ensures var r := InsertRow(old(sm.tables), tab, rec, sm.alloc);
        if r.Ok? then fault == None && sm.tables == r.value
        else fault == Some(r.error) && sm.tables == old(sm.tables)
    {
      if tab !in sm.tables {
        return Some(TableNotFound(tab));
      }
      var meta := sm.tables[tab].meta;
      ghost var t0 := sm.tables[tab];
      var rid := sm.InsertRecord(tab, rec);
      ghost var f1 := FileInsert(t0.file, rec, rid);
      assert KeysInserted(meta.indexes, t0.ixs, rec, rid, 0) == t0.ixs;
      var j := 0;
      while j < |meta.indexes|
        invariant 0 <= j <= |meta.indexes|
        invariant sm.Valid() && tab in sm.tables
        invariant sm.tables == old(sm.tables)[tab := Table(meta, f1, KeysInserted(meta.indexes, t0.ixs, rec, rid, j))]
      {
        var key := CopyKey(meta.indexes[j], rec);
        ghost var tj := Table(meta, f1, KeysInserted(meta.indexes, t0.ixs, rec, rid, j));
        KeysInsertedStep(t0.(file := f1), rec, rid, j);
        ReplaceTwice(old(sm.tables), tab, tj, EntryInserted(tj, j, key, rid));
        sm.InsertEntry(tab, j, key, rid);
        j := j + 1;
      }
      fault := None;
    }

    /**
     `rollback_update`: for each index, deletes the key packed from the
     record now stored at `rid` and maps the key packed from the saved image
     to the same `rid`; then writes the saved image back at `rid`. Faults,
     changing nothing, when the table or the record does not exist.
     */
    method RollbackUpdate(tab: string, rid: Rid, rec: Record) returns (fault: Option<Error>)
      requires sm.Valid()
      requires tab in sm.tables ==> |rec| == sm.tables[tab].meta.recordSize
      modifies sm
      ensures sm.Valid()
      ensures var r := UpdateRow(old(sm.tables), tab, rid, rec);
        if r.Ok? then fault == None && sm.tables == r.value
        else fault == Some(r.error) && sm.tables == old(sm.tables)
    {
      if tab !in sm.tables {
        return Some(TableNotFound(tab));
      }
      var meta := sm.tables[tab].meta;
      var cur := sm.GetRecord(tab, rid);
      if cur.None? {
        return Some(RecordNotFound(tab, rid));
      }
      ghost var t0 := sm.tables[tab];
      assert KeysReplaced(meta.indexes, t0.ixs, cur.value, rec, rid, 0) == t0.ixs;
      var j := 0;
      while j < |meta.indexes|
        invariant 0 <= j <= |meta.indexes|
        invariant sm.Valid() && tab in sm.tables
        invariant sm.tables == old(sm.tables)[tab := t0.(ixs := KeysReplaced(meta.indexes, t0.ixs, cur.value, rec, rid, j))]
      {
        var curKey := CopyKey(meta.indexes[j], cur.value);
        var oldKey := CopyKey(meta.indexes[j], rec);
        ghost var tj := t0.(ixs := KeysReplaced(meta.indexes, t0.ixs, cur.value, rec, rid, j));
        KeysReplacedStep(t0, cur.value, rec, rid, j);
        ReplaceTwice(old(sm.tables), tab, tj, EntryDeleted(tj, j, curKey));
        sm.DeleteEntry(tab, j, curKey);
        ReplaceTwice(old(sm.tables), tab, EntryDeleted(tj, j, curKey), EntryInserted(EntryDeleted(tj, j, curKey), j, oldKey, rid));
        sm.InsertEntry(tab, j, oldKey, rid);
        j := j + 1;
      }
      sm.UpdateRecord(tab, rid, rec);
      fault := None;
    }
  }
}
