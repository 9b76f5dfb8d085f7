/**
 The write set (undo log) entries and their inversion. Each rollback routine
 of the transaction manager is the forward mutation protocol of the
 opposite operation: undoing an insert deletes the row, undoing a delete
 inserts the saved image again, undoing an update updates the row back to
 its saved image. Each maintains the record file and every index of the
 table, using keys packed from the right image.
 */
module UndoLog {
  import opened KeyPack
  import opened Storage

  /** The kind of an applied mutation. */
  datatype WType = InsertTuple | DeleteTuple | UpdateTuple

  /**
   One undo-log entry: the kind, the table, the record id, and the record
   image before the mutation (unused for an insert).
   */
  datatype WriteRecord = WriteRecord(wtype: WType, tabName: string, rid: Rid, record: Record)

  /** The first `n` indexes lose the key packed from `rec`; the rest are untouched. */
  function KeysDeleted(idx: seq<IndexMeta>, ixs: seq<Index>, rec: Record, n: nat): (ixs': seq<Index>)
    ensures |ixs'| == |ixs|
  {
    seq(|ixs|, j requires 0 <= j < |ixs| => if j < n && j < |idx| then ixs[j] - {PackKey(idx[j], rec)} else ixs[j])
  }

  /** The first `n` indexes map the key packed from `rec` to `rid`; the rest are untouched. */
  function KeysInserted(idx: seq<IndexMeta>, ixs: seq<Index>, rec: Record, rid: Rid, n: nat): (ixs': seq<Index>)
    ensures |ixs'| == |ixs|
  {
    seq(|ixs|, j requires 0 <= j < |ixs| => if j < n && j < |idx| then ixs[j][PackKey(idx[j], rec) := rid] else ixs[j])
  }

  /**
   The first `n` indexes lose the key packed from `cur` and then map the key
   packed from `rec` to `rid`; the rest are untouched.
   */
  function KeysReplaced(idx: seq<IndexMeta>, ixs: seq<Index>, cur: Record, rec: Record, rid: Rid, n: nat): (ixs': seq<Index>)
    ensures |ixs'| == |ixs|
  {
    seq(|ixs|, j requires 0 <= j < |ixs| =>
      if j < n && j < |idx| then (ixs[j] - {PackKey(idx[j], cur)})[PackKey(idx[j], rec) := rid] else ixs[j])
  }

  /** Deleting the key of index `j` extends the index-by-index deletion by one index. */
  lemma {:induction false} KeysDeletedStep(t: Table, rec: Record, j: nat)
    requires j < |t.ixs| && j < |t.meta.indexes|
    ensures var idx := t.meta.indexes;
      EntryDeleted(t.(ixs := KeysDeleted(idx, t.ixs, rec, j)), j, PackKey(idx[j], rec))
        == t.(ixs := KeysDeleted(idx, t.ixs, rec, j + 1))
  {
  }

  /** Inserting the key of index `j` extends the index-by-index insertion by one index. */
  lemma {:induction false} KeysInsertedStep(t: Table, rec: Record, rid: Rid, j: nat)
    requires j < |t.ixs| && j < |t.meta.indexes|
    ensures var idx := t.meta.indexes;
      EntryInserted(t.(ixs := KeysInserted(idx, t.ixs, rec, rid, j)), j, PackKey(idx[j], rec), rid)
        == t.(ixs := KeysInserted(idx, t.ixs, rec, rid, j + 1))
  {
  }

  /** Replacing the key of index `j` extends the index-by-index replacement by one index. */
  lemma {:induction false} KeysReplacedStep(t: Table, cur: Record, rec: Record, rid: Rid, j: nat)
    requires j < |t.ixs| && j < |t.meta.indexes|
    ensures var idx := t.meta.indexes;
      EntryInserted(EntryDeleted(t.(ixs := KeysReplaced(idx, t.ixs, cur, rec, rid, j)), j, PackKey(idx[j], cur)), j, PackKey(idx[j], rec), rid)
        == t.(ixs := KeysReplaced(idx, t.ixs, cur, rec, rid, j + 1))
  {
  }

  /** `ix'` is `ix` without `key`. */
  ghost predicate KeyRemoved(ix: Index, ix': Index, key: Key)
  {
    key !in ix' && forall k :: k != key ==> SameAt(ix, ix', k)
  }

  /** `ix'` is `ix` with `key` mapped to `rid`. */
  ghost predicate KeySet(ix: Index, ix': Index, key: Key, rid: Rid)
  {
    key in ix' && ix'[key] == rid && forall k :: k != key ==> SameAt(ix, ix', k)
  }

  /** `ix'` is `ix` with `cur` removed and then `key` mapped to `rid`. */
  ghost predicate KeyMoved(ix: Index, ix': Index, cur: Key, key: Key, rid: Rid)
  {
    && key in ix' && ix'[key] == rid
    && (cur != key ==> cur !in ix')
    && forall k :: k != key && k != cur ==> SameAt(ix, ix', k)
  }

  /**
   Removing a row of one table (`rollback_insert`, and the forward delete it
   was copied from): the key packed from the row's current image leaves every
   index, and the row leaves the record file.
   */
  function TableDelete(t: Table, rid: Rid): (t': Table)
    requires rid in t.file.records
    ensures t'.meta == t.meta
  {
    Table(t.meta, FileDelete(t.file, rid), KeysDeleted(t.meta.indexes, t.ixs, t.file.records[rid], |t.meta.indexes|))
  }

  /**
   Inserting a row into one table (`rollback_delete`, and the forward insert
   it was copied from): the image is stored under the id `rid` the allocator
   handed out, and every index maps the key packed from the image to that id.
   */
  function TableInsert(t: Table, rec: Record, rid: Rid): (t': Table)
    ensures t'.meta == t.meta
  {
    Table(t.meta, FileInsert(t.file, rec, rid), KeysInserted(t.meta.indexes, t.ixs, rec, rid, |t.meta.indexes|))
  }

  /**
   Rewriting a row of one table in place (`rollback_update`, and the forward
   update it was copied from): in every index the key packed from the
   current image is removed and the key packed from `rec` is mapped to the
   same id; the record file then stores `rec` at that id.
   */
  function TableUpdate(t: Table, rid: Rid, rec: Record): (t': Table)
    requires rid in t.file.records
    ensures t'.meta == t.meta
  {
    Table(t.meta, FileUpdate(t.file, rid, rec), KeysReplaced(t.meta.indexes, t.ixs, t.file.records[rid], rec, rid, |t.meta.indexes|))
  }

  /** Removing a row keeps a valid table valid. */
  lemma {:induction false} TableDeleteKeepsValid(t: Table, rid: Rid)
    requires TableValid(t) && rid in t.file.records
    ensures TableValid(TableDelete(t, rid))
  {
  }

  /** Inserting a row with an image of the table's record length keeps a valid table valid. */
  lemma {:induction false} TableInsertKeepsValid(t: Table, rec: Record, rid: Rid)
    requires TableValid(t) && |rec| == t.meta.recordSize
    ensures TableValid(TableInsert(t, rec, rid))
  {
  }

  /** Rewriting a row with an image of the table's record length keeps a valid table valid. */
  lemma {:induction false} TableUpdateKeepsValid(t: Table, rid: Rid, rec: Record)
    requires TableValid(t) && rid in t.file.records && |rec| == t.meta.recordSize
    ensures TableValid(TableUpdate(t, rid, rec))
  {
  }

  /**
   What removing a row does: the row is gone, every other row is untouched,
   and each index lost exactly the key packed from the removed image.
   */
  lemma {:induction false} TableDeleteEffect(t: Table, rid: Rid)
    requires TableValid(t) && rid in t.file.records
    ensures var t' := TableDelete(t, rid);
      && rid !in t'.file.records
      && (forall q :: q != rid ==> SameAt(t.file.records, t'.file.records, q))
      && forall j :: 0 <= j < |t.ixs| ==>
           KeyRemoved(t.ixs[j], t'.ixs[j], PackKey(t.meta.indexes[j], t.file.records[rid]))
  {
  }

  /**
   What inserting a row under an unused id does: the image is stored under
   that id, every other row is untouched, and each index maps the key packed
   from the image to the new id and keeps all its other entries.
   */
  lemma {:induction false} TableInsertEffect(t: Table, rec: Record, rid: Rid)
    requires TableValid(t) && rid !in t.file.records
    ensures var t' := TableInsert(t, rec, rid);
      && rid in t'.file.records && t'.file.records[rid] == rec
      && (forall q :: q != rid ==> SameAt(t.file.records, t'.file.records, q))
      && forall j :: 0 <= j < |t.ixs| ==>
           KeySet(t.ixs[j], t'.ixs[j], PackKey(t.meta.indexes[j], rec), rid)
  {
  }

  /**
   What rewriting a row does: the row keeps its id and gets the new image,
   no id is allocated, every other row is untouched, and each index has the
   current image's key replaced by the new image's key, mapped to the same id.
   */
  lemma {:induction false} TableUpdateEffect(t: Table, rid: Rid, rec: Record)
    requires TableValid(t) && rid in t.file.records
    ensures var t' := TableUpdate(t, rid, rec);
      && t'.file.records.Keys == t.file.records.Keys
      && t'.file.changes == t.file.changes
      && t'.file.records[rid] == rec
      && (forall q :: q != rid ==> SameAt(t.file.records, t'.file.records, q))
      && forall j :: 0 <= j < |t.ixs| ==>
           KeyMoved(t.ixs[j], t'.ixs[j], PackKey(t.meta.indexes[j], t.file.records[rid]), PackKey(t.meta.indexes[j], rec), rid)
  {
  }

  /** Undoing an insert entry; faults when the table or the row does not exist, and then nothing changes. */
  function DeleteRow(db: Db, tab: string, rid: Rid): (r: Result<Db>)
    ensures r.Err? <==> tab !in db || rid !in db[tab].file.records
    ensures r.Err? ==> r.error == if tab !in db then TableNotFound(tab) else RecordNotFound(tab, rid)
    ensures r.Ok? ==> r.value == db[tab := TableDelete(db[tab], rid)]
  {
    if tab !in db then Err(TableNotFound(tab))
    else if rid !in db[tab].file.records then Err(RecordNotFound(tab, rid))
    else Ok(db[tab := TableDelete(db[tab], rid)])
  }

  /**
   Undoing a delete entry, with the row stored under the id `alloc` hands
   out; faults when the table does not exist.
   */
  function InsertRow(db: Db, tab: string, rec: Record, alloc: Allocator): (r: Result<Db>)
    ensures r.Err? <==> tab !in db
    ensures r.Err? ==> r.error == TableNotFound(tab)
    ensures r.Ok? ==> r.value == db[tab := TableInsert(db[tab], rec, alloc(db[tab].file))]
  {
    if tab !in db then Err(TableNotFound(tab))
    else Ok(db[tab := TableInsert(db[tab], rec, alloc(db[tab].file))])
  }

  /** Undoing an update entry; faults when the table or the row does not exist. */
  function UpdateRow(db: Db, tab: string, rid: Rid, rec: Record): (r: Result<Db>)
    ensures r.Err? <==> tab !in db || rid !in db[tab].file.records
    ensures r.Err? ==> r.error == if tab !in db then TableNotFound(tab) else RecordNotFound(tab, rid)
    ensures r.Ok? ==> r.value == db[tab := TableUpdate(db[tab], rid, rec)]
  {
    if tab !in db then Err(TableNotFound(tab))
    else if rid !in db[tab].file.records then Err(RecordNotFound(tab, rid))
    else Ok(db[tab := TableUpdate(db[tab], rid, rec)])
  }

  /**
   Inverting one write record, chosen by its kind. It faults exactly when
   the table is unknown or, for an insert or update entry, the row is gone;
   it only ever changes the record's own table, and never its metadata.
   */
  function Undo(db: Db, w: WriteRecord, alloc: Allocator): (r: Result<Db>)
    ensures r.Err? <==> w.tabName !in db || (w.wtype != DeleteTuple && w.rid !in db[w.tabName].file.records)
    ensures r.Ok? ==>
      && r.value.Keys == db.Keys
      && r.value[w.tabName].meta == db[w.tabName].meta
      && forall t :: t in db && t != w.tabName ==> r.value[t] == db[t]
  {
    match w.wtype
    case InsertTuple => DeleteRow(db, w.tabName, w.rid)
    case DeleteTuple => InsertRow(db, w.tabName, w.record, alloc)
    case UpdateTuple => UpdateRow(db, w.tabName, w.rid, w.record)
  }

  /**
   Where a rollback stops: the storage reached, the entries still in the
   write set, and the fault that stopped it, if any.
   */
  datatype Replay = Replay(db: Db, pending: seq<WriteRecord>, fault: Option<Error>)

  /**
   Rolling back a write set: entries are inverted from the most recent to
   the oldest, each popped only after its inversion succeeded. A fault stops
   the rollback with the failing entry still on top of the write set.
   */
  function Rollback(db: Db, ws: seq<WriteRecord>, alloc: Allocator): (r: Replay)
    ensures |r.pending| <= |ws| && r.pending == ws[..|r.pending|]
    ensures r.fault.None? <==> r.pending == []
    ensures r.fault.Some? ==> Undo(r.db, r.pending[|r.pending| - 1], alloc) == Err(r.fault.value)
    decreases |ws|
  {
    if ws == [] then Replay(db, [], None)
    else
      match Undo(db, ws[|ws| - 1], alloc)
      case Err(e) => Replay(db, ws, Some(e))
      case Ok(db') => Rollback(db', ws[..|ws| - 1], alloc)
  }

  /** One step of a rollback: when the newest record is inverted, the rest is rolled back from there. */
  lemma {:induction false} RollbackStep(db: Db, ws: seq<WriteRecord>, alloc: Allocator, db': Db)
    requires ws != [] && Undo(db, ws[|ws| - 1], alloc) == Ok(db')
    ensures Rollback(db, ws, alloc) == Rollback(db', ws[..|ws| - 1], alloc)
  {
  }

  /** A rollback whose newest record cannot be inverted stops right there, with the record still pending. */
  lemma {:induction false} RollbackStops(db: Db, ws: seq<WriteRecord>, alloc: Allocator)
    requires ws != [] && Undo(db, ws[|ws| - 1], alloc).Err?
    ensures Rollback(db, ws, alloc) == Replay(db, ws, Some(Undo(db, ws[|ws| - 1], alloc).error))
  {
  }

  /**
   Rolling back `older + newer` first rolls back all of `newer`, and only
   when that succeeds goes on with `older`: the write set is processed
   strictly from the back.
   */
  lemma {:induction false} RollbackSplit(db: Db, older: seq<WriteRecord>, newer: seq<WriteRecord>, alloc: Allocator)
    ensures var rn := Rollback(db, newer, alloc);
      Rollback(db, older + newer, alloc) ==
        if rn.fault.Some? then Replay(rn.db, older + rn.pending, rn.fault) else Rollback(rn.db, older, alloc)
    decreases |newer|
  {
    if newer == [] {
      assert older + newer == older;
    } else {
      var w := newer[|newer| - 1];
      var newer' := newer[..|newer| - 1];
      assert newer == newer' + [w];
      assert older + newer == (older + newer') + [w];
      match Undo(db, w, alloc)
      case Err(e) =>
      case Ok(db') =>
        RollbackSplit(db', older, newer', alloc);
    }
  }

  /** The saved image of a delete or update entry has the length of its table's records. */
  ghost predicate ImageFits(db: Db, w: WriteRecord)
  {
    w.wtype != InsertTuple && w.tabName in db ==> |w.record| == db[w.tabName].meta.recordSize
  }

  ghost predicate ImagesFit(db: Db, ws: seq<WriteRecord>)
  {
    forall i :: 0 <= i < |ws| ==> ImageFits(db, ws[i])
  }

  /** Inverting a write record whose image fits keeps every table of the storage valid. */
  lemma {:induction false} UndoKeepsValid(db: Db, w: WriteRecord, alloc: Allocator)
    requires DbValid(db) && ImageFits(db, w)
    ensures Undo(db, w, alloc).Ok? ==> DbValid(Undo(db, w, alloc).value)
  {
    var tab := w.tabName;
    if Undo(db, w, alloc).Ok? {
      match w.wtype
      case InsertTuple => TableDeleteKeepsValid(db[tab], w.rid);
      case DeleteTuple => TableInsertKeepsValid(db[tab], w.record, alloc(db[tab].file));
      case UpdateTuple => TableUpdateKeepsValid(db[tab], w.rid, w.record);
    }
  }

  /**
   Inverting the newest write record never changes table metadata, so the
   saved images of the older records still fit.
   */
  lemma {:induction false} UndoKeepsImagesFit(db: Db, ws: seq<WriteRecord>, alloc: Allocator)
    requires ImagesFit(db, ws) && ws != [] && Undo(db, ws[|ws| - 1], alloc).Ok?
    ensures ImagesFit(Undo(db, ws[|ws| - 1], alloc).value, ws[..|ws| - 1])
  {
    var db' := Undo(db, ws[|ws| - 1], alloc).value;
    var ws' := ws[..|ws| - 1];
    forall i | 0 <= i < |ws'| ensures ImageFits(db', ws'[i]) {
      assert ws'[i] == ws[i];
      assert ImageFits(db, ws[i]);
    }
  }

  /**
   A rollback keeps the storage valid and never changes table metadata: it
   reaches a valid storage whose tables have the same names and metadata,
   so the saved images of the entries it leaves still fit.
   */
  lemma {:induction false} RollbackKeepsValid(db: Db, ws: seq<WriteRecord>, alloc: Allocator)
    requires DbValid(db) && ImagesFit(db, ws)
    ensures var r := Rollback(db, ws, alloc);
      && DbValid(r.db)
      && r.db.Keys == db.Keys
      && (forall t :: t in db ==> r.db[t].meta == db[t].meta)
      && ImagesFit(r.db, r.pending)
    decreases |ws|
  {
    if ws != [] {
      var w := ws[|ws| - 1];
      var u := Undo(db, w, alloc);
      if u.Ok? {
        assert ImageFits(db, w);
        UndoKeepsValid(db, w, alloc);
        UndoKeepsImagesFit(db, ws, alloc);
        RollbackKeepsValid(u.value, ws[..|ws| - 1], alloc);
      }
    }
  }

  /** No index of the table holds the key packed from `rec`. */
  predicate KeysAbsent(t: Table, rec: Record)
    requires |t.ixs| == |t.meta.indexes|
  {
    forall j :: 0 <= j < |t.ixs| ==> PackKey(t.meta.indexes[j], rec) !in t.ixs[j]
  }

  /** Every index of the table maps the key packed from `rec` to `rid`. */
  predicate KeysPointTo(t: Table, rec: Record, rid: Rid)
    requires |t.ixs| == |t.meta.indexes|
  {
    forall j :: 0 <= j < |t.ixs| ==> PackKey(t.meta.indexes[j], rec) in t.ixs[j] && t.ixs[j][PackKey(t.meta.indexes[j], rec)] == rid
  }

  /**
   Undoing an insert removes what the insert added: when the row went in
   under an unused id and no index held its keys before, deleting the row
   again gives back the same rows and index entries; only the allocator
   state has moved on.
   */
  lemma {:induction false} InsertUndone(t: Table, rec: Record, rid: Rid)
    requires TableValid(t) && rid !in t.file.records && KeysAbsent(t, rec)
    ensures var t1 := TableInsert(t, rec, rid);
      rid in t1.file.records &&
      var t2 := TableDelete(t1, rid);
      t2.file.records == t.file.records && t2.ixs == t.ixs
  {
    var t1 := TableInsert(t, rec, rid);
    var t2 := TableDelete(t1, rid);
    assert t1.file.records[rid] == rec;
    forall j | 0 <= j < |t.ixs| ensures t2.ixs[j] == t.ixs[j] {
      var key := PackKey(t.meta.indexes[j], rec);
      assert t2.ixs[j] == t.ixs[j][key := rid] - {key};
    }
  }

  /**
   Undoing an update restores the old image at the original record id. It
   needs the indexes to be consistent before the update: each maps the key
   of the current image to the row, and holds the key of the new image only
   if it is the same key. Then the update followed by its undo gives back
   exactly the table before the update.
   */
  lemma {:induction false} UpdateUndone(t: Table, rid: Rid, rec: Record)
    requires TableValid(t) && rid in t.file.records
    requires KeysPointTo(t, t.file.records[rid], rid)
    requires forall j :: 0 <= j < |t.ixs| ==>
      PackKey(t.meta.indexes[j], rec) == PackKey(t.meta.indexes[j], t.file.records[rid]) || PackKey(t.meta.indexes[j], rec) !in t.ixs[j]
    ensures TableUpdate(TableUpdate(t, rid, rec), rid, t.file.records[rid]) == t
  {
    var cur := t.file.records[rid];
    var t1 := TableUpdate(t, rid, rec);
    var t2 := TableUpdate(t1, rid, cur);
    assert t2.file.records == t.file.records;
    forall j | 0 <= j < |t.ixs| ensures t2.ixs[j] == t.ixs[j] {
      var ck := PackKey(t.meta.indexes[j], cur);
      var nk := PackKey(t.meta.indexes[j], rec);
      assert t2.ixs[j] == ((t.ixs[j] - {ck})[nk := rid] - {nk})[ck := rid];
    }
  }

  /**
   Undoing a delete brings the row back under whatever unused id the
   allocator hands out, which may be the freed id itself: when the indexes
   mapped the row's keys to its old id, re-inserting the saved image under
   `rid'` stores it there and every index maps the key to `rid'`; all other
   rows and entries are as before the delete. When the allocator hands back
   the freed id, the rows and index entries are exactly those before the
   delete.
   */
  lemma {:induction false} DeleteUndone(t: Table, rid: Rid, rid': Rid)
    requires TableValid(t) && rid in t.file.records
    requires KeysPointTo(t, t.file.records[rid], rid)
    requires rid' !in TableDelete(t, rid).file.records
    ensures var rec := t.file.records[rid];
      var t2 := TableInsert(TableDelete(t, rid), rec, rid');
      && t2.file.records == (t.file.records - {rid})[rid' := rec]
      && (forall j :: 0 <= j < |t.ixs| ==> t2.ixs[j] == t.ixs[j][PackKey(t.meta.indexes[j], rec) := rid'])
      && (rid' == rid ==> t2.file.records == t.file.records && t2.ixs == t.ixs)
  {
    var rec := t.file.records[rid];
    var t1 := TableDelete(t, rid);
    var t2 := TableInsert(t1, rec, rid');
    forall j | 0 <= j < |t.ixs| ensures t2.ixs[j] == t.ixs[j][PackKey(t.meta.indexes[j], rec) := rid'] {
      var key := PackKey(t.meta.indexes[j], rec);
      assert t2.ixs[j] == (t.ixs[j] - {key})[key := rid'];
    }
    if rid' == rid {
      forall j | 0 <= j < |t.ixs| ensures t2.ixs[j] == t.ixs[j] {
        var key := PackKey(t.meta.indexes[j], rec);
        assert t.ixs[j][key := rid] == t.ixs[j];
      }
    }
  }

  /**
   A row inserted with image `a` under an unused id and then updated to `b`,
   in one table: undoing the update gives back the table right after the
   insert, and then undoing the insert gives back the rows and index entries
   of the start.
   */
  lemma {:induction false} InsertThenUpdateUndone(t: Table, a: Record, b: Record, rid: Rid)
    requires TableValid(t) && |a| == t.meta.recordSize && rid !in t.file.records
    requires KeysAbsent(t, a) && KeysAbsent(t, b)
    ensures var t1 := TableInsert(t, a, rid);
      && rid in t1.file.records
      && var t2 := TableUpdate(t1, rid, b);
         && t2.file.records[rid] == b
         && TableUpdate(t2, rid, a) == t1
         && TableDelete(t1, rid).file.records == t.file.records
         && TableDelete(t1, rid).ixs == t.ixs
  {
    var t1 := TableInsert(t, a, rid);
    TableInsertEffect(t, a, rid);
    assert KeysPointTo(t1, a, rid);
    UpdateUndone(t1, rid, b);
    InsertUndone(t, a, rid);
  }

  /** Rolling back two write records whose inversions both succeed undoes the newer one first. */
  lemma {:induction false} RollbackTwo(db: Db, w0: WriteRecord, w1: WriteRecord, alloc: Allocator, d1: Db, d2: Db)
    requires Undo(db, w1, alloc) == Ok(d1) && Undo(d1, w0, alloc) == Ok(d2)
    ensures Rollback(db, [w0, w1], alloc) == Replay(d2, [], None)
  {
    assert [w0, w1][..1] == [w0] && [w0][..0] == [];
    RollbackStep(db, [w0, w1], alloc, d1);
    RollbackStep(d1, [w0], alloc, d2);
  }

  /**
   Rollback order on a chain of mutations of one row: a row inserted with
   image `a` under the id `rid` and then updated to `b`. Undoing only the
   newer write record gives back exactly the storage after the insert;
   rolling back both then also undoes the insert, leaving the rows and
   index entries of the start.
   */
  lemma {:induction false} InsertThenUpdateRolledBack(db: Db, tab: string, a: Record, b: Record, rid: Rid, alloc: Allocator)
    requires tab in db && TableValid(db[tab]) && |a| == db[tab].meta.recordSize
    requires rid !in db[tab].file.records
    requires KeysAbsent(db[tab], a) && KeysAbsent(db[tab], b)
    ensures var d1 := db[tab := TableInsert(db[tab], a, rid)];
      var d2 := UpdateRow(d1, tab, rid, b);
      var ws := [WriteRecord(InsertTuple, tab, rid, []), WriteRecord(UpdateTuple, tab, rid, a)];
      && d2.Ok?
      && Undo(d2.value, ws[1], alloc) == Ok(d1)
      && var r := Rollback(d2.value, ws, alloc);
         && r.fault.None?
         && r.db.Keys == db.Keys
         && (forall t :: t in db && t != tab ==> r.db[t] == db[t])
         && r.db[tab].file.records == db[tab].file.records
         && r.db[tab].ixs == db[tab].ixs
  {
    var t := db[tab];
    InsertThenUpdateUndone(t, a, b, rid);
    var t1 := TableInsert(t, a, rid);
    var t2 := TableUpdate(t1, rid, b);
    var t3 := TableDelete(t1, rid);
    var d1 := db[tab := t1];
    var d2 := d1[tab := t2];
    var d3 := d1[tab := t3];
    assert UpdateRow(d1, tab, rid, b) == Ok(d2);
    var w0, w1 := WriteRecord(InsertTuple, tab, rid, []), WriteRecord(UpdateTuple, tab, rid, a);
    assert d2[tab := TableUpdate(t2, rid, a)] == d1;
    assert Undo(d2, w1, alloc) == Ok(d1);
    assert Undo(d1, w0, alloc) == Ok(d3);
    RollbackTwo(d2, w0, w1, alloc, d1, d3);
    assert d3 == db[tab := t3];
  }

  /**
   A row updated and then deleted by one transaction, rolled back from the
   storage after the delete. Undoing the delete re-inserts the row under
   the id the allocator hands out. The update record names the old id, so
   the outcome depends on that choice: when the allocator hands back the
   same id, the update is undone too and nothing is left pending; otherwise
   the update record no longer finds its row and the rollback stops there
   with "record not found".
   */
  lemma {:induction false} UpdateThenDeleteRolledBack(db: Db, tab: string, rid: Rid, a: Record, b: Record, alloc: Allocator)
    requires tab in db && rid !in db[tab].file.records
    ensures var ws := [WriteRecord(UpdateTuple, tab, rid, a), WriteRecord(DeleteTuple, tab, rid, b)];
      var d1 := InsertRow(db, tab, b, alloc).value;
      var r := Rollback(db, ws, alloc);
      && (alloc(db[tab].file) == rid ==> r == Replay(UpdateRow(d1, tab, rid, a).value, [], None))
      && (alloc(db[tab].file) != rid ==> r == Replay(d1, ws[..1], Some(RecordNotFound(tab, rid))))
  {
    var w0, w1 := WriteRecord(UpdateTuple, tab, rid, a), WriteRecord(DeleteTuple, tab, rid, b);
    var d1 := InsertRow(db, tab, b, alloc).value;
    assert Undo(db, w1, alloc) == Ok(d1);
    RollbackStep(db, [w0, w1], alloc, d1);
    assert [w0, w1][..1] == [w0];
    if alloc(db[tab].file) == rid {
      assert rid in d1[tab].file.records;
      var d2 := UpdateRow(d1, tab, rid, a).value;
      assert Undo(d1, w0, alloc) == Ok(d2);
      RollbackTwo(db, w0, w1, alloc, d1, d2);
    } else {
      assert rid !in d1[tab].file.records;
      RollbackStops(d1, [w0], alloc);
    }
  }
}
