/**
 The storage collaborators the transaction manager drives during rollback:
 per table its metadata, one record file (a map from record id to raw
 record) and the secondary indexes (maps from packed key to record id).
 The slot allocator of the record files is left open: an `Allocator` may
 hand out any record id that is not in use.
 */
module Storage {
  import opened KeyPack

  datatype Option<T> = None | Some(value: T)

  /** Record locator: page number and slot number. */
  datatype Rid = Rid(pageNo: int, slotNo: int)

  /** A raw record: the physical bytes of one row. */
  type Record = seq<byte>

  type Key = seq<byte>

  /** A secondary index, abstracted to its key-to-record-id entries. */
  type Index = map<Key, Rid>

  /** What the rollback routines need of a table's metadata: its record length and its indexes. */
  datatype TabMeta = TabMeta(recordSize: nat, indexes: seq<IndexMeta>)

  /**
   A record file: its live records, and the number of record inserts and
   deletes made so far, which stands for the state of its free-slot
   allocator (page headers and slot bitmaps).
   */
  datatype RecordFile = RecordFile(records: map<Rid, Record>, changes: nat)

  /** The stored state of one table: its metadata, its record file and its indexes in metadata order. */
  datatype Table = Table(meta: TabMeta, file: RecordFile, ixs: seq<Index>)

  /** The stored state of all tables, by table name. */
  type Db = map<string, Table>

  /** The faults the storage layer raises (as exceptions in the source). */
  datatype Error = TableNotFound(tab: string) | RecordNotFound(tab: string, rid: Rid)

  datatype Result<T> = Ok(value: T) | Err(error: Error)

  /** Every index of the table packs columns that lie inside its records and records its total length. */
  predicate MetaValid(m: TabMeta)
  {
    forall j :: 0 <= j < |m.indexes| ==> Fits(m.indexes[j], m.recordSize) && WellFormed(m.indexes[j])
  }

  /** Every live record has the table's length. */
  predicate FileValid(f: RecordFile, size: nat)
  {
    forall r :: r in f.records ==> |f.records[r]| == size
  }

  /**
   The slot allocator of `insert_record`: the record id it hands out in a
   given state of the file.
   */
  type Allocator = RecordFile -> Rid

  /** The allocator only hands out record ids that are not in use. */
  ghost predicate Fresh(alloc: Allocator)
  {
    forall f :: alloc(f) !in f.records
  }

  /** The table has valid metadata, one index per index definition and a well-formed record file. */
  predicate TableValid(t: Table)
  {
    MetaValid(t.meta) && |t.ixs| == |t.meta.indexes| && FileValid(t.file, t.meta.recordSize)
  }

  ghost predicate DbValid(db: Db)
  {
    forall t :: t in db ==> TableValid(db[t])
  }

  /** `m` and `m'` agree at key `k`: both lack it, or both map it to the same value. */
  predicate SameAt<K, V(==)>(m: map<K, V>, m': map<K, V>, k: K)
  {
    (k in m <==> k in m') && (k in m ==> m[k] == m'[k])
  }

  /** Replacing a table twice keeps only the second replacement. */
  lemma {:induction false} ReplaceTwice(db: Db, tab: string, a: Table, b: Table)
    ensures db[tab := a][tab := b] == db[tab := b]
  {
  }

  /** `insert_record`: the record is stored under the id `rid` the allocator handed out. */
  function FileInsert(f: RecordFile, rec: Record, rid: Rid): (f': RecordFile)
    ensures FileValid(f, |rec|) ==> FileValid(f', |rec|)
    ensures rid in f'.records && f'.records[rid] == rec
    ensures forall r :: r != rid ==> SameAt(f.records, f'.records, r)
    ensures f'.changes == f.changes + 1
  {
    RecordFile(f.records[rid := rec], f.changes + 1)
  }

  /** `delete_record`. */
  function FileDelete(f: RecordFile, rid: Rid): (f': RecordFile)
    ensures forall size: nat :: FileValid(f, size) ==> FileValid(f', size)
    ensures rid !in f'.records
    ensures forall r :: r != rid ==> SameAt(f.records, f'.records, r)
    ensures f'.changes == f.changes + 1
  {
    RecordFile(f.records - {rid}, f.changes + 1)
  }

  /** `update_record`: the record keeps its id and gets the new bytes. */
  function FileUpdate(f: RecordFile, rid: Rid, rec: Record): (f': RecordFile)
    requires rid in f.records
    ensures FileValid(f, |rec|) ==> FileValid(f', |rec|)
    ensures f'.records.Keys == f.records.Keys && f'.changes == f.changes
    ensures f'.records[rid] == rec
    ensures forall r :: r != rid ==> SameAt(f.records, f'.records, r)
  {
    RecordFile(f.records[rid := rec], f.changes)
  }

  /** `insert_entry` on the `j`-th index of a table: `key` now maps to `rid` there. */
  function EntryInserted(t: Table, j: nat, key: Key, rid: Rid): (t': Table)
    requires j < |t.ixs|
    ensures t'.meta == t.meta && t'.file == t.file && |t'.ixs| == |t.ixs|
    ensures TableValid(t) ==> TableValid(t')
  {
    t.(ixs := t.ixs[j := t.ixs[j][key := rid]])
  }

  /** `delete_entry` on the `j`-th index of a table: `key` is no longer there. */
  function EntryDeleted(t: Table, j: nat, key: Key): (t': Table)
    requires j < |t.ixs|
    ensures t'.meta == t.meta && t'.file == t.file && |t'.ixs| == |t.ixs|
    ensures TableValid(t) ==> TableValid(t')
  {
    t.(ixs := t.ixs[j := t.ixs[j] - {key}])
  }

  /**
   The system manager's view of storage: per table its metadata (never
   changed here), its record file and the contents of its indexes.
   */
  class SmManager {
    var tables: Db
    /** The slot allocator shared by the record files. */
    const alloc: Allocator

    ghost predicate Valid()
      reads this
    {
      DbValid(tables) && Fresh(alloc)
    }

    /** A database whose tables are all empty. */
    constructor (metas: map<string, TabMeta>, alloc: Allocator)
      requires forall t :: t in metas ==> MetaValid(metas[t])
      requires Fresh(alloc)
      ensures Valid() && tables.Keys == metas.Keys && this.alloc == alloc
      ensures forall t :: t in metas ==>
        && tables[t].meta == metas[t] && tables[t].file.records == map[]
        && forall j :: 0 <= j < |tables[t].ixs| ==> tables[t].ixs[j] == map[]
    {
      this.alloc := alloc;
      tables := map t | t in metas :: Table(metas[t], RecordFile(map[], 0), seq(|metas[t].indexes|, _ => map[]));
    }

    /** `get_record`: the record at `rid`, or nothing when there is none (the source throws). */
    method GetRecord(tab: string, rid: Rid) returns (rec: Option<Record>)
      requires Valid() && tab in tables
      ensures rec.Some? <==> rid in tables[tab].file.records
      ensures rec.Some? ==> rec.value == tables[tab].file.records[rid] && |rec.value| == tables[tab].meta.recordSize
    {
      if rid in tables[tab].file.records {
        rec := Some(tables[tab].file.records[rid]);
      } else {
        rec := None;
      }
    }

    /** `insert_record`: stores the record under the id the allocator hands out and returns that id. */
    method InsertRecord(tab: string, rec: Record) returns (rid: Rid)
      requires Valid() && tab in tables && |rec| == tables[tab].meta.recordSize
      modifies this
      ensures Valid()
      ensures rid == alloc(old(tables[tab].file)) && rid !in old(tables[tab].file.records)
      ensures tables == old(tables[tab := tables[tab].(file := FileInsert(tables[tab].file, rec, rid))])
    {
      rid := alloc(tables[tab].file);
      tables := tables[tab := tables[tab].(file := FileInsert(tables[tab].file, rec, rid))];
    }

    method DeleteRecord(tab: string, rid: Rid)
      requires Valid() && tab in tables
      modifies this
      ensures Valid()
      ensures tables == old(tables[tab := tables[tab].(file := FileDelete(tables[tab].file, rid))])
    {
      tables := tables[tab := tables[tab].(file := FileDelete(tables[tab].file, rid))];
    }

    method UpdateRecord(tab: string, rid: Rid, rec: Record)
      requires Valid() && tab in tables && rid in tables[tab].file.records && |rec| == tables[tab].meta.recordSize
      modifies this
      ensures Valid()
      ensures tables == old(tables[tab := tables[tab].(file := FileUpdate(tables[tab].file, rid, rec))])
    {
      tables := tables[tab := tables[tab].(file := FileUpdate(tables[tab].file, rid, rec))];
    }

    /** `insert_entry` on the `j`-th index of the table. */
    method InsertEntry(tab: string, j: nat, key: Key, rid: Rid)
      requires Valid() && tab in tables && j < |tables[tab].ixs|
      modifies this
      ensures Valid()
      ensures tables == old(tables)[tab := EntryInserted(old(tables)[tab], j, key, rid)]
    {
      tables := tables[tab := EntryInserted(tables[tab], j, key, rid)];
    }

    /** `delete_entry` on the `j`-th index of the table. */
    method DeleteEntry(tab: string, j: nat, key: Key)
      requires Valid() && tab in tables && j < |tables[tab].ixs|
      modifies this
      ensures Valid()
      ensures tables == old(tables)[tab := EntryDeleted(old(tables)[tab], j, key)]
    {
      tables := tables[tab := EntryDeleted(tables[tab], j, key)];
    }
  }
}
