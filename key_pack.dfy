/**
 Composite index key packing. Every rollback routine of the transaction
 manager builds the lookup key of an index the same way: the byte range of
 each index column is copied out of the raw record, in index-column order,
 into one contiguous buffer whose meaningful length is the index's total
 column length.
 */
module KeyPack {

  newtype byte = x: int | 0 <= x < 0x100

  /** One index column: where it lives inside a raw record and how many bytes it has. */
  datatype ColMeta = ColMeta(offset: nat, len: nat)

  /** An index definition: its columns in key order and the total key length (`col_tot_len`). */
  datatype IndexMeta = IndexMeta(cols: seq<ColMeta>, colTotLen: nat)

  /** Sum of the column lengths, accumulated from the last column backwards. */
  function TotalLen(cols: seq<ColMeta>): nat
  {
    if cols == [] then 0 else TotalLen(cols[..|cols| - 1]) + cols[|cols| - 1].len
  }

  /** Every column range of the index lies inside a record of `size` bytes. */
  predicate Fits(idx: IndexMeta, size: nat)
  {
    forall k :: 0 <= k < |idx.cols| ==> idx.cols[k].offset + idx.cols[k].len <= size
  }

  /** The recorded total length is the sum of the column lengths. */
  predicate WellFormed(idx: IndexMeta)
  {
    idx.colTotLen == TotalLen(idx.cols)
  }

  /**
   The bytes of one column of a record. A column that does not lie inside
   the record reads as zero bytes of the column's length.
   */
  function Column(c: ColMeta, rec: seq<byte>): (bytes: seq<byte>)
    ensures |bytes| == c.len
  {
    seq(c.len, i requires 0 <= i < c.len => if c.offset + i < |rec| then rec[c.offset + i] else 0)
  }

  /** A column inside the record is exactly its byte range. */
  lemma {:induction false} ColumnIsSlice(c: ColMeta, rec: seq<byte>)
    requires c.offset + c.len <= |rec|
    ensures Column(c, rec) == rec[c.offset..c.offset + c.len]
  {
  }

  /** The key made of the given columns of `rec`, in order. */
  function PackCols(cols: seq<ColMeta>, rec: seq<byte>): (key: seq<byte>)
    ensures |key| == TotalLen(cols)
  {
    if cols == [] then []
    else PackCols(cols[..|cols| - 1], rec) + Column(cols[|cols| - 1], rec)
  }

  /**
   The composite key of index `idx` for record `rec`: as many bytes as the
   columns have together, which is `col_tot_len` for a well-formed index.
   */
  function PackKey(idx: IndexMeta, rec: seq<byte>): (key: seq<byte>)
    ensures |key| == TotalLen(idx.cols)
    ensures WellFormed(idx) ==> |key| == idx.colTotLen
  {
    PackCols(idx.cols, rec)
  }

  /** A prefix of the columns never has more bytes than all of them. */
  lemma {:induction false} TotalLenPrefix(cols: seq<ColMeta>, k: nat)
    requires k <= |cols|
    ensures TotalLen(cols[..k]) <= TotalLen(cols)
    decreases |cols|
  {
    if k < |cols| {
      assert cols[..|cols| - 1][..k] == cols[..k];
      TotalLenPrefix(cols[..|cols| - 1], k);
    } else {
      assert cols[..k] == cols;
    }
  }

  /** Packing a longer column list appends the new columns' key after the old one. */
  lemma {:induction false} PackColsAppend(a: seq<ColMeta>, b: seq<ColMeta>, rec: seq<byte>)
    ensures PackCols(a + b, rec) == PackCols(a, rec) + PackCols(b, rec)
    ensures TotalLen(a + b) == TotalLen(a) + TotalLen(b)
    decreases |b|
  {
    assert forall k :: 0 <= k < |a + b| ==> (a + b)[k] == if k < |a| then a[k] else b[k - |a|];
    if b == [] {
      assert a + b == a;
    } else {
      var b' := b[..|b| - 1];
      assert (a + b)[..|a + b| - 1] == a + b';
      PackColsAppend(a, b', rec);
    }
  }

  /** Where the key bytes of column `k` start: the total length of the columns before it. */
  function Start(cols: seq<ColMeta>, k: nat): nat
    requires k <= |cols|
  {
    TotalLen(cols[..k])
  }

  /** The bytes of the last column come right after the key of the columns before it. */
  lemma {:induction false} LastColumnAt(cols: seq<ColMeta>, rec: seq<byte>, i: nat)
    requires cols != [] && i < cols[|cols| - 1].len
    ensures TotalLen(cols[..|cols| - 1]) + i < |PackCols(cols, rec)|
    ensures PackCols(cols, rec)[TotalLen(cols[..|cols| - 1]) + i] == Column(cols[|cols| - 1], rec)[i]
  {
    var before, col := PackCols(cols[..|cols| - 1], rec), Column(cols[|cols| - 1], rec);
    assert PackCols(cols, rec) == before + col;
    assert (before + col)[|before| + i] == col[i];
  }

  /** Positions of column `k` inside the key of `cols`, by induction on the columns after it. */
  lemma {:induction false} PackColsAt(cols: seq<ColMeta>, rec: seq<byte>, k: nat, i: nat)
    requires k < |cols| && i < cols[k].len
    requires cols[k].offset + cols[k].len <= |rec|
    ensures TotalLen(cols[..k]) + i < |PackCols(cols, rec)|
    ensures PackCols(cols, rec)[TotalLen(cols[..k]) + i] == rec[cols[k].offset + i]
    decreases |cols|
  {
    var init := cols[..|cols| - 1];
    if k == |cols| - 1 {
      LastColumnAt(cols, rec, i);
    } else {
      assert init[..k] == cols[..k] && init[k] == cols[k];
      PackColsAt(init, rec, k, i);
      var before := PackCols(init, rec);
      assert PackCols(cols, rec) == before + Column(cols[|cols| - 1], rec);
      assert (before + Column(cols[|cols| - 1], rec))[TotalLen(cols[..k]) + i] == before[TotalLen(cols[..k]) + i];
    }
  }

  /**
   Byte-level meaning of the key: the `i`-th byte of column `k` of the record
   sits at position Start(k) + i of the key. With the key's length (the
   total column length, see PackCols) these positions determine it completely.
   */
  lemma {:induction false} PackKeyAt(idx: IndexMeta, rec: seq<byte>, k: nat, i: nat)
    requires k < |idx.cols| && i < idx.cols[k].len
    requires idx.cols[k].offset + idx.cols[k].len <= |rec|
    ensures Start(idx.cols, k) + i < |PackKey(idx, rec)|
    ensures PackKey(idx, rec)[Start(idx.cols, k) + i] == rec[idx.cols[k].offset + i]
  {
    PackColsAt(idx.cols, rec, k, i);
  }

  /**
   Keys built from records whose columns read the same are the same.
   */
  lemma {:induction false} PackColsDeterministic(cols: seq<ColMeta>, r1: seq<byte>, r2: seq<byte>)
    requires forall k :: 0 <= k < |cols| ==> Column(cols[k], r1) == Column(cols[k], r2)
    ensures PackCols(cols, r1) == PackCols(cols, r2)
    decreases |cols|
  {
    if cols != [] {
      var init := cols[..|cols| - 1];
      assert forall k :: 0 <= k < |init| ==> init[k] == cols[k];
      PackColsDeterministic(init, r1, r2);
      assert Column(cols[|cols| - 1], r1) == Column(cols[|cols| - 1], r2);
    }
  }

  /**
   The key depends only on the indexed byte ranges: two records that agree
   on every byte of every index column give byte-identical keys.
   */
  lemma {:induction false} PackKeyDeterministic(idx: IndexMeta, r1: seq<byte>, r2: seq<byte>)
    requires Fits(idx, |r1|) && Fits(idx, |r2|)
    requires forall k, p :: 0 <= k < |idx.cols| && idx.cols[k].offset <= p < idx.cols[k].offset + idx.cols[k].len ==> r1[p] == r2[p]
    ensures PackKey(idx, r1) == PackKey(idx, r2)
  {
    var cols := idx.cols;
    forall k | 0 <= k < |cols| ensures Column(cols[k], r1) == Column(cols[k], r2) {
      var c := cols[k];
      forall i | 0 <= i < c.len ensures Column(c, r1)[i] == Column(c, r2)[i] {
        assert r1[c.offset + i] == r2[c.offset + i];
      }
    }
    PackColsDeterministic(cols, r1, r2);
  }

  /** Columns laid out back to back from offset `from` on. */
  predicate Contiguous(cols: seq<ColMeta>, from: nat)
  {
    forall k :: 0 <= k < |cols| ==> cols[k].offset == from + TotalLen(cols[..k])
  }

  /**
   When the index columns tile the record contiguously from byte 0, the key
   is the record's prefix of TotalLen bytes: no separator and no padding is
   inserted between columns.
   */
  lemma {:induction false} ContiguousKeyIsPrefix(cols: seq<ColMeta>, rec: seq<byte>)
    requires Contiguous(cols, 0)
    requires TotalLen(cols) <= |rec|
    ensures forall k :: 0 <= k < |cols| ==> cols[k].offset + cols[k].len <= |rec|
    ensures PackCols(cols, rec) == rec[..TotalLen(cols)]
    decreases |cols|
  {
    forall k | 0 <= k < |cols| ensures cols[k].offset + cols[k].len <= |rec| {
      var front := cols[..k + 1];
      assert front[..k] == cols[..k];
      TotalLenPrefix(cols, k + 1);
    }
    if cols != [] {
      var init := cols[..|cols| - 1];
      forall k | 0 <= k < |init| ensures init[k].offset == TotalLen(init[..k]) {
        assert init[..k] == cols[..k];
      }
      assert TotalLen(init) <= TotalLen(cols);
      ContiguousKeyIsPrefix(init, rec);
      var last := cols[|cols| - 1];
      assert last.offset == TotalLen(init);
      ColumnIsSlice(last, rec);
      assert rec[..TotalLen(cols)] == rec[..TotalLen(init)] + rec[TotalLen(init)..TotalLen(cols)];
    }
  }

  /**
   The key of the two-column index (a 4-byte column at offset 0 followed by
   an 8-byte column at offset 4) over a 12-byte record is the whole record.
   */
  lemma {:induction false} TwoColumnKey(rec: seq<byte>)
    requires |rec| == 12
    ensures PackKey(IndexMeta([ColMeta(0, 4), ColMeta(4, 8)], 12), rec) == rec
  {
    var cols := [ColMeta(0, 4), ColMeta(4, 8)];
    assert cols[..1] == [ColMeta(0, 4)] && cols[..0] == [];
    assert Contiguous(cols, 0);
    ContiguousKeyIsPrefix(cols, rec);
  }

  /** Extending the packed columns by one more column appends that column's bytes. */
  lemma {:induction false} PackColsSnoc(cols: seq<ColMeta>, k: nat, rec: seq<byte>)
    requires k < |cols|
    ensures PackCols(cols[..k + 1], rec) == PackCols(cols[..k], rec) + Column(cols[k], rec)
    ensures TotalLen(cols[..k + 1]) == TotalLen(cols[..k]) + cols[k].len
  {
    assert cols[..k + 1][..k] == cols[..k];
  }

  /** After the bytes of column `c` have been copied at `curlen`, the filled prefix has grown by that column. */
  lemma {:induction false} ColumnCopied(s: seq<byte>, curlen: nat, c: ColMeta, rec: seq<byte>, done: seq<byte>)
    requires curlen + c.len <= |s| && c.offset + c.len <= |rec|
    requires s[..curlen] == done
    requires forall p :: curlen <= p < curlen + c.len ==> s[p] == rec[c.offset + (p - curlen)]
    ensures s[..curlen + c.len] == done + Column(c, rec)
  {
    forall p | 0 <= p < curlen + c.len
      ensures s[..curlen + c.len][p] == (done + Column(c, rec))[p]
    {
      if p >= curlen {
        assert s[p] == rec[c.offset + (p - curlen)];
      }
    }
  }

  /** Copies `len` bytes of `src` starting at `from` into `buf` at position `at` (the `memcpy`). */
  method Memcpy(buf: array<byte>, at: nat, src: seq<byte>, from: nat, len: nat)
    requires at + len <= buf.Length && from + len <= |src|
    modifies buf
    ensures forall p :: 0 <= p < buf.Length && !(at <= p < at + len) ==> buf[p] == old(buf[p])
    ensures forall p :: at <= p < at + len ==> buf[p] == src[from + (p - at)]
  {
    var i := 0;
    while i < len
      invariant 0 <= i <= len
      invariant forall p :: 0 <= p < buf.Length && !(at <= p < at + i) ==> buf[p] == old(buf[p])
      invariant forall p :: at <= p < at + i ==> buf[p] == src[from + (p - at)]
    {
      buf[at + i] := src[from + i];
      i := i + 1;
    }
  }

  /** One step of the packing loop: column `c` of `rec` is copied into `buf` at `curlen`. */
  method CopyColumn(buf: array<byte>, curlen: nat, c: ColMeta, rec: seq<byte>)
    requires curlen + c.len <= buf.Length && c.offset + c.len <= |rec|
    modifies buf
    ensures buf[..curlen + c.len] == old(buf[..curlen]) + Column(c, rec)
  {
    ghost var done := buf[..curlen];
    Memcpy(buf, curlen, rec, c.offset, c.len);
    assert buf[..curlen] == done;
    ColumnCopied(buf[..], curlen, c, rec, done);
  }

  /**
   The packing loop of the rollback routines: a buffer of `col_tot_len`
   bytes is filled column by column, each column copied at the running
   length `curlen`.
   */
  method CopyKey(idx: IndexMeta, rec: seq<byte>) returns (key: seq<byte>)
    requires Fits(idx, |rec|) && WellFormed(idx)
    ensures key == PackKey(idx, rec)
    ensures |key| == idx.colTotLen
  {
    var buf := new byte[idx.colTotLen];
    var curlen: nat := 0;
    var k := 0;
    while k < |idx.cols|
      invariant 0 <= k <= |idx.cols|
      invariant curlen == TotalLen(idx.cols[..k]) <= idx.colTotLen
      invariant buf[..curlen] == PackCols(idx.cols[..k], rec)
    {
      var c := idx.cols[k];
      PackColsSnoc(idx.cols, k, rec);
      TotalLenPrefix(idx.cols, k + 1);
      CopyColumn(buf, curlen, c, rec);
      curlen := curlen + c.len;
      k := k + 1;
    }
    assert idx.cols[..k] == idx.cols;
    key := buf[..curlen];
  }
}
