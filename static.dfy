/**
 * The static table of the current engine: after the 10-byte version header,
 * rows of `1 + columnBytes` bytes follow one another, each a tombstone byte
 * and then the columns in schema order. Rows are only ever appended; a
 * delete clears the tombstone.
 */
module Static {
  import opened Bytes
  import opened Binary
  import opened Values
  import opened Column
  import opened Schema
  import opened Header
  import RowCodec

  /** `convertRowNumToOffset`. */
  function RowNumToOffset(columnBytes: nat, rowNum: int): int
  {
    rowNum * (columnBytes + 1) + HEADER
  }

  /** `convertOffsetToRowNum`, with Go's truncating division. */
  function OffsetToRowNum(columnBytes: nat, offset: int): int
  {
    Quot(offset - HEADER, columnBytes + 1)
  }

  /** `searchLastRowNum`: the number of whole rows, which is also where the next row goes. */
  function RowCount(columnBytes: nat, data: seq<byte>): int
  {
    OffsetToRowNum(columnBytes, |data|)
  }

  /** Converting a row number to its offset and back gives the row number. */
  lemma OffsetRoundTrip(columnBytes: nat, rowNum: nat)
    ensures OffsetToRowNum(columnBytes, RowNumToOffset(columnBytes, rowNum)) == rowNum
  {
    DivUnique(rowNum * (columnBytes + 1), columnBytes + 1, rowNum);
  }

  /** In a file that holds its header, the row count is the number of whole strides after it. */
  lemma RowCountBounds(columnBytes: nat, data: seq<byte>)
    requires |data| >= HEADER
    ensures RowCount(columnBytes, data) >= 0
    ensures HEADER <= RowNumToOffset(columnBytes, RowCount(columnBytes, data)) <= |data|
    ensures |data| < RowNumToOffset(columnBytes, RowCount(columnBytes, data)) + columnBytes + 1
  {
    var n := RowCount(columnBytes, data);
    assert n * (columnBytes + 1) >= 0;
  }

  /** A file that ends inside stride `n` holds `n` rows. */
  lemma RowCountIs(columnBytes: nat, data: seq<byte>, n: nat)
    requires RowNumToOffset(columnBytes, n) <= |data| < RowNumToOffset(columnBytes, n) + columnBytes + 1
    ensures RowCount(columnBytes, data) == n
  {
    DivUnique(|data| - HEADER, columnBytes + 1, n);
  }

  /** The file after a `WriteRow`, and its result. */
  datatype Written = Written(data: seq<byte>, result: Result<int>)

  /**
   * `WriteRow`: at the offset of row `RowCount`, the tombstone `ROW_NORMAL`,
   * then the column images up to the first failure; the row number on
   * success.
   */
  function WriteRowSpec(cols: seq<ColumnType>, columnBytes: nat, data: seq<byte>, row: Row): Written
    requires |data| >= HEADER
  {
    RowCountBounds(columnBytes, data);
    var n := RowCount(columnBytes, data);
    var e := RowCodec.EncodePrefix(Latest, cols, row);
    Written(Overwrite(data, RowNumToOffset(columnBytes, n), [ROW_NORMAL] + e.bytes),
            if e.err == None then Ok(n) else Err(e.err.value))
  }

  /** The row whose tombstone is at `off`: the tombstone, then the columns after it. */
  function ReadRowAt(cols: seq<ColumnType>, data: seq<byte>, off: int): Result<Row>
  {
    var t := ReadBytes(data, 1, off);
    if t.err.Some? then Err(t.err.value)
    else if t.buf[0] == ROW_DELETED then Err(DeletedRow)
    else RowCodec.DecodeColumns(Latest, cols, data, off + 1)
  }

  /** `ReadRow`: the bounds check, then the row at the row number's offset. */
  function ReadRowSpec(cols: seq<ColumnType>, columnBytes: nat, data: seq<byte>, rowNum: int): Result<Row>
  {
    if rowNum > RowCount(columnBytes, data) || rowNum < 0 then Err(OutOfRowIndex)
    else ReadRowAt(cols, data, RowNumToOffset(columnBytes, rowNum))
  }

  /** The file after a `DeleteRow`, and the error reported. */
  datatype Deleted = Deleted(data: seq<byte>, err: Option<Error>)

  /** `DeleteRow`: the bounds check, then `ROW_DELETED` over the row's tombstone. */
  function DeleteRowSpec(columnBytes: nat, data: seq<byte>, rowNum: int): Deleted
  {
    if rowNum > RowCount(columnBytes, data) || rowNum < 0 then Deleted(data, Some(OutOfRowIndex))
    else Deleted(Overwrite(data, RowNumToOffset(columnBytes, rowNum), [ROW_DELETED]), None)
  }

  /** A row every column of which can be written and read back in place. */
  predicate Storable(cols: seq<ColumnType>, row: Row)
  {
    forall i :: 0 <= i < |cols| ==>
      RowCodec.Image(Latest, cols[i], row).Ok? && (cols[i].name in row ==> Readable(row[cols[i].name]))
  }

  /** In a schema without flexible columns every image that succeeds fills its column. */
  lemma ImagesFit(cols: seq<ColumnType>, row: Row)
    requires PositiveWidths(cols)
    ensures forall i :: 0 <= i < |cols| ==> RowCodec.WidthOf(Latest, cols[i]) > 0
    ensures forall i :: 0 <= i < |cols| && RowCodec.Image(Latest, cols[i], row).Ok? ==>
              |RowCodec.Image(Latest, cols[i], row).value| == RowCodec.WidthOf(Latest, cols[i])
    ensures forall i :: 0 <= i < |cols| ==> RowCodec.NilFitsWidth(Latest, cols[i])
  {
    forall i | 0 <= i < |cols| && RowCodec.Image(Latest, cols[i], row).Ok?
      ensures |RowCodec.Image(Latest, cols[i], row).value| == RowCodec.WidthOf(Latest, cols[i])
    {
      if cols[i].name in row {
        EncodeLength(cols[i], row[cols[i].name]);
      }
    }
  }

  /**
   * A write of a storable row in a schema without flexible columns succeeds
   * with the old row count, adds exactly one row, and reading that row back
   * gives every column of the schema with the value written (or the column's
   * zero value when the row had none).
   */
  lemma WriteThenRead(cols: seq<ColumnType>, columnBytes: nat, data: seq<byte>, row: Row)
    requires CheckColumns(cols) == Ok(columnBytes) && PositiveWidths(cols)
    requires |data| >= HEADER && Storable(cols, row)
    ensures WriteRowSpec(cols, columnBytes, data, row).result == Ok(RowCount(columnBytes, data))
    ensures RowCount(columnBytes, WriteRowSpec(cols, columnBytes, data, row).data) == RowCount(columnBytes, data) + 1
    ensures ReadRowSpec(cols, columnBytes, WriteRowSpec(cols, columnBytes, data, row).data, RowCount(columnBytes, data)).Ok?
    ensures ReadRowSpec(cols, columnBytes, WriteRowSpec(cols, columnBytes, data, row).data, RowCount(columnBytes, data)).value
            == RowCodec.ExpectedRow(Latest, ReadBackValue, cols, row)
  {
    WrittenRow(cols, columnBytes, data, row);
    forall i | 0 <= i < |cols| ensures RowCodec.Aligned(Latest, ReadBackValue, cols[i], row) {
      FixedWidthAligned(cols[i], row);
    }
    RowCodec.DecodeWritten(Latest, ReadBackValue, cols, row, WriteRowSpec(cols, columnBytes, data, row).data,
                           RowNumToOffset(columnBytes, RowCount(columnBytes, data)) + 1);
    ReadLiveRow(cols, columnBytes, WriteRowSpec(cols, columnBytes, data, row).data, RowCount(columnBytes, data));
  }

  /** A clean write of a storable row puts down exactly the row's width. */
  lemma CleanImage(cols: seq<ColumnType>, columnBytes: nat, row: Row)
    requires CheckColumns(cols) == Ok(columnBytes) && PositiveWidths(cols) && Storable(cols, row)
    ensures RowCodec.EncodePrefix(Latest, cols, row).err == None
    ensures |RowCodec.EncodePrefix(Latest, cols, row).bytes| == columnBytes == RowCodec.WidthSum(Latest, cols)
  {
    CheckColumnsWidth(cols);
    ImagesFit(cols, row);
    RowCodec.EncodePrefixWidth(Latest, cols, row);
  }

  /** Where a clean write of a full-width row puts its bytes. */
  lemma WrittenRow(cols: seq<ColumnType>, columnBytes: nat, data: seq<byte>, row: Row)
    requires CheckColumns(cols) == Ok(columnBytes) && PositiveWidths(cols)
    requires |data| >= HEADER && Storable(cols, row)
    ensures var n := RowCount(columnBytes, data);
            var off := RowNumToOffset(columnBytes, n);
            var d := WriteRowSpec(cols, columnBytes, data, row).data;
            && n >= 0 && 0 <= off && off + 1 + columnBytes == |d|
            && WriteRowSpec(cols, columnBytes, data, row).result == Ok(n)
            && RowCount(columnBytes, d) == n + 1
            && d[off] == ROW_NORMAL
            && columnBytes == RowCodec.WidthSum(Latest, cols)
            && |RowCodec.EncodePrefix(Latest, cols, row).bytes| == columnBytes
            && Holds(d, off + 1, RowCodec.EncodePrefix(Latest, cols, row).bytes)
  {
    RowCountBounds(columnBytes, data);
    CleanImage(cols, columnBytes, row);
    var n := RowCount(columnBytes, data);
    var off := RowNumToOffset(columnBytes, n);
    var e := RowCodec.EncodePrefix(Latest, cols, row).bytes;
    var d := Overwrite(data, off, [ROW_NORMAL] + e);
    PlaceAtEnd(data, off, ROW_NORMAL, e);
    OffsetNext(columnBytes, n);
    RowCountIs(columnBytes, d, n + 1);
  }

  /** A tombstone and a body written over the end of a file, from an offset inside it. */
  lemma PlaceAtEnd(data: seq<byte>, off: nat, t: byte, e: seq<byte>)
    requires off <= |data| <= off + 1 + |e|
    ensures |Overwrite(data, off, [t] + e)| == off + 1 + |e|
    ensures Overwrite(data, off, [t] + e)[off] == t
    ensures Overwrite(data, off, [t] + e)[off + 1..off + 1 + |e|] == e
  {
    var d := Overwrite(data, off, [t] + e);
    assert d[off] == ([t] + e)[0];
    forall i | 0 <= i < |e| ensures d[off + 1..off + 1 + |e|][i] == e[i] {
      assert d[off + 1 + i] == ([t] + e)[1 + i];
    }
  }

  /** The tombstone written first and the columns written after it make up one `WriteRowSpec`. */
  lemma WriteRowInPieces(cols: seq<ColumnType>, columnBytes: nat, data: seq<byte>, row: Row, mid: seq<byte>, after: seq<byte>)
    requires |data| >= HEADER
    requires RowNumToOffset(columnBytes, RowCount(columnBytes, data)) >= HEADER
    requires mid == Overwrite(data, RowNumToOffset(columnBytes, RowCount(columnBytes, data)), [ROW_NORMAL])
    requires after == Overwrite(mid, RowNumToOffset(columnBytes, RowCount(columnBytes, data)) + 1,
                                RowCodec.EncodePrefix(Latest, cols, row).bytes)
    ensures after == WriteRowSpec(cols, columnBytes, data, row).data
    ensures |after| >= HEADER
  {
    TombstoneThenBody(data, RowNumToOffset(columnBytes, RowCount(columnBytes, data)),
                      RowCodec.EncodePrefix(Latest, cols, row).bytes, mid, after);
  }

  lemma TombstoneThenBody(data: seq<byte>, off: nat, e: seq<byte>, mid: seq<byte>, after: seq<byte>)
    requires mid == Overwrite(data, off, [ROW_NORMAL]) && after == Overwrite(mid, off + 1, e)
    ensures after == Overwrite(data, off, [ROW_NORMAL] + e)
  {
    OverwriteAppend(data, off, [ROW_NORMAL], e);
  }

  /** A row in range whose tombstone is `ROW_NORMAL` reads as its columns. */
  lemma ReadLiveRow(cols: seq<ColumnType>, columnBytes: nat, data: seq<byte>, rowNum: int)
    requires 0 <= rowNum <= RowCount(columnBytes, data)
    requires 0 <= RowNumToOffset(columnBytes, rowNum) < |data|
    requires data[RowNumToOffset(columnBytes, rowNum)] == ROW_NORMAL
    ensures ReadRowSpec(cols, columnBytes, data, rowNum) ==
            RowCodec.DecodeColumns(Latest, cols, data, RowNumToOffset(columnBytes, rowNum) + 1)
  {
  }

  /**
   * The row a clean write reads back has exactly the schema's columns, each
   * with the value written, integers widened to int64, or the column's zero
   * value.
   */
  lemma ReadBackColumns(cols: seq<ColumnType>, row: Row)
    requires CheckColumns(cols).Ok?
    ensures RowCodec.ExpectedRow(Latest, ReadBackValue, cols, row).Keys == NameSet(cols)
    ensures forall i :: 0 <= i < |cols| ==>
              RowCodec.ExpectedRow(Latest, ReadBackValue, cols, row)[cols[i].name] ==
              if cols[i].name in row then Canonical(row[cols[i].name]) else ZeroValue(cols[i])
  {
    CheckColumnsOk(cols);
    RowCodec.ExpectedRowAt(Latest, ReadBackValue, cols, row);
  }

  /** Successive writes to a fresh table are numbered 0 and then 1. */
  lemma WritesAreNumbered(cols: seq<ColumnType>, columnBytes: nat, data: seq<byte>, r1: Row, r2: Row)
    requires CheckColumns(cols) == Ok(columnBytes) && PositiveWidths(cols)
    requires |data| == HEADER && Storable(cols, r1) && Storable(cols, r2)
    ensures WriteRowSpec(cols, columnBytes, data, r1).result == Ok(0)
    ensures WriteRowSpec(cols, columnBytes, WriteRowSpec(cols, columnBytes, data, r1).data, r2).result == Ok(1)
  {
    RowCountIs(columnBytes, data, 0);
    WriteThenRead(cols, columnBytes, data, r1);
    WriteThenRead(cols, columnBytes, WriteRowSpec(cols, columnBytes, data, r1).data, r2);
  }

  /**
   * A write that fails on a column has already put down the tombstone and the
   * columns before it, but less than a whole row, so the row count is
   * unchanged and the next write reuses the slot.
   */
  lemma FailedWriteKeepsCount(cols: seq<ColumnType>, columnBytes: nat, data: seq<byte>, row: Row)
    requires CheckColumns(cols) == Ok(columnBytes) && PositiveWidths(cols)
    requires |data| >= HEADER
    requires WriteRowSpec(cols, columnBytes, data, row).result.Err?
    ensures RowCount(columnBytes, WriteRowSpec(cols, columnBytes, data, row).data) == RowCount(columnBytes, data)
  {
    RowCountBounds(columnBytes, data);
    CheckColumnsWidth(cols);
    ImagesFit(cols, row);
    RowCodec.EncodePrefixShort(Latest, cols, row);
    var n := RowCount(columnBytes, data);
    RowCountIs(columnBytes, WriteRowSpec(cols, columnBytes, data, row).data, n);
  }

  lemma OffsetMono(columnBytes: nat, a: int, b: int)
    requires a < b
    ensures RowNumToOffset(columnBytes, a) + columnBytes + 1 <= RowNumToOffset(columnBytes, b)
  {
    MulMono(a + 1, b, columnBytes + 1);
  }

  lemma OffsetNext(columnBytes: nat, n: int)
    ensures RowNumToOffset(columnBytes, n + 1) == RowNumToOffset(columnBytes, n) + columnBytes + 1
  {
  }

  lemma OffsetAtLeastHeader(columnBytes: nat, n: int)
    requires n >= 0
    ensures RowNumToOffset(columnBytes, n) >= HEADER
  {
    MulMono(0, n, columnBytes + 1);
  }

  /** A longer file never holds fewer rows. */
  lemma CountMono(columnBytes: nat, d1: seq<byte>, d2: seq<byte>)
    requires HEADER <= |d1| <= |d2|
    ensures RowCount(columnBytes, d1) <= RowCount(columnBytes, d2)
  {
    RowCountBounds(columnBytes, d1);
    RowCountBounds(columnBytes, d2);
    if RowCount(columnBytes, d2) < RowCount(columnBytes, d1) {
      OffsetMono(columnBytes, RowCount(columnBytes, d2), RowCount(columnBytes, d1));
    }
  }

  /** Reading a row depends only on the bytes of its stride. */
  lemma RowFrameAt(cols: seq<ColumnType>, columnBytes: nat, d1: seq<byte>, d2: seq<byte>, lo: nat)
    requires CheckColumns(cols) == Ok(columnBytes) && PositiveWidths(cols)
    requires lo + columnBytes + 1 <= |d1| && lo + columnBytes + 1 <= |d2|
    requires d1[lo..lo + columnBytes + 1] == d2[lo..lo + columnBytes + 1]
    ensures ReadRowAt(cols, d1, lo) == ReadRowAt(cols, d2, lo)
  {
    CheckColumnsWidth(cols);
    ImagesFit(cols, map[]);
    var hi := lo + columnBytes + 1;
    SubSlices(d1, lo, lo + 1, hi);
    SubSlices(d2, lo, lo + 1, hi);
    RowCodec.DecodeFrame(Latest, cols, d1, d2, lo + 1);
    ReadFrame(d1, d2, 1, lo);
  }

  /** A write does not change what any existing row reads as. */
  lemma WriteKeepsRows(cols: seq<ColumnType>, columnBytes: nat, data: seq<byte>, row: Row, m: int)
    requires CheckColumns(cols) == Ok(columnBytes) && PositiveWidths(cols)
    requires |data| >= HEADER && 0 <= m < RowCount(columnBytes, data)
    ensures ReadRowSpec(cols, columnBytes, WriteRowSpec(cols, columnBytes, data, row).data, m)
            == ReadRowSpec(cols, columnBytes, data, m)
  {
    RowCountBounds(columnBytes, data);
    var n := RowCount(columnBytes, data);
    var d := WriteRowSpec(cols, columnBytes, data, row).data;
    var lo := RowNumToOffset(columnBytes, m);
    var hi := lo + columnBytes + 1;
    OffsetMono(columnBytes, m, n);
    OffsetAtLeastHeader(columnBytes, m);
    OverwriteOutside(data, RowNumToOffset(columnBytes, n), [ROW_NORMAL] + RowCodec.EncodePrefix(Latest, cols, row).bytes, lo, hi);
    CountMono(columnBytes, data, d);
    RowFrameAt(cols, columnBytes, data, d, lo);
  }

  /** After a delete of an in-range row, reading it reports a deleted row. */
  lemma DeleteThenRead(cols: seq<ColumnType>, columnBytes: nat, data: seq<byte>, rowNum: int)
    requires |data| >= HEADER && 0 <= rowNum <= RowCount(columnBytes, data)
    ensures DeleteRowSpec(columnBytes, data, rowNum).err == None
    ensures ReadRowSpec(cols, columnBytes, DeleteRowSpec(columnBytes, data, rowNum).data, rowNum) == Err(DeletedRow)
  {
    var off := RowNumToOffset(columnBytes, rowNum);
    OffsetAtLeastHeader(columnBytes, rowNum);
    var d := Overwrite(data, off, [ROW_DELETED]);
    OverwriteSlice(data, off, [ROW_DELETED]);
    CountMono(columnBytes, data, d);
    assert ReadRowAt(cols, d, off) == Err(DeletedRow);
  }

  /** A delete changes no other row's reading. */
  lemma DeleteKeepsRows(cols: seq<ColumnType>, columnBytes: nat, data: seq<byte>, rowNum: int, m: int)
    requires CheckColumns(cols) == Ok(columnBytes) && PositiveWidths(cols)
    requires |data| >= HEADER && 0 <= m < RowCount(columnBytes, data) && m != rowNum
    ensures ReadRowSpec(cols, columnBytes, DeleteRowSpec(columnBytes, data, rowNum).data, m)
            == ReadRowSpec(cols, columnBytes, data, m)
  {
    var d := DeleteRowSpec(columnBytes, data, rowNum).data;
    if d != data {
      RowCountBounds(columnBytes, data);
      var off := RowNumToOffset(columnBytes, rowNum);
      var lo := RowNumToOffset(columnBytes, m);
      OffsetMono(columnBytes, m, RowCount(columnBytes, data));
      OffsetAtLeastHeader(columnBytes, rowNum);
      OffsetAtLeastHeader(columnBytes, m);
      if rowNum < m {
        OffsetMono(columnBytes, rowNum, m);
      } else {
        OffsetMono(columnBytes, m, rowNum);
      }
      OverwriteOutside(data, off, [ROW_DELETED], lo, lo + columnBytes + 1);
      CountMono(columnBytes, data, d);
      RowFrameAt(cols, columnBytes, data, d, lo);
    }
  }

  /**
   * Row number `RowCount` passes the bounds check: in a file that ends on a
   * row boundary, reading it fails only at the file read, and deleting it
   * succeeds by appending a lone tombstone, which leaves the count unchanged
   * whenever rows are wider than that byte, and is a new row of an empty
   * schema, whose rows are that byte alone.
   */
  lemma RowCountPassesCheck(cols: seq<ColumnType>, columnBytes: nat, data: seq<byte>)
    requires |data| >= HEADER && |data| == RowNumToOffset(columnBytes, RowCount(columnBytes, data))
    ensures ReadRowSpec(cols, columnBytes, data, RowCount(columnBytes, data)) == Err(EOF)
    ensures DeleteRowSpec(columnBytes, data, RowCount(columnBytes, data)) == Deleted(data + [ROW_DELETED], None)
    ensures columnBytes > 0 ==> RowCount(columnBytes, data + [ROW_DELETED]) == RowCount(columnBytes, data)
    ensures columnBytes == 0 ==> RowCount(columnBytes, data + [ROW_DELETED]) == RowCount(columnBytes, data) + 1
  {
    RowCountBounds(columnBytes, data);
    var n := RowCount(columnBytes, data);
    assert Overwrite(data, |data|, [ROW_DELETED]) == data + [ROW_DELETED];
    if columnBytes > 0 {
      RowCountIs(columnBytes, data + [ROW_DELETED], n);
    } else {
      RowCountIs(columnBytes, data + [ROW_DELETED], n + 1);
    }
  }

  /** The static table: an open file (or `null` once closed), its version and its schema. */
  class TableStatic {
    var tablefile: File?
    var fileVersion: int
    var columnTypes: seq<ColumnType>
    var columnBytes: int

    /** The schema passed `setColumns`, and an open file holds at least its header. */
    ghost predicate Valid()
      reads this, tablefile
    {
      CheckColumns(columnTypes) == Ok(columnBytes) && (tablefile != null ==> |tablefile.bytes| >= HEADER)
    }

    constructor ()
      ensures Valid() && tablefile == null && columnTypes == [] && columnBytes == 0
    {
      tablefile := null;
      fileVersion := 0;
      columnTypes := [];
      columnBytes := 0;
    }

    /** `Close`: drops the file; closing a closed table is not an error. */
    method Close() returns (err: Option<Error>)
      requires Valid()
      modifies this
      ensures Valid() && err == None && tablefile == null
      ensures fileVersion == old(fileVersion) && columnTypes == old(columnTypes) && columnBytes == old(columnBytes)
    {
      tablefile := null;
      return None;
    }

    /** `setColumns`: records the schema and its width, or reports why it is refused and changes nothing. */
    method SetColumns(cols: seq<ColumnType>) returns (err: Option<Error>)
      requires Valid()
      modifies this
      ensures Valid()
      ensures tablefile == old(tablefile) && fileVersion == old(fileVersion)
      ensures CheckColumns(cols).Ok? ==> err == None && columnTypes == cols && columnBytes == CheckColumns(cols).value
      ensures CheckColumns(cols).Err? ==>
                err == Some(CheckColumns(cols).error) &&
                columnTypes == old(columnTypes) && columnBytes == old(columnBytes)
    {
      var total := 0;
      var flags: set<string> := {};
      var i := 0;
      while i < |cols|
        invariant 0 <= i <= |cols|
        invariant unchanged(this)
        invariant flags == NameSet(cols[..i])
        invariant CheckColumns(cols[..i]) == Ok(total)
      {
        var c := cols[i];
        CheckStep(cols, i);
        if c.name in flags {
          CheckColumnsStops(cols, i + 1);
          return Some(SameColumnName);
        }
        flags := flags + {c.name};
        var num := GetBytes(c);
        if num.Err? {
          CheckColumnsStops(cols, i + 1);
          return Some(num.error);
        }
        total := total + num.value;
        i := i + 1;
      }
      assert cols[..|cols|] == cols;
      columnTypes := cols;
      columnBytes := total;
      return None;
    }

    /** `openTableFile` on an opened file `f`: the header check, or a new header on a short file. */
    method OpenTableFile(f: File) returns (err: Option<Error>)
      requires Valid()
      modifies this, f
      ensures Valid() && tablefile == f
      ensures columnTypes == old(columnTypes) && columnBytes == old(columnBytes)
      ensures f.bytes == OpenHeader(old(f.bytes), STATIC1).data
      ensures fileVersion == OpenHeader(old(f.bytes), STATIC1).version
      ensures err == OpenHeader(old(f.bytes), STATIC1).err
    {
      tablefile := f;
      var rd := f.ReadAt(HEADER, 0);
      if rd.err.Some? {
        fileVersion := STATIC1;
        var b := PutVarintInto(rd.buf, fileVersion);
        var num, werr := f.WriteAt(b, 0);
        return None;
      }
      var d := Varint(rd.buf);
      fileVersion := d.value;
      if d.n == 0 {
        return Some(FailedToReadFileVersion);
      }
      if fileVersion != STATIC1 {
        return Some(FileVersionNotCorrect);
      }
      return None;
    }

    /** `searchLastRowNum`. */
    method SearchLastRowNum() returns (r: Result<int>)
      requires Valid()
      ensures tablefile == null ==> r == Err(InvalidFile)
      ensures tablefile != null ==> r == Ok(RowCount(columnBytes, tablefile.bytes)) && r.value >= 0
    {
      if tablefile == null {
        return Err(InvalidFile);
      }
      RowCountBounds(columnBytes, tablefile.bytes);
      return Ok(OffsetToRowNum(columnBytes, tablefile.Size()));
    }

    /** `WriteRow`: one `WriteAt` for the tombstone and one per column, as `WriteRowSpec` says. */
    method WriteRow(row: Row) returns (r: Result<int>)
      requires Valid()
      modifies tablefile
      ensures Valid()
      ensures tablefile == null ==> r == Err(InvalidFile)
      ensures tablefile != null ==>
                tablefile.bytes == WriteRowSpec(columnTypes, columnBytes, old(tablefile.bytes), row).data &&
                r == WriteRowSpec(columnTypes, columnBytes, old(tablefile.bytes), row).result
    {
      var rowNum := SearchLastRowNum();
      if rowNum.Err? {
        return Err(rowNum.error);
      }
      r := AppendRow(tablefile, columnTypes, columnBytes, row);
    }

    /** The body of `WriteRow` once the row number is known: the tombstone, then the column loop. */
    static method AppendRow(f: File, cols: seq<ColumnType>, columnBytes: nat, row: Row) returns (r: Result<int>)
      requires |f.bytes| >= HEADER
      modifies f
      ensures f.bytes == WriteRowSpec(cols, columnBytes, old(f.bytes), row).data
      ensures r == WriteRowSpec(cols, columnBytes, old(f.bytes), row).result
    {
      RowCountBounds(columnBytes, f.bytes);
      ghost var start := f.bytes;
      var rowNum := OffsetToRowNum(columnBytes, f.Size());
      var targetOff := RowNumToOffset(columnBytes, rowNum);
      var num, err := f.WriteAt([ROW_NORMAL], targetOff);
      ghost var mid := f.bytes;
      var cerr := RowCodec.WriteColumnsAt(Latest, f, cols, targetOff + num, row);
      WriteRowInPieces(cols, columnBytes, start, row, mid, f.bytes);
      if cerr.Some? {
        return Err(cerr.value);
      }
      return Ok(rowNum);
    }

    /** `ReadRow`: the bounds check, the tombstone, then one read per column, as `ReadRowSpec` says. */
    method ReadRow(rowNum: int) returns (r: Result<Row>)
      requires Valid()
      ensures tablefile == null ==> r == Err(InvalidFile)
      ensures tablefile != null ==> r == ReadRowSpec(columnTypes, columnBytes, tablefile.bytes, rowNum)
    {
      var lastRowNum := SearchLastRowNum();
      if lastRowNum.Err? {
        return Err(lastRowNum.error);
      }
      if rowNum > lastRowNum.value || rowNum < 0 {
        return Err(OutOfRowIndex);
      }
      var f := tablefile;
      var targetOff := RowNumToOffset(columnBytes, rowNum);
      var t := f.ReadAt(1, targetOff);
      if t.err.Some? {
        return Err(t.err.value);
      }
      if t.buf[0] == ROW_DELETED {
        return Err(DeletedRow);
      }
      r := RowCodec.ReadColumnsAt(Latest, f, columnTypes, targetOff + 1);
    }

    /** `DeleteRow`: the bounds check, then the tombstone, as `DeleteRowSpec` says. */
    method DeleteRow(rowNum: int) returns (err: Option<Error>)
      requires Valid()
      modifies tablefile
      ensures Valid()
      ensures tablefile == null ==> err == Some(InvalidFile)
      ensures tablefile != null ==>
                tablefile.bytes == DeleteRowSpec(columnBytes, old(tablefile.bytes), rowNum).data &&
                err == DeleteRowSpec(columnBytes, old(tablefile.bytes), rowNum).err
    {
      var lastRowNum := SearchLastRowNum();
      if lastRowNum.Err? {
        return Some(lastRowNum.error);
      }
      if rowNum > lastRowNum.value || rowNum < 0 {
        return Some(OutOfRowIndex);
      }
      var targetOff := RowNumToOffset(columnBytes, rowNum);
      assert targetOff >= 0 by { MulMono(0, rowNum, columnBytes + 1); }
      var num, werr := tablefile.WriteAt([ROW_DELETED], targetOff);
      return None;
    }
  }
}
