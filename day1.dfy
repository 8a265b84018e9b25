/**
 * The day1 snapshot of the single-file engine, the first version of the
 * table. A column is a name and a type name ("int64", "float64",
 * "string256" or "time"), the widths are summed into an unsigned
 * `columnBytes`, and `WriteRow` takes a raw file offset: `Update` and
 * `Delete` compute a row's offset from its number, while `Insert` writes at
 * the end of the file and returns the row number the end falls in.
 *
 * Each column is converted and written in turn after the live tombstone, so
 * a row that fails to convert leaves a partial row behind.
 */
module Day1 {
  import opened Bytes
  import opened Binary
  import opened Values
  import opened Header
  import opened Legacy
  import Column
  import RowCodec
  import Stride
  import Static

  /** A day1 column: a name and a type name. */
  datatype ColumnType = ColumnType(name: string, typ: string)

  /** The kind a day1 type name stands for; any other name is unknown. */
  function KindOf(c: ColumnType): Kind
  {
    if c.typ == "int64" then Int64Kind
    else if c.typ == "float64" then Float64Kind
    else if c.typ == "string256" then String256Kind
    else if c.typ == "time" then TimeKind
    else UnknownKind
  }

  function Day1Name(c: ColumnType): string { c.name }
  function Day1Width(c: ColumnType): Result<int> { Width(KindOf(c)) }
  function Day1Nil(c: ColumnType): Result<seq<byte>> { Nil(KindOf(c)) }
  function Day1Encode(c: ColumnType, v: Value): Result<seq<byte>> { Convert(c.name, KindOf(c), v) }
  function Day1Decode(c: ColumnType, b: seq<byte>): Result<Value> { ConvertVal(c.name, KindOf(c), b) }

  /** `GetBytes`, `GetNil`, `ConvertBytes` and `ConvertVal` of day1. */
  const Day1Codec: RowCodec.Codec<ColumnType> := RowCodec.Codec(Day1Name, Day1Width, Day1Nil, Day1Encode, Day1Decode)

  /**
   * The four type names are exactly the names the mismatch errors carry:
   * a column is of a known kind if and only if its type name is that kind's
   * name, and `GetBytes` gives 10, 8, 256 or 15 bytes for them.
   */
  lemma TypeNames(c: ColumnType)
    ensures KindOf(c) != UnknownKind <==> c.typ in {"int64", "float64", "string256", "time"}
    ensures KindOf(c) != UnknownKind ==> KindName(KindOf(c)) == c.typ
    ensures Day1Width(c) ==
            if c.typ == "int64" then Ok(10)
            else if c.typ == "float64" then Ok(8)
            else if c.typ == "string256" then Ok(256)
            else if c.typ == "time" then Ok(15)
            else Err(TypeNotValid)
  {
  }

  /** What column `c` of a cleanly written row reads back as. */
  function Day1ReadBack(c: ColumnType, row: Row): Value
  {
    if c.name in row then row[c.name] else ZeroValue(KindOf(c))
  }

  /** Every column is of a known type, and the row holds for it only a value the column gives back. */
  predicate RowFits(cols: seq<ColumnType>, row: Row)
  {
    forall i :: 0 <= i < |cols| ==>
      KindOf(cols[i]) != UnknownKind && (cols[i].name in row ==> Storable(KindOf(cols[i]), row[cols[i].name]))
  }

  /** A schema `SetColumns` accepts, `columnBytes` wide. */
  predicate Accepted(cols: seq<ColumnType>, columnBytes: nat)
  {
    Stride.SumWidths(Day1Codec, cols) == Stride.Summed(columnBytes, None)
  }

  /** A column of a known type writes and reads back a storable value in place, and its nil cell is its width. */
  lemma Day1Aligned(c: ColumnType, row: Row)
    requires KindOf(c) != UnknownKind && (c.name in row ==> Storable(KindOf(c), row[c.name]))
    ensures RowCodec.Aligned(Day1Codec, Day1ReadBack, c, row)
    ensures RowCodec.NilFitsWidth(Day1Codec, c)
  {
    CellWidths(c.name, KindOf(c), I64(0));
    if c.name in row {
      CellWidths(c.name, KindOf(c), row[c.name]);
      ConvertRoundTrip(c.name, KindOf(c), row[c.name]);
    } else {
      NilRoundTrip(c.name, KindOf(c));
    }
  }

  /** An accepted schema and a fitting row meet the layout facts of the fixed-stride engines. */
  lemma AcceptedFits(cols: seq<ColumnType>, columnBytes: nat, row: Row)
    requires Accepted(cols, columnBytes) && RowFits(cols, row)
    ensures Stride.Fits(Day1Codec, Day1ReadBack, cols, columnBytes, row)
    ensures Stride.NilsFit(Day1Codec, cols, columnBytes)
  {
    Stride.SumWidthsMeaning(Day1Codec, cols);
    forall i | 0 <= i < |cols|
      ensures RowCodec.Aligned(Day1Codec, Day1ReadBack, cols[i], row) && RowCodec.NilFitsWidth(Day1Codec, cols[i])
    {
      Day1Aligned(cols[i], row);
    }
  }

  // ---------------------------------------------------------------------
  // Row operations
  // ---------------------------------------------------------------------

  /** The file after a write, and the error returned. */
  datatype Written = Written(data: seq<byte>, err: Option<Error>)

  /**
   * `WriteRow(off, row)` on an open file: the live tombstone at the raw
   * offset `off`, then each column in turn up to the first that fails to
   * convert; a negative offset writes nothing.
   */
  function WriteRowSpec(cols: seq<ColumnType>, data: seq<byte>, off: int, row: Row): Written
  {
    if off < 0 then Written(data, Some(NegativeOffset))
    else Written(Overwrite(data, off, [Column.ROW_NORMAL] + RowCodec.EncodePrefix(Day1Codec, cols, row).bytes),
                 RowCodec.EncodePrefix(Day1Codec, cols, row).err)
  }

  /** The file after an insert, the row number returned and the error. */
  datatype Inserted = Inserted(data: seq<byte>, rowNum: int, err: Option<Error>)

  /**
   * `Insert` as day1 writes it: the row number is the row the end of the
   * file falls in, and the row is written at the end of the file itself.
   */
  function InsertSpec(cols: seq<ColumnType>, columnBytes: nat, data: seq<byte>, row: Row): Inserted
  {
    var w := WriteRowSpec(cols, data, |data|, row);
    Inserted(w.data, Static.RowCount(columnBytes, data), w.err)
  }

  /**
   * `Insert` as the later engines write it: the row goes to the offset of
   * the row number returned.
   */
  function AlignedInsertSpec(cols: seq<ColumnType>, columnBytes: nat, data: seq<byte>, row: Row): Inserted
  {
    var n := Static.RowCount(columnBytes, data);
    var w := WriteRowSpec(cols, data, Static.RowNumToOffset(columnBytes, n), row);
    Inserted(w.data, n, w.err)
  }

  /** `Delete` on an open file: tombstone 0 at the row's offset; a negative offset writes nothing. */
  function DeleteSpec(columnBytes: nat, data: seq<byte>, m: int): seq<byte>
  {
    var off := Static.RowNumToOffset(columnBytes, m);
    if off < 0 then data else Overwrite(data, off, [Column.ROW_DELETED])
  }

  /**
   * `Update(m, row)` of a fitting row into an accepted schema succeeds for
   * any `m >= 0` and the row then reads back as written; a row in range
   * keeps the file's length.
   */
  lemma UpdateThenRead(cols: seq<ColumnType>, columnBytes: nat, data: seq<byte>, m: int, row: Row)
    requires Accepted(cols, columnBytes) && RowFits(cols, row)
    requires m >= 0
    ensures WriteRowSpec(cols, data, Static.RowNumToOffset(columnBytes, m), row).err == None
    ensures Stride.ReadRowAt(Day1Codec, cols, WriteRowSpec(cols, data, Static.RowNumToOffset(columnBytes, m), row).data,
                             Static.RowNumToOffset(columnBytes, m))
            == Ok(RowCodec.ExpectedRow(Day1Codec, Day1ReadBack, cols, row))
    ensures |data| >= HEADER && m < Static.RowCount(columnBytes, data) ==>
              |WriteRowSpec(cols, data, Static.RowNumToOffset(columnBytes, m), row).data| == |data|
  {
    AcceptedFits(cols, columnBytes, row);
    Stride.FullWidth(Day1Codec, Day1ReadBack, cols, columnBytes, row);
    Static.OffsetAtLeastHeader(columnBytes, m);
    var off := Static.RowNumToOffset(columnBytes, m);
    var image := [Column.ROW_NORMAL] + RowCodec.EncodePrefix(Day1Codec, cols, row).bytes;
    OverwriteHolds(data, off, image);
    Stride.LiveRowReads(Day1Codec, Day1ReadBack, cols, columnBytes, Overwrite(data, off, image), off, row);
    if |data| >= HEADER && m < Static.RowCount(columnBytes, data) {
      Stride.RewriteThenRead(Day1Codec, Day1ReadBack, cols, columnBytes, data, m, row);
    }
  }

  /** A file that ends on a row boundary: the header and whole rows. */
  predicate RowAligned(columnBytes: nat, data: seq<byte>)
  {
    |data| >= HEADER && |data| == Static.RowNumToOffset(columnBytes, Static.RowCount(columnBytes, data))
  }

  /**
   * On a file that ends on a row boundary day1's `Insert` is the aligned
   * one: a fitting row is appended as row number `RowCount`, reads back
   * there, and the file still ends on a row boundary.
   */
  lemma InsertAtBoundary(cols: seq<ColumnType>, columnBytes: nat, data: seq<byte>, row: Row)
    requires Accepted(cols, columnBytes) && RowFits(cols, row) && RowAligned(columnBytes, data)
    ensures InsertSpec(cols, columnBytes, data, row) == AlignedInsertSpec(cols, columnBytes, data, row)
    ensures InsertSpec(cols, columnBytes, data, row).err == None
    ensures RowAligned(columnBytes, InsertSpec(cols, columnBytes, data, row).data)
    ensures Static.RowCount(columnBytes, InsertSpec(cols, columnBytes, data, row).data) == Static.RowCount(columnBytes, data) + 1
  {
    AcceptedFits(cols, columnBytes, row);
    Stride.FullWidth(Day1Codec, Day1ReadBack, cols, columnBytes, row);
    var n := Static.RowCount(columnBytes, data);
    Static.RowCountBounds(columnBytes, data);
    var image := [Column.ROW_NORMAL] + RowCodec.EncodePrefix(Day1Codec, cols, row).bytes;
    var d := Overwrite(data, |data|, image);
    assert |d| == |data| + columnBytes + 1;
    Static.OffsetNext(columnBytes, n);
    Static.RowCountIs(columnBytes, d, n + 1);
  }

  /**
   * The corrected `Insert`: whatever the file holds past its last whole
   * row, a fitting row gets the row number `RowCount`, is written at that
   * row's offset, reads back there, and the row count grows by one.
   */
  lemma AlignedInsertThenRead(cols: seq<ColumnType>, columnBytes: nat, data: seq<byte>, row: Row)
    requires Accepted(cols, columnBytes) && RowFits(cols, row)
    requires |data| >= HEADER
    ensures AlignedInsertSpec(cols, columnBytes, data, row).err == None
    ensures AlignedInsertSpec(cols, columnBytes, data, row).rowNum == Static.RowCount(columnBytes, data)
    ensures Static.RowCount(columnBytes, AlignedInsertSpec(cols, columnBytes, data, row).data) == Static.RowCount(columnBytes, data) + 1
    ensures Stride.ReadRowAt(Day1Codec, cols, AlignedInsertSpec(cols, columnBytes, data, row).data,
                             Static.RowNumToOffset(columnBytes, AlignedInsertSpec(cols, columnBytes, data, row).rowNum))
            == Ok(RowCodec.ExpectedRow(Day1Codec, Day1ReadBack, cols, row))
  {
    AcceptedFits(cols, columnBytes, row);
    Static.RowCountBounds(columnBytes, data);
    Stride.AppendThenRead(Day1Codec, Day1ReadBack, cols, columnBytes, data, row);
  }

  /** The one-column schema of the counterexample below. */
  const IntColumn: seq<ColumnType> := [ColumnType("a", "int64")]

  /** A string in the int64 column fails to convert after the live tombstone is written. */
  lemma FailedIntInsert(d0: seq<byte>)
    ensures InsertSpec(IntColumn, 10, d0, map["a" := Str([120])]) ==
            Inserted(d0 + [Column.ROW_NORMAL], Static.RowCount(10, d0), Some(Mismatch("int64", "a")))
  {
    assert IntColumn[..0] == [];
    assert RowCodec.Image(Day1Codec, IntColumn[0], map["a" := Str([120])]) == Err(Mismatch("int64", "a"));
  }

  /** Inserting 0 into an 11-byte file returns row number 0 and writes its row from offset 11. */
  lemma ZeroInsert(d1: seq<byte>)
    requires |d1| == HEADER + 1
    ensures InsertSpec(IntColumn, 10, d1, map["a" := I64(0)]) == Inserted(d1 + [Column.ROW_NORMAL] + Zeros(10), 0, None)
  {
    assert IntColumn[..0] == [];
    ZeroSlot();
    assert RowCodec.Image(Day1Codec, IntColumn[0], map["a" := I64(0)]) == Ok(Zeros(10));
    assert Static.RowCount(10, d1) == 0;
  }

  /** Row 0 of that file: the first tombstone is live, and the cell after it starts with the second tombstone. */
  lemma ShiftedRowReads(d0: seq<byte>)
    requires |d0| == HEADER
    ensures Stride.ReadRowAt(Day1Codec, IntColumn, d0 + [Column.ROW_NORMAL, Column.ROW_NORMAL] + Zeros(10), 10) == Ok(map["a" := I64(-1)])
    ensures Stride.ReadRowAt(Day1Codec, IntColumn, d0 + [Column.ROW_NORMAL, Column.ROW_NORMAL] + Zeros(10), 21) == Err(DeletedRow)
  {
    var d2 := d0 + [Column.ROW_NORMAL, Column.ROW_NORMAL] + Zeros(10);
    assert IntColumn[..0] == [];
    var cell := d2[11..21];
    assert cell == [1] + Zeros(9);
    assert Varint(cell) == Decoded(-1, 1);
    assert RowCodec.ReadColumn(Day1Codec, IntColumn[0], d2, 11) == Ok(I64(-1));
    assert d2[21] == Column.ROW_DELETED;
  }

  /**
   * day1's `Insert` loses track of its rows once a write fails part-way.
   * In a table with one int64 column (10 bytes, so rows 11 bytes apart) and
   * a fresh file, inserting a string fails after the live tombstone is
   * written, leaving an 11-byte file. Inserting 0 then returns row number 0
   * and succeeds, but it is written one byte past row 0's offset: row 0
   * reads back as -1 and row 1 reads as deleted.
   */
  lemma MisalignedInsert(d0: seq<byte>)
    requires |d0| == HEADER
    ensures Accepted(IntColumn, 10)
    ensures InsertSpec(IntColumn, 10, d0, map["a" := Str([120])]).err == Some(Mismatch("int64", "a"))
    ensures InsertSpec(IntColumn, 10, InsertSpec(IntColumn, 10, d0, map["a" := Str([120])]).data, map["a" := I64(0)]).rowNum == 0
    ensures InsertSpec(IntColumn, 10, InsertSpec(IntColumn, 10, d0, map["a" := Str([120])]).data, map["a" := I64(0)]).err == None
    ensures Stride.ReadRowAt(Day1Codec, IntColumn,
                             InsertSpec(IntColumn, 10, InsertSpec(IntColumn, 10, d0, map["a" := Str([120])]).data, map["a" := I64(0)]).data,
                             Static.RowNumToOffset(10, 0))
            == Ok(map["a" := I64(-1)])
    ensures Stride.ReadRowAt(Day1Codec, IntColumn,
                             InsertSpec(IntColumn, 10, InsertSpec(IntColumn, 10, d0, map["a" := Str([120])]).data, map["a" := I64(0)]).data,
                             Static.RowNumToOffset(10, 1))
            == Err(DeletedRow)
  {
    assert IntColumn[..0] == [];
    FailedIntInsert(d0);
    var d1 := d0 + [Column.ROW_NORMAL];
    ZeroInsert(d1);
    assert d1 + [Column.ROW_NORMAL] + Zeros(10) == d0 + [Column.ROW_NORMAL, Column.ROW_NORMAL] + Zeros(10);
    ShiftedRowReads(d0);
  }

  /** After `Delete(m)` at a non-negative offset the row reads as deleted; at a negative one nothing is written. */
  lemma DeleteThenRead(cols: seq<ColumnType>, columnBytes: nat, data: seq<byte>, m: int)
    ensures Static.RowNumToOffset(columnBytes, m) >= 0 ==>
              Stride.ReadRowAt(Day1Codec, cols, DeleteSpec(columnBytes, data, m), Static.RowNumToOffset(columnBytes, m)) == Err(DeletedRow)
    ensures Static.RowNumToOffset(columnBytes, m) < 0 ==> DeleteSpec(columnBytes, data, m) == data
  {
    if Static.RowNumToOffset(columnBytes, m) >= 0 {
      Stride.TombstoneReads(Day1Codec, cols, data, Static.RowNumToOffset(columnBytes, m));
    }
  }

  /** The day1 table: its file name, its file (`null` when closed), its version and its schema. */
  class Table {
    var filename: string
    var file: File?
    var fileVersion: int
    var columnTypes: seq<ColumnType>
    var columnBytes: nat

    /** `columnBytes` is what the width loop left, and an open file holds at least its header. */
    ghost predicate Valid()
      reads this, file
    {
      columnBytes == Stride.SumWidths(Day1Codec, columnTypes).total && (file != null ==> |file.bytes| >= HEADER)
    }

    /** `new(Table)`: no file and no columns. */
    constructor ()
      ensures Valid() && file == null && columnTypes == [] && columnBytes == 0 && filename == ""
    {
      filename := "";
      file := null;
      fileVersion := 0;
      columnTypes := [];
      columnBytes := 0;
    }

    /**
     * `OpenFile` on the opened file `f`: a short file gets a version-1
     * header; an existing header is read and refused only when it is not a
     * terminated varint, whatever version it holds.
     */
    method OpenFile(name: string, f: File) returns (err: Option<Error>)
      requires Valid()
      modifies this, f
      ensures Valid() && filename == name && file == f
      ensures columnTypes == old(columnTypes) && columnBytes == old(columnBytes)
      ensures f.bytes == Stride.OpenFileHeader(old(f.bytes)).data
      ensures fileVersion == Stride.OpenFileHeader(old(f.bytes)).version
      ensures err == Stride.OpenFileHeader(old(f.bytes)).err
    {
      filename := name;
      file := f;
      var rd := f.ReadAt(HEADER, 0);
      if rd.err.Some? {
        fileVersion := 1;
        var b := PutVarintInto(rd.buf, fileVersion);
        var num, werr := f.WriteAt(b, 0);
        return None;
      }
      var d := Varint(rd.buf);
      fileVersion := d.value;
      if d.n == 0 {
        return Some(FailedToReadFileVersion);
      }
      return None;
    }

    /** `Close`: forgets the file and its name, and never fails. */
    method Close() returns (err: Option<Error>)
      requires Valid()
      modifies this
      ensures Valid() && file == null && filename == "" && err == None
      ensures fileVersion == old(fileVersion) && columnTypes == old(columnTypes) && columnBytes == old(columnBytes)
    {
      filename := "";
      file := null;
      return None;
    }

    /** `SetColumns`: records the schema and sums the widths, stopping at the first unknown type name. */
    method SetColumns(cols: seq<ColumnType>) returns (err: Option<Error>)
      requires Valid()
      modifies this
      ensures Valid() && file == old(file) && filename == old(filename) && fileVersion == old(fileVersion)
      ensures columnTypes == cols
      ensures columnBytes == Stride.SumWidths(Day1Codec, cols).total
      ensures err == Stride.SumWidths(Day1Codec, cols).err
    {
      columnTypes := cols;
      columnBytes := 0;
      for i := 0 to |cols|
        invariant columnTypes == cols && file == old(file) && filename == old(filename) && fileVersion == old(fileVersion)
        invariant Stride.SumWidths(Day1Codec, cols[..i]) == Stride.Summed(columnBytes, None)
      {
        Stride.SumStep(Day1Codec, cols, i);
        var num := Day1Width(cols[i]);
        if num.Err? {
          Stride.SumStops(Day1Codec, cols, i + 1);
          return Some(num.error);
        }
        columnBytes := columnBytes + num.value;
      }
      assert cols[..|cols|] == cols;
      return None;
    }

    /** `WriteRow` at the raw offset `off`; with no file the tombstone write fails with the invalid-file error. */
    method WriteRow(off: int, row: Row) returns (err: Option<Error>)
      requires Valid()
      modifies file
      ensures Valid()
      ensures file == null ==> err == Some(InvalidFile)
      ensures file != null ==>
                file.bytes == WriteRowSpec(columnTypes, old(file.bytes), off, row).data &&
                err == WriteRowSpec(columnTypes, old(file.bytes), off, row).err
    {
      if file == null {
        return Some(InvalidFile);
      }
      err := Stride.WriteLiveRow(Day1Codec, file, columnTypes, off, row);
    }

    /** `Update`: `WriteRow` at row `m`'s offset. */
    method Update(m: int, row: Row) returns (err: Option<Error>)
      requires Valid()
      modifies file
      ensures Valid()
      ensures file == null ==> err == Some(InvalidFile)
      ensures file != null ==>
                file.bytes == WriteRowSpec(columnTypes, old(file.bytes), Static.RowNumToOffset(columnBytes, m), row).data &&
                err == WriteRowSpec(columnTypes, old(file.bytes), Static.RowNumToOffset(columnBytes, m), row).err
    {
      err := WriteRow(Static.RowNumToOffset(columnBytes, m), row);
    }

    /** `Insert`: with no file the seek fails and -1 is returned; otherwise the day1 insert. */
    method Insert(row: Row) returns (rowNum: int, err: Option<Error>)
      requires Valid()
      modifies file
      ensures Valid()
      ensures file == null ==> rowNum == -1 && err == Some(InvalidFile)
      ensures file != null ==>
                file.bytes == InsertSpec(columnTypes, columnBytes, old(file.bytes), row).data &&
                rowNum == InsertSpec(columnTypes, columnBytes, old(file.bytes), row).rowNum &&
                err == InsertSpec(columnTypes, columnBytes, old(file.bytes), row).err
    {
      if file == null {
        return -1, Some(InvalidFile);
      }
      var lastOff := file.Size();
      rowNum := Quot(lastOff - HEADER, columnBytes + 1);
      err := WriteRow(lastOff, row);
    }

    /** `Read`, with no bounds check: the tombstone, then the column loop. */
    method Read(m: int) returns (r: Result<Row>)
      requires Valid()
      ensures file == null ==> r == Err(InvalidFile)
      ensures file != null ==> r == Stride.ReadRowAt(Day1Codec, columnTypes, file.bytes, Static.RowNumToOffset(columnBytes, m))
    {
      if file == null {
        return Err(InvalidFile);
      }
      r := Stride.ReadRowIn(Day1Codec, file, columnTypes, Static.RowNumToOffset(columnBytes, m));
    }

    /** `Delete`: the write's error is dropped; only the sync of a missing file is reported. */
    method Delete(m: int) returns (err: Option<Error>)
      requires Valid()
      modifies file
      ensures Valid()
      ensures file == null ==> err == Some(InvalidFile)
      ensures file != null ==> err == None && file.bytes == DeleteSpec(columnBytes, old(file.bytes), m)
    {
      if file == null {
        return Some(InvalidFile);
      }
      var num, werr := file.WriteAt([Column.ROW_DELETED], Static.RowNumToOffset(columnBytes, m));
      return None;
    }
  }
}
