/**
 * The underReview/part1 snapshot of the single-file engine: a `ColumnType`
 * carries a name, a type name ("int64", "float64", "string" or "time") and,
 * for strings, a declared size; `WriteRow(-1, row)` appends at the row
 * count and any other row number overwrites that row in place.
 *
 * The tombstone is written before any column is converted, so a row that
 * fails to convert leaves a live tombstone and a partial row behind. A
 * string column's declared size is taken as its width with no check, and
 * `columnBytes` is a signed sum.
 */
module Part1 {
  import opened Bytes
  import opened Binary
  import opened Values
  import opened Header
  import Column
  import Legacy
  import RowCodec
  import Stride
  import Static

  type ColumnType = Column.ColumnType

  /** The kind a part1 type name decodes as; a "string" cell decodes like a string256 one. */
  function PartKind(c: ColumnType): Legacy.Kind
  {
    if c.typ == "int64" then Legacy.Int64Kind
    else if c.typ == "float64" then Legacy.Float64Kind
    else if c.typ == "string" then Legacy.String256Kind
    else if c.typ == "time" then Legacy.TimeKind
    else Legacy.UnknownKind
  }

  function PartName(c: ColumnType): string { c.name }

  /** `GetBytes`: 10, 8, the declared size (unchecked) or 15; any other type name is an error. */
  function PartWidth(c: ColumnType): Result<int>
  {
    if c.typ == "int64" then Ok(MaxVarintLen64)
    else if c.typ == "float64" then Ok(8)
    else if c.typ == "string" then Ok(c.size as int)
    else if c.typ == "time" then Ok(15)
    else Err(TypeNotValid)
  }

  /** `GetNil`: a zeroed buffer of the width, which Go cannot make when the width is negative. */
  function PartNil(c: ColumnType): Result<seq<byte>>
  {
    match PartWidth(c)
    case Err(e) => Err(e)
    case Ok(w) =>
      if w < 0 then Err(Panic)
      else if c.typ == "string" then Ok(Zeros(w))
      else Legacy.Nil(PartKind(c))
  }

  /**
   * `ConvertToBytes`: a "string" value is copied into a zeroed buffer of the
   * declared size, with no length check; the other types convert as in the
   * other early engines.
   */
  function PartEncode(c: ColumnType, v: Value): Result<seq<byte>>
  {
    match PartWidth(c)
    case Err(e) => Err(e)
    case Ok(w) =>
      if c.typ == "string" then
        if !v.Str? then Err(Mismatch("string", c.name))
        else if w < 0 || |v.s| > w then Err(Panic)
        else Ok(v.s + Zeros(w - |v.s|))
      else Legacy.Convert(c.name, PartKind(c), v)
  }

  /** `ConvertToVal`: the decoder of the other early engines, a "string" cell read up to its first zero byte. */
  function PartDecode(c: ColumnType, b: seq<byte>): Result<Value>
  {
    Legacy.ConvertVal(c.name, PartKind(c), b)
  }

  const PartCodec: RowCodec.Codec<ColumnType> := RowCodec.Codec(PartName, PartWidth, PartNil, PartEncode, PartDecode)

  /** `ConvertToBytes` with the copy loop of the "string" case. */
  method ConvertToBytes(c: ColumnType, v: Value) returns (r: Result<seq<byte>>)
    ensures r == PartEncode(c, v)
  {
    var byteNum := PartWidth(c);
    if byteNum.Err? {
      return Err(byteNum.error);
    }
    if c.typ != "string" {
      r := Legacy.ConvertBytes(c.name, PartKind(c), v);
      return;
    }
    if !v.Str? {
      return Err(Mismatch("string", c.name));
    }
    if byteNum.value < 0 {
      return Err(Panic);
    }
    var b := new byte[byteNum.value](_ => 0);
    for i := 0 to |v.s|
      invariant i <= b.Length
      invariant forall j :: 0 <= j < i ==> b[j] == v.s[j]
      invariant forall j :: i <= j < b.Length ==> b[j] == 0
    {
      if i >= b.Length {
        return Err(Panic);
      }
      b[i] := v.s[i];
    }
    assert b[..] == v.s + Zeros(byteNum.value - |v.s|);
    return Ok(b[..]);
  }

  /**
   * `GetBytes` takes a "string" column's declared size as it is: a negative
   * size is accepted by `setColumns`, and then the column's nil cell and
   * every string written to it make Go panic, while any other value is a
   * mismatch.
   */
  lemma NegativeSizeAccepted(c: ColumnType, v: Value)
    requires c.typ == "string" && c.size < 0
    ensures Stride.SumWidths(PartCodec, [c]) == Stride.Summed(c.size as int, None)
    ensures PartNil(c) == Err(Panic)
    ensures PartEncode(c, v) == if v.Str? then Err(Panic) else Err(Mismatch("string", c.name))
  {
    assert [c][..0] == [];
  }

  /** A column whose every cell part1 can write and read back: a known type, and room in a string column. */
  predicate PartKnown(c: ColumnType)
  {
    c.typ == "int64" || c.typ == "float64" || c.typ == "time" || (c.typ == "string" && c.size > 0)
  }

  /** A value a column gives back: a string needs room for its terminating zero byte. */
  predicate PartStorable(c: ColumnType, v: Value)
  {
    if c.typ == "string" then v.Str? && |v.s| < c.size as int && NulFree(v.s)
    else Legacy.Storable(PartKind(c), v)
  }

  /** What column `c` of a cleanly written row reads back as. */
  function PartReadBack(c: ColumnType, row: Row): Value
  {
    if c.name in row then row[c.name] else Legacy.ZeroValue(PartKind(c))
  }

  /** Every column can be written and read, and the row holds only values the columns give back. */
  predicate RowFits(cols: seq<ColumnType>, row: Row)
  {
    forall i :: 0 <= i < |cols| ==> PartKnown(cols[i]) && (cols[i].name in row ==> PartStorable(cols[i], row[cols[i].name]))
  }

  /**
   * A known column writes a storable value (or its nil cell) in exactly its
   * width and reads it back: the value, or the type's zero value.
   */
  lemma PartAligned(c: ColumnType, row: Row)
    requires PartKnown(c) && (c.name in row ==> PartStorable(c, row[c.name]))
    ensures RowCodec.Aligned(PartCodec, PartReadBack, c, row)
    ensures RowCodec.NilFitsWidth(PartCodec, c)
  {
    var k := PartKind(c);
    if c.typ == "string" {
      var w := c.size as int;
      if c.name in row {
        var s := row[c.name].s;
        var b := s + Zeros(w - |s|);
        assert b[|s|] == 0;
        assert IndexOfZero(b) == |s|;
        assert b[..|s|] == s;
      } else {
        assert Zeros(w)[0] == 0;
        assert IndexOfZero(Zeros(w)) == 0;
      }
    } else if c.name in row {
      Legacy.CellWidths(c.name, k, row[c.name]);
      Legacy.ConvertRoundTrip(c.name, k, row[c.name]);
    } else {
      Legacy.CellWidths(c.name, k, I64(0));
      Legacy.NilRoundTrip(c.name, k);
    }
  }

  /** A schema `setColumns` accepts, `columnBytes` wide, and a row that fits it meet the fixed-stride layout facts. */
  lemma PartFits(cols: seq<ColumnType>, columnBytes: nat, row: Row)
    requires Stride.SumWidths(PartCodec, cols) == Stride.Summed(columnBytes, None) && RowFits(cols, row)
    ensures Stride.Fits(PartCodec, PartReadBack, cols, columnBytes, row)
    ensures Stride.NilsFit(PartCodec, cols, columnBytes)
  {
    Stride.SumWidthsMeaning(PartCodec, cols);
    forall i | 0 <= i < |cols|
      ensures RowCodec.Aligned(PartCodec, PartReadBack, cols[i], row) && RowCodec.NilFitsWidth(PartCodec, cols[i])
    {
      PartAligned(cols[i], row);
    }
  }

  // ---------------------------------------------------------------------
  // Offsets
  // ---------------------------------------------------------------------

  /** `convertRowNumToOffset`, with a signed `columnBytes`. */
  function PartOffset(columnBytes: int, rowNum: int): int
  {
    rowNum * (columnBytes + 1) + HEADER
  }

  /** Go's `/` on int64, which truncates toward zero for either sign of divisor. */
  function Truncate(a: int, b: int): int
    requires b != 0
  {
    if b > 0 then Quot(a, b) else -Quot(a, -b)
  }

  /** `searchLastOff`: the row number at the end of the file; a zero divisor makes Go panic. */
  function LastRow(columnBytes: int, size: int): Result<int>
  {
    if columnBytes + 1 == 0 then Err(Panic) else Ok(Truncate(size - HEADER, columnBytes + 1))
  }

  /** For a schema of non-negative width these are the offset and the row count of the other engines. */
  lemma OffsetsAgree(columnBytes: nat, data: seq<byte>, rowNum: int)
    ensures PartOffset(columnBytes, rowNum) == Static.RowNumToOffset(columnBytes, rowNum)
    ensures LastRow(columnBytes, |data|) == Ok(Static.RowCount(columnBytes, data))
  {
  }

  // ---------------------------------------------------------------------
  // Row operations
  // ---------------------------------------------------------------------

  /** The file after a write, and the row number or the error returned. */
  datatype Written = Written(data: seq<byte>, result: Result<int>)

  /** The row `WriteRow` writes: the live tombstone, then the columns up to the first that fails to convert. */
  function RowImage(cols: seq<ColumnType>, row: Row): seq<byte>
  {
    [Column.ROW_NORMAL] + RowCodec.EncodePrefix(PartCodec, cols, row).bytes
  }

  /** Writing the row image at `off` for row number `n`: a negative offset writes nothing. */
  function WriteRowAt(cols: seq<ColumnType>, data: seq<byte>, off: int, n: int, row: Row): Written
  {
    if off < 0 then Written(data, Err(NegativeOffset))
    else
      Written(Overwrite(data, off, RowImage(cols, row)),
              if RowCodec.EncodePrefix(PartCodec, cols, row).err.Some? then Err(RowCodec.EncodePrefix(PartCodec, cols, row).err.value)
              else Ok(n))
  }

  /**
   * `WriteRow(rowNum, row)` on an open file: `-1` stands for the row count;
   * the tombstone is written first, then the columns in order up to the
   * first that fails.
   */
  function WriteRowSpec(cols: seq<ColumnType>, columnBytes: int, data: seq<byte>, rowNum: int, row: Row): Written
  {
    match (if rowNum == -1 then LastRow(columnBytes, |data|) else Ok(rowNum))
    case Err(e) => Written(data, Err(e))
    case Ok(n) => WriteRowAt(cols, data, PartOffset(columnBytes, n), n, row)
  }

  /** Once the row number is resolved, the write depends only on its offset. */
  lemma WriteResolved(cols: seq<ColumnType>, columnBytes: int, data: seq<byte>, rowNum: int, n: int, row: Row)
    requires (if rowNum == -1 then LastRow(columnBytes, |data|) else Ok(rowNum)) == Ok(n)
    ensures WriteRowSpec(cols, columnBytes, data, rowNum, row) == WriteRowAt(cols, data, PartOffset(columnBytes, n), n, row)
  {
  }

  /** `DeleteRow` on an open file: tombstone 0 at the row's offset; a negative offset writes nothing. */
  function DeleteSpec(columnBytes: int, data: seq<byte>, rowNum: int): seq<byte>
  {
    if PartOffset(columnBytes, rowNum) < 0 then data else Overwrite(data, PartOffset(columnBytes, rowNum), [Column.ROW_DELETED])
  }

  /**
   * `WriteRow(-1, row)` of a fitting row into an accepted schema returns the
   * row count, adds exactly one row, and that row reads back with every
   * column of the schema.
   */
  lemma AppendThenRead(cols: seq<ColumnType>, columnBytes: nat, data: seq<byte>, row: Row)
    requires Stride.SumWidths(PartCodec, cols) == Stride.Summed(columnBytes, None) && RowFits(cols, row)
    requires |data| >= HEADER
    ensures WriteRowSpec(cols, columnBytes, data, -1, row).result == Ok(Static.RowCount(columnBytes, data))
    ensures Static.RowCount(columnBytes, WriteRowSpec(cols, columnBytes, data, -1, row).data) == Static.RowCount(columnBytes, data) + 1
    ensures Stride.ReadRowAt(PartCodec, cols, WriteRowSpec(cols, columnBytes, data, -1, row).data,
                             Static.RowNumToOffset(columnBytes, Static.RowCount(columnBytes, data)))
            == Ok(RowCodec.ExpectedRow(PartCodec, PartReadBack, cols, row))
  {
    PartFits(cols, columnBytes, row);
    var n := Static.RowCount(columnBytes, data);
    OffsetsAgree(columnBytes, data, n);
    Stride.AppendThenRead(PartCodec, PartReadBack, cols, columnBytes, data, row);
    Static.OffsetAtLeastHeader(columnBytes, n);
    assert WriteRowSpec(cols, columnBytes, data, -1, row) == WriteRowAt(cols, data, Static.RowNumToOffset(columnBytes, n), n, row);
  }

  /**
   * `WriteRow(m, row)` for any `m >= 0` of a fitting row into an accepted
   * schema returns `m` and the row reads back; a row in range keeps the
   * file's length.
   */
  lemma RewriteThenRead(cols: seq<ColumnType>, columnBytes: nat, data: seq<byte>, m: int, row: Row)
    requires Stride.SumWidths(PartCodec, cols) == Stride.Summed(columnBytes, None) && RowFits(cols, row)
    requires m >= 0
    ensures WriteRowSpec(cols, columnBytes, data, m, row).result == Ok(m)
    ensures Stride.ReadRowAt(PartCodec, cols, WriteRowSpec(cols, columnBytes, data, m, row).data, Static.RowNumToOffset(columnBytes, m))
            == Ok(RowCodec.ExpectedRow(PartCodec, PartReadBack, cols, row))
    ensures |data| >= HEADER && m < Static.RowCount(columnBytes, data) ==>
              |WriteRowSpec(cols, columnBytes, data, m, row).data| == |data|
  {
    PartFits(cols, columnBytes, row);
    Stride.FullWidth(PartCodec, PartReadBack, cols, columnBytes, row);
    OffsetsAgree(columnBytes, data, m);
    Static.OffsetAtLeastHeader(columnBytes, m);
    var off := Static.RowNumToOffset(columnBytes, m);
    assert WriteRowSpec(cols, columnBytes, data, m, row) == WriteRowAt(cols, data, off, m, row);
    OverwriteHolds(data, off, RowImage(cols, row));
    Stride.LiveRowReads(PartCodec, PartReadBack, cols, columnBytes, Overwrite(data, off, RowImage(cols, row)), off, row);
    if |data| >= HEADER && m < Static.RowCount(columnBytes, data) {
      Stride.RewriteThenRead(PartCodec, PartReadBack, cols, columnBytes, data, m, row);
    }
  }

  /**
   * A row that fails to convert still leaves its live tombstone and the
   * columns converted before the failing one at the row's offset, and the
   * error is returned.
   */
  lemma FailedWriteLeavesLiveRow(cols: seq<ColumnType>, columnBytes: int, data: seq<byte>, rowNum: int, row: Row)
    requires rowNum != -1 && PartOffset(columnBytes, rowNum) >= 0
    requires RowCodec.EncodePrefix(PartCodec, cols, row).err.Some?
    ensures WriteRowSpec(cols, columnBytes, data, rowNum, row).result == Err(RowCodec.EncodePrefix(PartCodec, cols, row).err.value)
    ensures Holds(WriteRowSpec(cols, columnBytes, data, rowNum, row).data, PartOffset(columnBytes, rowNum),
                  [Column.ROW_NORMAL] + RowCodec.EncodePrefix(PartCodec, cols, row).bytes)
    ensures WriteRowSpec(cols, columnBytes, data, rowNum, row).data[PartOffset(columnBytes, rowNum)] == Column.ROW_NORMAL
  {
    var b := RowImage(cols, row);
    OverwriteHolds(data, PartOffset(columnBytes, rowNum), b);
    assert b[0] == Column.ROW_NORMAL;
  }

  /** After `DeleteRow(m)` at a non-negative offset the row reads as deleted; at a negative one nothing is written. */
  lemma DeleteThenRead(cols: seq<ColumnType>, columnBytes: int, data: seq<byte>, m: int)
    ensures PartOffset(columnBytes, m) >= 0 ==>
              Stride.ReadRowAt(PartCodec, cols, DeleteSpec(columnBytes, data, m), PartOffset(columnBytes, m)) == Err(DeletedRow)
    ensures PartOffset(columnBytes, m) < 0 ==> DeleteSpec(columnBytes, data, m) == data
  {
    if PartOffset(columnBytes, m) >= 0 {
      Stride.TombstoneReads(PartCodec, cols, data, PartOffset(columnBytes, m));
    }
  }

  /** `ReadRow` has no bounds check: past the end of the file it fails with end-of-file, before it with a negative offset. */
  lemma ReadOutOfRange(cols: seq<ColumnType>, columnBytes: int, data: seq<byte>, m: int)
    ensures PartOffset(columnBytes, m) >= |data| ==> Stride.ReadRowAt(PartCodec, cols, data, PartOffset(columnBytes, m)) == Err(EOF)
    ensures PartOffset(columnBytes, m) < 0 ==> Stride.ReadRowAt(PartCodec, cols, data, PartOffset(columnBytes, m)) == Err(NegativeOffset)
  {
  }

  /** The part1 table: its file (`null` when closed), its version and its schema. */
  class Table {
    var tablefile: File?
    var fileVersion: int
    var columnTypes: seq<ColumnType>
    var columnBytes: int

    /** `columnBytes` is what the width loop left, and an open file holds at least its header. */
    ghost predicate Valid()
      reads this, tablefile
    {
      columnBytes == Stride.SumWidths(PartCodec, columnTypes).total && (tablefile != null ==> |tablefile.bytes| >= HEADER)
    }

    constructor ()
      ensures Valid() && tablefile == null && columnTypes == [] && columnBytes == 0
    {
      tablefile := null;
      fileVersion := 0;
      columnTypes := [];
      columnBytes := 0;
    }

    /** `openTableFile` on the opened file `f`: a short file gets version 1, an existing one must carry version 1. */
    method OpenTableFile(f: File) returns (err: Option<Error>)
      requires Valid()
      modifies this, f
      ensures Valid() && tablefile == f
      ensures columnTypes == old(columnTypes) && columnBytes == old(columnBytes)
      ensures f.bytes == OpenHeader(old(f.bytes), 1).data
      ensures fileVersion == OpenHeader(old(f.bytes), 1).version
      ensures err == OpenHeader(old(f.bytes), 1).err
    {
      tablefile := f;
      var rd := f.ReadAt(HEADER, 0);
      if rd.err.Some? {
        fileVersion := 1;
        var b := PutVarintInto(rd.buf, fileVersion);
        var num, werr := f.WriteAt(b, 0);
        return None;
      }
      var d := Varint(rd.buf);
      fileVersion := d.value;
      if d.n == 0 {
        return Some(FailedToReadFileVersion);
      }
      if fileVersion != 1 {
        return Some(FileVersionNotCorrect);
      }
      return None;
    }

    /** `Close`: drops the file; closing a closed table is not an error. */
    method Close() returns (err: Option<Error>)
      requires Valid()
      modifies this
      ensures Valid() && err == None && tablefile == null
      ensures fileVersion == old(fileVersion) && columnTypes == old(columnTypes) && columnBytes == old(columnBytes)
    {
      if tablefile == null {
        return None;
      }
      tablefile := null;
      return None;
    }

    /** `setColumns`: records the schema and sums the widths, stopping at the first unknown type. */
    method SetColumns(cols: seq<ColumnType>) returns (err: Option<Error>)
      requires Valid()
      modifies this
      ensures Valid() && tablefile == old(tablefile) && fileVersion == old(fileVersion)
      ensures columnTypes == cols
      ensures columnBytes == Stride.SumWidths(PartCodec, cols).total
      ensures err == Stride.SumWidths(PartCodec, cols).err
    {
      columnTypes := cols;
      columnBytes := 0;
      for i := 0 to |cols|
        invariant columnTypes == cols && tablefile == old(tablefile) && fileVersion == old(fileVersion)
        invariant Stride.SumWidths(PartCodec, cols[..i]) == Stride.Summed(columnBytes, None)
      {
        Stride.SumStep(PartCodec, cols, i);
        var num := PartWidth(cols[i]);
        if num.Err? {
          Stride.SumStops(PartCodec, cols, i + 1);
          return Some(num.error);
        }
        columnBytes := columnBytes + num.value;
      }
      assert cols[..|cols|] == cols;
      return None;
    }

    /** `WriteRow`: with no file, the seek or the tombstone write fails with the invalid-file error. */
    method WriteRow(rowNum: int, row: Row) returns (r: Result<int>)
      requires Valid()
      modifies tablefile
      ensures Valid()
      ensures tablefile == null ==> r == Err(InvalidFile)
      ensures tablefile != null ==>
                tablefile.bytes == WriteRowSpec(columnTypes, columnBytes, old(tablefile.bytes), rowNum, row).data &&
                r == WriteRowSpec(columnTypes, columnBytes, old(tablefile.bytes), rowNum, row).result
    {
      if tablefile == null {
        return Err(InvalidFile);
      }
      var f := tablefile;
      var n := rowNum;
      if rowNum == -1 {
        var lastOff := f.Size();
        if columnBytes + 1 == 0 {
          return Err(Panic);
        }
        n := Truncate(lastOff - HEADER, columnBytes + 1);
      }
      WriteResolved(columnTypes, columnBytes, f.bytes, rowNum, n, row);
      var err := Stride.WriteLiveRow(PartCodec, f, columnTypes, PartOffset(columnBytes, n), row);
      r := if err.Some? then Err(err.value) else Ok(n);
    }

    /** `ReadRow`, with no bounds check: the tombstone, then the column loop. */
    method ReadRow(rowNum: int) returns (r: Result<Row>)
      requires Valid()
      ensures tablefile == null ==> r == Err(InvalidFile)
      ensures tablefile != null ==> r == Stride.ReadRowAt(PartCodec, columnTypes, tablefile.bytes, PartOffset(columnBytes, rowNum))
    {
      if tablefile == null {
        return Err(InvalidFile);
      }
      r := Stride.ReadRowIn(PartCodec, tablefile, columnTypes, PartOffset(columnBytes, rowNum));
    }

    /** `DeleteRow`: the write's error is dropped; only the sync of a missing file is reported. */
    method DeleteRow(rowNum: int) returns (err: Option<Error>)
      requires Valid()
      modifies tablefile
      ensures Valid()
      ensures tablefile == null ==> err == Some(InvalidFile)
      ensures tablefile != null ==> err == None && tablefile.bytes == DeleteSpec(columnBytes, old(tablefile.bytes), rowNum)
    {
      if tablefile == null {
        return Some(InvalidFile);
      }
      var num, werr := tablefile.WriteAt([Column.ROW_DELETED], PartOffset(columnBytes, rowNum));
      return None;
    }
  }
}
