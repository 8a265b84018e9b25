/**
 * The dynamic table as an object: the table file and the index file it
 * writes in place, and the schema `setColumns` recorded. Each method runs
 * the engine's own steps (one `WriteAt` or `ReadAt` at a time, with running
 * table and index offsets) and is proved to do what the functions of module
 * `Dynamic` say.
 */
module DynamicTable {
  import opened Bytes
  import opened Binary
  import opened Values
  import opened Column
  import opened Schema
  import opened Header
  import opened Dynamic
  import RowCodec

  /**
   * The column loop of `WriteRow` on two open files: each column's image goes
   * to the table right after the previous one and, for a column `entry`
   * picks, its length goes to the index as a varint slot; the loop stops at
   * the first column that cannot be converted. Returns the table offset
   * reached.
   */
  method WriteDynColumnsAt<C>(k: RowCodec.Codec<C>, t: File, x: File, cols: seq<C>, tableOff: nat, indexOff: nat,
                              row: Row, entry: C -> bool)
    returns (err: Option<Error>, end: int, ghost e: DynEncoded)
    requires t != x
    modifies t, x
    ensures e == EncodeDyn(k, cols, row, entry)
    ensures t.bytes == Overwrite(old(t.bytes), tableOff, e.body)
    ensures x.bytes == Overwrite(old(x.bytes), indexOff, e.entries)
    ensures err == e.err && end == tableOff + |e.body|
  {
    ghost var t0, x0 := t.bytes, x.bytes;
    ghost var enc := EncodeDyn(k, cols[..0], row, entry);
    var tOff, iOff := tableOff, indexOff;
    var i := 0;
    while i < |cols|
      invariant 0 <= i <= |cols|
      invariant enc == EncodeDyn(k, cols[..i], row, entry) && enc.err == None
      invariant tOff == tableOff + |enc.body| && iOff == indexOff + |enc.entries|
      invariant t.bytes == Overwrite(t0, tableOff, enc.body)
      invariant x.bytes == Overwrite(x0, indexOff, enc.entries)
    {
      var b := RowCodec.Image(k, cols[i], row);
      if b.Err? {
        DynFailStep(k, cols, i, row, entry);
        return Some(b.error), tOff, EncodeDyn(k, cols, row, entry);
      }
      var tn, xn := WriteDynColumn(t, x, b.value, entry(cols[i]), t0, x0, tableOff, indexOff, enc.body, enc.entries, tOff, iOff);
      EncodeDynCleanStep(k, cols, i, row, entry);
      enc := EncodeDyn(k, cols[..i + 1], row, entry);
      tOff, iOff := tOff + tn, iOff + xn;
      i := i + 1;
    }
    assert cols[..|cols|] == cols;
    return None, tOff, enc;
  }

  /**
   * One clean turn of the write loop: after `body` was written to the table
   * from `tableOff` and `entries` to the index from `indexOff`, the image `b`
   * goes right after `body` and, for a flexible column, its length as a
   * varint slot right after `entries`.
   */
  method WriteDynColumn(t: File, x: File, b: seq<byte>, flexible: bool,
                        ghost t0: seq<byte>, ghost x0: seq<byte>, ghost tableOff: nat, ghost indexOff: nat,
                        ghost body: seq<byte>, ghost entries: seq<byte>, tOff: nat, iOff: nat)
    returns (tn: nat, xn: nat)
    requires t != x && tOff == tableOff + |body| && iOff == indexOff + |entries|
    requires t.bytes == Overwrite(t0, tableOff, body) && x.bytes == Overwrite(x0, indexOff, entries)
    modifies t, x
    ensures t.bytes == Overwrite(t0, tableOff, body + b) && tn == |b|
    ensures x.bytes == Overwrite(x0, indexOff, entries + Entry(flexible, b)) && xn == |Entry(flexible, b)|
  {
    var num, werr := t.WriteAt(b, tOff);
    OverwriteAppend(t0, tableOff, body, b);
    xn := 0;
    if flexible {
      var num2, werr2 := x.WriteAt(VarintSlot(num), iOff);
      xn := num2;
    }
    OverwriteAppend(x0, indexOff, entries, Entry(flexible, b));
    tn := num;
  }

  /**
   * The column loop of `ReadRow` on two open files: a column of positive
   * width is read as wide as its nil value; a flexible one takes its length
   * from the next index entry.
   */
  method ReadDynColumnsAt<C>(k: RowCodec.Codec<C>, t: File, x: File, cols: seq<C>, tableOff: int, indexOff: int)
    returns (r: Result<Cursor>)
    ensures r == DecodeDyn(k, cols, t.bytes, x.bytes, tableOff, indexOff)
  {
    var result: Row := map[];
    var tOff := tableOff;
    var iOff := indexOff;
    var i := 0;
    while i < |cols|
      invariant 0 <= i <= |cols|
      invariant DecodeDyn(k, cols[..i], t.bytes, x.bytes, tableOff, indexOff) == Ok(Cursor(result, tOff, iOff))
    {
      var c := cols[i];
      DecodeDynStep(k, cols, i, t.bytes, x.bytes, tableOff, indexOff, Cursor(result, tOff, iOff));
      var next := ReadDynColumn(k, c, t, x, Cursor(result, tOff, iOff));
      if next.Err? {
        DecodeDynStops(k, cols, t.bytes, x.bytes, tableOff, indexOff, i + 1);
        return Err(next.error);
      }
      result, tOff, iOff := next.value.row, next.value.tableOff, next.value.indexOff;
      i := i + 1;
    }
    assert cols[..|cols|] == cols;
    return Ok(Cursor(result, tOff, iOff));
  }

  /** One turn of the read loop. */
  method ReadDynColumn<C>(k: RowCodec.Codec<C>, c: C, t: File, x: File, cur: Cursor) returns (r: Result<Cursor>)
    ensures r == DynColumn(k, c, t.bytes, x.bytes, cur)
  {
    var size := k.width(c);
    if size.Err? {
      return Err(size.error);
    }
    var b := k.nil(c);
    if b.Err? {
      return Err(b.error);
    }
    if size.value > 0 {
      var rd := t.ReadAt(|b.value|, cur.tableOff);
      if rd.err.Some? {
        return Err(rd.err.value);
      }
      var v := k.decode(c, rd.buf);
      if v.Err? {
        return Err(v.error);
      }
      return Ok(Cursor(cur.row[k.name(c) := v.value], cur.tableOff + rd.num, cur.indexOff));
    }
    var ri := x.ReadAt(HEADER, cur.indexOff);
    var d := Varint(ri.buf);
    if d.n < 1 {
      return Err(FailedToReadIndex);
    }
    if d.value < 0 {
      return Err(Panic);
    }
    var rd := t.ReadAt(d.value, cur.tableOff);
    if rd.err.Some? {
      return Err(rd.err.value);
    }
    var v := k.decode(c, rd.buf);
    if v.Err? {
      return Err(v.error);
    }
    return Ok(Cursor(cur.row[k.name(c) := v.value], cur.tableOff + rd.num, cur.indexOff + ri.num));
  }

  /**
   * The dynamic table: its two open files (`null` once closed), the table
   * file's version, the schema, its total width and its number of flexible
   * columns.
   */
  class TableDynamic {
    var tablefile: File?
    var indexfile: File?
    var fileVersion: int
    var columnTypes: seq<ColumnType>
    var columnBytes: int
    var numOfFlexibleColumn: int

    /** The schema passed `setColumns` and the counts agree with it; the two files are distinct. */
    ghost predicate Valid()
      reads this
    {
      && CheckColumns(columnTypes) == Ok(columnBytes)
      && numOfFlexibleColumn == FlexibleCount(columnTypes)
      && (tablefile != null && indexfile != null ==> tablefile != indexfile)
    }

    constructor ()
      ensures Valid() && tablefile == null && indexfile == null && columnTypes == []
    {
      tablefile := null;
      indexfile := null;
      fileVersion := 0;
      columnTypes := [];
      columnBytes := 0;
      numOfFlexibleColumn := 0;
    }

    /** `Close`: drops both files; closing a closed table is not an error. */
    method Close() returns (err: Option<Error>)
      requires Valid()
      modifies this
      ensures Valid() && err == None && tablefile == null && indexfile == null
      ensures fileVersion == old(fileVersion) && columnTypes == old(columnTypes)
      ensures columnBytes == old(columnBytes) && numOfFlexibleColumn == old(numOfFlexibleColumn)
    {
      tablefile := null;
      indexfile := null;
      return None;
    }

    /**
     * `setColumns`: records the schema, its width and its number of flexible
     * columns, or reports why it is refused and changes nothing.
     */
    method SetColumns(cols: seq<ColumnType>) returns (err: Option<Error>)
      requires Valid()
      modifies this
      ensures Valid()
      ensures tablefile == old(tablefile) && indexfile == old(indexfile) && fileVersion == old(fileVersion)
      ensures CheckColumns(cols).Ok? ==>
                err == None && columnTypes == cols && columnBytes == CheckColumns(cols).value &&
                numOfFlexibleColumn == FlexibleCount(cols)
      ensures CheckColumns(cols).Err? ==>
                err == Some(CheckColumns(cols).error) && columnTypes == old(columnTypes) &&
                columnBytes == old(columnBytes) && numOfFlexibleColumn == old(numOfFlexibleColumn)
    {
      var total := 0;
      var flexible := 0;
      var flags: set<string> := {};
      var i := 0;
      while i < |cols|
        invariant 0 <= i <= |cols|
        invariant unchanged(this)
        invariant flags == NameSet(cols[..i])
        invariant CheckColumns(cols[..i]) == Ok(total)
        invariant flexible == FlexibleCount(cols[..i])
      {
        var c := cols[i];
        CheckStep(cols, i);
        assert cols[..i + 1][..i] == cols[..i];
        if c.name in flags {
          CheckColumnsStops(cols, i + 1);
          return Some(SameColumnName);
        }
        flags := flags + {c.name};
        var num := GetBytes(c);
        if num.Err? {
          CheckColumnsStops(cols, i + 1);
          return Some(num.error);
        }
        total := total + num.value;
        if num.value == 0 {
          flexible := flexible + 1;
        }
        i := i + 1;
      }
      assert cols[..|cols|] == cols;
      columnTypes := cols;
      columnBytes := total;
      numOfFlexibleColumn := flexible;
      return None;
    }

    /** `openTableFile` on an opened file `f`: the header check, or a new header on a short file. */
    method OpenTableFile(f: File) returns (err: Option<Error>)
      requires Valid() && f != indexfile
      modifies this, f
      ensures Valid() && tablefile == f && indexfile == old(indexfile)
      ensures columnTypes == old(columnTypes) && columnBytes == old(columnBytes)
      ensures numOfFlexibleColumn == old(numOfFlexibleColumn)
      ensures f.bytes == OpenHeader(old(f.bytes), DYNAMIC1_TABLE).data
      ensures fileVersion == OpenHeader(old(f.bytes), DYNAMIC1_TABLE).version
      ensures err == OpenHeader(old(f.bytes), DYNAMIC1_TABLE).err
    {
      tablefile := f;
      var rd := f.ReadAt(HEADER, 0);
      if rd.err.Some? {
        fileVersion := DYNAMIC1_TABLE;
        var b := PutVarintInto(rd.buf, fileVersion);
        var num, werr := f.WriteAt(b, 0);
        return None;
      }
      var d := Varint(rd.buf);
      fileVersion := d.value;
      if d.n == 0 {
        return Some(FailedToReadFileVersion);
      }
      if fileVersion != DYNAMIC1_TABLE {
        return Some(FileVersionNotCorrect);
      }
      return None;
    }

    /**
     * `openIndexFile` on an opened file `f`: the version check, or, on a
     * short file, the index version and then the first append pointer.
     */
    method OpenIndexFile(f: File) returns (err: Option<Error>)
      requires Valid() && f != tablefile
      modifies this, f
      ensures Valid() && indexfile == f && tablefile == old(tablefile) && fileVersion == old(fileVersion)
      ensures columnTypes == old(columnTypes) && columnBytes == old(columnBytes)
      ensures numOfFlexibleColumn == old(numOfFlexibleColumn)
      ensures f.bytes == OpenIndexHeader(old(f.bytes)).data
      ensures err == OpenIndexHeader(old(f.bytes)).err
    {
      indexfile := f;
      var rd := f.ReadAt(HEADER, 0);
      if rd.err.Some? {
        var b := PutVarintInto(rd.buf, DYNAMIC1_INDEX);
        var num, werr := f.WriteAt(b, 0);
        b := PutVarintInto(b, HEADER);
        num, werr := f.WriteAt(b, num);
        return None;
      }
      var d := Varint(rd.buf);
      if d.n == 0 {
        return Some(FailedToReadFileVersion);
      }
      if d.value != DYNAMIC1_INDEX {
        return Some(FileVersionNotCorrect);
      }
      return None;
    }

    /** `searchLastIndexNum`: the number of whole slots in the index. */
    method SearchLastIndexNum() returns (r: Result<int>)
      requires Valid()
      ensures indexfile == null ==> r == Err(InvalidFile)
      ensures indexfile != null ==> r == Ok(IndexCount(numOfFlexibleColumn, indexfile.bytes))
    {
      if indexfile == null {
        return Err(InvalidFile);
      }
      return Ok(OffsetToIndexNum(numOfFlexibleColumn, indexfile.Size()));
    }

    /** `searchLastTableOffset`: the append pointer in the index header. */
    method SearchLastTableOffset() returns (r: Result<int>)
      requires Valid()
      ensures indexfile == null ==> r == Err(InvalidFile)
      ensures indexfile != null ==> r == LastTableOffset(indexfile.bytes)
    {
      if indexfile == null {
        return Err(InvalidFile);
      }
      var rd := indexfile.ReadAt(HEADER, HEADER);
      if rd.err.Some? {
        return Err(rd.err.value);
      }
      var d := Varint(rd.buf);
      if d.n == 0 {
        return Err(FailedToReadLastTableOffset);
      }
      return Ok(d.value);
    }

    /**
     * `WriteRow`: the tombstone at the append pointer, the row's offset in the
     * next index slot, the column loop, then the new append pointer, as
     * `WriteRowSpec` says.
     */
    method WriteRow(row: Row) returns (r: Result<int>)
      requires Valid()
      modifies tablefile, indexfile
      ensures Valid()
      ensures indexfile == null ==> r == Err(InvalidFile)
      ensures indexfile != null && tablefile == null ==>
                indexfile.bytes == old(indexfile.bytes) &&
                r == Err(if LastTableOffset(indexfile.bytes).Err? then LastTableOffset(indexfile.bytes).error else InvalidFile)
      ensures indexfile != null && tablefile != null ==>
                && tablefile.bytes == WriteRowSpec(columnTypes, numOfFlexibleColumn, old(tablefile.bytes), old(indexfile.bytes), row).table
                && indexfile.bytes == WriteRowSpec(columnTypes, numOfFlexibleColumn, old(tablefile.bytes), old(indexfile.bytes), row).index
                && r == WriteRowSpec(columnTypes, numOfFlexibleColumn, old(tablefile.bytes), old(indexfile.bytes), row).result
    {
      var tableOff := SearchLastTableOffset();
      if tableOff.Err? {
        return Err(tableOff.error);
      }
      var indexNum := SearchLastIndexNum();
      if tablefile == null {
        return Err(InvalidFile);
      }
      r := AppendRow(tablefile, indexfile, columnTypes, numOfFlexibleColumn, row, tableOff.value, indexNum.value);
    }

    /** The body of `WriteRow` once the append pointer and the row number are known. */
    static method AppendRow(t: File, x: File, cols: seq<ColumnType>, numFlexible: nat, row: Row, tableOff: int, indexNum: int)
      returns (r: Result<int>)
      requires t != x && LastTableOffset(x.bytes) == Ok(tableOff) && indexNum == IndexCount(numFlexible, x.bytes)
      modifies t, x
      ensures t.bytes == WriteRowSpec(cols, numFlexible, old(t.bytes), old(x.bytes), row).table
      ensures x.bytes == WriteRowSpec(cols, numFlexible, old(t.bytes), old(x.bytes), row).index
      ensures r == WriteRowSpec(cols, numFlexible, old(t.bytes), old(x.bytes), row).result
    {
      if tableOff < 0 {
        var num, err := t.WriteAt([ROW_NORMAL], tableOff);
        return Err(err.value);
      }
      IndexCountBounds(numFlexible, x.bytes);
      r := WriteRowAtFiles(Latest, t, x, cols, row, DeclaredFlexible, VarintSlot, tableOff, IndexNumToOffset(numFlexible, indexNum), indexNum);
    }

    /** The writes of `AppendRow` once the row's table offset and index slot are known, as `WriteRowAt` says. */
    static method WriteRowAtFiles<C>(k: RowCodec.Codec<C>, t: File, x: File, cols: seq<C>, row: Row, entry: C -> bool,
                                     slot: int -> seq<byte>, tableOff: nat, indexOff: nat, indexNum: int)
      returns (r: Result<int>)
      requires t != x
      modifies t, x
      ensures t.bytes == WriteRowAt(old(t.bytes), old(x.bytes), tableOff, indexOff, indexNum, EncodeDyn(k, cols, row, entry), slot).table
      ensures x.bytes == WriteRowAt(old(t.bytes), old(x.bytes), tableOff, indexOff, indexNum, EncodeDyn(k, cols, row, entry), slot).index
      ensures r == WriteRowAt(old(t.bytes), old(x.bytes), tableOff, indexOff, indexNum, EncodeDyn(k, cols, row, entry), slot).result
    {
      var cerr, end, e := WriteRowBody(k, t, x, cols, row, entry, slot(tableOff), tableOff, indexOff);
      if cerr.Some? {
        return Err(cerr.value);
      }
      var num3, err3 := x.WriteAt(slot(end), HEADER);
      return Ok(indexNum);
    }

    /** The tombstone and the column images in the table, the row's slot and the index entries in the index. */
    static method WriteRowBody<C>(k: RowCodec.Codec<C>, t: File, x: File, cols: seq<C>, row: Row, entry: C -> bool,
                                  first: seq<byte>, tableOff: nat, indexOff: nat)
      returns (err: Option<Error>, end: int, ghost e: DynEncoded)
      requires t != x
      modifies t, x
      ensures e == EncodeDyn(k, cols, row, entry)
      ensures t.bytes == Overwrite(old(t.bytes), tableOff, [ROW_NORMAL] + e.body)
      ensures x.bytes == Overwrite(old(x.bytes), indexOff, first + e.entries)
      ensures err == e.err && end == tableOff + 1 + |e.body|
    {
      ghost var t0, x0 := t.bytes, x.bytes;
      var num, werr := t.WriteAt([ROW_NORMAL], tableOff);
      var num2, werr2 := x.WriteAt(first, indexOff);
      err, end, e := WriteDynColumnsAt(k, t, x, cols, tableOff + num, indexOff + num2, row, entry);
      OverwriteAppend(t0, tableOff, [ROW_NORMAL], e.body);
      OverwriteAppend(x0, indexOff, first, e.entries);
    }

    /**
     * `ReadRow`: the bounds check, the slot's table offset, the tombstone,
     * then the column loop, as `ReadRowSpec` says.
     */
    method ReadRow(rowNum: int) returns (r: Result<Row>)
      requires Valid()
      ensures indexfile == null ==> r == Err(InvalidFile)
      ensures indexfile != null && tablefile == null ==> r.Err?
      ensures indexfile != null && tablefile != null ==>
                r == ReadRowSpec(columnTypes, numOfFlexibleColumn, tablefile.bytes, indexfile.bytes, rowNum)
    {
      var lastIndexNum := SearchLastIndexNum();
      if lastIndexNum.Err? {
        return Err(lastIndexNum.error);
      }
      if rowNum > lastIndexNum.value || rowNum < 0 {
        return Err(OutOfRowIndex);
      }
      var indexOff := IndexNumToOffset(numOfFlexibleColumn, rowNum);
      var rd := indexfile.ReadAt(HEADER, indexOff);
      if rd.err.Some? {
        return Err(rd.err.value);
      }
      var d := Varint(rd.buf);
      if d.n < 1 {
        return Err(FailedToReadTableIndex);
      }
      if tablefile == null {
        return Err(InvalidFile);
      }
      var t := tablefile.ReadAt(1, d.value);
      if t.err.Some? {
        return Err(t.err.value);
      }
      if t.buf[0] == ROW_DELETED {
        return Err(DeletedRow);
      }
      var cur := ReadDynColumnsAt(Latest, tablefile, indexfile, columnTypes, d.value + 1, indexOff + HEADER);
      r := RowOf(cur);
    }

    /**
     * `DeleteRow`: the bounds check, the slot's table offset, then
     * `ROW_DELETED` there, as `DeleteRowSpec` says; with the table file
     * closed, the failure comes from the final sync.
     */
    method DeleteRow(rowNum: int) returns (err: Option<Error>)
      requires Valid()
      modifies tablefile
      ensures Valid()
      ensures indexfile == null ==> err == Some(InvalidFile)
      ensures indexfile != null && tablefile == null ==>
                err == if DeleteRowSpec(numOfFlexibleColumn, [], indexfile.bytes, rowNum).err.Some?
                       then DeleteRowSpec(numOfFlexibleColumn, [], indexfile.bytes, rowNum).err
                       else Some(InvalidFile)
      ensures indexfile != null && tablefile != null ==>
                && tablefile.bytes == DeleteRowSpec(numOfFlexibleColumn, old(tablefile.bytes), indexfile.bytes, rowNum).table
                && err == DeleteRowSpec(numOfFlexibleColumn, old(tablefile.bytes), indexfile.bytes, rowNum).err
    {
      var lastIndexNum := SearchLastIndexNum();
      if lastIndexNum.Err? {
        return Some(lastIndexNum.error);
      }
      if rowNum > lastIndexNum.value || rowNum < 0 {
        return Some(OutOfRowIndex);
      }
      var indexOff := IndexNumToOffset(numOfFlexibleColumn, rowNum);
      var rd := indexfile.ReadAt(HEADER, indexOff);
      if rd.err.Some? {
        return Some(rd.err.value);
      }
      var d := Varint(rd.buf);
      if d.n == 0 {
        return Some(FailedToReadTableIndex);
      }
      if tablefile == null {
        return Some(InvalidFile);
      }
      var num, werr := tablefile.WriteAt([ROW_DELETED], d.value);
      return None;
    }
  }
}
