/**
 * The row layout the early engines (day1, day2, underReview/day3 and
 * underReview/part1) share with the static table: row `n` starts at
 * `10 + n * (columnBytes + 1)` with its tombstone byte, a live row has
 * tombstone 1 and a deleted one 0, and reading a row is the tombstone check
 * followed by the column loop. The facts here hold for any of the codecs.
 */
module Stride {
  import opened Bytes
  import opened Binary
  import opened Values
  import opened Column
  import opened Header
  import opened Static
  import RowCodec

  /** `Read` at the row whose tombstone is at `off`: the tombstone, then the columns after it. */
  function ReadRowAt<C>(k: RowCodec.Codec<C>, cols: seq<C>, data: seq<byte>, off: int): Result<Row>
  {
    var t := ReadBytes(data, 1, off);
    if t.err.Some? then Err(t.err.value)
    else if t.buf[0] == ROW_DELETED then Err(DeletedRow)
    else RowCodec.DecodeColumns(k, cols, data, off + 1)
  }

  /** `Read` on an open file: the tombstone at `off`, then the column loop. */
  method ReadRowIn<C>(k: RowCodec.Codec<C>, f: File, cols: seq<C>, off: int) returns (r: Result<Row>)
    ensures r == ReadRowAt(k, cols, f.bytes, off)
  {
    var t := f.ReadAt(1, off);
    if t.err.Some? {
      return Err(t.err.value);
    }
    if t.buf[0] == ROW_DELETED {
      return Err(DeletedRow);
    }
    r := RowCodec.ReadColumnsAt(k, f, cols, off + 1);
  }

  /** A row write on an open file: the live tombstone at `off`, then the column loop right after it. */
  method WriteLiveRow<C>(k: RowCodec.Codec<C>, f: File, cols: seq<C>, off: int, row: Row) returns (err: Option<Error>)
    modifies f
    ensures off < 0 ==> f.bytes == old(f.bytes) && err == Some(NegativeOffset)
    ensures off >= 0 ==> f.bytes == Overwrite(old(f.bytes), off, [ROW_NORMAL] + RowCodec.EncodePrefix(k, cols, row).bytes)
    ensures off >= 0 ==> err == RowCodec.EncodePrefix(k, cols, row).err
  {
    ghost var start := f.bytes;
    var num;
    num, err := f.WriteAt([ROW_NORMAL], off);
    if err.Some? {
      return;
    }
    err := RowCodec.WriteColumnsAt(k, f, cols, off + num, row);
    OverwriteAppend(start, off, [ROW_NORMAL], RowCodec.EncodePrefix(k, cols, row).bytes);
  }

  /** A schema whose rows are `columnBytes + 1` bytes wide and read back in place whatever `row` holds. */
  predicate Fits<C>(k: RowCodec.Codec<C>, readBack: (C, Row) -> Value, cols: seq<C>, columnBytes: nat, row: Row)
  {
    RowCodec.WidthSum(k, cols) == columnBytes &&
    forall i :: 0 <= i < |cols| ==> RowCodec.Aligned(k, readBack, cols[i], row)
  }

  /** A clean write of an aligned row puts down exactly the row's width. */
  lemma FullWidth<C>(k: RowCodec.Codec<C>, readBack: (C, Row) -> Value, cols: seq<C>, columnBytes: nat, row: Row)
    requires Fits(k, readBack, cols, columnBytes, row)
    ensures RowCodec.EncodePrefix(k, cols, row).err == None
    ensures |RowCodec.EncodePrefix(k, cols, row).bytes| == columnBytes
  {
    RowCodec.EncodePrefixWidth(k, cols, row);
  }

  /** A live tombstone followed by a clean write of the columns reads back as the row. */
  lemma LiveRowReads<C>(k: RowCodec.Codec<C>, readBack: (C, Row) -> Value, cols: seq<C>, columnBytes: nat,
                        d: seq<byte>, off: int, row: Row)
    requires Fits(k, readBack, cols, columnBytes, row)
    requires Holds(d, off, [ROW_NORMAL] + RowCodec.EncodePrefix(k, cols, row).bytes)
    ensures ReadRowAt(k, cols, d, off) == Ok(RowCodec.ExpectedRow(k, readBack, cols, row))
  {
    HoldsSplit(d, off, [ROW_NORMAL] + RowCodec.EncodePrefix(k, cols, row).bytes, [ROW_NORMAL],
               RowCodec.EncodePrefix(k, cols, row).bytes);
    assert d[off] == d[off..off + 1][0];
    RowCodec.DecodeWritten(k, readBack, cols, row, d, off + 1);
  }

  /**
   * Writing a live row at the row count appends exactly one row, which reads
   * back as the row: every column of the schema with the value written, or
   * the column's zero value.
   */
  lemma AppendThenRead<C>(k: RowCodec.Codec<C>, readBack: (C, Row) -> Value, cols: seq<C>, columnBytes: nat,
                          data: seq<byte>, row: Row)
    requires |data| >= HEADER && Fits(k, readBack, cols, columnBytes, row)
    ensures RowCodec.EncodePrefix(k, cols, row).err == None
    ensures RowCount(columnBytes, data) >= 0
    ensures RowCount(columnBytes, Overwrite(data, RowNumToOffset(columnBytes, RowCount(columnBytes, data)),
                                            [ROW_NORMAL] + RowCodec.EncodePrefix(k, cols, row).bytes))
            == RowCount(columnBytes, data) + 1
    ensures ReadRowAt(k, cols, Overwrite(data, RowNumToOffset(columnBytes, RowCount(columnBytes, data)),
                                         [ROW_NORMAL] + RowCodec.EncodePrefix(k, cols, row).bytes),
                      RowNumToOffset(columnBytes, RowCount(columnBytes, data)))
            == Ok(RowCodec.ExpectedRow(k, readBack, cols, row))
  {
    FullWidth(k, readBack, cols, columnBytes, row);
    RowCountBounds(columnBytes, data);
    var n := RowCount(columnBytes, data);
    var off := RowNumToOffset(columnBytes, n);
    var e := RowCodec.EncodePrefix(k, cols, row).bytes;
    var d := Overwrite(data, off, [ROW_NORMAL] + e);
    OverwriteHolds(data, off, [ROW_NORMAL] + e);
    OffsetNext(columnBytes, n);
    RowCountIs(columnBytes, d, n + 1);
    LiveRowReads(k, readBack, cols, columnBytes, d, off, row);
  }

  /** Rewriting row `m` of the file with a live row keeps the file's length and reads back as the row. */
  lemma RewriteThenRead<C>(k: RowCodec.Codec<C>, readBack: (C, Row) -> Value, cols: seq<C>, columnBytes: nat,
                           data: seq<byte>, m: int, row: Row)
    requires |data| >= HEADER && 0 <= m < RowCount(columnBytes, data)
    requires Fits(k, readBack, cols, columnBytes, row)
    ensures RowCodec.EncodePrefix(k, cols, row).err == None
    ensures |Overwrite(data, RowNumToOffset(columnBytes, m), [ROW_NORMAL] + RowCodec.EncodePrefix(k, cols, row).bytes)|
            == |data|
    ensures ReadRowAt(k, cols, Overwrite(data, RowNumToOffset(columnBytes, m),
                                         [ROW_NORMAL] + RowCodec.EncodePrefix(k, cols, row).bytes),
                      RowNumToOffset(columnBytes, m))
            == Ok(RowCodec.ExpectedRow(k, readBack, cols, row))
  {
    FullWidth(k, readBack, cols, columnBytes, row);
    RowCountBounds(columnBytes, data);
    OffsetMono(columnBytes, m, RowCount(columnBytes, data));
    OffsetAtLeastHeader(columnBytes, m);
    var off := RowNumToOffset(columnBytes, m);
    var e := RowCodec.EncodePrefix(k, cols, row).bytes;
    OverwriteHolds(data, off, [ROW_NORMAL] + e);
    LiveRowReads(k, readBack, cols, columnBytes, Overwrite(data, off, [ROW_NORMAL] + e), off, row);
  }

  /** A zero tombstone reads as a deleted row, whatever follows it. */
  lemma TombstoneReads<C>(k: RowCodec.Codec<C>, cols: seq<C>, data: seq<byte>, off: nat)
    ensures ReadRowAt(k, cols, Overwrite(data, off, [ROW_DELETED]), off) == Err(DeletedRow)
  {
    OverwriteSlice(data, off, [ROW_DELETED]);
    assert Overwrite(data, off, [ROW_DELETED])[off] == Overwrite(data, off, [ROW_DELETED])[off..off + 1][0];
  }

  /** Every column's nil buffer is as wide as the column, so a read stays inside its row. */
  predicate NilsFit<C>(k: RowCodec.Codec<C>, cols: seq<C>, columnBytes: nat)
  {
    RowCodec.WidthSum(k, cols) == columnBytes && forall i :: 0 <= i < |cols| ==> RowCodec.NilFitsWidth(k, cols[i])
  }

  /** Reading a row depends only on the bytes of its stride. */
  lemma RowFrame<C>(k: RowCodec.Codec<C>, cols: seq<C>, columnBytes: nat, d1: seq<byte>, d2: seq<byte>, lo: nat)
    requires NilsFit(k, cols, columnBytes)
    requires lo + columnBytes + 1 <= |d1| && lo + columnBytes + 1 <= |d2|
    requires d1[lo..lo + columnBytes + 1] == d2[lo..lo + columnBytes + 1]
    ensures ReadRowAt(k, cols, d1, lo) == ReadRowAt(k, cols, d2, lo)
  {
    var hi := lo + columnBytes + 1;
    SubSlices(d1, lo, lo + 1, hi);
    SubSlices(d2, lo, lo + 1, hi);
    RowCodec.DecodeFrame(k, cols, d1, d2, lo + 1);
    ReadFrame(d1, d2, 1, lo);
  }

  /** A write that stays inside row `j` leaves every other row reading as it did. */
  lemma OtherRowKept<C>(k: RowCodec.Codec<C>, cols: seq<C>, columnBytes: nat, data: seq<byte>, j: int, b: seq<byte>, m: int)
    requires NilsFit(k, cols, columnBytes)
    requires 0 <= j && 0 <= m && j != m && |b| <= columnBytes + 1
    requires RowNumToOffset(columnBytes, m) + columnBytes + 1 <= |data|
    ensures ReadRowAt(k, cols, Overwrite(data, RowNumToOffset(columnBytes, j), b), RowNumToOffset(columnBytes, m))
            == ReadRowAt(k, cols, data, RowNumToOffset(columnBytes, m))
  {
    OffsetAtLeastHeader(columnBytes, j);
    OffsetAtLeastHeader(columnBytes, m);
    var lo := RowNumToOffset(columnBytes, m);
    if j < m {
      OffsetMono(columnBytes, j, m);
    } else {
      OffsetMono(columnBytes, m, j);
    }
    OverwriteOutside(data, RowNumToOffset(columnBytes, j), b, lo, lo + columnBytes + 1);
    RowFrame(k, cols, columnBytes, data, Overwrite(data, RowNumToOffset(columnBytes, j), b), lo);
  }

  /** What the width loop of `setColumns` leaves: the running total, and the error that stopped it. */
  datatype Summed = Summed(total: int, err: Option<Error>)

  /**
   * The width loop of `setColumns` in day1, day2, day3 and part1: the
   * widths are added up column by column, and the first column whose width
   * is unknown stops the loop with the total so far.
   */
  function SumWidths<C>(k: RowCodec.Codec<C>, cols: seq<C>): Summed
    decreases |cols|
  {
    if cols == [] then Summed(0, None)
    else
      var p := SumWidths(k, cols[..|cols| - 1]);
      if p.err.Some? then p
      else
        match k.width(cols[|cols| - 1])
        case Err(e) => Summed(p.total, Some(e))
        case Ok(w) => Summed(p.total + w, None)
  }

  /**
   * The loop succeeds exactly when every column has a width, and then its
   * total is the offset past the last column. Otherwise it reports the
   * error of the first column without a width, and the total is the width
   * of the columns before that one.
   */
  lemma {:induction false} SumWidthsMeaning<C>(k: RowCodec.Codec<C>, cols: seq<C>)
    ensures SumWidths(k, cols).err == None <==> forall i :: 0 <= i < |cols| ==> k.width(cols[i]).Ok?
    ensures SumWidths(k, cols).err == None ==> SumWidths(k, cols).total == RowCodec.WidthSum(k, cols)
    ensures SumWidths(k, cols).err.Some? ==>
              exists j :: 0 <= j < |cols| && k.width(cols[j]).Err? && (forall i :: 0 <= i < j ==> k.width(cols[i]).Ok?) &&
                          SumWidths(k, cols).err == Some(k.width(cols[j]).error) &&
                          SumWidths(k, cols).total == RowCodec.WidthSum(k, cols[..j])
    decreases |cols|
  {
    if cols != [] {
      var init := cols[..|cols| - 1];
      SumWidthsMeaning(k, init);
      if SumWidths(k, init).err.Some? {
        var j :| 0 <= j < |init| && k.width(init[j]).Err? && (forall i :: 0 <= i < j ==> k.width(init[i]).Ok?) &&
                 SumWidths(k, init).err == Some(k.width(init[j]).error) &&
                 SumWidths(k, init).total == RowCodec.WidthSum(k, init[..j]);
        assert cols[j] == init[j];
        assert cols[..j] == init[..j];
        assert forall i :: 0 <= i < j ==> cols[i] == init[i];
      } else {
        assert forall i :: 0 <= i < |init| ==> cols[i] == init[i];
        if k.width(cols[|cols| - 1]).Err? {
          assert cols[..|cols| - 1] == init;
        }
      }
    }
  }

  /** One more column of the width loop. */
  lemma SumStep<C>(k: RowCodec.Codec<C>, cols: seq<C>, i: nat)
    requires i < |cols|
    ensures SumWidths(k, cols[..i + 1]) ==
            if SumWidths(k, cols[..i]).err.Some? then SumWidths(k, cols[..i])
            else match k.width(cols[i])
              case Err(e) => Summed(SumWidths(k, cols[..i]).total, Some(e))
              case Ok(w) => Summed(SumWidths(k, cols[..i]).total + w, None)
  {
    assert cols[..i + 1][..i] == cols[..i];
  }

  /** Once the width loop has stopped, the later columns change nothing. */
  lemma {:induction false} SumStops<C>(k: RowCodec.Codec<C>, cols: seq<C>, j: nat)
    requires j <= |cols| && SumWidths(k, cols[..j]).err.Some?
    ensures SumWidths(k, cols) == SumWidths(k, cols[..j])
    decreases |cols| - j
  {
    if j < |cols| {
      SumStep(k, cols, j);
      SumStops(k, cols, j + 1);
    } else {
      assert cols[..j] == cols;
    }
  }

  /**
   * `OpenFile` of day1, day2 and day3: a file too short for a header gets a
   * version-1 header, written over the bytes the failed read left in the
   * buffer. An existing header is decoded, and any version is accepted.
   */
  function OpenFileHeader(data: seq<byte>): Opened
  {
    var rd := ReadBytes(data, HEADER, 0);
    if rd.err.Some? then Opened(Overwrite(data, 0, PutVarintInto(rd.buf, 1)), 1, None)
    else
      var d := Varint(rd.buf);
      if d.n == 0 then Opened(data, d.value, Some(FailedToReadFileVersion))
      else Opened(data, d.value, None)
  }

  /**
   * Opening a short file writes the same version-1 header as the current
   * engine's static table. A file that holds a header is left alone; it is
   * refused only when its header is not a terminated varint, and it is
   * accepted whatever version that varint holds, unlike the current engine.
   */
  lemma OpenFileMeaning(data: seq<byte>)
    ensures |data| < HEADER ==> OpenFileHeader(data) == OpenHeader(data, 1)
    ensures |data| < HEADER ==> OpenFileHeader(data).err == None && FieldAt(OpenFileHeader(data).data, 0).value == 1
    ensures |data| >= HEADER ==> OpenFileHeader(data).data == data
    ensures |data| >= HEADER ==> OpenFileHeader(data).version == FieldAt(data, 0).value
    ensures |data| >= HEADER ==> (OpenFileHeader(data).err == None <==> FieldAt(data, 0).n != 0)
    ensures |data| >= HEADER && FieldAt(data, 0).n != 0 ==>
              (OpenHeader(data, 1).err == None <==> FieldAt(data, 0).value == 1)
    ensures |OpenFileHeader(data).data| >= HEADER
  {
    if |data| < HEADER {
      OpenShortFile(data, 1);
    }
  }
}
