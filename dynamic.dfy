/**
 * The dynamic table of the current engine: a table file of rows laid end to
 * end, and an index file that finds them.
 *
 * The index starts with two header fields, the index version and the append
 * pointer (the table offset where the next row goes), then holds one slot
 * per row: the row's table offset, then the byte length of each flexible
 * (width 0) column. A row in the table file is a tombstone byte followed by
 * all its columns, in schema order, each as long as its image.
 */
module Dynamic {
  import opened Bytes
  import opened Binary
  import opened Values
  import opened Column
  import opened Schema
  import opened Header
  import RowCodec

  /** The bytes of one index slot. */
  function SlotWidth(numFlexible: nat): nat
  {
    HEADER * (numFlexible + 1)
  }

  /** `convertIndexNumToOffset`. */
  function IndexNumToOffset(numFlexible: nat, indexNum: int): int
  {
    indexNum * SlotWidth(numFlexible) + 2 * HEADER
  }

  /** `convertOffsetToIndexNum`, with Go's truncating division. */
  function OffsetToIndexNum(numFlexible: nat, offset: int): int
  {
    Quot(offset - 2 * HEADER, SlotWidth(numFlexible))
  }

  /** `searchLastIndexNum`: the number of whole slots, which is also the next row's number. */
  function IndexCount(numFlexible: nat, index: seq<byte>): int
  {
    OffsetToIndexNum(numFlexible, |index|)
  }

  /** `searchLastTableOffset`: the append pointer, the second header field of the index. */
  function LastTableOffset(index: seq<byte>): Result<int>
  {
    var rd := ReadBytes(index, HEADER, HEADER);
    if rd.err.Some? then Err(rd.err.value)
    else
      var d := Varint(rd.buf);
      if d.n == 0 then Err(FailedToReadLastTableOffset) else Ok(d.value)
  }

  /** The test `WriteRow` uses to give a column an index entry: a declared size of 0. */
  predicate DeclaredFlexible(c: ColumnType)
  {
    c.size == 0
  }

  /** A flexible column as `setColumns` counts it and `ReadRow` reads it: a width of 0. */
  predicate Flexible(c: ColumnType)
  {
    GetBytes(c) == Ok(0)
  }

  /** What a write's column loop puts in the table and in the index slot, and the error that stopped it. */
  datatype DynEncoded = DynEncoded(body: seq<byte>, entries: seq<byte>, err: Option<Error>)

  /** The index entry a column's image gets: its length as a varint slot, or nothing. */
  function Entry(flexible: bool, b: seq<byte>): seq<byte>
  {
    if flexible then VarintSlot(|b|) else []
  }

  /**
   * The column loop of `WriteRow`: the images of the columns up to the first
   * failure, and for each column `entry` picks, its image's length as a
   * varint slot.
   */
  function EncodeDyn<C>(k: RowCodec.Codec<C>, cols: seq<C>, row: Row, entry: C -> bool): DynEncoded
    decreases |cols|
  {
    if cols == [] then DynEncoded([], [], None)
    else
      var c := cols[|cols| - 1];
      var p := EncodeDyn(k, cols[..|cols| - 1], row, entry);
      if p.err.Some? then p
      else match RowCodec.Image(k, c, row)
        case Err(e) => DynEncoded(p.body, p.entries, Some(e))
        case Ok(b) => DynEncoded(p.body + b, p.entries + Entry(entry(c), b), None)
  }

  /** The number of columns `entry` picks. */
  function EntryCount<C>(cols: seq<C>, entry: C -> bool): nat
    decreases |cols|
  {
    if cols == [] then 0
    else EntryCount(cols[..|cols| - 1], entry) + (if entry(cols[|cols| - 1]) then 1 else 0)
  }

  /** The table file and the index file after a write, and its result. */
  datatype DynWritten = DynWritten(table: seq<byte>, index: seq<byte>, result: Result<int>)

  /**
   * `WriteRow` as written: the tombstone at the append pointer and the
   * row's offset in the next index slot come first; then each column goes to
   * the table, and a column declared with size 0 gets its length in the
   * slot; only when every column succeeded does the append pointer move past
   * the row.
   */
  function WriteRowSpec(cols: seq<ColumnType>, numFlexible: nat, table: seq<byte>, index: seq<byte>, row: Row): DynWritten
  {
    match LastTableOffset(index)
    case Err(e) => DynWritten(table, index, Err(e))
    case Ok(tableOff) =>
      if tableOff < 0 then DynWritten(table, index, Err(NegativeOffset))
      else
        IndexCountBounds(numFlexible, index);
        var indexNum := IndexCount(numFlexible, index);
        WriteRowAt(table, index, tableOff, IndexNumToOffset(numFlexible, indexNum), indexNum,
                   EncodeDyn(Latest, cols, row, DeclaredFlexible), VarintSlot)
  }

  /**
   * The writes of `WriteRow` once the row's place is known: the tombstone and
   * the column images from `tableOff`, the row's slot and the index entries
   * from `indexOff`, and, when every column succeeded, the new last table
   * offset in the header. `slot` encodes an offset as an index slot
   * (`VarintSlot` in the engine).
   */
  function WriteRowAt(table: seq<byte>, index: seq<byte>, tableOff: nat, indexOff: nat, indexNum: int, e: DynEncoded,
                      slot: int -> seq<byte>): DynWritten
  {
    var t := Overwrite(table, tableOff, [ROW_NORMAL] + e.body);
    var x := Overwrite(index, indexOff, slot(tableOff) + e.entries);
    if e.err.Some? then DynWritten(t, x, Err(e.err.value))
    else DynWritten(t, Overwrite(x, HEADER, slot(tableOff + 1 + |e.body|)), Ok(indexNum))
  }

  /**
   * The write the engine evidently intends: index entries for exactly the
   * flexible columns `setColumns` counted, and an index slot that is written
   * only once every column has succeeded, so that a failed write adds no row.
   */
  function IntendedWriteRow(cols: seq<ColumnType>, numFlexible: nat, table: seq<byte>, index: seq<byte>, row: Row): DynWritten
  {
    match LastTableOffset(index)
    case Err(e) => DynWritten(table, index, Err(e))
    case Ok(tableOff) =>
      if tableOff < 0 then DynWritten(table, index, Err(NegativeOffset))
      else
        IndexCountBounds(numFlexible, index);
        var indexNum := IndexCount(numFlexible, index);
        var e := EncodeDyn(Latest, cols, row, Flexible);
        var t := Overwrite(table, tableOff, [ROW_NORMAL] + e.body);
        if e.err.Some? then DynWritten(t, index, Err(e.err.value))
        else
          var x := Overwrite(index, IndexNumToOffset(numFlexible, indexNum), VarintSlot(tableOff) + e.entries);
          DynWritten(t, Overwrite(x, HEADER, VarintSlot(tableOff + 1 + |e.body|)), Ok(indexNum))
  }

  /** Where a read's column loop has got to: the row so far and the next table and index offsets. */
  datatype Cursor = Cursor(row: Row, tableOff: int, indexOff: int)

  /**
   * One column of `ReadRow`: a column of positive width is read as wide as
   * its nil value; a flexible one takes its length from the next index entry
   * (whose read error is ignored, the index offset advancing by what was
   * read) and is read that long. A negative length makes `make` panic.
   */
  function DynColumn<C>(k: RowCodec.Codec<C>, c: C, table: seq<byte>, index: seq<byte>, cur: Cursor): Result<Cursor>
  {
    match k.width(c)
    case Err(e) => Err(e)
    case Ok(size) =>
      match k.nil(c)
      case Err(e) => Err(e)
      case Ok(nilCell) =>
        if size > 0 then
          var rd := ReadBytes(table, |nilCell|, cur.tableOff);
          if rd.err.Some? then Err(rd.err.value)
          else match k.decode(c, rd.buf)
            case Err(e) => Err(e)
            case Ok(v) => Ok(Cursor(cur.row[k.name(c) := v], cur.tableOff + rd.num, cur.indexOff))
        else
          var ri := ReadBytes(index, HEADER, cur.indexOff);
          var d := Varint(ri.buf);
          if d.n < 1 then Err(FailedToReadIndex)
          else if d.value < 0 then Err(Panic)
          else
            var rd := ReadBytes(table, d.value, cur.tableOff);
            if rd.err.Some? then Err(rd.err.value)
            else match k.decode(c, rd.buf)
              case Err(e) => Err(e)
              case Ok(v) => Ok(Cursor(cur.row[k.name(c) := v], cur.tableOff + rd.num, cur.indexOff + ri.num))
  }

  /** The column loop of `ReadRow`, from the given table and index offsets, up to the first failure. */
  function DecodeDyn<C>(k: RowCodec.Codec<C>, cols: seq<C>, table: seq<byte>, index: seq<byte>,
                        tableOff: int, indexOff: int): Result<Cursor>
    decreases |cols|
  {
    if cols == [] then Ok(Cursor(map[], tableOff, indexOff))
    else
      match DecodeDyn(k, cols[..|cols| - 1], table, index, tableOff, indexOff)
      case Err(e) => Err(e)
      case Ok(cur) => DynColumn(k, cols[|cols| - 1], table, index, cur)
  }

  function RowOf(r: Result<Cursor>): Result<Row>
  {
    match r
    case Err(e) => Err(e)
    case Ok(cur) => Ok(cur.row)
  }

  /** The row whose index slot is at `indexOff`: its table offset, its tombstone, then its columns. */
  function ReadSlot<C>(k: RowCodec.Codec<C>, cols: seq<C>, table: seq<byte>, index: seq<byte>, indexOff: int): Result<Row>
  {
    var rd := ReadBytes(index, HEADER, indexOff);
    if rd.err.Some? then Err(rd.err.value)
    else
      var d := Varint(rd.buf);
      if d.n < 1 then Err(FailedToReadTableIndex)
      else
        var t := ReadBytes(table, 1, d.value);
        if t.err.Some? then Err(t.err.value)
        else if t.buf[0] == ROW_DELETED then Err(DeletedRow)
        else RowOf(DecodeDyn(k, cols, table, index, d.value + 1, indexOff + HEADER))
  }

  /** `ReadRow`: the bounds check, then the row of that slot. */
  function ReadRowSpec(cols: seq<ColumnType>, numFlexible: nat, table: seq<byte>, index: seq<byte>, rowNum: int): Result<Row>
  {
    if rowNum > IndexCount(numFlexible, index) || rowNum < 0 then Err(OutOfRowIndex)
    else ReadSlot(Latest, cols, table, index, IndexNumToOffset(numFlexible, rowNum))
  }

  /** The table file after a `DeleteRow`, and the error reported. */
  datatype DynDeleted = DynDeleted(table: seq<byte>, err: Option<Error>)

  /**
   * `DeleteRow`: the bounds check, the row's table offset from its slot, then
   * `ROW_DELETED` there; the error of that write is ignored.
   */
  function DeleteRowSpec(numFlexible: nat, table: seq<byte>, index: seq<byte>, rowNum: int): DynDeleted
  {
    if rowNum > IndexCount(numFlexible, index) || rowNum < 0 then DynDeleted(table, Some(OutOfRowIndex))
    else
      var rd := ReadBytes(index, HEADER, IndexNumToOffset(numFlexible, rowNum));
      if rd.err.Some? then DynDeleted(table, Some(rd.err.value))
      else
        var d := Varint(rd.buf);
        if d.n == 0 then DynDeleted(table, Some(FailedToReadTableIndex))
        else if d.value < 0 then DynDeleted(table, None)
        else DynDeleted(Overwrite(table, d.value, [ROW_DELETED]), None)
  }

  // ---------------------------------------------------------------- offsets

  /** Converting a row number to its slot offset and back gives the row number. */
  lemma IndexOffsetRoundTrip(numFlexible: nat, indexNum: nat)
    ensures OffsetToIndexNum(numFlexible, IndexNumToOffset(numFlexible, indexNum)) == indexNum
  {
    DivUnique(indexNum * SlotWidth(numFlexible), SlotWidth(numFlexible), indexNum);
  }

  lemma SlotNext(numFlexible: nat, n: int)
    ensures IndexNumToOffset(numFlexible, n + 1) == IndexNumToOffset(numFlexible, n) + SlotWidth(numFlexible)
  {
  }

  lemma SlotAfterHeader(numFlexible: nat, n: int)
    requires n >= 0
    ensures IndexNumToOffset(numFlexible, n) >= 2 * HEADER
  {
    MulMono(0, n, SlotWidth(numFlexible));
  }

  /** In an index that holds both header fields, the count is the number of whole slots after them. */
  lemma IndexCountBounds(numFlexible: nat, index: seq<byte>)
    ensures |index| >= 2 * HEADER ==>
              && IndexCount(numFlexible, index) >= 0
              && 2 * HEADER <= IndexNumToOffset(numFlexible, IndexCount(numFlexible, index)) <= |index|
              && |index| < IndexNumToOffset(numFlexible, IndexCount(numFlexible, index)) + SlotWidth(numFlexible)
    ensures LastTableOffset(index).Ok? ==> |index| >= 2 * HEADER
  {
    if |index| >= 2 * HEADER {
      QuotNonNegative(|index| - 2 * HEADER, SlotWidth(numFlexible));
      SlotAfterHeader(numFlexible, IndexCount(numFlexible, index));
    }
  }

  /** An index that ends inside slot `n` holds `n` rows. */
  lemma IndexCountIs(numFlexible: nat, index: seq<byte>, n: nat)
    requires IndexNumToOffset(numFlexible, n) <= |index| < IndexNumToOffset(numFlexible, n) + SlotWidth(numFlexible)
    ensures IndexCount(numFlexible, index) == n
  {
    DivUnique(|index| - 2 * HEADER, SlotWidth(numFlexible), n);
  }

  /** The field at `off` of a header-or-slot written as a varint slot reads back as its value. */
  lemma SlotReadsBack(data: seq<byte>, off: nat, x: int)
    requires InInt64(x) && off + HEADER <= |data| && data[off..off + HEADER] == VarintSlot(x)
    ensures ReadBytes(data, HEADER, off) == ReadOutcome(VarintSlot(x), HEADER, None)
    ensures Varint(VarintSlot(x)) == Decoded(x, |PutVarint(x)|)
  {
    VarintRoundTrip(x, Zeros(HEADER - |PutVarint(x)|));
  }

  // ---------------------------------------------------------------- a fresh index

  /**
   * Opening a new index leaves the append pointer just past the table file's
   * header and no rows.
   */
  lemma FreshIndexIsEmpty(numFlexible: nat, data: seq<byte>)
    requires |data| < HEADER
    ensures LastTableOffset(OpenIndexHeader(data).data) == Ok(HEADER)
    ensures IndexCount(numFlexible, OpenIndexHeader(data).data) == 0
  {
    OpenShortIndex(data);
    IndexCountIs(numFlexible, OpenIndexHeader(data).data, 0);
  }

  // ---------------------------------------------------------------- the column loops

  /** One turn of the write loop: the encoding of `cols[..i + 1]` extends that of `cols[..i]` by column `i`. */
  lemma EncodeDynStep<C>(k: RowCodec.Codec<C>, cols: seq<C>, i: nat, row: Row, entry: C -> bool)
    requires i < |cols|
    ensures EncodeDyn(k, cols[..i + 1], row, entry) ==
            var p := EncodeDyn(k, cols[..i], row, entry);
            if p.err.Some? then p
            else match RowCodec.Image(k, cols[i], row)
              case Err(e) => DynEncoded(p.body, p.entries, Some(e))
              case Ok(b) => DynEncoded(p.body + b, p.entries + Entry(entry(cols[i]), b), None)
  {
    assert cols[..i + 1][..i] == cols[..i];
  }

  /** A clean turn of the write loop adds column `i`'s image to the table part and its entry to the index part. */
  lemma EncodeDynCleanStep<C>(k: RowCodec.Codec<C>, cols: seq<C>, i: nat, row: Row, entry: C -> bool)
    requires i < |cols| && EncodeDyn(k, cols[..i], row, entry).err == None && RowCodec.Image(k, cols[i], row).Ok?
    ensures EncodeDyn(k, cols[..i + 1], row, entry).err == None
    ensures EncodeDyn(k, cols[..i + 1], row, entry).body ==
            EncodeDyn(k, cols[..i], row, entry).body + RowCodec.Image(k, cols[i], row).value
    ensures EncodeDyn(k, cols[..i + 1], row, entry).entries ==
            EncodeDyn(k, cols[..i], row, entry).entries + Entry(entry(cols[i]), RowCodec.Image(k, cols[i], row).value)
  {
    assert cols[..i + 1][..i] == cols[..i];
  }

  /** A write loop that reaches a failing column `i` stops there with what it wrote so far. */
  lemma DynFailStep<C>(k: RowCodec.Codec<C>, cols: seq<C>, i: nat, row: Row, entry: C -> bool)
    requires i < |cols| && EncodeDyn(k, cols[..i], row, entry).err == None && RowCodec.Image(k, cols[i], row).Err?
    ensures EncodeDyn(k, cols, row, entry).err == Some(RowCodec.Image(k, cols[i], row).error)
    ensures EncodeDyn(k, cols, row, entry).body == EncodeDyn(k, cols[..i], row, entry).body
    ensures EncodeDyn(k, cols, row, entry).entries == EncodeDyn(k, cols[..i], row, entry).entries
  {
    EncodeDynStep(k, cols, i, row, entry);
    EncodeDynStops(k, cols, i + 1, row, entry);
  }

  /** Once a column fails, the columns after it put nothing in either file. */
  lemma {:induction false} EncodeDynStops<C>(k: RowCodec.Codec<C>, cols: seq<C>, j: nat, row: Row, entry: C -> bool)
    requires j <= |cols| && EncodeDyn(k, cols[..j], row, entry).err.Some?
    ensures EncodeDyn(k, cols, row, entry) == EncodeDyn(k, cols[..j], row, entry)
    decreases |cols| - j
  {
    if j < |cols| {
      var init := cols[..|cols| - 1];
      assert init[..j] == cols[..j];
      EncodeDynStops(k, init, j, row, entry);
    } else {
      assert cols[..j] == cols;
    }
  }

  /**
   * The table part of a dynamic write is the column loop every engine runs:
   * the same bytes, stopped by the same error, whichever columns get entries.
   */
  lemma {:induction false} EncodeDynBody<C>(k: RowCodec.Codec<C>, cols: seq<C>, row: Row, entry: C -> bool)
    ensures EncodeDyn(k, cols, row, entry).body == RowCodec.EncodePrefix(k, cols, row).bytes
    ensures EncodeDyn(k, cols, row, entry).err == RowCodec.EncodePrefix(k, cols, row).err
    decreases |cols|
  {
    if cols != [] {
      EncodeDynBody(k, cols[..|cols| - 1], row, entry);
    }
  }

  /** Two choices of entries that agree on every column give the same write. */
  lemma {:induction false} EncodeDynEntriesAgree<C>(k: RowCodec.Codec<C>, cols: seq<C>, row: Row, e1: C -> bool, e2: C -> bool)
    requires forall i :: 0 <= i < |cols| ==> e1(cols[i]) == e2(cols[i])
    ensures EncodeDyn(k, cols, row, e1) == EncodeDyn(k, cols, row, e2)
    decreases |cols|
  {
    if cols != [] {
      var init := cols[..|cols| - 1];
      assert forall i :: 0 <= i < |init| ==> init[i] == cols[i];
      EncodeDynEntriesAgree(k, init, row, e1, e2);
    }
  }

  /** A clean write gives each picked column one slot of entries, and no other column any. */
  lemma {:induction false} EncodeDynEntries<C>(k: RowCodec.Codec<C>, cols: seq<C>, row: Row, entry: C -> bool)
    requires EncodeDyn(k, cols, row, entry).err == None
    requires forall i :: 0 <= i < |cols| && RowCodec.Image(k, cols[i], row).Ok? ==>
               InInt64(|RowCodec.Image(k, cols[i], row).value|)
    ensures |EncodeDyn(k, cols, row, entry).entries| == HEADER * EntryCount(cols, entry)
    decreases |cols|
  {
    if cols != [] {
      var init := cols[..|cols| - 1];
      assert forall i :: 0 <= i < |init| ==> init[i] == cols[i];
      EncodeDynEntries(k, init, row, entry);
    }
  }

  /** One turn of the read loop: column `i` is read where `cols[..i]` left the cursor. */
  lemma DecodeDynStep<C>(k: RowCodec.Codec<C>, cols: seq<C>, i: nat, table: seq<byte>, index: seq<byte>,
                         tableOff: int, indexOff: int, cur: Cursor)
    requires i < |cols| && DecodeDyn(k, cols[..i], table, index, tableOff, indexOff) == Ok(cur)
    ensures DecodeDyn(k, cols[..i + 1], table, index, tableOff, indexOff) == DynColumn(k, cols[i], table, index, cur)
  {
    assert cols[..i + 1][..i] == cols[..i];
  }

  /** A read that fails on a column reports that column's error, whatever follows. */
  lemma {:induction false} DecodeDynStops<C>(k: RowCodec.Codec<C>, cols: seq<C>, table: seq<byte>, index: seq<byte>,
                                             tableOff: int, indexOff: int, j: nat)
    requires j <= |cols| && DecodeDyn(k, cols[..j], table, index, tableOff, indexOff).Err?
    ensures DecodeDyn(k, cols, table, index, tableOff, indexOff) == DecodeDyn(k, cols[..j], table, index, tableOff, indexOff)
    decreases |cols| - j
  {
    if j < |cols| {
      var init := cols[..|cols| - 1];
      assert init[..j] == cols[..j];
      DecodeDynStops(k, init, table, index, tableOff, indexOff, j);
    } else {
      assert cols[..j] == cols;
    }
  }

  // ---------------------------------------------------------------- reading back a write

  /**
   * Column `c` of `row` round-trips in a dynamic row: its image decodes to
   * `readBack(c, row)`, and in a column of positive width it is exactly as
   * wide as the column and as its nil value.
   */
  predicate DynAligned<C>(k: RowCodec.Codec<C>, readBack: (C, Row) -> Value, c: C, row: Row)
  {
    && RowCodec.Image(k, c, row).Ok?
    && k.width(c).Ok?
    && k.nil(c).Ok?
    && k.width(c).value >= 0
    && InInt64(|RowCodec.Image(k, c, row).value|)
    && (k.width(c).value > 0 ==>
          |RowCodec.Image(k, c, row).value| == k.width(c).value == |k.nil(c).value|)
    && k.decode(c, RowCodec.Image(k, c, row).value) == Ok(readBack(c, row))
  }

  /** The encoding of `cols` lies in the table at `tableOff` and its entries in the index at `indexOff`. */
  predicate Laid<C>(k: RowCodec.Codec<C>, cols: seq<C>, row: Row, entry: C -> bool,
                    table: seq<byte>, index: seq<byte>, tableOff: nat, indexOff: nat)
  {
    Holds(table, tableOff, EncodeDyn(k, cols, row, entry).body) &&
    Holds(index, indexOff, EncodeDyn(k, cols, row, entry).entries)
  }

  /** Column `c`'s image lies in the table at the cursor, and its entry, if it gets one, in the index. */
  predicate ColumnLaid<C>(k: RowCodec.Codec<C>, c: C, row: Row, flexible: bool,
                          table: seq<byte>, index: seq<byte>, tableOff: int, indexOff: int)
  {
    && RowCodec.Image(k, c, row).Ok?
    && Holds(table, tableOff, RowCodec.Image(k, c, row).value)
    && Holds(index, indexOff, Entry(flexible, RowCodec.Image(k, c, row).value))
  }

  /** One column whose image and entry lie at the cursor reads back as `readBack` says. */
  lemma DynColumnWritten<C>(k: RowCodec.Codec<C>, readBack: (C, Row) -> Value, c: C, row: Row, flexible: bool,
                            table: seq<byte>, index: seq<byte>, cur: Cursor)
    requires DynAligned(k, readBack, c, row) && (flexible <==> k.width(c) == Ok(0))
    requires ColumnLaid(k, c, row, flexible, table, index, cur.tableOff, cur.indexOff)
    ensures DynColumn(k, c, table, index, cur) ==
            Ok(Cursor(cur.row[k.name(c) := readBack(c, row)],
                      cur.tableOff + |RowCodec.Image(k, c, row).value|,
                      cur.indexOff + |Entry(flexible, RowCodec.Image(k, c, row).value)|))
  {
    var b := RowCodec.Image(k, c, row).value;
    if flexible {
      VarintLength(|b|);
      SlotReadsBack(index, cur.indexOff, |b|);
      if |b| == 0 {
        assert ReadBytes(table, 0, cur.tableOff).buf == b;
      }
    }
  }

  /**
   * Reading back what a clean write laid down gives, column by column, what
   * each image decodes to, and leaves the cursor just past the row's bytes
   * and entries.
   */
  lemma {:induction false} DecodeDynWritten<C>(k: RowCodec.Codec<C>, readBack: (C, Row) -> Value, cols: seq<C>, row: Row,
                                               entry: C -> bool, table: seq<byte>, index: seq<byte>,
                                               tableOff: nat, indexOff: nat)
    requires forall i :: 0 <= i < |cols| ==>
               DynAligned(k, readBack, cols[i], row) && (entry(cols[i]) <==> k.width(cols[i]) == Ok(0))
    requires Laid(k, cols, row, entry, table, index, tableOff, indexOff)
    ensures EncodeDyn(k, cols, row, entry).err == None
    ensures DecodeDyn(k, cols, table, index, tableOff, indexOff).Ok?
    ensures DecodeDyn(k, cols, table, index, tableOff, indexOff).value.row == RowCodec.ExpectedRow(k, readBack, cols, row)
    ensures DecodeDyn(k, cols, table, index, tableOff, indexOff).value.tableOff == tableOff + |EncodeDyn(k, cols, row, entry).body|
    ensures DecodeDyn(k, cols, table, index, tableOff, indexOff).value.indexOff == indexOff + |EncodeDyn(k, cols, row, entry).entries|
    decreases |cols|
  {
    if cols != [] {
      assert forall i :: 0 <= i < |cols| - 1 ==> cols[..|cols| - 1][i] == cols[i];
      LaidInit(k, cols, row, entry, table, index, tableOff, indexOff);
      DecodeDynWritten(k, readBack, cols[..|cols| - 1], row, entry, table, index, tableOff, indexOff);
      LaidLastTable(k, cols, row, entry, table, tableOff);
      LaidLastIndex(k, cols, row, entry, index, indexOff);
      EncodeDynSnoc(k, cols, row, entry);
      DecodeDynLast(k, readBack, cols, row, entry, table, index, tableOff, indexOff);
    }
  }

  /** The last column of a clean write reads back where the read of its first columns stopped. */
  lemma DecodeDynLast<C>(k: RowCodec.Codec<C>, readBack: (C, Row) -> Value, cols: seq<C>, row: Row,
                         entry: C -> bool, table: seq<byte>, index: seq<byte>,
                         tableOff: nat, indexOff: nat)
    requires cols != []
    requires DynAligned(k, readBack, cols[|cols| - 1], row)
    requires entry(cols[|cols| - 1]) <==> k.width(cols[|cols| - 1]) == Ok(0)
    requires EncodeDyn(k, cols[..|cols| - 1], row, entry).err == None
    requires ColumnLaid(k, cols[|cols| - 1], row, entry(cols[|cols| - 1]), table, index,
                        tableOff + |EncodeDyn(k, cols[..|cols| - 1], row, entry).body|,
                        indexOff + |EncodeDyn(k, cols[..|cols| - 1], row, entry).entries|)
    requires DecodeDyn(k, cols[..|cols| - 1], table, index, tableOff, indexOff).Ok?
    requires DecodeDyn(k, cols[..|cols| - 1], table, index, tableOff, indexOff).value.row ==
             RowCodec.ExpectedRow(k, readBack, cols[..|cols| - 1], row)
    requires DecodeDyn(k, cols[..|cols| - 1], table, index, tableOff, indexOff).value.tableOff ==
             tableOff + |EncodeDyn(k, cols[..|cols| - 1], row, entry).body|
    requires DecodeDyn(k, cols[..|cols| - 1], table, index, tableOff, indexOff).value.indexOff ==
             indexOff + |EncodeDyn(k, cols[..|cols| - 1], row, entry).entries|
    ensures DecodeDyn(k, cols, table, index, tableOff, indexOff).Ok?
    ensures DecodeDyn(k, cols, table, index, tableOff, indexOff).value.row == RowCodec.ExpectedRow(k, readBack, cols, row)
    ensures DecodeDyn(k, cols, table, index, tableOff, indexOff).value.tableOff == tableOff + |EncodeDyn(k, cols, row, entry).body|
    ensures DecodeDyn(k, cols, table, index, tableOff, indexOff).value.indexOff == indexOff + |EncodeDyn(k, cols, row, entry).entries|
  {
    var init, c := cols[..|cols| - 1], cols[|cols| - 1];
    var cur := DecodeDyn(k, init, table, index, tableOff, indexOff).value;
    DynColumnWritten(k, readBack, c, row, entry(c), table, index, cur);
    DecodeDynSnoc(k, cols, table, index, tableOff, indexOff, cur);
    EncodeDynSnoc(k, cols, row, entry);
    assert RowCodec.ExpectedRow(k, readBack, cols, row) == RowCodec.ExpectedRow(k, readBack, init, row)[k.name(c) := readBack(c, row)];
  }

  /** The read of `cols` is the read of its first columns, then its last column from where they stopped. */
  lemma DecodeDynSnoc<C>(k: RowCodec.Codec<C>, cols: seq<C>, table: seq<byte>, index: seq<byte>,
                         tableOff: int, indexOff: int, cur: Cursor)
    requires cols != [] && DecodeDyn(k, cols[..|cols| - 1], table, index, tableOff, indexOff) == Ok(cur)
    ensures DecodeDyn(k, cols, table, index, tableOff, indexOff) == DynColumn(k, cols[|cols| - 1], table, index, cur)
  {
  }

  /** The last column's image lies in the table file where the images of the first columns end. */
  lemma LaidLastTable<C>(k: RowCodec.Codec<C>, cols: seq<C>, row: Row, entry: C -> bool, table: seq<byte>, tableOff: nat)
    requires cols != [] && EncodeDyn(k, cols[..|cols| - 1], row, entry).err == None
    requires RowCodec.Image(k, cols[|cols| - 1], row).Ok?
    requires Holds(table, tableOff, EncodeDyn(k, cols, row, entry).body)
    ensures Holds(table, tableOff + |EncodeDyn(k, cols[..|cols| - 1], row, entry).body|,
                  RowCodec.Image(k, cols[|cols| - 1], row).value)
  {
    EncodeDynSnoc(k, cols, row, entry);
    HoldsLast(table, tableOff, EncodeDyn(k, cols, row, entry).body, EncodeDyn(k, cols[..|cols| - 1], row, entry).body,
              RowCodec.Image(k, cols[|cols| - 1], row).value);
  }

  /** The last column's entry lies in the index file where the entries of the first columns end. */
  lemma LaidLastIndex<C>(k: RowCodec.Codec<C>, cols: seq<C>, row: Row, entry: C -> bool, index: seq<byte>, indexOff: nat)
    requires cols != [] && EncodeDyn(k, cols[..|cols| - 1], row, entry).err == None
    requires RowCodec.Image(k, cols[|cols| - 1], row).Ok?
    requires Holds(index, indexOff, EncodeDyn(k, cols, row, entry).entries)
    ensures Holds(index, indexOff + |EncodeDyn(k, cols[..|cols| - 1], row, entry).entries|,
                  Entry(entry(cols[|cols| - 1]), RowCodec.Image(k, cols[|cols| - 1], row).value))
  {
    EncodeDynSnoc(k, cols, row, entry);
    HoldsLast(index, indexOff, EncodeDyn(k, cols, row, entry).entries, EncodeDyn(k, cols[..|cols| - 1], row, entry).entries,
              Entry(entry(cols[|cols| - 1]), RowCodec.Image(k, cols[|cols| - 1], row).value));
  }

  lemma HoldsLast(d: seq<byte>, off: int, whole: seq<byte>, a: seq<byte>, b: seq<byte>)
    requires whole == a + b && Holds(d, off, whole)
    ensures Holds(d, off + |a|, b)
  {
    HoldsSplit(d, off, whole, a, b);
  }

  /** A clean last column extends the encoding of the first columns by its image and its entry. */
  lemma EncodeDynSnoc<C>(k: RowCodec.Codec<C>, cols: seq<C>, row: Row, entry: C -> bool)
    requires cols != [] && EncodeDyn(k, cols[..|cols| - 1], row, entry).err == None
    requires RowCodec.Image(k, cols[|cols| - 1], row).Ok?
    ensures EncodeDyn(k, cols, row, entry).err == None
    ensures EncodeDyn(k, cols, row, entry).body ==
            EncodeDyn(k, cols[..|cols| - 1], row, entry).body + RowCodec.Image(k, cols[|cols| - 1], row).value
    ensures EncodeDyn(k, cols, row, entry).entries ==
            EncodeDyn(k, cols[..|cols| - 1], row, entry).entries + Entry(entry(cols[|cols| - 1]), RowCodec.Image(k, cols[|cols| - 1], row).value)
  {
  }

  /** What lies at the offsets for `cols`, when its last column succeeds, lies there for its first columns too. */
  lemma LaidInit<C>(k: RowCodec.Codec<C>, cols: seq<C>, row: Row, entry: C -> bool,
                    table: seq<byte>, index: seq<byte>, tableOff: nat, indexOff: nat)
    requires cols != [] && RowCodec.Image(k, cols[|cols| - 1], row).Ok?
    requires Laid(k, cols, row, entry, table, index, tableOff, indexOff)
    ensures Laid(k, cols[..|cols| - 1], row, entry, table, index, tableOff, indexOff)
  {
    if EncodeDyn(k, cols[..|cols| - 1], row, entry).err.None? {
      EncodeDynSnoc(k, cols, row, entry);
      HoldsSplit(table, tableOff, EncodeDyn(k, cols, row, entry).body, EncodeDyn(k, cols[..|cols| - 1], row, entry).body,
                 RowCodec.Image(k, cols[|cols| - 1], row).value);
      HoldsSplit(index, indexOff, EncodeDyn(k, cols, row, entry).entries, EncodeDyn(k, cols[..|cols| - 1], row, entry).entries,
                 Entry(entry(cols[|cols| - 1]), RowCodec.Image(k, cols[|cols| - 1], row).value));
    }
  }

  // ---------------------------------------------------------------- the engine's columns

  /** A row every column of which the dynamic engine can write and read back. */
  predicate StorableDyn(cols: seq<ColumnType>, row: Row)
  {
    forall i :: 0 <= i < |cols| ==>
      && RowCodec.Image(Latest, cols[i], row).Ok?
      && (cols[i].name in row ==> Readable(row[cols[i].name]))
      && InInt64(|RowCodec.Image(Latest, cols[i], row).value|)
  }

  /** The flexible columns `setColumns` counts are exactly those a clean write gives an index entry. */
  lemma {:induction false} FlexibleCountIs(cols: seq<ColumnType>)
    ensures FlexibleCount(cols) == EntryCount(cols, Flexible)
    decreases |cols|
  {
    if cols != [] {
      FlexibleCountIs(cols[..|cols| - 1]);
    }
  }

  /** A valid column whose image is readable round-trips in a dynamic row. */
  lemma DynAlignedLatest(c: ColumnType, row: Row)
    requires GetBytes(c).Ok?
    requires RowCodec.Image(Latest, c, row).Ok? && InInt64(|RowCodec.Image(Latest, c, row).value|)
    requires c.name in row ==> Readable(row[c.name])
    ensures DynAligned(Latest, ReadBackValue, c, row)
  {
    ImageRoundTrip(c, row);
    if GetBytes(c).value > 0 {
      FixedWidthAligned(c, row);
    }
  }

  /**
   * In an accepted schema a storable row is written cleanly, with one index
   * entry per flexible column, and every column of it round-trips.
   */
  lemma CleanDynWrite(cols: seq<ColumnType>, row: Row)
    requires CheckColumns(cols).Ok? && StorableDyn(cols, row)
    ensures EncodeDyn(Latest, cols, row, Flexible).err == None
    ensures |EncodeDyn(Latest, cols, row, Flexible).entries| == HEADER * FlexibleCount(cols)
    ensures EncodeDyn(Latest, cols, row, Flexible).body == RowCodec.EncodePrefix(Latest, cols, row).bytes
    ensures forall i :: 0 <= i < |cols| ==>
              DynAligned(Latest, ReadBackValue, cols[i], row) && (Flexible(cols[i]) <==> Latest.width(cols[i]) == Ok(0))
  {
    CheckColumnsWidth(cols);
    RowCodec.EncodePrefixOk(Latest, cols, row);
    EncodeDynBody(Latest, cols, row, Flexible);
    EncodeDynEntries(Latest, cols, row, Flexible);
    FlexibleCountIs(cols);
    forall i | 0 <= i < |cols|
      ensures DynAligned(Latest, ReadBackValue, cols[i], row)
    {
      DynAlignedLatest(cols[i], row);
    }
  }

  /**
   * A whole slot written at the next slot offset, then the append pointer:
   * the index holds one more row, the slot reads back, and the pointer is
   * the new one.
   */
  lemma IndexAfterWrite(numFlexible: nat, index: seq<byte>, s: seq<byte>, p: int)
    requires |index| >= 2 * HEADER && |s| == SlotWidth(numFlexible) && InInt64(p)
    ensures IndexNumToOffset(numFlexible, IndexCount(numFlexible, index)) >= 2 * HEADER
    ensures IndexCount(numFlexible, Overwrite(Overwrite(index, IndexNumToOffset(numFlexible, IndexCount(numFlexible, index)), s),
                                              HEADER, VarintSlot(p)))
            == IndexCount(numFlexible, index) + 1
    ensures LastTableOffset(Overwrite(Overwrite(index, IndexNumToOffset(numFlexible, IndexCount(numFlexible, index)), s),
                                      HEADER, VarintSlot(p))) == Ok(p)
    ensures Holds(Overwrite(Overwrite(index, IndexNumToOffset(numFlexible, IndexCount(numFlexible, index)), s), HEADER, VarintSlot(p)),
                  IndexNumToOffset(numFlexible, IndexCount(numFlexible, index)), s)
  {
    IndexCountBounds(numFlexible, index);
    SlotAppended(numFlexible, index, IndexCount(numFlexible, index), IndexNumToOffset(numFlexible, IndexCount(numFlexible, index)), s, p,
                 Overwrite(index, IndexNumToOffset(numFlexible, IndexCount(numFlexible, index)), s),
                 Overwrite(Overwrite(index, IndexNumToOffset(numFlexible, IndexCount(numFlexible, index)), s), HEADER, VarintSlot(p)));
  }

  /** `IndexAfterWrite` with the slot's number and offset named. */
  lemma SlotAppended(numFlexible: nat, index: seq<byte>, n: nat, off: nat, s: seq<byte>, p: int, mid: seq<byte>, fin: seq<byte>)
    requires |s| == SlotWidth(numFlexible) && InInt64(p)
    requires off == IndexNumToOffset(numFlexible, n) && 2 * HEADER <= off <= |index| < off + |s|
    requires mid == Overwrite(index, off, s) && fin == Overwrite(mid, HEADER, VarintSlot(p))
    ensures IndexCount(numFlexible, fin) == n + 1
    ensures LastTableOffset(fin) == Ok(p)
    ensures Holds(fin, off, s)
  {
    OverwriteHolds(index, off, s);
    OverwriteOutside(mid, HEADER, VarintSlot(p), off, off + |s|);
    PointerWritten(mid, p);
    SlotNext(numFlexible, n);
    IndexCountIs(numFlexible, fin, n + 1);
  }

  /** Writing the append pointer into an index that holds both header fields leaves its length alone and reads back. */
  lemma PointerWritten(index: seq<byte>, p: int)
    requires |index| >= 2 * HEADER && InInt64(p)
    ensures |Overwrite(index, HEADER, VarintSlot(p))| == |index|
    ensures LastTableOffset(Overwrite(index, HEADER, VarintSlot(p))) == Ok(p)
  {
    OverwriteHolds(index, HEADER, VarintSlot(p));
    VarintSlotRoundTrip(p);
  }

  /**
   * A slot holding `tableOff` and the entries of a clean write, over a table
   * holding the live tombstone and the row's bytes there, reads back as the
   * row the write was given.
   */
  lemma ReadSlotWritten(cols: seq<ColumnType>, row: Row, table: seq<byte>, index: seq<byte>, tableOff: nat, at: nat)
    requires CheckColumns(cols).Ok? && StorableDyn(cols, row) && InInt64(tableOff)
    requires Holds(table, tableOff, [ROW_NORMAL] + EncodeDyn(Latest, cols, row, Flexible).body)
    requires Holds(index, at, VarintSlot(tableOff) + EncodeDyn(Latest, cols, row, Flexible).entries)
    ensures ReadSlot(Latest, cols, table, index, at).Ok?
    ensures ReadSlot(Latest, cols, table, index, at).value == RowCodec.ExpectedRow(Latest, ReadBackValue, cols, row)
  {
    CleanDynWrite(cols, row);
    LaidAfterSlot(Latest, cols, row, Flexible, table, index, tableOff, at, VarintSlot(tableOff));
    SlotHeadReads(Latest, cols, table, index, tableOff, at);
    DecodeDynWritten(Latest, ReadBackValue, cols, row, Flexible, table, index, tableOff + 1, at + HEADER);
  }

  /** Where a tombstone and a slot head precede a row's bytes and entries, the row is laid after them. */
  lemma LaidAfterSlot<C>(k: RowCodec.Codec<C>, cols: seq<C>, row: Row, entry: C -> bool,
                         table: seq<byte>, index: seq<byte>, tableOff: nat, at: nat, head: seq<byte>)
    requires Holds(table, tableOff, [ROW_NORMAL] + EncodeDyn(k, cols, row, entry).body)
    requires Holds(index, at, head + EncodeDyn(k, cols, row, entry).entries)
    ensures Holds(table, tableOff, [ROW_NORMAL]) && Holds(index, at, head)
    ensures Laid(k, cols, row, entry, table, index, tableOff + 1, at + |head|)
  {
    HoldsSplit(table, tableOff, [ROW_NORMAL] + EncodeDyn(k, cols, row, entry).body, [ROW_NORMAL],
               EncodeDyn(k, cols, row, entry).body);
    HoldsSplit(index, at, head + EncodeDyn(k, cols, row, entry).entries, head, EncodeDyn(k, cols, row, entry).entries);
  }


  /** A slot that points at a live tombstone reads as the columns after that tombstone. */
  lemma SlotHeadReads<C>(k: RowCodec.Codec<C>, cols: seq<C>, table: seq<byte>, index: seq<byte>, tableOff: nat, at: nat)
    requires InInt64(tableOff)
    requires Holds(table, tableOff, [ROW_NORMAL]) && Holds(index, at, VarintSlot(tableOff))
    ensures ReadSlot(k, cols, table, index, at) == RowOf(DecodeDyn(k, cols, table, index, tableOff + 1, at + HEADER))
  {
    VarintSlotRoundTrip(tableOff);
    assert ReadBytes(index, HEADER, at).buf == VarintSlot(tableOff);
    assert ReadBytes(table, 1, tableOff).buf == [ROW_NORMAL];
  }

  /**
   * A write of a storable row into an accepted schema succeeds with the old
   * row count, adds exactly one row, moves the append pointer just past the
   * row's bytes, and reading that row back gives every column of the schema
   * with the value written (or the column's zero value when the row had none).
   */
  lemma IntendedWriteThenRead(cols: seq<ColumnType>, numFlexible: nat, table: seq<byte>, index: seq<byte>, row: Row)
    requires CheckColumns(cols).Ok? && numFlexible == FlexibleCount(cols) && StorableDyn(cols, row)
    requires LastTableOffset(index).Ok? && LastTableOffset(index).value >= 0
    requires InInt64(LastTableOffset(index).value + 1 + |RowCodec.EncodePrefix(Latest, cols, row).bytes|)
    ensures IntendedWriteRow(cols, numFlexible, table, index, row).result == Ok(IndexCount(numFlexible, index))
    ensures IndexCount(numFlexible, IntendedWriteRow(cols, numFlexible, table, index, row).index) ==
            IndexCount(numFlexible, index) + 1
    ensures LastTableOffset(IntendedWriteRow(cols, numFlexible, table, index, row).index) ==
            Ok(LastTableOffset(index).value + 1 + |RowCodec.EncodePrefix(Latest, cols, row).bytes|)
    ensures ReadRowSpec(cols, numFlexible, IntendedWriteRow(cols, numFlexible, table, index, row).table,
                        IntendedWriteRow(cols, numFlexible, table, index, row).index, IndexCount(numFlexible, index))
            == Ok(RowCodec.ExpectedRow(Latest, ReadBackValue, cols, row))
  {
    IntendedWriteShape(cols, numFlexible, table, index, row);
    IndexAfterWrite(numFlexible, index,
                    VarintSlot(LastTableOffset(index).value) + EncodeDyn(Latest, cols, row, Flexible).entries,
                    LastTableOffset(index).value + 1 + |EncodeDyn(Latest, cols, row, Flexible).body|);
    WrittenReadsBack(cols, numFlexible, table, index, row);
  }

  /** The files a clean write leaves hold the row at the old row count. */
  lemma WrittenReadsBack(cols: seq<ColumnType>, numFlexible: nat, table: seq<byte>, index: seq<byte>, row: Row)
    requires CheckColumns(cols).Ok? && numFlexible == FlexibleCount(cols) && StorableDyn(cols, row)
    requires LastTableOffset(index).Ok? && LastTableOffset(index).value >= 0
    requires InInt64(LastTableOffset(index).value + 1 + |RowCodec.EncodePrefix(Latest, cols, row).bytes|)
    requires |index| >= 2 * HEADER && InInt64(LastTableOffset(index).value)
    requires IndexNumToOffset(numFlexible, IndexCount(numFlexible, index)) >= 2 * HEADER
    ensures ReadRowSpec(cols, numFlexible,
                        Overwrite(table, LastTableOffset(index).value, [ROW_NORMAL] + EncodeDyn(Latest, cols, row, Flexible).body),
                        Overwrite(Overwrite(index, IndexNumToOffset(numFlexible, IndexCount(numFlexible, index)),
                                            VarintSlot(LastTableOffset(index).value) + EncodeDyn(Latest, cols, row, Flexible).entries),
                                  HEADER, VarintSlot(LastTableOffset(index).value + 1 + |EncodeDyn(Latest, cols, row, Flexible).body|)),
                        IndexCount(numFlexible, index))
            == Ok(RowCodec.ExpectedRow(Latest, ReadBackValue, cols, row))
  {
    IntendedWriteShape(cols, numFlexible, table, index, row);
    IndexAfterWrite(numFlexible, index,
                    VarintSlot(LastTableOffset(index).value) + EncodeDyn(Latest, cols, row, Flexible).entries,
                    LastTableOffset(index).value + 1 + |EncodeDyn(Latest, cols, row, Flexible).body|);
    IndexCountBounds(numFlexible, index);
    OverwriteHolds(table, LastTableOffset(index).value, [ROW_NORMAL] + EncodeDyn(Latest, cols, row, Flexible).body);
    ReadSlotWritten(cols, row,
                    Overwrite(table, LastTableOffset(index).value, [ROW_NORMAL] + EncodeDyn(Latest, cols, row, Flexible).body),
                    Overwrite(Overwrite(index, IndexNumToOffset(numFlexible, IndexCount(numFlexible, index)),
                                        VarintSlot(LastTableOffset(index).value) + EncodeDyn(Latest, cols, row, Flexible).entries),
                              HEADER, VarintSlot(LastTableOffset(index).value + 1 + |EncodeDyn(Latest, cols, row, Flexible).body|)),
                    LastTableOffset(index).value, IndexNumToOffset(numFlexible, IndexCount(numFlexible, index)));
    ReadInRange(cols, numFlexible,
                Overwrite(table, LastTableOffset(index).value, [ROW_NORMAL] + EncodeDyn(Latest, cols, row, Flexible).body),
                Overwrite(Overwrite(index, IndexNumToOffset(numFlexible, IndexCount(numFlexible, index)),
                                    VarintSlot(LastTableOffset(index).value) + EncodeDyn(Latest, cols, row, Flexible).entries),
                          HEADER, VarintSlot(LastTableOffset(index).value + 1 + |EncodeDyn(Latest, cols, row, Flexible).body|)),
                IndexCount(numFlexible, index));
  }

  /** A row number that passes the bounds check is read from its slot. */
  lemma ReadInRange(cols: seq<ColumnType>, numFlexible: nat, table: seq<byte>, index: seq<byte>, rowNum: int)
    requires 0 <= rowNum <= IndexCount(numFlexible, index)
    ensures ReadRowSpec(cols, numFlexible, table, index, rowNum) ==
            ReadSlot(Latest, cols, table, index, IndexNumToOffset(numFlexible, rowNum))
  {
  }

  /** What a clean write of a storable row puts where. */
  lemma IntendedWriteShape(cols: seq<ColumnType>, numFlexible: nat, table: seq<byte>, index: seq<byte>, row: Row)
    requires CheckColumns(cols).Ok? && numFlexible == FlexibleCount(cols) && StorableDyn(cols, row)
    requires LastTableOffset(index).Ok? && LastTableOffset(index).value >= 0
    ensures |index| >= 2 * HEADER && InInt64(LastTableOffset(index).value)
    ensures IndexNumToOffset(numFlexible, IndexCount(numFlexible, index)) >= 2 * HEADER
    ensures EncodeDyn(Latest, cols, row, Flexible).body == RowCodec.EncodePrefix(Latest, cols, row).bytes
    ensures |VarintSlot(LastTableOffset(index).value) + EncodeDyn(Latest, cols, row, Flexible).entries| == SlotWidth(numFlexible)
    ensures IntendedWriteRow(cols, numFlexible, table, index, row) ==
            DynWritten(Overwrite(table, LastTableOffset(index).value, [ROW_NORMAL] + EncodeDyn(Latest, cols, row, Flexible).body),
                       Overwrite(Overwrite(index, IndexNumToOffset(numFlexible, IndexCount(numFlexible, index)),
                                           VarintSlot(LastTableOffset(index).value) + EncodeDyn(Latest, cols, row, Flexible).entries),
                                 HEADER, VarintSlot(LastTableOffset(index).value + 1 + |EncodeDyn(Latest, cols, row, Flexible).body|)),
                       Ok(IndexCount(numFlexible, index)))
  {
    CleanDynWrite(cols, row);
    IndexCountBounds(numFlexible, index);
  }

  // ---------------------------------------------------------------- the write as written

  /** Every column's declared size says it is flexible exactly when its width is 0. */
  predicate WellDeclared(cols: seq<ColumnType>)
  {
    forall i :: 0 <= i < |cols| ==> (DeclaredFlexible(cols[i]) <==> Flexible(cols[i]))
  }

  /** A schema whose int64, float64 and time columns all declare a nonzero size is well declared. */
  lemma WellDeclaredWhen(cols: seq<ColumnType>)
    requires forall i :: 0 <= i < |cols| ==> KnownType(cols[i]) && (cols[i].typ != COLUMN_STRING ==> cols[i].size != 0)
    ensures WellDeclared(cols)
  {
  }

  /**
   * Where the declared sizes agree with the widths, a write that converts
   * every column does exactly what the intended write does.
   */
  lemma AsWrittenAgrees(cols: seq<ColumnType>, numFlexible: nat, table: seq<byte>, index: seq<byte>, row: Row)
    requires WellDeclared(cols) && EncodeDyn(Latest, cols, row, Flexible).err == None
    ensures WriteRowSpec(cols, numFlexible, table, index, row) == IntendedWriteRow(cols, numFlexible, table, index, row)
  {
    EncodeDynEntriesAgree(Latest, cols, row, DeclaredFlexible, Flexible);
  }

  /**
   * `WriteRow` as written, in a well-declared schema: a storable row is
   * written at the old row count, adds one row, moves the append pointer past
   * its bytes and reads back.
   */
  lemma WriteThenRead(cols: seq<ColumnType>, numFlexible: nat, table: seq<byte>, index: seq<byte>, row: Row)
    requires CheckColumns(cols).Ok? && numFlexible == FlexibleCount(cols) && WellDeclared(cols) && StorableDyn(cols, row)
    requires LastTableOffset(index).Ok? && LastTableOffset(index).value >= 0
    requires InInt64(LastTableOffset(index).value + 1 + |RowCodec.EncodePrefix(Latest, cols, row).bytes|)
    ensures WriteRowSpec(cols, numFlexible, table, index, row).result == Ok(IndexCount(numFlexible, index))
    ensures IndexCount(numFlexible, WriteRowSpec(cols, numFlexible, table, index, row).index) ==
            IndexCount(numFlexible, index) + 1
    ensures LastTableOffset(WriteRowSpec(cols, numFlexible, table, index, row).index) ==
            Ok(LastTableOffset(index).value + 1 + |RowCodec.EncodePrefix(Latest, cols, row).bytes|)
    ensures ReadRowSpec(cols, numFlexible, WriteRowSpec(cols, numFlexible, table, index, row).table,
                        WriteRowSpec(cols, numFlexible, table, index, row).index, IndexCount(numFlexible, index))
            == Ok(RowCodec.ExpectedRow(Latest, ReadBackValue, cols, row))
  {
    CleanDynWrite(cols, row);
    AsWrittenAgrees(cols, numFlexible, table, index, row);
    IntendedWriteThenRead(cols, numFlexible, table, index, row);
  }

  /** Two successive writes of storable rows are numbered with the row count and the one after it. */
  lemma WritesAreNumbered(cols: seq<ColumnType>, numFlexible: nat, table: seq<byte>, index: seq<byte>, r1: Row, r2: Row)
    requires CheckColumns(cols).Ok? && numFlexible == FlexibleCount(cols) && WellDeclared(cols)
    requires StorableDyn(cols, r1) && StorableDyn(cols, r2)
    requires LastTableOffset(index).Ok? && LastTableOffset(index).value >= 0
    requires InInt64(LastTableOffset(index).value + 2 + |RowCodec.EncodePrefix(Latest, cols, r1).bytes|
                     + |RowCodec.EncodePrefix(Latest, cols, r2).bytes|)
    ensures WriteRowSpec(cols, numFlexible, table, index, r1).result == Ok(IndexCount(numFlexible, index))
    ensures WriteRowSpec(cols, numFlexible, WriteRowSpec(cols, numFlexible, table, index, r1).table,
                         WriteRowSpec(cols, numFlexible, table, index, r1).index, r2).result
            == Ok(IndexCount(numFlexible, index) + 1)
  {
    WriteThenRead(cols, numFlexible, table, index, r1);
    WriteThenRead(cols, numFlexible, WriteRowSpec(cols, numFlexible, table, index, r1).table,
                  WriteRowSpec(cols, numFlexible, table, index, r1).index, r2);
  }

  /** The index a failed write leaves still holds the append pointer it had: only a complete write moves it. */
  lemma FailedWriteKeepsPointer(cols: seq<ColumnType>, numFlexible: nat, table: seq<byte>, index: seq<byte>, row: Row)
    requires WriteRowSpec(cols, numFlexible, table, index, row).result.Err?
    ensures LastTableOffset(WriteRowSpec(cols, numFlexible, table, index, row).index) == LastTableOffset(index)
  {
    if LastTableOffset(index).Ok? && LastTableOffset(index).value >= 0 {
      IndexCountBounds(numFlexible, index);
      SlotSparesPointer(index, IndexNumToOffset(numFlexible, IndexCount(numFlexible, index)),
                        VarintSlot(LastTableOffset(index).value) + EncodeDyn(Latest, cols, row, DeclaredFlexible).entries);
    }
  }

  /** A write at or after the first slot leaves the append pointer as it was. */
  lemma SlotSparesPointer(index: seq<byte>, off: nat, s: seq<byte>)
    requires 2 * HEADER <= off && 2 * HEADER <= |index|
    ensures LastTableOffset(Overwrite(index, off, s)) == LastTableOffset(index)
  {
    OverwriteOutside(index, off, s, HEADER, 2 * HEADER);
    ReadFrame(index, Overwrite(index, off, s), HEADER, HEADER);
  }

  /** The intended write touches the index only when every column succeeded. */
  lemma IntendedFailedWriteKeepsIndex(cols: seq<ColumnType>, numFlexible: nat, table: seq<byte>, index: seq<byte>, row: Row)
    requires IntendedWriteRow(cols, numFlexible, table, index, row).result.Err?
    ensures IntendedWriteRow(cols, numFlexible, table, index, row).index == index
    ensures IndexCount(numFlexible, IntendedWriteRow(cols, numFlexible, table, index, row).index) == IndexCount(numFlexible, index)
    ensures LastTableOffset(IntendedWriteRow(cols, numFlexible, table, index, row).index) == LastTableOffset(index)
  {
  }

  // ---------------------------------------------------------------- two writes that go wrong

  /**
   * An int64 column declared with size 0 gets an index entry it has no room
   * for: on a fresh index the first write reports row 0 but leaves two rows.
   */
  lemma DeclaredSizeOverflow(table: seq<byte>)
    ensures WriteRowSpec([ColumnType("a", COLUMN_INT64, 0)], 0, table, OpenIndexHeader([]).data, map["a" := I64(0)]).result == Ok(0)
    ensures IndexCount(0, WriteRowSpec([ColumnType("a", COLUMN_INT64, 0)], 0, table, OpenIndexHeader([]).data,
                                       map["a" := I64(0)]).index) == 2
  {
    FreshIndexIsEmpty(0, []);
    OpenShortIndex([]);
    EncodeDynStep(Latest, [ColumnType("a", COLUMN_INT64, 0)], 0, map["a" := I64(0)], DeclaredFlexible);
    assert [ColumnType("a", COLUMN_INT64, 0)][..1] == [ColumnType("a", COLUMN_INT64, 0)];
    IndexCountIs(0, Overwrite(Overwrite(OpenIndexHeader([]).data, 2 * HEADER, VarintSlot(HEADER) + VarintSlot(MaxVarintLen64)),
                              HEADER, VarintSlot(HEADER + 1 + MaxVarintLen64)), 2);
  }

  /**
   * A write that fails on its only column has already written the row's
   * table offset, a whole slot when no column is flexible: on a fresh index
   * it reports the mismatch, yet leaves one row whose slot points where the
   * append pointer still points.
   */
  lemma FailedWriteAddsRow(table: seq<byte>)
    ensures WriteRowSpec([ColumnType("a", COLUMN_INT64, 10)], 0, table, OpenIndexHeader([]).data, map["a" := Str([])]).result
            == Err(Mismatch(COLUMN_INT64, "a"))
    ensures IndexCount(0, WriteRowSpec([ColumnType("a", COLUMN_INT64, 10)], 0, table, OpenIndexHeader([]).data,
                                       map["a" := Str([])]).index) == 1
    ensures LastTableOffset(WriteRowSpec([ColumnType("a", COLUMN_INT64, 10)], 0, table, OpenIndexHeader([]).data,
                                         map["a" := Str([])]).index) == Ok(HEADER)
  {
    FreshIndexIsEmpty(0, []);
    OpenShortIndex([]);
    EncodeDynStep(Latest, [ColumnType("a", COLUMN_INT64, 10)], 0, map["a" := Str([])], DeclaredFlexible);
    assert [ColumnType("a", COLUMN_INT64, 10)][..1] == [ColumnType("a", COLUMN_INT64, 10)];
    IndexCountIs(0, Overwrite(OpenIndexHeader([]).data, 2 * HEADER, VarintSlot(HEADER)), 1);
    SlotSparesPointer(OpenIndexHeader([]).data, 2 * HEADER, VarintSlot(HEADER));
  }

  // ---------------------------------------------------------------- delete

  /**
   * Deleting a row whose slot holds a table offset succeeds, and the row then
   * reads as deleted.
   */
  lemma DeleteThenRead(cols: seq<ColumnType>, numFlexible: nat, table: seq<byte>, index: seq<byte>, rowNum: int)
    requires 0 <= rowNum <= IndexCount(numFlexible, index)
    requires ReadBytes(index, HEADER, IndexNumToOffset(numFlexible, rowNum)).err == None
    requires Varint(ReadBytes(index, HEADER, IndexNumToOffset(numFlexible, rowNum)).buf).n >= 1
    requires Varint(ReadBytes(index, HEADER, IndexNumToOffset(numFlexible, rowNum)).buf).value >= 0
    ensures DeleteRowSpec(numFlexible, table, index, rowNum).err == None
    ensures ReadRowSpec(cols, numFlexible, DeleteRowSpec(numFlexible, table, index, rowNum).table, index, rowNum) == Err(DeletedRow)
  {
    OverwriteHolds(table, Varint(ReadBytes(index, HEADER, IndexNumToOffset(numFlexible, rowNum)).buf).value, [ROW_DELETED]);
  }

  /** A delete writes the one tombstone its slot points at, and no other byte of the table. */
  lemma DeleteTouchesTombstone(numFlexible: nat, table: seq<byte>, index: seq<byte>, rowNum: int, p: int)
    requires 0 <= rowNum <= IndexCount(numFlexible, index)
    requires ReadBytes(index, HEADER, IndexNumToOffset(numFlexible, rowNum)).err == None
    requires Varint(ReadBytes(index, HEADER, IndexNumToOffset(numFlexible, rowNum)).buf).n >= 1
    requires p == Varint(ReadBytes(index, HEADER, IndexNumToOffset(numFlexible, rowNum)).buf).value && p >= 0
    ensures |DeleteRowSpec(numFlexible, table, index, rowNum).table| == Max(|table|, p + 1)
    ensures DeleteRowSpec(numFlexible, table, index, rowNum).table[p] == ROW_DELETED
    ensures forall i :: 0 <= i < |table| && i != p ==> DeleteRowSpec(numFlexible, table, index, rowNum).table[i] == table[i]
  {
    OverwriteAt(table, p, [ROW_DELETED]);
  }

  /**
   * Row number `IndexCount` passes the bounds check: in an index that ends
   * on a slot boundary, reading or deleting it fails only at the slot read.
   */
  lemma IndexCountPassesCheck(cols: seq<ColumnType>, numFlexible: nat, table: seq<byte>, index: seq<byte>)
    requires |index| >= 2 * HEADER && |index| == IndexNumToOffset(numFlexible, IndexCount(numFlexible, index))
    ensures ReadRowSpec(cols, numFlexible, table, index, IndexCount(numFlexible, index)) == Err(EOF)
    ensures DeleteRowSpec(numFlexible, table, index, IndexCount(numFlexible, index)) == DynDeleted(table, Some(EOF))
  {
    IndexCountBounds(numFlexible, index);
  }
}
