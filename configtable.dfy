/**
 * The `Table` of day2 and underReview/day3: a single file holding a varint
 * version header and then fixed-width rows, over the `ColumnConfig` codec.
 *
 * Unlike the current static table, `WriteRow` converts every column into a
 * map from column name to cell before it writes a byte, so a conversion
 * error leaves the file as it was. It then writes the tombstone and the
 * cells one after the other, looking each cell up by column name. Rows are
 * addressed by `n * (columnBytes + 1) + 10` with no bounds check, and
 * `Select` scans the whole rows of the file.
 */
module ConfigTable {
  import opened Bytes
  import opened Binary
  import opened Values
  import opened Header
  import opened Legacy
  import opened Conditions
  import Column
  import Static
  import Stride
  import RowCodec

  /** Column names are pairwise different. */
  predicate DistinctNames<C>(k: RowCodec.Codec<C>, cols: seq<C>)
  {
    forall i, j :: 0 <= i < j < |cols| ==> k.name(cols[i]) != k.name(cols[j])
  }

  /**
   * The conversion loop of `WriteRow`: every column's image (its converted
   * value, or its nil cell when the row has no such key) under the column's
   * name, or the error of the first column that fails.
   */
  function Staged<C>(k: RowCodec.Codec<C>, cols: seq<C>, row: Row): Result<map<string, seq<byte>>>
    decreases |cols|
  {
    if cols == [] then Ok(map[])
    else
      match Staged(k, cols[..|cols| - 1], row)
      case Err(e) => Err(e)
      case Ok(m) =>
        match RowCodec.Image(k, cols[|cols| - 1], row)
        case Err(e) => Err(e)
        case Ok(b) => Ok(m[k.name(cols[|cols| - 1]) := b])
  }

  /** The write loop of `WriteRow`: the cell of each column's name, in order; a missing name writes nothing. */
  function Cells<C>(k: RowCodec.Codec<C>, cols: seq<C>, m: map<string, seq<byte>>): seq<byte>
    decreases |cols|
  {
    if cols == [] then []
    else
      Cells(k, cols[..|cols| - 1], m) +
      (if k.name(cols[|cols| - 1]) in m then m[k.name(cols[|cols| - 1])] else [])
  }

  /** The conversion loop fails exactly when the column-by-column write of the later engines does, with the same error. */
  lemma {:induction false} StagedFails<C>(k: RowCodec.Codec<C>, cols: seq<C>, row: Row)
    ensures Staged(k, cols, row).Err? <==> RowCodec.EncodePrefix(k, cols, row).err.Some?
    ensures Staged(k, cols, row).Err? ==> RowCodec.EncodePrefix(k, cols, row).err == Some(Staged(k, cols, row).error)
    decreases |cols|
  {
    if cols != [] {
      StagedFails(k, cols[..|cols| - 1], row);
    }
  }

  /** A converted row has a cell for every column name: with distinct names, the column's own image. */
  lemma {:induction false} StagedKeys<C>(k: RowCodec.Codec<C>, cols: seq<C>, row: Row)
    requires Staged(k, cols, row).Ok?
    ensures forall i :: 0 <= i < |cols| ==> RowCodec.Image(k, cols[i], row).Ok?
    ensures forall i :: 0 <= i < |cols| ==> k.name(cols[i]) in Staged(k, cols, row).value
    ensures DistinctNames(k, cols) ==>
              forall i :: 0 <= i < |cols| ==>
                Staged(k, cols, row).value[k.name(cols[i])] == RowCodec.Image(k, cols[i], row).value
    decreases |cols|
  {
    if cols != [] {
      var init := cols[..|cols| - 1];
      StagedKeys(k, init, row);
      assert forall i :: 0 <= i < |init| ==> cols[i] == init[i];
    }
  }

  /** The cells looked up by name depend only on the entries for the columns' names. */
  lemma {:induction false} CellsFrame<C>(k: RowCodec.Codec<C>, cols: seq<C>, m1: map<string, seq<byte>>,
                                         m2: map<string, seq<byte>>)
    requires forall i :: 0 <= i < |cols| ==> (k.name(cols[i]) in m1 <==> k.name(cols[i]) in m2)
    requires forall i :: 0 <= i < |cols| && k.name(cols[i]) in m1 ==> m1[k.name(cols[i])] == m2[k.name(cols[i])]
    ensures Cells(k, cols, m1) == Cells(k, cols, m2)
    decreases |cols|
  {
    if cols != [] {
      var init := cols[..|cols| - 1];
      assert forall i :: 0 <= i < |init| ==> init[i] == cols[i];
      CellsFrame(k, init, m1, m2);
    }
  }

  /**
   * With distinct column names, writing the converted cells by name puts
   * down exactly what writing each column's image in turn does.
   */
  lemma {:induction false} StagedCells<C>(k: RowCodec.Codec<C>, cols: seq<C>, row: Row)
    requires DistinctNames(k, cols) && Staged(k, cols, row).Ok?
    ensures RowCodec.EncodePrefix(k, cols, row).err == None
    ensures Cells(k, cols, Staged(k, cols, row).value) == RowCodec.EncodePrefix(k, cols, row).bytes
    decreases |cols|
  {
    StagedFails(k, cols, row);
    if cols != [] {
      var init := cols[..|cols| - 1];
      var last := cols[|cols| - 1];
      assert forall i :: 0 <= i < |init| ==> init[i] == cols[i];
      assert DistinctNames(k, init);
      StagedCells(k, init, row);
      StagedFails(k, init, row);
      StagedKeys(k, init, row);
      var m0 := Staged(k, init, row).value;
      var m := Staged(k, cols, row).value;
      assert m == m0[k.name(last) := RowCodec.Image(k, last, row).value];
      forall i | 0 <= i < |init| ensures k.name(init[i]) != k.name(last) {
        assert init[i] == cols[i];
      }
      CellsFrame(k, init, m, m0);
    }
  }

  /** One more column of the conversion loop. */
  lemma StagedStep<C>(k: RowCodec.Codec<C>, cols: seq<C>, i: nat, row: Row, m: map<string, seq<byte>>)
    requires i < |cols| && Staged(k, cols[..i], row) == Ok(m)
    ensures RowCodec.Image(k, cols[i], row).Ok? ==>
              Staged(k, cols[..i + 1], row) == Ok(m[k.name(cols[i]) := RowCodec.Image(k, cols[i], row).value])
    ensures RowCodec.Image(k, cols[i], row).Err? ==>
              Staged(k, cols, row) == Err(RowCodec.Image(k, cols[i], row).error)
  {
    assert cols[..i + 1][..i] == cols[..i];
    if RowCodec.Image(k, cols[i], row).Err? {
      StagedStops(k, cols, i + 1, row);
    }
  }

  /** Once the conversion loop has failed, the later columns change nothing. */
  lemma {:induction false} StagedStops<C>(k: RowCodec.Codec<C>, cols: seq<C>, j: nat, row: Row)
    requires j <= |cols| && Staged(k, cols[..j], row).Err?
    ensures Staged(k, cols, row) == Staged(k, cols[..j], row)
    decreases |cols| - j
  {
    if j < |cols| {
      assert cols[..j + 1][..j] == cols[..j];
      StagedStops(k, cols, j + 1, row);
    } else {
      assert cols[..j] == cols;
    }
  }

  /** The conversion loop, as a method. */
  method StageRow<C>(k: RowCodec.Codec<C>, cols: seq<C>, row: Row) returns (r: Result<map<string, seq<byte>>>)
    ensures r == Staged(k, cols, row)
  {
    var insertData: map<string, seq<byte>> := map[];
    for i := 0 to |cols|
      invariant Staged(k, cols[..i], row) == Ok(insertData)
    {
      var c := cols[i];
      var b: Result<seq<byte>>;
      if k.name(c) in row {
        b := k.encode(c, row[k.name(c)]);
      } else {
        b := k.nil(c);
      }
      StagedStep(k, cols, i, row, insertData);
      if b.Err? {
        return Err(b.error);
      }
      insertData := insertData[k.name(c) := b.value];
    }
    assert cols[..|cols|] == cols;
    return Ok(insertData);
  }

  /** The write loop, as a method: each column's cell is written right after the previous one. */
  method WriteCells<C>(k: RowCodec.Codec<C>, f: File, cols: seq<C>, insertData: map<string, seq<byte>>, off: nat)
    modifies f
    ensures f.bytes == Overwrite(old(f.bytes), off, Cells(k, cols, insertData))
  {
    ghost var start := f.bytes;
    var targetOff := off;
    for i := 0 to |cols|
      invariant targetOff == off + |Cells(k, cols[..i], insertData)|
      invariant f.bytes == Overwrite(start, off, Cells(k, cols[..i], insertData))
    {
      var c := cols[i];
      var cell := if k.name(c) in insertData then insertData[k.name(c)] else [];
      assert cols[..i + 1][..i] == cols[..i];
      assert Cells(k, cols[..i + 1], insertData) == Cells(k, cols[..i], insertData) + cell;
      OverwriteAppend(start, off, Cells(k, cols[..i], insertData), cell);
      var num, err := f.WriteAt(cell, targetOff);
      targetOff := targetOff + num;
    }
    assert cols[..|cols|] == cols;
  }

  /** The tombstone byte of a live row at `off`, then the write loop right after it. */
  method WriteStagedRow<C>(k: RowCodec.Codec<C>, f: File, cols: seq<C>, insertData: map<string, seq<byte>>, off: int)
    returns (err: Option<Error>)
    modifies f
    ensures off < 0 ==> err == Some(NegativeOffset) && f.bytes == old(f.bytes)
    ensures off >= 0 ==> err == None && f.bytes == Overwrite(old(f.bytes), off, [Column.ROW_NORMAL] + Cells(k, cols, insertData))
  {
    ghost var start := f.bytes;
    ghost var cells := Cells(k, cols, insertData);
    var num;
    num, err := f.WriteAt([Column.ROW_NORMAL], off);
    if err.Some? {
      return;
    }
    WriteCells(k, f, cols, insertData, off + num);
    OverwriteAppend(start, off, [Column.ROW_NORMAL], cells);
  }

  /** The file after a write, and the error returned. */
  datatype Written = Written(data: seq<byte>, err: Option<Error>)

  /**
   * `WriteRow` at the raw offset `off`: the conversion loop, then the
   * tombstone `ROW_NORMAL` and the cells after it. A failed conversion and
   * a negative offset both leave the file unchanged.
   */
  function WriteRowSpec<C>(k: RowCodec.Codec<C>, cols: seq<C>, data: seq<byte>, off: int, row: Row): Written
  {
    match Staged(k, cols, row)
    case Err(e) => Written(data, Some(e))
    case Ok(m) =>
      if off < 0 then Written(data, Some(NegativeOffset))
      else Written(Overwrite(data, off, [Column.ROW_NORMAL] + Cells(k, cols, m)), None)
  }

  /** Once the row has converted, the write depends only on the offset's sign. */
  lemma WriteRowStaged<C>(k: RowCodec.Codec<C>, cols: seq<C>, data: seq<byte>, off: int, row: Row, m: map<string, seq<byte>>)
    requires Staged(k, cols, row) == Ok(m)
    ensures off < 0 ==> WriteRowSpec(k, cols, data, off, row) == Written(data, Some(NegativeOffset))
    ensures off >= 0 ==> WriteRowSpec(k, cols, data, off, row) == Written(Overwrite(data, off, [Column.ROW_NORMAL] + Cells(k, cols, m)), None)
  {
  }

  /** What `WriteRow` returns when the table has no open file: the conversion error, or the invalid-file error. */
  function ClosedWriteError<C>(k: RowCodec.Codec<C>, cols: seq<C>, row: Row): Error
  {
    if Staged(k, cols, row).Err? then Staged(k, cols, row).error else InvalidFile
  }

  /**
   * A row that fails to convert is refused with the first failing column's
   * error and nothing is written. A row that converts is written as a live
   * tombstone followed by every column's image, so with distinct column
   * names it is the current engine's row layout.
   */
  lemma WriteRowOutcome<C>(k: RowCodec.Codec<C>, cols: seq<C>, data: seq<byte>, off: int, row: Row)
    ensures RowCodec.EncodePrefix(k, cols, row).err.Some? ==>
              WriteRowSpec(k, cols, data, off, row) == Written(data, RowCodec.EncodePrefix(k, cols, row).err)
    ensures RowCodec.EncodePrefix(k, cols, row).err == None && off >= 0 && DistinctNames(k, cols) ==>
              WriteRowSpec(k, cols, data, off, row) ==
              Written(Overwrite(data, off, [Column.ROW_NORMAL] + RowCodec.EncodePrefix(k, cols, row).bytes), None)
  {
    StagedFails(k, cols, row);
    if RowCodec.EncodePrefix(k, cols, row).err == None && DistinctNames(k, cols) {
      StagedCells(k, cols, row);
    }
  }

  /** `Delete`: the tombstone `ROW_DELETED` at the row's offset; a negative offset writes nothing. */
  function DeleteSpec(columnBytes: nat, data: seq<byte>, rowNum: int): seq<byte>
  {
    var off := Static.RowNumToOffset(columnBytes, rowNum);
    if off < 0 then data else Overwrite(data, off, [Column.ROW_DELETED])
  }

  /** A row `Select` returns, with its row number. */
  datatype Hit = Hit(num: int, row: Row)

  /** What `Read` returns for each row number, on a file holding `data`. */
  function RowReader<C>(k: RowCodec.Codec<C>, cols: seq<C>, columnBytes: nat, data: seq<byte>): int -> Result<Row>
  {
    j => Stride.ReadRowAt(k, cols, data, Static.RowNumToOffset(columnBytes, j))
  }

  /**
   * The scan of `Select` over rows `0 .. n - 1`, each read with `read`: a
   * deleted row is skipped, a live row that every condition holds of is
   * kept, and the first other read error or condition panic ends the scan.
   */
  function Scan(read: int -> Result<Row>, conds: seq<Condition>, n: nat): Result<seq<Hit>>
    decreases n
  {
    if n == 0 then Ok([])
    else
      match Scan(read, conds, n - 1)
      case Err(e) => Err(e)
      case Ok(hits) =>
        match read(n - 1)
        case Err(e) => if e == DeletedRow then Ok(hits) else Err(e)
        case Ok(r) =>
          match AllHold(conds, r)
          case Err(e) => Err(e)
          case Ok(b) => if b then Ok(hits + [Hit(n - 1, r)]) else Ok(hits)
  }

  /** Row `j` reads as a live row that every condition holds of. */
  predicate Matches(read: int -> Result<Row>, conds: seq<Condition>, j: int)
  {
    read(j).Ok? && AllHold(conds, read(j).value) == Ok(true)
  }

  /** Row `j` stops the scan: it fails to read for a reason other than deletion, or a condition panics on it. */
  predicate Faulty(read: int -> Result<Row>, conds: seq<Condition>, j: int)
  {
    match read(j)
    case Err(e) => e != DeletedRow
    case Ok(r) => AllHold(conds, r).Err?
  }

  predicate Ascending(hits: seq<Hit>)
  {
    forall a, b :: 0 <= a < b < |hits| ==> hits[a].num < hits[b].num
  }

  /** The scan fails exactly when some row in range is faulty. */
  lemma {:induction false} ScanFails(read: int -> Result<Row>, conds: seq<Condition>, n: nat)
    ensures Scan(read, conds, n).Err? <==> exists j :: 0 <= j < n && Faulty(read, conds, j)
    decreases n
  {
    if n > 0 {
      ScanFails(read, conds, n - 1);
      if Scan(read, conds, n - 1).Err? {
        var j :| 0 <= j < n - 1 && Faulty(read, conds, j);
      } else if Faulty(read, conds, n - 1) {
        assert Scan(read, conds, n).Err?;
      } else {
        assert Scan(read, conds, n).Ok?;
      }
    }
  }

  /** Every hit of a successful scan is a matching row in range, with what it reads as, and the hits ascend. */
  lemma {:induction false} ScanSound(read: int -> Result<Row>, conds: seq<Condition>, n: nat)
    requires Scan(read, conds, n).Ok?
    ensures forall h :: h in Scan(read, conds, n).value ==>
              0 <= h.num < n && Matches(read, conds, h.num) && read(h.num) == Ok(h.row)
    ensures Ascending(Scan(read, conds, n).value)
    decreases n
  {
    if n > 0 {
      var m := n - 1;
      ScanSound(read, conds, m);
      var hits := Scan(read, conds, m).value;
      if Matches(read, conds, m) {
        var all := hits + [Hit(m, read(m).value)];
        assert Scan(read, conds, n).value == all;
        forall a, b | 0 <= a < b < |all| ensures all[a].num < all[b].num {
          assert all[a] in hits;
        }
      } else {
        assert Scan(read, conds, n).value == hits;
      }
    }
  }

  /** A successful scan finds every matching row in range. */
  lemma {:induction false} ScanComplete(read: int -> Result<Row>, conds: seq<Condition>, n: nat)
    requires Scan(read, conds, n).Ok?
    ensures forall j :: 0 <= j < n && Matches(read, conds, j) ==> Hit(j, read(j).value) in Scan(read, conds, n).value
    decreases n
  {
    if n > 0 {
      var m := n - 1;
      ScanComplete(read, conds, m);
      var hits := Scan(read, conds, m).value;
      if Matches(read, conds, m) {
        assert Scan(read, conds, n).value == hits + [Hit(m, read(m).value)];
      } else {
        assert Scan(read, conds, n).value == hits;
      }
    }
  }

  /** The result of the day3 `Select`: the hits keyed by row number. */
  function HitMap(hits: seq<Hit>): map<int, Row>
    decreases |hits|
  {
    if hits == [] then map[] else HitMap(hits[..|hits| - 1])[hits[|hits| - 1].num := hits[|hits| - 1].row]
  }

  /** The result of the day2 `Select`: the hits' rows in scan order. */
  function HitRows(hits: seq<Hit>): (rows: seq<Row>)
    ensures |rows| == |hits|
    decreases |hits|
  {
    if hits == [] then [] else HitRows(hits[..|hits| - 1]) + [hits[|hits| - 1].row]
  }

  /** A hit's row number is a key of the map, holding its row when the numbers are ascending. */
  lemma {:induction false} HitMapMeaning(hits: seq<Hit>)
    requires Ascending(hits)
    ensures forall j :: j in HitMap(hits) <==> exists h :: h in hits && h.num == j
    ensures forall h :: h in hits ==> h.num in HitMap(hits) && HitMap(hits)[h.num] == h.row
    decreases |hits|
  {
    if hits != [] {
      var init := hits[..|hits| - 1];
      assert Ascending(init);
      HitMapMeaning(init);
      forall h | h in init ensures h.num != hits[|hits| - 1].num {
        var a :| 0 <= a < |init| && init[a] == h;
        assert hits[a] == h;
      }
      forall h | h in hits ensures h in init || h == hits[|hits| - 1] {
        var a :| 0 <= a < |hits| && hits[a] == h;
        if a < |hits| - 1 {
          assert init[a] == h;
        }
      }
    }
  }

  /** The day2 list holds the hits' rows in the order the scan found them. */
  lemma {:induction false} HitRowsMeaning(hits: seq<Hit>)
    ensures forall i :: 0 <= i < |hits| ==> HitRows(hits)[i] == hits[i].row
    decreases |hits|
  {
    if hits != [] {
      HitRowsMeaning(hits[..|hits| - 1]);
    }
  }

  /** The hits of a successful scan, keyed by row number, are the matching rows with what they read as. */
  lemma HitMapOfScan(read: int -> Result<Row>, conds: seq<Condition>, n: nat)
    requires Scan(read, conds, n).Ok?
    ensures forall j :: j in HitMap(Scan(read, conds, n).value) <==> 0 <= j < n && Matches(read, conds, j)
    ensures forall j :: j in HitMap(Scan(read, conds, n).value) ==> read(j) == Ok(HitMap(Scan(read, conds, n).value)[j])
  {
    ScanSound(read, conds, n);
    ScanComplete(read, conds, n);
    var hits := Scan(read, conds, n).value;
    HitMapMeaning(hits);
    forall j | 0 <= j < n && Matches(read, conds, j) ensures j in HitMap(hits) {
      assert Hit(j, read(j).value) in hits;
    }
    forall j | j in HitMap(hits)
      ensures 0 <= j < n && Matches(read, conds, j) && read(j) == Ok(HitMap(hits)[j])
    {
      var h :| h in hits && h.num == j;
    }
  }

  /** `Select` of day3 on the file's contents: the matching whole rows keyed by row number. */
  function SelectSpec<C>(k: RowCodec.Codec<C>, cols: seq<C>, columnBytes: nat, data: seq<byte>,
                         conds: seq<Condition>): Result<map<int, Row>>
    requires |data| >= HEADER
  {
    Static.RowCountBounds(columnBytes, data);
    match Scan(RowReader(k, cols, columnBytes, data), conds, Static.RowCount(columnBytes, data))
    case Err(e) => Err(e)
    case Ok(hits) => Ok(HitMap(hits))
  }

  /** `Select` of day2 on the file's contents: the matching whole rows in ascending row order. */
  function SelectListSpec<C>(k: RowCodec.Codec<C>, cols: seq<C>, columnBytes: nat, data: seq<byte>,
                             conds: seq<Condition>): Result<seq<Row>>
    requires |data| >= HEADER
  {
    Static.RowCountBounds(columnBytes, data);
    match Scan(RowReader(k, cols, columnBytes, data), conds, Static.RowCount(columnBytes, data))
    case Err(e) => Err(e)
    case Ok(hits) => Ok(HitRows(hits))
  }

  /**
   * The day3 `Select` fails exactly when some whole row is faulty; when it
   * succeeds, a row number is a key exactly when that row is live and every
   * condition holds of it, and the key holds what the row reads as.
   */
  lemma SelectMeaning<C>(k: RowCodec.Codec<C>, cols: seq<C>, columnBytes: nat, data: seq<byte>, conds: seq<Condition>)
    requires |data| >= HEADER
    ensures SelectSpec(k, cols, columnBytes, data, conds).Err? <==>
              exists j :: 0 <= j < Static.RowCount(columnBytes, data) &&
                          Faulty(RowReader(k, cols, columnBytes, data), conds, j)
    ensures SelectSpec(k, cols, columnBytes, data, conds).Ok? ==>
              forall j :: j in SelectSpec(k, cols, columnBytes, data, conds).value <==>
                0 <= j < Static.RowCount(columnBytes, data) && Matches(RowReader(k, cols, columnBytes, data), conds, j)
    ensures SelectSpec(k, cols, columnBytes, data, conds).Ok? ==>
              forall j :: j in SelectSpec(k, cols, columnBytes, data, conds).value ==>
                Stride.ReadRowAt(k, cols, data, Static.RowNumToOffset(columnBytes, j)) ==
                Ok(SelectSpec(k, cols, columnBytes, data, conds).value[j])
  {
    Static.RowCountBounds(columnBytes, data);
    var read := RowReader(k, cols, columnBytes, data);
    var n := Static.RowCount(columnBytes, data);
    ScanFails(read, conds, n);
    if Scan(read, conds, n).Ok? {
      HitMapOfScan(read, conds, n);
      forall j | j in HitMap(Scan(read, conds, n).value)
        ensures Stride.ReadRowAt(k, cols, data, Static.RowNumToOffset(columnBytes, j)) == Ok(HitMap(Scan(read, conds, n).value)[j])
      {
        assert read(j) == Stride.ReadRowAt(k, cols, data, Static.RowNumToOffset(columnBytes, j));
      }
    }
  }

  /** With no conditions, `Select` takes every live whole row. */
  lemma SelectAllLive<C>(k: RowCodec.Codec<C>, cols: seq<C>, columnBytes: nat, data: seq<byte>)
    requires |data| >= HEADER && SelectSpec(k, cols, columnBytes, data, []).Ok?
    ensures forall j :: j in SelectSpec(k, cols, columnBytes, data, []).value <==>
              0 <= j < Static.RowCount(columnBytes, data) &&
              Stride.ReadRowAt(k, cols, data, Static.RowNumToOffset(columnBytes, j)).Ok?
  {
    SelectMeaning(k, cols, columnBytes, data, []);
  }

  /**
   * The day2 `Select` fails exactly when the day3 one does, and otherwise
   * lists, in ascending row order, exactly the rows the day3 map holds.
   */
  lemma SelectListMeaning<C>(k: RowCodec.Codec<C>, cols: seq<C>, columnBytes: nat, data: seq<byte>,
                             conds: seq<Condition>)
    requires |data| >= HEADER
    ensures SelectListSpec(k, cols, columnBytes, data, conds).Err? <==> SelectSpec(k, cols, columnBytes, data, conds).Err?
    ensures SelectListSpec(k, cols, columnBytes, data, conds).Ok? ==>
              exists hits: seq<Hit> ::
                && Ascending(hits)
                && |hits| == |SelectListSpec(k, cols, columnBytes, data, conds).value|
                && (forall i :: 0 <= i < |hits| ==> SelectListSpec(k, cols, columnBytes, data, conds).value[i] == hits[i].row)
                && (forall j :: j in SelectSpec(k, cols, columnBytes, data, conds).value <==> exists h :: h in hits && h.num == j)
                && (forall h :: h in hits ==> SelectSpec(k, cols, columnBytes, data, conds).value[h.num] == h.row)
  {
    Static.RowCountBounds(columnBytes, data);
    var read := RowReader(k, cols, columnBytes, data);
    var n := Static.RowCount(columnBytes, data);
    if Scan(read, conds, n).Ok? {
      var hits := Scan(read, conds, n).value;
      ScanSound(read, conds, n);
      HitMapMeaning(hits);
      HitRowsMeaning(hits);
    }
  }

  /** What column `c` of a cleanly written row reads back as: the value written, or the zero value of its type. */
  function ConfigReadBack(c: ColumnConfig, row: Row): Value
  {
    if c.name in row then row[c.name] else ZeroValue(ConfigKind(c))
  }

  /** Every column is of a known type, and the row holds for it only a value the column gives back. */
  predicate RowFits(cols: seq<ColumnConfig>, row: Row)
  {
    forall i :: 0 <= i < |cols| ==>
      ConfigKind(cols[i]) != UnknownKind && (cols[i].name in row ==> Storable(ConfigKind(cols[i]), row[cols[i].name]))
  }

  /** A schema `setColumns` accepts, `columnBytes` wide. */
  predicate Accepted(cols: seq<ColumnConfig>, columnBytes: nat)
  {
    Stride.SumWidths(ConfigCodec, cols) == Stride.Summed(columnBytes, None)
  }

  /** A column of a known type writes and reads back a storable value in place, and reads no wider than it is. */
  lemma ConfigAligned(c: ColumnConfig, row: Row)
    requires ConfigKind(c) != UnknownKind && (c.name in row ==> Storable(ConfigKind(c), row[c.name]))
    ensures RowCodec.Aligned(ConfigCodec, ConfigReadBack, c, row)
  {
    if c.name in row {
      CellWidths(c.name, ConfigKind(c), row[c.name]);
      ConvertRoundTrip(c.name, ConfigKind(c), row[c.name]);
    } else {
      CellWidths(c.name, ConfigKind(c), I64(0));
      NilRoundTrip(c.name, ConfigKind(c));
    }
  }

  /** In an accepted schema every column has a known type, and each reads exactly its width. */
  lemma AcceptedKinds(cols: seq<ColumnConfig>, columnBytes: nat)
    requires Accepted(cols, columnBytes)
    ensures forall i :: 0 <= i < |cols| ==> ConfigKind(cols[i]) != UnknownKind
    ensures Stride.NilsFit(ConfigCodec, cols, columnBytes)
  {
    Stride.SumWidthsMeaning(ConfigCodec, cols);
    forall i | 0 <= i < |cols| ensures ConfigKind(cols[i]) != UnknownKind && RowCodec.NilFitsWidth(ConfigCodec, cols[i]) {
      CellWidths(cols[i].name, ConfigKind(cols[i]), I64(0));
    }
  }

  /** An accepted schema and a fitting row meet the layout facts of the fixed-stride engines. */
  lemma AcceptedFits(cols: seq<ColumnConfig>, columnBytes: nat, row: Row)
    requires Accepted(cols, columnBytes) && RowFits(cols, row)
    ensures Stride.Fits(ConfigCodec, ConfigReadBack, cols, columnBytes, row)
    ensures Stride.NilsFit(ConfigCodec, cols, columnBytes)
  {
    AcceptedKinds(cols, columnBytes);
    Stride.SumWidthsMeaning(ConfigCodec, cols);
    forall i | 0 <= i < |cols| ensures RowCodec.Aligned(ConfigCodec, ConfigReadBack, cols[i], row) {
      ConfigAligned(cols[i], row);
    }
  }

  /** `Insert`: the write at the row count's offset, and the row count. */
  function InsertSpec(cols: seq<ColumnConfig>, columnBytes: nat, data: seq<byte>, row: Row): Written
  {
    WriteRowSpec(ConfigCodec, cols, data, Static.RowNumToOffset(columnBytes, Static.RowCount(columnBytes, data)), row)
  }

  /**
   * Inserting a fitting row into an accepted schema with distinct names
   * succeeds, appends exactly one row, and that row reads back with every
   * column of the schema: the value written, or the column's zero value.
   */
  lemma InsertThenRead(cols: seq<ColumnConfig>, columnBytes: nat, data: seq<byte>, row: Row)
    requires Accepted(cols, columnBytes) && DistinctNames(ConfigCodec, cols) && RowFits(cols, row)
    requires |data| >= HEADER
    ensures InsertSpec(cols, columnBytes, data, row).err == None
    ensures Static.RowCount(columnBytes, InsertSpec(cols, columnBytes, data, row).data) == Static.RowCount(columnBytes, data) + 1
    ensures RowReader(ConfigCodec, cols, columnBytes, InsertSpec(cols, columnBytes, data, row).data)(Static.RowCount(columnBytes, data))
            == Ok(RowCodec.ExpectedRow(ConfigCodec, ConfigReadBack, cols, row))
  {
    AcceptedFits(cols, columnBytes, row);
    Static.RowCountBounds(columnBytes, data);
    Stride.AppendThenRead(ConfigCodec, ConfigReadBack, cols, columnBytes, data, row);
    WriteRowOutcome(ConfigCodec, cols, data, Static.RowNumToOffset(columnBytes, Static.RowCount(columnBytes, data)), row);
  }

  /**
   * `setColumns` does not reject repeated names, but staging keeps one cell
   * per name: a string256 column and an int64 column both named "a" make a
   * 266-byte schema, yet writing an empty row at the header's end writes
   * the tombstone and two ten-byte int64 cells, 21 bytes and not 267.
   */
  lemma RepeatedNameShortRow()
    ensures Accepted([ColumnConfig("a", CT_STRING256), ColumnConfig("a", CT_INT64)], 266)
    ensures RowFits([ColumnConfig("a", CT_STRING256), ColumnConfig("a", CT_INT64)], map[])
    ensures |WriteRowSpec(ConfigCodec, [ColumnConfig("a", CT_STRING256), ColumnConfig("a", CT_INT64)], Zeros(HEADER), HEADER, map[]).data|
            == HEADER + 21
  {
    var str := ColumnConfig("a", CT_STRING256);
    var i64 := ColumnConfig("a", CT_INT64);
    var cols := [str, i64];
    assert cols[..1] == [str] && [str][..0] == [];
    ConfigWidths(str);
    ConfigWidths(i64);
    assert Stride.SumWidths(ConfigCodec, [str]) == Stride.Summed(256, None);
    CellWidths("a", String256Kind, I64(0));
    CellWidths("a", Int64Kind, I64(0));
    var cell := Nil(Int64Kind).value;
    var pad := Nil(String256Kind).value;
    assert ConfigKind(str) == String256Kind && ConfigKind(i64) == Int64Kind;
    assert Staged(ConfigCodec, [str], map[]) == Ok(map["a" := pad]);
    assert RowCodec.Image(ConfigCodec, i64, map[]) == Ok(cell);
    assert map["a" := pad]["a" := cell] == map["a" := cell];
    assert Staged(ConfigCodec, cols, map[]) == Ok(map["a" := cell]);
    assert Cells(ConfigCodec, [str], map["a" := cell]) == cell;
    assert |Cells(ConfigCodec, cols, map["a" := cell])| == 20;
  }

  /**
   * A row that fails to convert is refused before anything is written, so
   * the file, its row count and the number the next insert gets are
   * unchanged.
   */
  lemma FailedInsertKeepsFile(cols: seq<ColumnConfig>, columnBytes: nat, data: seq<byte>, row: Row)
    requires RowCodec.EncodePrefix(ConfigCodec, cols, row).err.Some?
    ensures InsertSpec(cols, columnBytes, data, row) == Written(data, RowCodec.EncodePrefix(ConfigCodec, cols, row).err)
  {
    WriteRowOutcome(ConfigCodec, cols, data, Static.RowNumToOffset(columnBytes, Static.RowCount(columnBytes, data)), row);
  }

  /**
   * `Update(m)` of a fitting row succeeds for any row number whose offset is
   * not negative, in range or not, and the row then reads back as written;
   * a row in range leaves the file's length unchanged.
   */
  lemma UpdateThenRead(cols: seq<ColumnConfig>, columnBytes: nat, data: seq<byte>, m: int, row: Row)
    requires Accepted(cols, columnBytes) && DistinctNames(ConfigCodec, cols) && RowFits(cols, row)
    requires m >= 0
    ensures WriteRowSpec(ConfigCodec, cols, data, Static.RowNumToOffset(columnBytes, m), row).err == None
    ensures RowReader(ConfigCodec, cols, columnBytes,
                      WriteRowSpec(ConfigCodec, cols, data, Static.RowNumToOffset(columnBytes, m), row).data)(m)
            == Ok(RowCodec.ExpectedRow(ConfigCodec, ConfigReadBack, cols, row))
    ensures |data| >= HEADER && m < Static.RowCount(columnBytes, data) ==>
              |WriteRowSpec(ConfigCodec, cols, data, Static.RowNumToOffset(columnBytes, m), row).data| == |data|
  {
    AcceptedFits(cols, columnBytes, row);
    Stride.FullWidth(ConfigCodec, ConfigReadBack, cols, columnBytes, row);
    Static.OffsetAtLeastHeader(columnBytes, m);
    var off := Static.RowNumToOffset(columnBytes, m);
    WriteRowOutcome(ConfigCodec, cols, data, off, row);
    OverwriteHolds(data, off, [Column.ROW_NORMAL] + RowCodec.EncodePrefix(ConfigCodec, cols, row).bytes);
    Stride.LiveRowReads(ConfigCodec, ConfigReadBack, cols, columnBytes,
                        Overwrite(data, off, [Column.ROW_NORMAL] + RowCodec.EncodePrefix(ConfigCodec, cols, row).bytes), off, row);
    if |data| >= HEADER && m < Static.RowCount(columnBytes, data) {
      Stride.RewriteThenRead(ConfigCodec, ConfigReadBack, cols, columnBytes, data, m, row);
    }
  }

  /** An update of row `m` with a fitting row leaves every other whole row reading as it did. */
  lemma UpdateKeepsOthers(cols: seq<ColumnConfig>, columnBytes: nat, data: seq<byte>, m: int, row: Row, j: int)
    requires Accepted(cols, columnBytes) && DistinctNames(ConfigCodec, cols) && RowFits(cols, row)
    requires m >= 0 && j >= 0 && j != m && Static.RowNumToOffset(columnBytes, j) + columnBytes + 1 <= |data|
    ensures RowReader(ConfigCodec, cols, columnBytes,
                      WriteRowSpec(ConfigCodec, cols, data, Static.RowNumToOffset(columnBytes, m), row).data)(j)
            == RowReader(ConfigCodec, cols, columnBytes, data)(j)
  {
    AcceptedFits(cols, columnBytes, row);
    Stride.FullWidth(ConfigCodec, ConfigReadBack, cols, columnBytes, row);
    Static.OffsetAtLeastHeader(columnBytes, m);
    WriteRowOutcome(ConfigCodec, cols, data, Static.RowNumToOffset(columnBytes, m), row);
    Stride.OtherRowKept(ConfigCodec, cols, columnBytes, data, m,
                        [Column.ROW_NORMAL] + RowCodec.EncodePrefix(ConfigCodec, cols, row).bytes, j);
  }

  /**
   * After `Delete(m)` at a non-negative offset the row reads as deleted,
   * and every other whole row of an accepted schema reads as it did; at a
   * negative offset nothing is written, and no error is reported.
   */
  lemma DeleteThenRead(cols: seq<ColumnConfig>, columnBytes: nat, data: seq<byte>, m: int)
    ensures Static.RowNumToOffset(columnBytes, m) >= 0 ==>
              RowReader(ConfigCodec, cols, columnBytes, DeleteSpec(columnBytes, data, m))(m) == Err(DeletedRow)
    ensures Static.RowNumToOffset(columnBytes, m) < 0 ==> DeleteSpec(columnBytes, data, m) == data
  {
    if Static.RowNumToOffset(columnBytes, m) >= 0 {
      Stride.TombstoneReads(ConfigCodec, cols, data, Static.RowNumToOffset(columnBytes, m));
    }
  }

  /** A delete changes no other whole row's reading. */
  lemma DeleteKeepsOthers(cols: seq<ColumnConfig>, columnBytes: nat, data: seq<byte>, m: int, j: int)
    requires Accepted(cols, columnBytes)
    requires m >= 0 && j >= 0 && j != m && Static.RowNumToOffset(columnBytes, j) + columnBytes + 1 <= |data|
    ensures RowReader(ConfigCodec, cols, columnBytes, DeleteSpec(columnBytes, data, m))(j)
            == RowReader(ConfigCodec, cols, columnBytes, data)(j)
  {
    AcceptedKinds(cols, columnBytes);
    Static.OffsetAtLeastHeader(columnBytes, m);
    Stride.OtherRowKept(ConfigCodec, cols, columnBytes, data, m, [Column.ROW_DELETED], j);
  }

  /**
   * `Read` has no bounds check: a row number whose offset is past the end
   * of the file fails with the end-of-file error of the read, and one whose
   * offset is negative with the negative-offset error.
   */
  lemma ReadOutOfRange(cols: seq<ColumnConfig>, columnBytes: nat, data: seq<byte>, m: int)
    ensures Static.RowNumToOffset(columnBytes, m) >= |data| ==> RowReader(ConfigCodec, cols, columnBytes, data)(m) == Err(EOF)
    ensures Static.RowNumToOffset(columnBytes, m) < 0 ==> RowReader(ConfigCodec, cols, columnBytes, data)(m) == Err(NegativeOffset)
  {
  }

  /** The table: its file (or `null` before opening and once closed), its version and its schema. */
  class Table {
    var filename: string
    var file: File?
    var fileVersion: int
    var columnConfigs: seq<ColumnConfig>
    var columnBytes: nat

    /** `columnBytes` is what the width loop left for the schema, and an open file holds at least its header. */
    ghost predicate Valid()
      reads this, file
    {
      columnBytes == Stride.SumWidths(ConfigCodec, columnConfigs).total && (file != null ==> |file.bytes| >= HEADER)
    }

    /** `new(Table)`: no file and no columns. */
    constructor ()
      ensures Valid() && file == null && columnConfigs == [] && columnBytes == 0 && filename == ""
    {
      filename := "";
      file := null;
      fileVersion := 0;
      columnConfigs := [];
      columnBytes := 0;
    }

    /** `OpenFile` on the opened file `f`: the header logic of the early engines. */
    method OpenFile(name: string, f: File) returns (err: Option<Error>)
      requires Valid()
      modifies this, f
      ensures Valid() && filename == name && file == f
      ensures columnConfigs == old(columnConfigs) && columnBytes == old(columnBytes)
      ensures f.bytes == Stride.OpenFileHeader(old(f.bytes)).data
      ensures fileVersion == Stride.OpenFileHeader(old(f.bytes)).version
      ensures err == Stride.OpenFileHeader(old(f.bytes)).err
    {
      filename := name;
      file := f;
      var rd := f.ReadAt(HEADER, 0);
      if rd.err.Some? {
        fileVersion := 1;
        var b := PutVarintInto(rd.buf, fileVersion);
        var num, werr := f.WriteAt(b, 0);
        return None;
      }
      var d := Varint(rd.buf);
      fileVersion := d.value;
      if d.n == 0 {
        return Some(FailedToReadFileVersion);
      }
      return None;
    }

    /** `Close`: forgets the file and its name; a table with no file reports that it is already closed. */
    method Close() returns (err: Option<Error>)
      requires Valid()
      modifies this
      ensures Valid() && file == null
      ensures old(file) == null ==> err == Some(AlreadyClosed) && filename == old(filename)
      ensures old(file) != null ==> err == None && filename == ""
      ensures fileVersion == old(fileVersion) && columnConfigs == old(columnConfigs) && columnBytes == old(columnBytes)
    {
      if file == null {
        return Some(AlreadyClosed);
      }
      filename := "";
      file := null;
      return None;
    }

    /**
     * `setColumns`: records the schema, then adds up the widths in
     * `columnBytes`; a column of unknown type stops the loop with the error
     * and the width so far. Duplicate names are not checked.
     */
    method SetColumns(cols: seq<ColumnConfig>) returns (err: Option<Error>)
      requires Valid()
      modifies this
      ensures Valid() && file == old(file) && filename == old(filename) && fileVersion == old(fileVersion)
      ensures columnConfigs == cols
      ensures columnBytes == Stride.SumWidths(ConfigCodec, cols).total
      ensures err == Stride.SumWidths(ConfigCodec, cols).err
    {
      columnConfigs := cols;
      columnBytes := 0;
      for i := 0 to |cols|
        invariant columnConfigs == cols && file == old(file) && filename == old(filename) && fileVersion == old(fileVersion)
        invariant Stride.SumWidths(ConfigCodec, cols[..i]) == Stride.Summed(columnBytes, None)
      {
        Stride.SumStep(ConfigCodec, cols, i);
        var num := ConfigWidth(cols[i]);
        if num.Err? {
          Stride.SumStops(ConfigCodec, cols, i + 1);
          return Some(num.error);
        }
        columnBytes := columnBytes + num.value;
      }
      assert cols[..|cols|] == cols;
      return None;
    }

    /** `GetLastNum`: the number of whole rows, which is where `Insert` writes. */
    method GetLastNum() returns (n: int, err: Option<Error>)
      requires Valid()
      ensures file == null ==> n == -1 && err == Some(InvalidFile)
      ensures file != null ==> n == Static.RowCount(columnBytes, file.bytes) && n >= 0 && err == None
    {
      if file == null {
        return -1, Some(InvalidFile);
      }
      Static.RowCountBounds(columnBytes, file.bytes);
      n := Quot(file.Size() - HEADER, columnBytes + 1);
      return n, None;
    }

    /** `WriteRow` at the raw offset `off`: the conversion loop, then the tombstone and the write loop. */
    method WriteRow(off: int, row: Row) returns (err: Option<Error>)
      requires Valid()
      modifies file
      ensures Valid()
      ensures file == null ==> err == Some(ClosedWriteError(ConfigCodec, columnConfigs, row))
      ensures file != null ==>
                file.bytes == WriteRowSpec(ConfigCodec, columnConfigs, old(file.bytes), off, row).data &&
                err == WriteRowSpec(ConfigCodec, columnConfigs, old(file.bytes), off, row).err
    {
      var insertData := StageRow(ConfigCodec, columnConfigs, row);
      if insertData.Err? {
        return Some(insertData.error);
      }
      if file == null {
        return Some(InvalidFile);
      }
      WriteRowStaged(ConfigCodec, columnConfigs, file.bytes, off, row, insertData.value);
      err := WriteStagedRow(ConfigCodec, file, columnConfigs, insertData.value, off);
    }

    /** `Update`: `WriteRow` at row `rowNum`'s offset, in range or not. */
    method Update(rowNum: int, row: Row) returns (err: Option<Error>)
      requires Valid()
      modifies file
      ensures Valid()
      ensures file == null ==> err == Some(ClosedWriteError(ConfigCodec, columnConfigs, row))
      ensures file != null ==>
                file.bytes == WriteRowSpec(ConfigCodec, columnConfigs, old(file.bytes),
                                           Static.RowNumToOffset(columnBytes, rowNum), row).data &&
                err == WriteRowSpec(ConfigCodec, columnConfigs, old(file.bytes),
                                    Static.RowNumToOffset(columnBytes, rowNum), row).err
    {
      err := WriteRow(Static.RowNumToOffset(columnBytes, rowNum), row);
    }

    /** `Insert` of day3: `WriteRow` at the offset of the row count, which it returns with the write's error. */
    method Insert(row: Row) returns (n: int, err: Option<Error>)
      requires Valid()
      modifies file
      ensures Valid()
      ensures file == null ==> n == -1 && err == Some(InvalidFile)
      ensures file != null ==>
                n == Static.RowCount(columnBytes, old(file.bytes)) &&
                file.bytes == InsertSpec(columnConfigs, columnBytes, old(file.bytes), row).data &&
                err == InsertSpec(columnConfigs, columnBytes, old(file.bytes), row).err
    {
      var lastNum, e := GetLastNum();
      if e.Some? {
        return -1, e;
      }
      err := WriteRow(Static.RowNumToOffset(columnBytes, lastNum), row);
      n := lastNum;
    }

    /**
     * `Insert` of day2, which does not check the error of `GetLastNum`: with
     * no file the row number is -1 and the error is the write's.
     */
    method InsertUnchecked(row: Row) returns (n: int, err: Option<Error>)
      requires Valid()
      modifies file
      ensures Valid()
      ensures file == null ==> n == -1 && err == Some(ClosedWriteError(ConfigCodec, columnConfigs, row))
      ensures file != null ==>
                n == Static.RowCount(columnBytes, old(file.bytes)) &&
                file.bytes == InsertSpec(columnConfigs, columnBytes, old(file.bytes), row).data &&
                err == InsertSpec(columnConfigs, columnBytes, old(file.bytes), row).err
    {
      var lastNum, e := GetLastNum();
      err := WriteRow(Static.RowNumToOffset(columnBytes, lastNum), row);
      n := lastNum;
    }

    /** `Read` of row `num`, with no bounds check: the tombstone, then the column loop. */
    method Read(num: int) returns (r: Result<Row>)
      requires Valid()
      ensures file == null ==> r == Err(InvalidFile)
      ensures file != null ==> r == Stride.ReadRowAt(ConfigCodec, columnConfigs, file.bytes, Static.RowNumToOffset(columnBytes, num))
    {
      if file == null {
        return Err(InvalidFile);
      }
      var targetOff := Static.RowNumToOffset(columnBytes, num);
      var t := file.ReadAt(1, targetOff);
      if t.err.Some? {
        return Err(t.err.value);
      }
      if t.buf[0] == Column.ROW_DELETED {
        return Err(DeletedRow);
      }
      r := RowCodec.ReadColumnsAt(ConfigCodec, file, columnConfigs, targetOff + 1);
    }

    /** `Delete`: the tombstone at row `rowNum`'s offset; the write's error is dropped, and only a missing file is reported. */
    method Delete(rowNum: int) returns (err: Option<Error>)
      requires Valid()
      modifies file
      ensures Valid()
      ensures file == null ==> err == Some(InvalidFile)
      ensures file != null ==> err == None && file.bytes == DeleteSpec(columnBytes, old(file.bytes), rowNum)
    {
      if file == null {
        return Some(InvalidFile);
      }
      var num, werr := file.WriteAt([Column.ROW_DELETED], Static.RowNumToOffset(columnBytes, rowNum));
      return None;
    }

    /** `Select` of day3: the matching whole rows keyed by row number. */
    method Select(conds: seq<Condition>) returns (r: Result<map<int, Row>>)
      requires Valid()
      ensures file == null ==> r == Err(InvalidFile)
      ensures file != null ==> r == SelectSpec(ConfigCodec, columnConfigs, columnBytes, file.bytes, conds)
    {
      var lastNum, err := GetLastNum();
      if err.Some? {
        return Err(err.value);
      }
      ghost var read := RowReader(ConfigCodec, columnConfigs, columnBytes, file.bytes);
      ghost var hits: seq<Hit> := [];
      var result: map<int, Row> := map[];
      for i := 0 to lastNum
        invariant Scan(read, conds, i) == Ok(hits)
        invariant result == HitMap(hits)
      {
        var testRow := Read(i);
        assert testRow == read(i);
        if testRow.Err? {
          if testRow.error == DeletedRow {
            continue;
          }
          ScanStops(read, conds, i + 1, lastNum);
          return Err(testRow.error);
        }
        var flag := MatchAll(conds, testRow.value);
        if flag.Err? {
          ScanStops(read, conds, i + 1, lastNum);
          return Err(flag.error);
        }
        if flag.value {
          hits := hits + [Hit(i, testRow.value)];
          result := result[i := testRow.value];
        }
      }
      return Ok(result);
    }

    /** `Select` of day2: the matching whole rows in ascending row order. */
    method SelectList(conds: seq<Condition>) returns (r: Result<seq<Row>>)
      requires Valid()
      ensures file == null ==> r == Err(InvalidFile)
      ensures file != null ==> r == SelectListSpec(ConfigCodec, columnConfigs, columnBytes, file.bytes, conds)
    {
      var lastNum, err := GetLastNum();
      if err.Some? {
        return Err(err.value);
      }
      ghost var read := RowReader(ConfigCodec, columnConfigs, columnBytes, file.bytes);
      ghost var hits: seq<Hit> := [];
      var result: seq<Row> := [];
      for i := 0 to lastNum
        invariant Scan(read, conds, i) == Ok(hits)
        invariant result == HitRows(hits)
      {
        var testRow := Read(i);
        assert testRow == read(i);
        if testRow.Err? {
          if testRow.error == DeletedRow {
            continue;
          }
          ScanStops(read, conds, i + 1, lastNum);
          return Err(testRow.error);
        }
        var flag := MatchAll(conds, testRow.value);
        if flag.Err? {
          ScanStops(read, conds, i + 1, lastNum);
          return Err(flag.error);
        }
        if flag.value {
          hits := hits + [Hit(i, testRow.value)];
          result := result + [testRow.value];
        }
      }
      return Ok(result);
    }
  }

  /** Once the scan has failed, the later rows change nothing. */
  lemma {:induction false} ScanStops(read: int -> Result<Row>, conds: seq<Condition>, j: nat, n: nat)
    requires j <= n && Scan(read, conds, j).Err?
    ensures Scan(read, conds, n) == Scan(read, conds, j)
    decreases n - j
  {
    if j < n {
      ScanStops(read, conds, j, n - 1);
    }
  }
}
