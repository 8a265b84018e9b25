// The database of the day3 engine: sentences naming a table, a command,
// conditions and row data; their conversion from the JSON form; and `Exec`,
// which runs one sentence against one table.

module Databases {
  import opened Bytes
  import opened Values
  import opened Header
  import opened Legacy
  import opened Conditions
  import opened ConfigTable
  import Column
  import Static
  import Stride
  import RowCodec

  /** The command types of a sentence. */
  const C_SELECT: int := 1
  const C_UPDATE: int := 2
  const C_INSERT: int := 3
  const C_DROP: int := 4

  datatype Sentence = Sentence(command: int, tableName: string, where: seq<Condition>, rowData: Row)

  /** The JSON forms, with the command, operator and column type spelt out as words. */
  datatype JsonColumnConfig = JsonColumnConfig(name: string, typ: string)
  datatype JsonCondition = JsonCondition(target: JsonColumnConfig, lookup: string, value: Value)
  datatype JsonSentence = JsonSentence(command: string, tableName: string, where: seq<JsonCondition>, rowData: Row)

  // ---------------------------------------------------------------------
  // convertJson
  // ---------------------------------------------------------------------

  function CommandOf(word: string): Option<int>
  {
    if word == "Select" then Some(C_SELECT)
    else if word == "Update" then Some(C_UPDATE)
    else if word == "Insert" then Some(C_INSERT)
    else if word == "Drop" then Some(C_DROP)
    else None
  }

  function LookupOf(word: string): Option<int>
  {
    if word == "Equal" then Some(CONDITION_EQUAL)
    else if word == "LessThan" then Some(CONDITION_LESS_THAN)
    else if word == "GreaterThan" then Some(CONDITION_GREATER_THAN)
    else if word == "LessThanOrEqual" then Some(CONDITION_LESS_THAN_OR_EQUAL)
    else if word == "GreaterThanOrEqual" then Some(CONDITION_GREATER_THAN_OR_EQUAL)
    else None
  }

  function ColumnTypeOf(word: string): Option<int>
  {
    if word == "Int64" then Some(CT_INT64)
    else if word == "Float64" then Some(CT_FLOAT64)
    else if word == "String256" then Some(CT_STRING256)
    else if word == "Time" then Some(CT_TIME)
    else None
  }

  /** One condition: the operator is checked before the column type. */
  function ConvertCondition(w: JsonCondition): Result<Condition>
  {
    match LookupOf(w.lookup)
    case None => Err(InvalidCondition)
    case Some(op) =>
      match ColumnTypeOf(w.target.typ)
      case None => Err(InvalidColumnType)
      case Some(t) => Ok(Condition(ColumnConfig(w.target.name, t), op, w.value))
  }

  /** The condition loop: the conditions in order, or the error of the first that fails. */
  function ConvertedWhere(ws: seq<JsonCondition>): Result<seq<Condition>>
    decreases |ws|
  {
    if ws == [] then Ok([])
    else
      match ConvertedWhere(ws[..|ws| - 1])
      case Err(e) => Err(e)
      case Ok(cs) =>
        match ConvertCondition(ws[|ws| - 1])
        case Err(e) => Err(e)
        case Ok(c) => Ok(cs + [c])
  }

  /** `convertJson`: the command first, then the conditions; table name and row data are copied. */
  function ConvertedSentence(js: JsonSentence): Result<Sentence>
  {
    match CommandOf(js.command)
    case None => Err(InvalidCommand)
    case Some(c) =>
      match ConvertedWhere(js.where)
      case Err(e) => Err(e)
      case Ok(cs) => Ok(Sentence(c, js.tableName, cs, js.rowData))
  }

  /** The words the JSON form uses, the inverse of the three lookups above. */
  function CommandWord(c: int): string
  {
    if c == C_SELECT then "Select" else if c == C_UPDATE then "Update"
    else if c == C_INSERT then "Insert" else if c == C_DROP then "Drop" else ""
  }

  function LookupWord(op: int): string
  {
    if op == CONDITION_EQUAL then "Equal" else if op == CONDITION_LESS_THAN then "LessThan"
    else if op == CONDITION_GREATER_THAN then "GreaterThan"
    else if op == CONDITION_LESS_THAN_OR_EQUAL then "LessThanOrEqual"
    else if op == CONDITION_GREATER_THAN_OR_EQUAL then "GreaterThanOrEqual" else ""
  }

  function ColumnTypeWord(t: int): string
  {
    if t == CT_INT64 then "Int64" else if t == CT_FLOAT64 then "Float64"
    else if t == CT_STRING256 then "String256" else if t == CT_TIME then "Time" else ""
  }

  function JsonOfCondition(c: Condition): JsonCondition
  {
    JsonCondition(JsonColumnConfig(c.target.name, ColumnTypeWord(c.target.typ)), LookupWord(c.lookup), c.value)
  }

  function JsonOfWhere(cs: seq<Condition>): (ws: seq<JsonCondition>)
    ensures |ws| == |cs|
    ensures forall i :: 0 <= i < |cs| ==> ws[i] == JsonOfCondition(cs[i])
  {
    seq(|cs|, i requires 0 <= i < |cs| => JsonOfCondition(cs[i]))
  }

  function JsonOf(s: Sentence): JsonSentence
  {
    JsonSentence(CommandWord(s.command), s.tableName, JsonOfWhere(s.where), s.rowData)
  }

  /** A condition with one of the five operators on a column of one of the four types. */
  predicate KnownCondition(c: Condition)
  {
    CONDITION_EQUAL <= c.lookup <= CONDITION_GREATER_THAN_OR_EQUAL && CT_INT64 <= c.target.typ <= CT_TIME
  }

  /** A sentence that a JSON sentence can stand for. */
  predicate KnownSentence(s: Sentence)
  {
    C_SELECT <= s.command <= C_DROP && forall i :: 0 <= i < |s.where| ==> KnownCondition(s.where[i])
  }

  /** The command lookup accepts exactly the words of its inverse. */
  lemma CommandWords(word: string, n: int)
    ensures CommandOf(word) == Some(n) <==> C_SELECT <= n <= C_DROP && word == CommandWord(n)
  {
  }

  /** The operator lookup accepts exactly the words of its inverse. */
  lemma LookupWords(word: string, n: int)
    ensures LookupOf(word) == Some(n) <==> CONDITION_EQUAL <= n <= CONDITION_GREATER_THAN_OR_EQUAL && word == LookupWord(n)
  {
  }

  /** The column type lookup accepts exactly the words of its inverse. */
  lemma ColumnTypeWords(word: string, n: int)
    ensures ColumnTypeOf(word) == Some(n) <==> CT_INT64 <= n <= CT_TIME && word == ColumnTypeWord(n)
  {
  }

  /** The condition loop fails exactly when some condition does, with the error of the first. */
  lemma {:induction false} WhereFails(ws: seq<JsonCondition>)
    ensures ConvertedWhere(ws).Err? <==> exists i :: 0 <= i < |ws| && ConvertCondition(ws[i]).Err?
    ensures ConvertedWhere(ws).Err? ==>
              exists i :: 0 <= i < |ws| && ConvertCondition(ws[i]) == Err(ConvertedWhere(ws).error) &&
                          forall j :: 0 <= j < i ==> ConvertCondition(ws[j]).Ok?
    decreases |ws|
  {
    if ws != [] {
      var init := ws[..|ws| - 1];
      WhereFails(init);
      assert forall i :: 0 <= i < |init| ==> init[i] == ws[i];
      if ConvertedWhere(init).Err? {
        var i :| 0 <= i < |init| && ConvertCondition(init[i]) == Err(ConvertedWhere(init).error) &&
                 forall j :: 0 <= j < i ==> ConvertCondition(init[j]).Ok?;
        assert ConvertCondition(ws[i]) == Err(ConvertedWhere(ws).error);
      }
    }
  }

  /** When the condition loop succeeds, it converts every condition, in order. */
  lemma {:induction false} WhereValues(ws: seq<JsonCondition>)
    requires ConvertedWhere(ws).Ok?
    ensures |ConvertedWhere(ws).value| == |ws|
    ensures forall i :: 0 <= i < |ws| ==> ConvertCondition(ws[i]) == Ok(ConvertedWhere(ws).value[i])
    decreases |ws|
  {
    if ws != [] {
      var init := ws[..|ws| - 1];
      WhereValues(init);
      assert forall i :: 0 <= i < |init| ==> init[i] == ws[i];
    }
  }

  /**
   * `convertJson` fails with "Invalid Command" for an unknown command and
   * otherwise exactly when some condition has an unknown operator ("Invalid
   * Condition") or column type ("Invalid ColumnType"), reporting the first
   * such condition, the operator before the type.
   */
  lemma ConvertJsonFails(js: JsonSentence)
    ensures CommandOf(js.command) == None ==> ConvertedSentence(js) == Err(InvalidCommand)
    ensures CommandOf(js.command).Some? ==>
              (ConvertedSentence(js).Err? <==>
                 exists i :: 0 <= i < |js.where| &&
                   (LookupOf(js.where[i].lookup) == None || ColumnTypeOf(js.where[i].target.typ) == None))
    ensures CommandOf(js.command).Some? && ConvertedSentence(js).Err? ==>
              exists i :: 0 <= i < |js.where| &&
                (forall j :: 0 <= j < i ==> LookupOf(js.where[j].lookup).Some? && ColumnTypeOf(js.where[j].target.typ).Some?) &&
                ConvertedSentence(js).error ==
                  (if LookupOf(js.where[i].lookup) == None then InvalidCondition else InvalidColumnType)
  {
    WhereFails(js.where);
  }

  /** A known sentence survives the trip through its JSON form. */
  lemma ConvertJsonRoundTrip(s: Sentence)
    requires KnownSentence(s)
    ensures ConvertedSentence(JsonOf(s)) == Ok(s)
  {
    var ws := JsonOfWhere(s.where);
    WhereFails(ws);
    forall i | 0 <= i < |ws| ensures ConvertCondition(ws[i]) == Ok(s.where[i]) {
      LookupWords(ws[i].lookup, s.where[i].lookup);
      ColumnTypeWords(ws[i].target.typ, s.where[i].target.typ);
    }
    CommandWords(CommandWord(s.command), s.command);
    WhereValues(ws);
    assert ConvertedWhere(ws).value == s.where;
  }

  /** What `convertJson` accepts is a known sentence whose JSON form is the input. */
  lemma ConvertJsonInverse(js: JsonSentence)
    requires ConvertedSentence(js).Ok?
    ensures KnownSentence(ConvertedSentence(js).value)
    ensures JsonOf(ConvertedSentence(js).value) == js
  {
    WhereValues(js.where);
    var s := ConvertedSentence(js).value;
    CommandWords(js.command, s.command);
    forall i | 0 <= i < |js.where| ensures KnownCondition(s.where[i]) && JsonOfCondition(s.where[i]) == js.where[i] {
      LookupWords(js.where[i].lookup, s.where[i].lookup);
      ColumnTypeWords(js.where[i].target.typ, s.where[i].target.typ);
    }
    assert JsonOfWhere(s.where) == js.where;
  }

  /** Once the condition loop has failed, the later conditions change nothing. */
  lemma {:induction false} WhereStops(ws: seq<JsonCondition>, j: nat)
    requires j <= |ws| && ConvertedWhere(ws[..j]).Err?
    ensures ConvertedWhere(ws) == ConvertedWhere(ws[..j])
    decreases |ws| - j
  {
    if j < |ws| {
      assert ws[..j + 1][..j] == ws[..j];
      WhereStops(ws, j + 1);
    } else {
      assert ws[..j] == ws;
    }
  }

  /** `convertJson`, with its loop over the conditions. */
  method ConvertJson(js: JsonSentence) returns (r: Result<Sentence>)
    ensures r == ConvertedSentence(js)
  {
    var command := CommandOf(js.command);
    if command == None {
      return Err(InvalidCommand);
    }
    var where: seq<Condition> := [];
    for i := 0 to |js.where|
      invariant ConvertedWhere(js.where[..i]) == Ok(where)
    {
      assert js.where[..i + 1][..i] == js.where[..i];
      var tempCond := ConvertCondition(js.where[i]);
      if tempCond.Err? {
        WhereStops(js.where, i + 1);
        return Err(tempCond.error);
      }
      where := where + [tempCond.value];
    }
    assert js.where[..|js.where|] == js.where;
    return Ok(Sentence(command.value, js.tableName, where, js.rowData));
  }

  // ---------------------------------------------------------------------
  // Exec
  // ---------------------------------------------------------------------

  /**
   * The file after writing `stamp` at the start of every row whose number
   * is in `keys`: the overwrites of `Exec`'s update and drop loops, in any
   * order, as long as the stamp fits in a row.
   */
  function Stamped(data: seq<byte>, columnBytes: nat, keys: set<int>, stamp: seq<byte>): (r: seq<byte>)
    ensures |r| == |data|
  {
    seq(|data|, p requires 0 <= p < |data| =>
      if p >= HEADER && (p - HEADER) / (columnBytes + 1) in keys && (p - HEADER) % (columnBytes + 1) < |stamp|
      then stamp[(p - HEADER) % (columnBytes + 1)]
      else data[p])
  }

  /** Stamping one more whole row of the file is one more overwrite at its offset. */
  lemma StampOne(data: seq<byte>, columnBytes: nat, keys: set<int>, stamp: seq<byte>, k: int)
    requires 0 < |stamp| <= columnBytes + 1
    requires k >= 0 && Static.RowNumToOffset(columnBytes, k) + columnBytes + 1 <= |data|
    ensures Overwrite(Stamped(data, columnBytes, keys, stamp), Static.RowNumToOffset(columnBytes, k), stamp)
            == Stamped(data, columnBytes, keys + {k}, stamp)
  {
    var lo := Static.RowNumToOffset(columnBytes, k);
    Static.OffsetAtLeastHeader(columnBytes, k);
    var a := Overwrite(Stamped(data, columnBytes, keys, stamp), lo, stamp);
    var b := Stamped(data, columnBytes, keys + {k}, stamp);
    forall p | 0 <= p < |a| ensures a[p] == b[p] {
      if lo <= p < lo + columnBytes + 1 {
        RowPosition(columnBytes, k, p);
      }
    }
  }

  /** A position inside row `j` lies in row `j`, at its distance from the row's offset. */
  lemma RowPosition(columnBytes: nat, j: int, p: int)
    requires j >= 0 && Static.RowNumToOffset(columnBytes, j) <= p < Static.RowNumToOffset(columnBytes, j) + columnBytes + 1
    ensures p >= HEADER
    ensures (p - HEADER) / (columnBytes + 1) == j
    ensures (p - HEADER) % (columnBytes + 1) == p - Static.RowNumToOffset(columnBytes, j)
  {
    Static.OffsetAtLeastHeader(columnBytes, j);
    DivUnique(p - HEADER, columnBytes + 1, j);
  }

  /** The bytes of a whole row of the stamped file: those of one overwrite at the row, or the old ones. */
  lemma StampedRow(data: seq<byte>, columnBytes: nat, keys: set<int>, stamp: seq<byte>, j: int)
    requires 0 < |stamp| <= columnBytes + 1
    requires j >= 0 && Static.RowNumToOffset(columnBytes, j) + columnBytes + 1 <= |data|
    ensures j in keys ==>
              Stamped(data, columnBytes, keys, stamp)[Static.RowNumToOffset(columnBytes, j)..Static.RowNumToOffset(columnBytes, j) + columnBytes + 1]
              == Overwrite(data, Static.RowNumToOffset(columnBytes, j), stamp)[Static.RowNumToOffset(columnBytes, j)..Static.RowNumToOffset(columnBytes, j) + columnBytes + 1]
    ensures j !in keys ==>
              Stamped(data, columnBytes, keys, stamp)[Static.RowNumToOffset(columnBytes, j)..Static.RowNumToOffset(columnBytes, j) + columnBytes + 1]
              == data[Static.RowNumToOffset(columnBytes, j)..Static.RowNumToOffset(columnBytes, j) + columnBytes + 1]
  {
    var lo := Static.RowNumToOffset(columnBytes, j);
    var hi := lo + columnBytes + 1;
    var st := Stamped(data, columnBytes, keys, stamp);
    var o := Overwrite(data, lo, stamp);
    if j in keys {
      forall i | 0 <= i < hi - lo ensures st[lo..hi][i] == o[lo..hi][i] {
        RowPosition(columnBytes, j, lo + i);
      }
    } else {
      forall i | 0 <= i < hi - lo ensures st[lo..hi][i] == data[lo..hi][i] {
        RowPosition(columnBytes, j, lo + i);
      }
    }
  }

  /** The stamp an update writes: a live tombstone byte and the row's cells. */
  function UpdateStamp(cols: seq<ColumnConfig>, cells: map<string, seq<byte>>): seq<byte>
  {
    [Column.ROW_NORMAL] + Cells(ConfigCodec, cols, cells)
  }

  /** The row's cells, when it converts, fit in one row of the file. */
  predicate StampFits(cols: seq<ColumnConfig>, columnBytes: nat, row: Row)
  {
    Staged(ConfigCodec, cols, row).Ok? ==> |Cells(ConfigCodec, cols, Staged(ConfigCodec, cols, row).value)| <= columnBytes
  }

  /** A converted row of an accepted schema with distinct names is exactly one row wide. */
  lemma AcceptedStampFits(cols: seq<ColumnConfig>, columnBytes: nat, row: Row)
    requires Accepted(cols, columnBytes) && DistinctNames(ConfigCodec, cols)
    ensures StampFits(cols, columnBytes, row)
  {
    if Staged(ConfigCodec, cols, row).Ok? {
      StagedCells(ConfigCodec, cols, row);
      RowCodec.EncodePrefixOk(ConfigCodec, cols, row);
      AcceptedKinds(cols, columnBytes);
      Stride.SumWidthsMeaning(ConfigCodec, cols);
      forall i | 0 <= i < |cols|
        ensures |RowCodec.Image(ConfigCodec, cols[i], row).value| == RowCodec.WidthOf(ConfigCodec, cols[i])
      {
        var c := cols[i];
        CellWidths(c.name, ConfigKind(c), if c.name in row then row[c.name] else I64(0));
      }
      RowCodec.EncodePrefixWidth(ConfigCodec, cols, row);
    }
  }

  /** What `Exec` returns, and the file it leaves, for a table with an open file. */
  datatype Outcome = Outcome(result: Result<map<int, Row>>, data: seq<byte>)

  function ExecOnFile(cols: seq<ColumnConfig>, columnBytes: nat, data: seq<byte>, s: Sentence): Outcome
    requires |data| >= HEADER
  {
    if s.command == C_SELECT then
      Outcome(SelectSpec(ConfigCodec, cols, columnBytes, data, s.where), data)
    else if s.command == C_UPDATE then
      match SelectSpec(ConfigCodec, cols, columnBytes, data, s.where)
      case Err(e) => Outcome(Err(e), data)
      case Ok(m) =>
        if m == map[] then Outcome(Ok(map[]), data)
        else
          match Staged(ConfigCodec, cols, s.rowData)
          case Err(e) => Outcome(Err(e), data)
          case Ok(cells) =>
            Outcome(Ok(map k | k in m.Keys :: s.rowData), Stamped(data, columnBytes, m.Keys, UpdateStamp(cols, cells)))
    else if s.command == C_INSERT then
      var w := InsertSpec(cols, columnBytes, data, s.rowData);
      Outcome(if w.err.Some? then Err(w.err.value) else Ok(map[Static.RowCount(columnBytes, data) := s.rowData]), w.data)
    else if s.command == C_DROP then
      match SelectSpec(ConfigCodec, cols, columnBytes, data, s.where)
      case Err(e) => Outcome(Err(e), data)
      case Ok(m) => Outcome(Ok(m), Stamped(data, columnBytes, m.Keys, [Column.ROW_DELETED]))
    else
      Outcome(Err(InvalidCommand), data)
  }

  /**
   * `Exec` of a drop on an accepted schema returns the selected rows, marks
   * each of them deleted, and leaves every other row and the file's length
   * as they were; a failed selection changes nothing.
   */
  lemma ExecDropMeaning(cols: seq<ColumnConfig>, columnBytes: nat, data: seq<byte>, s: Sentence)
    requires |data| >= HEADER && Accepted(cols, columnBytes) && s.command == C_DROP
    ensures ExecOnFile(cols, columnBytes, data, s).result == SelectSpec(ConfigCodec, cols, columnBytes, data, s.where)
    ensures |ExecOnFile(cols, columnBytes, data, s).data| == |data|
    ensures SelectSpec(ConfigCodec, cols, columnBytes, data, s.where).Err? ==> ExecOnFile(cols, columnBytes, data, s).data == data
    ensures SelectSpec(ConfigCodec, cols, columnBytes, data, s.where).Ok? ==>
              forall k :: k in SelectSpec(ConfigCodec, cols, columnBytes, data, s.where).value ==>
                RowReader(ConfigCodec, cols, columnBytes, ExecOnFile(cols, columnBytes, data, s).data)(k) == Err(DeletedRow)
    ensures SelectSpec(ConfigCodec, cols, columnBytes, data, s.where).Ok? ==>
              forall j :: 0 <= j < Static.RowCount(columnBytes, data) && j !in SelectSpec(ConfigCodec, cols, columnBytes, data, s.where).value ==>
                RowReader(ConfigCodec, cols, columnBytes, ExecOnFile(cols, columnBytes, data, s).data)(j)
                == RowReader(ConfigCodec, cols, columnBytes, data)(j)
  {
    var sel := SelectSpec(ConfigCodec, cols, columnBytes, data, s.where);
    if sel.Ok? {
      SelectMeaning(ConfigCodec, cols, columnBytes, data, s.where);
      forall j | 0 <= j < Static.RowCount(columnBytes, data)
        ensures j in sel.value ==>
                  RowReader(ConfigCodec, cols, columnBytes, Stamped(data, columnBytes, sel.value.Keys, [Column.ROW_DELETED]))(j)
                  == Err(DeletedRow)
        ensures j !in sel.value ==>
                  RowReader(ConfigCodec, cols, columnBytes, Stamped(data, columnBytes, sel.value.Keys, [Column.ROW_DELETED]))(j)
                  == RowReader(ConfigCodec, cols, columnBytes, data)(j)
      {
        DroppedRowReads(cols, columnBytes, data, sel.value.Keys, j);
      }
    }
  }

  /** A row below the row count lies wholly inside the file. */
  lemma RowInFile(columnBytes: nat, data: seq<byte>, j: int)
    requires |data| >= HEADER && 0 <= j < Static.RowCount(columnBytes, data)
    ensures HEADER <= Static.RowNumToOffset(columnBytes, j)
    ensures Static.RowNumToOffset(columnBytes, j) + columnBytes + 1 <= |data|
    ensures |Overwrite(data, Static.RowNumToOffset(columnBytes, j), [Column.ROW_DELETED])| == |data|
  {
    Static.RowCountBounds(columnBytes, data);
    Static.OffsetAtLeastHeader(columnBytes, j);
    Static.OffsetMono(columnBytes, j, Static.RowCount(columnBytes, data));
  }

  /**
   * `Exec` of an update on an accepted schema with distinct names, with a
   * fitting row, fails exactly when the selection does; otherwise it returns
   * the row data under exactly the selected row numbers, and leaves the
   * file's length as it was.
   */
  lemma ExecUpdateResult(cols: seq<ColumnConfig>, columnBytes: nat, data: seq<byte>, s: Sentence)
    requires |data| >= HEADER && s.command == C_UPDATE
    requires Accepted(cols, columnBytes) && DistinctNames(ConfigCodec, cols) && RowFits(cols, s.rowData)
    ensures ExecOnFile(cols, columnBytes, data, s).result.Err? <==> SelectSpec(ConfigCodec, cols, columnBytes, data, s.where).Err?
    ensures |ExecOnFile(cols, columnBytes, data, s).data| == |data|
    ensures ExecOnFile(cols, columnBytes, data, s).result.Ok? ==>
              ExecOnFile(cols, columnBytes, data, s).result.value.Keys == SelectSpec(ConfigCodec, cols, columnBytes, data, s.where).value.Keys
    ensures ExecOnFile(cols, columnBytes, data, s).result.Ok? ==>
              forall k :: k in ExecOnFile(cols, columnBytes, data, s).result.value ==>
                ExecOnFile(cols, columnBytes, data, s).result.value[k] == s.rowData
  {
    AcceptedFits(cols, columnBytes, s.rowData);
    Stride.FullWidth(ConfigCodec, ConfigReadBack, cols, columnBytes, s.rowData);
    StagedFails(ConfigCodec, cols, s.rowData);
  }

  /**
   * `Exec` of an update whose selection is non-empty but whose row data does
   * not convert fails with the conversion's error, and writes nothing: Go's
   * `WriteRow` converts every cell before it writes a byte.
   */
  lemma ExecUpdateUnconvertible(cols: seq<ColumnConfig>, columnBytes: nat, data: seq<byte>, s: Sentence)
    requires |data| >= HEADER && s.command == C_UPDATE
    requires SelectSpec(ConfigCodec, cols, columnBytes, data, s.where).Ok?
    requires SelectSpec(ConfigCodec, cols, columnBytes, data, s.where).value != map[]
    requires Staged(ConfigCodec, cols, s.rowData).Err?
    ensures ExecOnFile(cols, columnBytes, data, s).result == Err(Staged(ConfigCodec, cols, s.rowData).error)
    ensures ExecOnFile(cols, columnBytes, data, s).data == data
  {
  }

  /**
   * After `Exec` of an update on an accepted schema with distinct names,
   * with a fitting row, every selected row reads back as written and every
   * other row below the row count as it did.
   */
  lemma ExecUpdateReads(cols: seq<ColumnConfig>, columnBytes: nat, data: seq<byte>, s: Sentence)
    requires |data| >= HEADER && s.command == C_UPDATE
    requires Accepted(cols, columnBytes) && DistinctNames(ConfigCodec, cols) && RowFits(cols, s.rowData)
    requires SelectSpec(ConfigCodec, cols, columnBytes, data, s.where).Ok?
    ensures forall k :: k in SelectSpec(ConfigCodec, cols, columnBytes, data, s.where).value ==>
              RowReader(ConfigCodec, cols, columnBytes, ExecOnFile(cols, columnBytes, data, s).data)(k)
              == Ok(RowCodec.ExpectedRow(ConfigCodec, ConfigReadBack, cols, s.rowData))
    ensures forall j :: 0 <= j < Static.RowCount(columnBytes, data) && j !in SelectSpec(ConfigCodec, cols, columnBytes, data, s.where).value ==>
              RowReader(ConfigCodec, cols, columnBytes, ExecOnFile(cols, columnBytes, data, s).data)(j)
              == RowReader(ConfigCodec, cols, columnBytes, data)(j)
  {
    AcceptedFits(cols, columnBytes, s.rowData);
    Stride.FullWidth(ConfigCodec, ConfigReadBack, cols, columnBytes, s.rowData);
    StagedFails(ConfigCodec, cols, s.rowData);
    var sel := SelectSpec(ConfigCodec, cols, columnBytes, data, s.where);
    SelectMeaning(ConfigCodec, cols, columnBytes, data, s.where);
    if sel.value != map[] {
      var cells := Staged(ConfigCodec, cols, s.rowData).value;
      forall j | 0 <= j < Static.RowCount(columnBytes, data)
        ensures j in sel.value ==>
                  RowReader(ConfigCodec, cols, columnBytes, Stamped(data, columnBytes, sel.value.Keys, UpdateStamp(cols, cells)))(j)
                  == Ok(RowCodec.ExpectedRow(ConfigCodec, ConfigReadBack, cols, s.rowData))
        ensures j !in sel.value ==>
                  RowReader(ConfigCodec, cols, columnBytes, Stamped(data, columnBytes, sel.value.Keys, UpdateStamp(cols, cells)))(j)
                  == RowReader(ConfigCodec, cols, columnBytes, data)(j)
      {
        UpdatedRowReads(cols, columnBytes, data, sel.value.Keys, s.rowData, j);
      }
    }
  }

  /**
   * `Exec` of an insert of a fitting row on an accepted schema with distinct
   * names returns the row data under the new row's number, the row count,
   * and that row then reads back as written.
   */
  lemma ExecInsertMeaning(cols: seq<ColumnConfig>, columnBytes: nat, data: seq<byte>, s: Sentence)
    requires |data| >= HEADER && s.command == C_INSERT
    requires Accepted(cols, columnBytes) && DistinctNames(ConfigCodec, cols) && RowFits(cols, s.rowData)
    ensures ExecOnFile(cols, columnBytes, data, s).result == Ok(map[Static.RowCount(columnBytes, data) := s.rowData])
    ensures Static.RowCount(columnBytes, ExecOnFile(cols, columnBytes, data, s).data) == Static.RowCount(columnBytes, data) + 1
    ensures RowReader(ConfigCodec, cols, columnBytes, ExecOnFile(cols, columnBytes, data, s).data)(Static.RowCount(columnBytes, data))
            == Ok(RowCodec.ExpectedRow(ConfigCodec, ConfigReadBack, cols, s.rowData))
  {
    InsertThenRead(cols, columnBytes, data, s.rowData);
  }

  /** After a drop, a stamped row reads as deleted and any other whole row as before. */
  lemma DroppedRowReads(cols: seq<ColumnConfig>, columnBytes: nat, data: seq<byte>, keys: set<int>, j: int)
    requires |data| >= HEADER && Accepted(cols, columnBytes)
    requires 0 <= j < Static.RowCount(columnBytes, data)
    ensures j in keys ==>
              RowReader(ConfigCodec, cols, columnBytes, Stamped(data, columnBytes, keys, [Column.ROW_DELETED]))(j) == Err(DeletedRow)
    ensures j !in keys ==>
              RowReader(ConfigCodec, cols, columnBytes, Stamped(data, columnBytes, keys, [Column.ROW_DELETED]))(j)
              == RowReader(ConfigCodec, cols, columnBytes, data)(j)
  {
    AcceptedKinds(cols, columnBytes);
    var lo := Static.RowNumToOffset(columnBytes, j);
    var after := Stamped(data, columnBytes, keys, [Column.ROW_DELETED]);
    RowInFile(columnBytes, data, j);
    StampedRow(data, columnBytes, keys, [Column.ROW_DELETED], j);
    if j in keys {
      Stride.RowFrame(ConfigCodec, cols, columnBytes, after, Overwrite(data, lo, [Column.ROW_DELETED]), lo);
      Stride.TombstoneReads(ConfigCodec, cols, data, lo);
    } else {
      Stride.RowFrame(ConfigCodec, cols, columnBytes, after, data, lo);
    }
  }

  /** After an update with a fitting row, a stamped row reads back as written and any other whole row as before. */
  lemma UpdatedRowReads(cols: seq<ColumnConfig>, columnBytes: nat, data: seq<byte>, keys: set<int>, row: Row, j: int)
    requires |data| >= HEADER && Accepted(cols, columnBytes) && DistinctNames(ConfigCodec, cols) && RowFits(cols, row)
    requires 0 <= j < Static.RowCount(columnBytes, data)
    requires Staged(ConfigCodec, cols, row).Ok?
    ensures j in keys ==>
              RowReader(ConfigCodec, cols, columnBytes,
                        Stamped(data, columnBytes, keys, UpdateStamp(cols, Staged(ConfigCodec, cols, row).value)))(j)
              == Ok(RowCodec.ExpectedRow(ConfigCodec, ConfigReadBack, cols, row))
    ensures j !in keys ==>
              RowReader(ConfigCodec, cols, columnBytes,
                        Stamped(data, columnBytes, keys, UpdateStamp(cols, Staged(ConfigCodec, cols, row).value)))(j)
              == RowReader(ConfigCodec, cols, columnBytes, data)(j)
  {
    AcceptedKinds(cols, columnBytes);
    AcceptedStampFits(cols, columnBytes, row);
    var cells := Staged(ConfigCodec, cols, row).value;
    var stamp := UpdateStamp(cols, cells);
    var lo := Static.RowNumToOffset(columnBytes, j);
    var after := Stamped(data, columnBytes, keys, stamp);
    RowInFile(columnBytes, data, j);
    StampedRow(data, columnBytes, keys, stamp, j);
    if j in keys {
      UpdateThenRead(cols, columnBytes, data, j, row);
      WriteRowStaged(ConfigCodec, cols, data, lo, row, cells);
      Stride.RowFrame(ConfigCodec, cols, columnBytes, after, Overwrite(data, lo, stamp), lo);
    } else {
      Stride.RowFrame(ConfigCodec, cols, columnBytes, after, data, lo);
    }
  }

  /** A set with no members is empty. */
  lemma EmptyWithoutMembers(s: set<int>)
    ensures (forall x :: x !in s) ==> s == {}
  {
    if forall x :: x !in s {
      assert s == {};
    }
  }

  /** A non-empty set has a member. */
  lemma Inhabited(s: set<int>)
    requires s != {}
    ensures exists x :: x in s
  {
    EmptyWithoutMembers(s);
  }

  /** The update loop of `Exec`, over the selected row numbers in no particular order. */
  method UpdateRows(t: Table, targets: map<int, Row>, row: Row) returns (r: Result<map<int, Row>>)
    requires t.Valid() && t.file != null
    requires forall k :: k in targets ==> 0 <= k < Static.RowCount(t.columnBytes, t.file.bytes)
    modifies t.file
    ensures t.Valid()
    ensures targets == map[] ==> r == Ok(map[]) && t.file.bytes == old(t.file.bytes)
    ensures targets != map[] && Staged(ConfigCodec, t.columnConfigs, row).Err? ==>
              r == Err(Staged(ConfigCodec, t.columnConfigs, row).error) && t.file.bytes == old(t.file.bytes)
    ensures targets != map[] && Staged(ConfigCodec, t.columnConfigs, row).Ok? ==>
              r == Ok(map k | k in targets.Keys :: row)
    ensures targets != map[] && Staged(ConfigCodec, t.columnConfigs, row).Ok? && StampFits(t.columnConfigs, t.columnBytes, row) ==>
              t.file.bytes == Stamped(old(t.file.bytes), t.columnBytes, targets.Keys,
                                      UpdateStamp(t.columnConfigs, Staged(ConfigCodec, t.columnConfigs, row).value))
  {
    ghost var start := t.file.bytes;
    ghost var staged := Staged(ConfigCodec, t.columnConfigs, row);
    ghost var stamp := if staged.Ok? then UpdateStamp(t.columnConfigs, staged.value) else [];
    ghost var fits := staged.Ok? && StampFits(t.columnConfigs, t.columnBytes, row);
    var result: map<int, Row> := map[];
    var remaining := targets.Keys;
    ghost var done: set<int> := {};
    while remaining != {}
      invariant remaining + done == targets.Keys && remaining !! done
      invariant t.Valid() && t.file != null
      invariant result == map k | k in done :: row
      invariant done == {} ==> t.file.bytes == start
      invariant staged.Err? ==> done == {}
      invariant fits ==> t.file.bytes == Stamped(start, t.columnBytes, done, stamp)
      decreases remaining
    {
      Inhabited(remaining);
      var k :| k in remaining;
      RowInFile(t.columnBytes, start, k);
      ghost var before := t.file.bytes;
      var err := t.Update(k, row);
      if err.Some? {
        return Err(err.value);
      }
      if fits {
        StampOne(start, t.columnBytes, done, stamp, k);
      }
      remaining := remaining - {k};
      done := done + {k};
      result := result[k := row];
    }
    if targets != map[] {
      assert targets.Keys != {};
    }
    return Ok(result);
  }

  /** The delete loop of `Exec`: every selected row is marked deleted, and the selection is returned. */
  method DeleteRows(t: Table, targets: map<int, Row>) returns (r: Result<map<int, Row>>)
    requires t.Valid() && t.file != null
    requires forall k :: k in targets ==> 0 <= k < Static.RowCount(t.columnBytes, t.file.bytes)
    modifies t.file
    ensures t.Valid()
    ensures r == Ok(targets)
    ensures t.file.bytes == Stamped(old(t.file.bytes), t.columnBytes, targets.Keys, [Column.ROW_DELETED])
  {
    ghost var start := t.file.bytes;
    var result: map<int, Row> := map[];
    var remaining := targets.Keys;
    ghost var done: set<int> := {};
    while remaining != {}
      invariant remaining + done == targets.Keys && remaining !! done
      invariant t.Valid() && t.file != null
      invariant result == map k | k in done :: targets[k]
      invariant t.file.bytes == Stamped(start, t.columnBytes, done, [Column.ROW_DELETED])
      decreases remaining
    {
      Inhabited(remaining);
      var k :| k in remaining;
      RowInFile(t.columnBytes, start, k);
      var err := t.Delete(k);
      if err.Some? {
        return Err(err.value);
      }
      StampOne(start, t.columnBytes, done, [Column.ROW_DELETED], k);
      remaining := remaining - {k};
      done := done + {k};
      result := result[k := targets[k]];
    }
    assert result == targets;
    return Ok(result);
  }

  /** The database: its tables by name. */
  class Database {
    var tables: map<string, Table>

    constructor ()
      ensures tables == map[]
    {
      tables := map[];
    }

    /**
     * `Exec`: runs one sentence against the table it names. For an update
     * the file is stated when the converted row fits in one row of the file,
     * which every accepted schema with distinct names guarantees.
     */
    method Exec(s: Sentence) returns (r: Result<map<int, Row>>)
      requires s.tableName in tables ==> tables[s.tableName].Valid()
      modifies if s.tableName in tables then {tables[s.tableName].file} else {}
      ensures s.tableName !in tables ==> r == Err(TableDoesNotExist)
      ensures s.tableName in tables ==> tables[s.tableName].Valid()
      ensures s.tableName in tables && tables[s.tableName].file == null ==>
                r == Err(if C_SELECT <= s.command <= C_DROP then InvalidFile else InvalidCommand)
      ensures s.tableName in tables && tables[s.tableName].file != null ==>
                r == ExecOnFile(tables[s.tableName].columnConfigs, tables[s.tableName].columnBytes,
                                old(tables[s.tableName].file.bytes), s).result
      ensures s.tableName in tables && tables[s.tableName].file != null &&
              (s.command != C_UPDATE || StampFits(tables[s.tableName].columnConfigs, tables[s.tableName].columnBytes, s.rowData)) ==>
                tables[s.tableName].file.bytes ==
                ExecOnFile(tables[s.tableName].columnConfigs, tables[s.tableName].columnBytes,
                           old(tables[s.tableName].file.bytes), s).data
    {
      if s.tableName !in tables {
        return Err(TableDoesNotExist);
      }
      var t := tables[s.tableName];
      if s.command == C_SELECT {
        r := t.Select(s.where);
      } else if s.command == C_UPDATE {
        var targets := t.Select(s.where);
        if targets.Err? {
          return Err(targets.error);
        }
        SelectMeaning(ConfigCodec, t.columnConfigs, t.columnBytes, t.file.bytes, s.where);
        r := UpdateRows(t, targets.value, s.rowData);
      } else if s.command == C_INSERT {
        var n, err := t.Insert(s.rowData);
        if err.Some? {
          return Err(err.value);
        }
        return Ok(map[n := s.rowData]);
      } else if s.command == C_DROP {
        var targets := t.Select(s.where);
        if targets.Err? {
          return Err(targets.error);
        }
        SelectMeaning(ConfigCodec, t.columnConfigs, t.columnBytes, t.file.bytes, s.where);
        r := DeleteRows(t, targets.value);
      } else {
        return Err(InvalidCommand);
      }
    }
  }
}
