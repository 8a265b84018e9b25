/**
 * The column codec of the current engines (`ColumnType` in
 * tinydatabase/tinydatabase_table.go): a column's width on disk, its nil
 * bytes, and the conversions of a value to and from its cell.
 *
 * Cells: int64 is a ten-byte zig-zag varint slot and accepts every Go integer
 * kind up to 64 bits; float64 is eight little-endian bytes of the IEEE bit
 * pattern; string is `Size` bytes padded with zeros, or exactly the string
 * when `Size` is 0 (a flexible column of the dynamic engine); time is the
 * 15-byte `MarshalBinary` form.
 */
module Column {
  import opened Bytes
  import opened Binary
  import opened Values
  import RowCodec

  /** A column as declared: `Size` matters only for strings, and 0 there means flexible. */
  datatype ColumnType = ColumnType(name: string, typ: string, size: int64)

  const COLUMN_INT64: string := "int64"
  const COLUMN_FLOAT64: string := "float64"
  const COLUMN_STRING: string := "string"
  const COLUMN_TIME: string := "time"

  /** File versions written in the first varint slot of each file. */
  const STATIC1: int := 1
  const DYNAMIC1_TABLE: int := 2
  const DYNAMIC1_INDEX: int := 3

  /** The first byte of every row: its tombstone. */
  const ROW_DELETED: byte := 0
  const ROW_NORMAL: byte := 1

  predicate KnownType(c: ColumnType)
  {
    c.typ == COLUMN_INT64 || c.typ == COLUMN_FLOAT64 || c.typ == COLUMN_STRING || c.typ == COLUMN_TIME
  }

  /** `GetBytes`: the width of the column's cell; 0 only for a flexible string column. */
  function GetBytes(c: ColumnType): (r: Result<int>)
    ensures r.Ok? <==> KnownType(c) && (c.typ == COLUMN_STRING ==> c.size >= 0)
    ensures r.Ok? ==> r.value >= 0 && (r.value == 0 <==> c.typ == COLUMN_STRING && c.size == 0)
    ensures r.Err? ==> r.error == if c.typ == COLUMN_STRING then SizeNotValid else TypeNotValid
  {
    if c.typ == COLUMN_INT64 then Ok(MaxVarintLen64)
    else if c.typ == COLUMN_FLOAT64 then Ok(8)
    else if c.typ == COLUMN_STRING then
      if c.size < 0 then Err(SizeNotValid) else Ok(c.size)
    else if c.typ == COLUMN_TIME then Ok(15)
    else Err(TypeNotValid)
  }

  /** `GetNil`: the cell of a column the row does not mention; at least one byte long. */
  function GetNil(c: ColumnType): (r: Result<seq<byte>>)
    ensures r.Ok? <==> GetBytes(c).Ok?
    ensures r.Ok? ==> |r.value| == Max(GetBytes(c).value, 1)
  {
    match GetBytes(c)
    case Err(e) => Err(e)
    case Ok(w) =>
      if c.typ == COLUMN_INT64 then Ok(VarintSlot(0))
      else if c.typ == COLUMN_FLOAT64 then Ok(LittleEndian(0, 8))
      else if c.typ == COLUMN_STRING then Ok(Zeros(Max(w, 1)))
      else Ok(NilTime)
  }

  /** The Go integer kinds an int64 column accepts, widened to int64. */
  function IntValue(v: Value): Option<int64>
  {
    match v
    case I64(x) => Some(x)
    case Int(x) => Some(x)
    case I8(x) => Some(x)
    case I16(x) => Some(x)
    case I32(x) => Some(x)
    case _ => None
  }

  /** The value's dynamic type is one the column's converter takes. */
  predicate Accepts(c: ColumnType, v: Value)
  {
    || (c.typ == COLUMN_INT64 && IntValue(v).Some?)
    || (c.typ == COLUMN_FLOAT64 && v.F64?)
    || (c.typ == COLUMN_STRING && v.Str?)
    || (c.typ == COLUMN_TIME && v.Time?)
  }

  /** The cell `ConvertToBytes` produces for `v` in column `c`, or its error. */
  function Encode(c: ColumnType, v: Value): Result<seq<byte>>
  {
    match GetBytes(c)
    case Err(e) => Err(e)
    case Ok(w) =>
      if c.typ == COLUMN_INT64 then
        if IntValue(v).Some? then Ok(VarintSlot(IntValue(v).value)) else Err(Mismatch(COLUMN_INT64, c.name))
      else if c.typ == COLUMN_FLOAT64 then
        if v.F64? then Ok(LittleEndian(v.bits, 8)) else Err(Mismatch(COLUMN_FLOAT64, c.name))
      else if c.typ == COLUMN_STRING then
        if v.Str? then
          var n := if w == 0 then |v.s| else w;
          if |v.s| > n then Err(TooLongString(c.name)) else Ok(v.s + Zeros(n - |v.s|))
        else Err(Mismatch(COLUMN_STRING, c.name))
      else
        if v.Time? then Ok(v.wire) else Err(Mismatch(COLUMN_TIME, c.name))
  }

  /**
   * `ConvertToBytes`: allocates the cell and fills it; a string is copied byte
   * by byte into a zeroed buffer of the column's width.
   */
  method ConvertToBytes(c: ColumnType, v: Value) returns (r: Result<seq<byte>>)
    ensures r == Encode(c, v)
  {
    var w := GetBytes(c);
    if w.Err? {
      return Err(w.error);
    }
    if c.typ == COLUMN_INT64 {
      match v
      case I64(x) => r := Ok(VarintSlot(x));
      case Int(x) => r := Ok(VarintSlot(x));
      case I8(x) => r := Ok(VarintSlot(x));
      case I16(x) => r := Ok(VarintSlot(x));
      case I32(x) => r := Ok(VarintSlot(x));
      case _ => r := Err(Mismatch(COLUMN_INT64, c.name));
    } else if c.typ == COLUMN_FLOAT64 {
      match v
      case F64(bits) => r := Ok(LittleEndian(bits, 8));
      case _ => r := Err(Mismatch(COLUMN_FLOAT64, c.name));
    } else if c.typ == COLUMN_STRING {
      match v
      case Str(s) =>
        var n := if w.value == 0 then |s| else w.value;
        var b := new byte[n](_ => 0);
        if |s| > n {
          return Err(TooLongString(c.name));
        }
        for i := 0 to |s|
          invariant forall k :: 0 <= k < i ==> b[k] == s[k]
          invariant forall k :: i <= k < n ==> b[k] == 0
        {
          b[i] := s[i];
        }
        assert b[..] == s + Zeros(n - |s|);
        r := Ok(b[..]);
      case _ => r := Err(Mismatch(COLUMN_STRING, c.name));
    } else {
      match v
      case Time(t) => r := Ok(t);
      case _ => r := Err(Mismatch(COLUMN_TIME, c.name));
    }
  }

  /** The string a string cell holds: everything before the first zero byte, or all of it. */
  function CellString(b: seq<byte>): seq<byte>
  {
    var n := IndexOfZero(b);
    if n == -1 then b else b[..n]
  }

  /**
   * `ConvertToVal`: decodes a cell. An int64 cell that is not a complete varint
   * is a type mismatch; a float64 cell shorter than eight bytes makes Go panic;
   * a time cell must be a version-1 `MarshalBinary` form.
   */
  function ConvertToVal(c: ColumnType, b: seq<byte>): Result<Value>
  {
    if c.typ == COLUMN_INT64 then
      var d := Varint(b);
      if d.n < 1 then Err(Mismatch(COLUMN_INT64, c.name)) else Ok(I64(d.value))
    else if c.typ == COLUMN_FLOAT64 then
      if |b| < 8 then Err(Panic)
      else Pow256Eight(); Ok(F64(FromLittleEndian(b[..8])))
    else if c.typ == COLUMN_STRING then Ok(Str(CellString(b)))
    else if c.typ == COLUMN_TIME then
      if |b| == 15 && b[0] == 1 then Ok(Time(b)) else Err(TimeUnmarshal)
    else Err(TypeNotValidFor(c.name))
  }

  /** How a value reads back: every integer kind as int64, everything else unchanged. */
  function Canonical(v: Value): Value
  {
    if IntValue(v).Some? then I64(IntValue(v).value) else v
  }

  /** What the nil cell of a column reads back as. */
  function ZeroValue(c: ColumnType): Value
  {
    if c.typ == COLUMN_INT64 then I64(0)
    else if c.typ == COLUMN_FLOAT64 then F64(0)
    else if c.typ == COLUMN_STRING then Str([])
    else Time(NilTime)
  }

  /** What column `c` of a cleanly written `row` reads back as. */
  function ReadBackValue(c: ColumnType, row: Row): Value
  {
    if c.name in row then Canonical(row[c.name]) else ZeroValue(c)
  }

  /** The codec as the row loops of the static engine use it. */
  const Latest: RowCodec.Codec<ColumnType> :=
    RowCodec.Codec((c: ColumnType) => c.name, GetBytes, GetNil, Encode, ConvertToVal)

  /** A string that needs no NUL terminator to be read back. */
  predicate Readable(v: Value)
  {
    v.Str? ==> NulFree(v.s)
  }

  /**
   * A value is converted exactly when the column is valid, the value's type is
   * one the column takes and, for a string, it fits the declared size; a
   * rejected type is reported as a mismatch naming the column.
   */
  lemma EncodeOkIff(c: ColumnType, v: Value)
    ensures Encode(c, v).Ok? <==>
            GetBytes(c).Ok? && Accepts(c, v) &&
            (c.typ == COLUMN_STRING && c.size > 0 ==> |v.s| <= c.size)
    ensures GetBytes(c).Ok? && !Accepts(c, v) ==> Encode(c, v) == Err(Mismatch(c.typ, c.name))
    ensures GetBytes(c).Ok? && c.typ == COLUMN_STRING && v.Str? && 0 < c.size < |v.s| ==>
              Encode(c, v) == Err(TooLongString(c.name))
  {
  }

  /** A cell is as wide as the column, or exactly the string for a flexible column. */
  lemma EncodeLength(c: ColumnType, v: Value)
    requires Encode(c, v).Ok?
    ensures |Encode(c, v).value| == if GetBytes(c).value == 0 then |v.s| else GetBytes(c).value
  {
    if c.typ == COLUMN_INT64 {
      VarintLength(IntValue(v).value);
    }
  }

  /** A string cell holds the string, then zero padding up to the column's width. */
  lemma StringCell(c: ColumnType, s: seq<byte>)
    requires Encode(c, Str(s)).Ok? && c.typ == COLUMN_STRING
    ensures Encode(c, Str(s)).value[..|s|] == s
    ensures forall i :: |s| <= i < |Encode(c, Str(s)).value| ==> Encode(c, Str(s)).value[i] == 0
  {
    var r := Encode(c, Str(s)).value;
    assert r == s + Zeros(|r| - |s|);
  }

  /** Converting a value and reading the cell back gives the value, integers widened to int64. */
  lemma EncodeRoundTrip(c: ColumnType, v: Value)
    requires Encode(c, v).Ok? && Readable(v)
    ensures ConvertToVal(c, Encode(c, v).value) == Ok(Canonical(v))
  {
    var b := Encode(c, v).value;
    if c.typ == COLUMN_INT64 {
      VarintSlotRoundTrip(IntValue(v).value);
    } else if c.typ == COLUMN_FLOAT64 {
      Pow256Eight();
      LittleEndianRoundTrip(v.bits, 8);
      assert b[..8] == b;
    } else if c.typ == COLUMN_STRING {
      var n := |b|;
      if |v.s| < n {
        assert b[|v.s|] == 0;
        assert IndexOfZero(b) == |v.s|;
        assert b[..|v.s|] == v.s;
      } else {
        assert b == v.s;
      }
    }
  }

  /** The nil cell of a valid column reads back as the column's zero value. */
  lemma NilRoundTrip(c: ColumnType)
    requires GetBytes(c).Ok?
    ensures ConvertToVal(c, GetNil(c).value) == Ok(ZeroValue(c))
  {
    var b := GetNil(c).value;
    if c.typ == COLUMN_INT64 {
      ZeroSlot();
    } else if c.typ == COLUMN_FLOAT64 {
      assert b[..8] == b;
      LittleEndianRoundTrip(0, 8);
    } else if c.typ == COLUMN_STRING {
      assert b[0] == 0;
      assert IndexOfZero(b) == 0;
    }
  }

  /**
   * In a column of positive width every cleanly converted, readable value is
   * read back in place: its cell is as wide as the column and as its nil cell.
   */
  lemma FixedWidthAligned(c: ColumnType, row: Row)
    requires GetBytes(c).Ok? && GetBytes(c).value > 0
    requires RowCodec.Image(Latest, c, row).Ok?
    requires c.name in row ==> Readable(row[c.name])
    ensures RowCodec.Aligned(Latest, ReadBackValue, c, row)
  {
    if c.name in row {
      EncodeLength(c, row[c.name]);
      EncodeRoundTrip(c, row[c.name]);
    } else {
      NilRoundTrip(c);
    }
  }

  /** Whatever a write puts down for a column reads back as what the row holds for it. */
  lemma ImageRoundTrip(c: ColumnType, row: Row)
    requires GetBytes(c).Ok? && RowCodec.Image(Latest, c, row).Ok?
    requires c.name in row ==> Readable(row[c.name])
    ensures ConvertToVal(c, RowCodec.Image(Latest, c, row).value) == Ok(ReadBackValue(c, row))
  {
    if c.name in row {
      EncodeRoundTrip(c, row[c.name]);
    } else {
      NilRoundTrip(c);
    }
  }

  /** A complete-looking but unterminated int64 cell is rejected as a mismatch. */
  lemma UnterminatedIntCell(c: ColumnType, b: seq<byte>)
    requires c.typ == COLUMN_INT64
    requires forall k :: 0 <= k < |b| ==> b[k] >= 128
    ensures ConvertToVal(c, b) == Err(Mismatch(COLUMN_INT64, c.name))
  {
    UnterminatedFails(b, 0);
  }
}
