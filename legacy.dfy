/**
 * The column codec of the early single-file engines (day1, day2 and
 * underReview/day3): four column kinds of fixed width, with strings always
 * 256 bytes wide. day2 and day3 name a column's kind with the `ColumnType`
 * enum, day1 with a type name; both come down to a `Kind`.
 *
 * Unlike the current codec, an int64 column takes only an `int64`, a string
 * longer than 256 bytes makes the copy loop index past the buffer, and a
 * string cell without a zero byte makes the decoder slice at -1; both are
 * Go panics.
 */
module Legacy {
  import opened Bytes
  import opened Binary
  import opened Values
  import Column
  import RowCodec

  datatype Kind = Int64Kind | Float64Kind | String256Kind | TimeKind | UnknownKind

  /** The width of a string256 cell. */
  const STRING256: nat := 256

  /** The kind name the "Missmatch type(...)" errors carry. */
  function KindName(k: Kind): string
  {
    match k
    case Int64Kind => "int64"
    case Float64Kind => "float64"
    case String256Kind => "string256"
    case TimeKind => "time"
    case UnknownKind => "Unknown"
  }

  /** `GetBytes`: the width of a cell of the given kind. */
  function Width(k: Kind): (r: Result<int>)
  {
    match k
    case Int64Kind => Ok(MaxVarintLen64)
    case Float64Kind => Ok(8)
    case String256Kind => Ok(STRING256)
    case TimeKind => Ok(15)
    case UnknownKind => Err(TypeNotValid)
  }

  /** `GetNil`: the cell written for a column the row does not mention. */
  function Nil(k: Kind): Result<seq<byte>>
  {
    match Width(k)
    case Err(e) => Err(e)
    case Ok(_) =>
      match k
      case Int64Kind => Ok(VarintSlot(0))
      case Float64Kind => Ok(LittleEndian(0, 8))
      case String256Kind => Ok(Zeros(STRING256))
      case _ => Ok(NilTime)
  }

  /** The cell `ConvertBytes` produces for `v` in a column named `name` of kind `k`, or its error. */
  function Convert(name: string, k: Kind, v: Value): Result<seq<byte>>
  {
    match Width(k)
    case Err(e) => Err(e)
    case Ok(_) =>
      match k
      case Int64Kind => if v.I64? then Ok(VarintSlot(v.i64)) else Err(Mismatch(KindName(k), name))
      case Float64Kind => if v.F64? then Ok(LittleEndian(v.bits, 8)) else Err(Mismatch(KindName(k), name))
      case String256Kind =>
        if !v.Str? then Err(Mismatch(KindName(k), name))
        else if |v.s| > STRING256 then Err(Panic)
        else Ok(v.s + Zeros(STRING256 - |v.s|))
      case _ => if v.Time? then Ok(v.wire) else Err(Mismatch(KindName(k), name))
  }

  /**
   * `ConvertBytes`: a string is copied byte by byte into a zeroed buffer of
   * 256 bytes, with no length check, so a longer string runs off its end.
   */
  method ConvertBytes(name: string, k: Kind, v: Value) returns (r: Result<seq<byte>>)
    ensures r == Convert(name, k, v)
  {
    var w := Width(k);
    if w.Err? {
      return Err(w.error);
    }
    match k
    case Int64Kind =>
      r := if v.I64? then Ok(VarintSlot(v.i64)) else Err(Mismatch(KindName(k), name));
    case Float64Kind =>
      r := if v.F64? then Ok(LittleEndian(v.bits, 8)) else Err(Mismatch(KindName(k), name));
    case String256Kind =>
      if !v.Str? {
        return Err(Mismatch(KindName(k), name));
      }
      var b := new byte[w.value](_ => 0);
      for i := 0 to |v.s|
        invariant i <= b.Length
        invariant forall j :: 0 <= j < i ==> b[j] == v.s[j]
        invariant forall j :: i <= j < b.Length ==> b[j] == 0
      {
        if i >= b.Length {
          return Err(Panic);
        }
        b[i] := v.s[i];
      }
      assert b[..] == v.s + Zeros(STRING256 - |v.s|);
      r := Ok(b[..]);
    case TimeKind =>
      r := if v.Time? then Ok(v.wire) else Err(Mismatch(KindName(k), name));
  }

  /**
   * `ConvertVal`: decodes a cell. An int64 cell that is not a complete varint
   * is a mismatch, a float64 cell shorter than eight bytes makes Go panic, a
   * string is everything before the first zero byte and panics when there is
   * none, a time cell must be a version-1 `MarshalBinary` form.
   */
  function ConvertVal(name: string, k: Kind, b: seq<byte>): Result<Value>
  {
    match k
    case Int64Kind =>
      var d := Varint(b);
      if d.n < 1 then Err(Mismatch(KindName(k), name)) else Ok(I64(d.value))
    case Float64Kind =>
      if |b| < 8 then Err(Panic)
      else Pow256Eight(); Ok(F64(FromLittleEndian(b[..8])))
    case String256Kind =>
      var n := IndexOfZero(b);
      if n == -1 then Err(Panic) else Ok(Str(b[..n]))
    case TimeKind =>
      if |b| == 15 && b[0] == 1 then Ok(Time(b)) else Err(TimeUnmarshal)
    case UnknownKind => Err(TypeNotValidFor(name))
  }

  /** A string decoder that takes the whole cell when it holds no zero byte, as the current codec does. */
  function GuardedConvertVal(name: string, k: Kind, b: seq<byte>): Result<Value>
  {
    if k == String256Kind then Ok(Str(Column.CellString(b))) else ConvertVal(name, k, b)
  }

  /** What the nil cell of a kind reads back as. */
  function ZeroValue(k: Kind): Value
  {
    match k
    case Int64Kind => I64(0)
    case Float64Kind => F64(0)
    case String256Kind => Str([])
    case _ => Time(NilTime)
  }

  /** A value a cell of kind `k` holds and gives back: a string needs room for its terminating zero byte. */
  predicate Storable(k: Kind, v: Value)
  {
    match k
    case Int64Kind => v.I64?
    case Float64Kind => v.F64?
    case String256Kind => v.Str? && |v.s| < STRING256 && NulFree(v.s)
    case TimeKind => v.Time?
    case UnknownKind => false
  }

  /**
   * Every kind but the unknown one has a width, and its nil cell and every
   * cell it converts are exactly that wide; an unknown kind fails with
   * "Type is not valid" before the value is looked at.
   */
  lemma CellWidths(name: string, k: Kind, v: Value)
    ensures Width(k).Ok? <==> k != UnknownKind
    ensures Nil(k).Ok? <==> k != UnknownKind
    ensures k == UnknownKind ==> Convert(name, k, v) == Err(TypeNotValid) && Nil(k) == Err(TypeNotValid)
    ensures Nil(k).Ok? ==> |Nil(k).value| == Width(k).value > 0
    ensures Convert(name, k, v).Ok? ==> |Convert(name, k, v).value| == Width(k).value
  {
    if k == Int64Kind {
      VarintLength(0);
      if v.I64? {
        VarintLength(v.i64);
      }
    }
  }

  /**
   * A value is converted exactly when its dynamic type is the column's and,
   * for a string, it fits in 256 bytes; a wrong type is a mismatch naming the
   * column and an over-long string a panic.
   */
  lemma ConvertOkIff(name: string, k: Kind, v: Value)
    requires k != UnknownKind
    ensures Convert(name, k, v).Ok? <==>
            match k
            case Int64Kind => v.I64?
            case Float64Kind => v.F64?
            case String256Kind => v.Str? && |v.s| <= STRING256
            case _ => v.Time?
    ensures Convert(name, k, v).Err? && Convert(name, k, v).error != Panic ==>
              Convert(name, k, v) == Err(Mismatch(KindName(k), name))
    ensures Convert(name, k, v) == Err(Panic) <==> k == String256Kind && v.Str? && |v.s| > STRING256
  {
  }

  /** A storable value converted and read back is the value itself. */
  lemma ConvertRoundTrip(name: string, k: Kind, v: Value)
    requires Storable(k, v)
    ensures Convert(name, k, v).Ok?
    ensures ConvertVal(name, k, Convert(name, k, v).value) == Ok(v)
  {
    var b := Convert(name, k, v).value;
    match k
    case Int64Kind =>
      VarintSlotRoundTrip(v.i64);
    case Float64Kind =>
      Pow256Eight();
      LittleEndianRoundTrip(v.bits, 8);
      assert b[..8] == b;
    case String256Kind =>
      assert b[|v.s|] == 0;
      assert IndexOfZero(b) == |v.s|;
      assert b[..|v.s|] == v.s;
    case TimeKind =>
  }

  /** The nil cell of every known kind reads back as the kind's zero value. */
  lemma NilRoundTrip(name: string, k: Kind)
    requires k != UnknownKind
    ensures ConvertVal(name, k, Nil(k).value) == Ok(ZeroValue(k))
  {
    var b := Nil(k).value;
    match k
    case Int64Kind =>
      ZeroSlot();
    case Float64Kind =>
      assert b[..8] == b;
      LittleEndianRoundTrip(0, 8);
    case String256Kind =>
      assert b[0] == 0;
      assert IndexOfZero(b) == 0;
    case TimeKind =>
  }

  /**
   * A string of exactly 256 bytes with no zero byte in it is accepted by the
   * string256 writer, which fills the whole cell, and the reader then finds
   * no terminator and panics.
   */
  lemma FullStringPanics(name: string)
    ensures Convert(name, String256Kind, Str(seq(STRING256, _ => 65))).Ok?
    ensures ConvertVal(name, String256Kind, Convert(name, String256Kind, Str(seq(STRING256, _ => 65))).value) == Err(Panic)
  {
    var s: seq<byte> := seq(STRING256, _ => 65);
    var b := Convert(name, String256Kind, Str(s)).value;
    assert b == s;
    assert IndexOfZero(b) == -1;
  }

  /**
   * With the missing-terminator guard every string the writer accepts and
   * that holds no zero byte reads back unchanged, a full 256-byte one
   * included.
   */
  lemma GuardedRoundTrip(name: string, s: seq<byte>)
    requires |s| <= STRING256 && NulFree(s)
    ensures Convert(name, String256Kind, Str(s)).Ok?
    ensures GuardedConvertVal(name, String256Kind, Convert(name, String256Kind, Str(s)).value) == Ok(Str(s))
  {
    var b := Convert(name, String256Kind, Str(s)).value;
    if |s| < STRING256 {
      assert b[|s|] == 0;
      assert IndexOfZero(b) == |s|;
      assert b[..|s|] == s;
    } else {
      assert b == s;
      assert IndexOfZero(b) == -1;
    }
  }

  /** The column codec of day2 and day3: a column is a name and a `ColumnType` enum value. */
  datatype ColumnConfig = ColumnConfig(name: string, typ: int)

  const CT_INT64: int := 1
  const CT_FLOAT64: int := 2
  const CT_STRING256: int := 3
  const CT_TIME: int := 4

  function ConfigKind(c: ColumnConfig): Kind
  {
    if c.typ == CT_INT64 then Int64Kind
    else if c.typ == CT_FLOAT64 then Float64Kind
    else if c.typ == CT_STRING256 then String256Kind
    else if c.typ == CT_TIME then TimeKind
    else UnknownKind
  }

  function ConfigName(c: ColumnConfig): string { c.name }
  function ConfigWidth(c: ColumnConfig): Result<int> { Width(ConfigKind(c)) }
  function ConfigNil(c: ColumnConfig): Result<seq<byte>> { Nil(ConfigKind(c)) }
  function ConfigEncode(c: ColumnConfig, v: Value): Result<seq<byte>> { Convert(c.name, ConfigKind(c), v) }
  function ConfigDecode(c: ColumnConfig, b: seq<byte>): Result<Value> { ConvertVal(c.name, ConfigKind(c), b) }

  const ConfigCodec: RowCodec.Codec<ColumnConfig> :=
    RowCodec.Codec(ConfigName, ConfigWidth, ConfigNil, ConfigEncode, ConfigDecode)

  /** `GetBytes` of day2 and day3: 10, 8, 256 or 15 bytes for the four enum values, an error for any other. */
  lemma ConfigWidths(c: ColumnConfig)
    ensures ConfigWidth(c) ==
            if c.typ == CT_INT64 then Ok(10)
            else if c.typ == CT_FLOAT64 then Ok(8)
            else if c.typ == CT_STRING256 then Ok(256)
            else if c.typ == CT_TIME then Ok(15)
            else Err(TypeNotValid)
  {
  }
}
