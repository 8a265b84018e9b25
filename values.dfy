/**
 * The Go values a row carries (`map[string]interface{}`): a float64 by its
 * IEEE-754 bit pattern, a `time.Time` by the 15 bytes of its `MarshalBinary`
 * form, a string by its bytes.
 */
module Values {
  import opened Bytes

  /**
   * The version-1 `MarshalBinary` form of a `time.Time`: a version byte 1,
   * eight big-endian bytes of seconds since January 1 of year 1, four bytes of
   * nanoseconds and two bytes of zone offset in minutes (-1 for UTC).
   */
  type TimeWire = w: seq<byte> | |w| == 15 && w[0] == 1
    witness [1, 0, 0, 0, 0, 0, 0, 0, 0, 0, 0, 0, 0, 0xFF, 0xFF]

  /** The zero `time.Time` (January 1, year 1, UTC), which `GetNil` writes for a time column. */
  const NilTime: TimeWire := [1, 0, 0, 0, 0, 0, 0, 0, 0, 0, 0, 0, 0, 0xFF, 0xFF]

  /**
   * A cell value as the Go code sees it through `interface{}`: the integer
   * kinds the codecs accept, a float64 by its bits, a string by its bytes,
   * a time by its wire form, and any other dynamic type by its name.
   */
  datatype Value =
    | I64(i64: int64)
    | Int(goInt: int64)
    | I8(i8: int8)
    | I16(i16: int16)
    | I32(i32: int32)
    | F64(bits: uint64)
    | Str(s: seq<byte>)
    | Time(wire: TimeWire)
    | Other(kind: string)

  /** A row: column name to value. */
  type Row = map<string, Value>

  /** Big-endian reading of the second and nanosecond fields of a time. */
  function BigEndian(b: seq<byte>): nat
  {
    if b == [] then 0 else BigEndian(b[..|b| - 1]) * 256 + b[|b| - 1]
  }

  /**
   * The instant a time denotes, in nanoseconds since January 1 of year 1:
   * the signed 64-bit seconds field scaled, plus the nanoseconds field. The zone
   * offset does not change the instant.
   */
  function Instant(t: TimeWire): int
  {
    var sec := BigEndian(t[1..9]);
    var signed := if sec >= 0x8000_0000_0000_0000 then sec - 0x1_0000_0000_0000_0000 else sec;
    signed * 1_000_000_000 + BigEndian(t[9..13])
  }

  /** `bytes.IndexByte(b, 0)`: the first zero byte, or -1 when there is none. */
  function IndexOfZero(b: seq<byte>): (n: int)
    ensures -1 <= n < |b|
    ensures n >= 0 ==> b[n] == 0 && forall k :: 0 <= k < n ==> b[k] != 0
    ensures n == -1 <==> forall k :: 0 <= k < |b| ==> b[k] != 0
  {
    if b == [] then -1
    else if b[0] == 0 then 0
    else
      var n := IndexOfZero(b[1..]);
      assert forall k :: 1 <= k < |b| ==> b[k] == b[1..][k - 1];
      if n == -1 then -1 else n + 1
  }

  predicate NulFree(s: seq<byte>)
  {
    forall k :: 0 <= k < |s| ==> s[k] != 0
  }
}
