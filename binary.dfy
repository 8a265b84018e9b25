/**
 * The parts of Go's `encoding/binary` the engines use.
 *
 * Signed variable-length integers (`PutVarint`, `Varint`, and the unsigned
 * `PutUvarint`/`Uvarint` under them) hold file versions, int64 cells and
 * index entries: a value is zig-zag mapped to an unsigned one and written in
 * little-endian groups of seven bits, the high bit of each byte saying "more
 * follows". Fixed-width little-endian integers hold float64 bit patterns.
 */
module Binary {
  import opened Bytes

  /** `binary.MaxVarintLen64`: the width of every varint slot on disk. */
  const MaxVarintLen64: nat := 10

  /** Zig-zag mapping: non-negative values to even numbers, negative ones to odd numbers. */
  function ZigZag(x: int): (u: nat)
    ensures u % 2 == 0 <==> x >= 0
  {
    if x >= 0 then 2 * x else -2 * x - 1
  }

  /** The inverse of `ZigZag`, as `Varint` computes it from the unsigned value. */
  function UnZigZag(u: nat): int
  {
    if u % 2 == 0 then u / 2 else -(u / 2) - 1
  }

  /** The bytes `PutUvarint` writes for `u`. */
  function UvarintBytes(u: nat): (r: seq<byte>)
    ensures 1 <= |r|
  {
    if u < 128 then [u] else [u % 128 + 128] + UvarintBytes(u / 128)
  }

  /** The bytes `PutVarint` writes for `x`. */
  function PutVarint(x: int): seq<byte>
  {
    UvarintBytes(ZigZag(x))
  }

  /**
   * A `make([]byte, MaxVarintLen64)` buffer after `PutVarint(buf, x)`: the
   * encoding of `x` followed by zero padding, ten bytes for every int64.
   */
  function VarintSlot(x: int): (r: seq<byte>)
    ensures InInt64(x) ==> |r| == MaxVarintLen64
  {
    var e := PutVarint(x);
    if InInt64(x) then VarintLength(x); e + Zeros(MaxVarintLen64 - |e|)
    else e
  }

  /**
   * `Capacity(i)` bounds the value a varint whose first byte sits at index
   * `i` may still carry: 2 at index 9 (one bit left of 64), and seven more bits
   * for each earlier byte, so `Capacity(0) == 2^64`.
   */
  function Capacity(i: nat): (c: nat)
    requires i <= 9
    ensures c >= 2
    decreases 9 - i
  {
    if i == 9 then 2 else 128 * Capacity(i + 1)
  }

  lemma CapacityZero()
    ensures Capacity(0) == 0x1_0000_0000_0000_0000
  {
    assert Capacity(9) == 2;
    assert Capacity(8) == 0x100;
    assert Capacity(7) == 0x8000;
    assert Capacity(6) == 0x40_0000;
    assert Capacity(5) == 0x2000_0000;
    assert Capacity(4) == 0x10_0000_0000;
    assert Capacity(3) == 0x800_0000_0000;
    assert Capacity(2) == 0x4_0000_0000_0000;
    assert Capacity(1) == 0x200_0000_0000_0000;
  }

  lemma {:induction false} UvarintLength(u: nat, i: nat)
    requires i <= 9 && u < Capacity(i)
    ensures |UvarintBytes(u)| <= MaxVarintLen64 - i
  {
    if u >= 128 {
      UvarintLength(u / 128, i + 1);
    }
  }

  lemma VarintLength(x: int)
    requires InInt64(x)
    ensures 1 <= |PutVarint(x)| <= MaxVarintLen64
  {
    CapacityZero();
    UvarintLength(ZigZag(x), 0);
  }

  /** What `Uvarint`/`Varint` return: the value and the count `n` (0: too short, < 0: overflow). */
  datatype Decoded = Decoded(value: int, n: int)

  /**
   * Go's `Uvarint` loop from its step `i` on, `buf` being what is left of the
   * input: a buffer that runs out returns `(0, 0)`; an eleventh byte, or a
   * tenth byte above 1, is an overflow `(0, -(i + 1))`.
   */
  function UvarintAt(buf: seq<byte>, i: nat): (d: Decoded)
    ensures d.value >= 0
    ensures d.n <= 0 ==> d.value == 0
    decreases |buf|
  {
    if |buf| == 0 then Decoded(0, 0)
    else if i == MaxVarintLen64 then Decoded(0, -(i + 1))
    else if buf[0] < 128 then
      if i == MaxVarintLen64 - 1 && buf[0] > 1 then Decoded(0, -(i + 1))
      else Decoded(buf[0], i + 1)
    else
      var rest := UvarintAt(buf[1..], i + 1);
      if rest.n > 0 then Decoded(buf[0] - 128 + 128 * rest.value, rest.n)
      else Decoded(0, rest.n)
  }

  /** A successful decode from step `i <= 9` carries a value below `Capacity(i)`. */
  lemma {:induction false} UvarintAtBound(buf: seq<byte>, i: nat)
    requires i <= 9
    ensures UvarintAt(buf, i).value < Capacity(i)
    decreases |buf|
  {
    if |buf| > 0 && buf[0] >= 128 {
      var rest := UvarintAt(buf[1..], i + 1);
      if i < 9 {
        UvarintAtBound(buf[1..], i + 1);
        if rest.n > 0 {
          assert rest.value <= Capacity(i + 1) - 1;
          assert 128 * rest.value <= 128 * Capacity(i + 1) - 128;
        }
      } else {
        assert rest.n <= 0;
      }
    }
  }

  function Uvarint(buf: seq<byte>): (d: Decoded)
    ensures d.value < 0x1_0000_0000_0000_0000
  {
    UvarintAtBound(buf, 0);
    CapacityZero();
    UvarintAt(buf, 0)
  }

  /** `binary.Varint`: the decoded value always fits an int64. */
  function Varint(buf: seq<byte>): (d: Decoded)
    ensures InInt64(d.value)
    ensures d.n <= 0 ==> d.value == 0
  {
    var u := Uvarint(buf);
    Decoded(UnZigZag(u.value), u.n)
  }

  /** `Uvarint` reads back what `PutUvarint` wrote, whatever follows it. */
  lemma {:induction false} UvarintRoundTrip(u: nat, i: nat, tail: seq<byte>)
    requires i <= 9 && u < Capacity(i)
    ensures UvarintAt(UvarintBytes(u) + tail, i) == Decoded(u, i + |UvarintBytes(u)|)
    decreases u
  {
    var buf := UvarintBytes(u) + tail;
    if u >= 128 {
      assert i < 9;
      assert buf[1..] == UvarintBytes(u / 128) + tail;
      UvarintRoundTrip(u / 128, i + 1, tail);
    }
  }

  /** `Varint` reads back what `PutVarint` wrote, whatever follows it. */
  lemma VarintRoundTrip(x: int64, tail: seq<byte>)
    ensures Varint(PutVarint(x) + tail) == Decoded(x, |PutVarint(x)|)
    ensures |PutVarint(x)| >= 1
  {
    CapacityZero();
    UvarintRoundTrip(ZigZag(x), 0, tail);
  }

  /** A ten-byte slot decodes to the value stored in it. */
  lemma VarintSlotRoundTrip(x: int64)
    ensures Varint(VarintSlot(x)).value == x
    ensures Varint(VarintSlot(x)).n >= 1
  {
    VarintLength(x);
    VarintRoundTrip(x, Zeros(MaxVarintLen64 - |PutVarint(x)|));
  }

  /** Bytes that all announce a continuation never decode: the result count is not positive. */
  lemma {:induction false} UnterminatedFails(buf: seq<byte>, i: nat)
    requires forall k :: 0 <= k < |buf| ==> buf[k] >= 128
    ensures UvarintAt(buf, i).n <= 0
    decreases |buf|
  {
    if |buf| > 0 && i != MaxVarintLen64 {
      UnterminatedFails(buf[1..], i + 1);
    }
  }

  /** Ten zero bytes — a nil int64 cell — decode to 0 with one byte read. */
  lemma ZeroSlot()
    ensures VarintSlot(0) == Zeros(MaxVarintLen64)
    ensures Varint(Zeros(MaxVarintLen64)) == Decoded(0, 1)
  {
    VarintSlotRoundTrip(0);
    VarintRoundTrip(0, Zeros(9));
  }

  function Pow256(k: nat): (p: nat)
    ensures p >= 1
  {
    if k == 0 then 1 else 256 * Pow256(k - 1)
  }

  /** `binary.LittleEndian.PutUint64` generalised to `k` bytes. */
  function LittleEndian(x: nat, k: nat): (r: seq<byte>)
    ensures |r| == k
  {
    if k == 0 then [] else [x % 256] + LittleEndian(x / 256, k - 1)
  }

  /** `binary.LittleEndian.Uint64` generalised to any length. */
  function FromLittleEndian(b: seq<byte>): (x: nat)
    ensures x < Pow256(|b|)
  {
    if b == [] then 0 else b[0] + 256 * FromLittleEndian(b[1..])
  }

  lemma {:induction false} LittleEndianRoundTrip(x: nat, k: nat)
    requires x < Pow256(k)
    ensures FromLittleEndian(LittleEndian(x, k)) == x
  {
    if k > 0 {
      var r := LittleEndian(x, k);
      assert r[1..] == LittleEndian(x / 256, k - 1);
      LittleEndianRoundTrip(x / 256, k - 1);
    }
  }

  lemma Pow256Eight()
    ensures Pow256(8) == 0x1_0000_0000_0000_0000
  {
    assert Pow256(4) == 0x1_0000_0000;
  }
}
