/**
 * Byte-level vocabulary shared by every storage engine of TinyDatabase:
 * bytes and Go's fixed-width integers, the error values the engine returns,
 * and an open file as a growable byte sequence with the positional
 * `ReadAt`/`WriteAt` behaviour of Go's `os.File`.
 */
module Bytes {

  type byte = b: int | 0 <= b < 0x100
  type int8 = x: int | -0x80 <= x < 0x80
  type int16 = x: int | -0x8000 <= x < 0x8000
  type int32 = x: int | -0x8000_0000 <= x < 0x8000_0000
  type int64 = x: int | -0x8000_0000_0000_0000 <= x < 0x8000_0000_0000_0000
  type uint64 = x: int | 0 <= x < 0x1_0000_0000_0000_0000

  predicate InInt64(x: int) {
    -0x8000_0000_0000_0000 <= x < 0x8000_0000_0000_0000
  }

  datatype Option<+T> = None | Some(value: T)

  /** The `(value, error)` pair a Go function returns, with the value dropped on error. */
  datatype Result<+T> = Ok(value: T) | Err(error: Error)

  /** The errors the engines report, one constructor per message. */
  datatype Error =
    | SizeNotValid                        // "Size is not valid"
    | TypeNotValid                        // "Type is not valid"
    | TypeNotValidFor(column: string)     // "Type is not valid: <name>"
    | Mismatch(kind: string, column: string) // "Missmatch type(<kind>) and val: <name>"
    | TooLongString(column: string)       // "Too long string for <name>"
    | TimeUnmarshal                       // time.Time.UnmarshalBinary rejected the bytes
    | SameColumnName                      // "Same column name exists."
    | OutOfRowIndex                       // "Out of Row index"
    | DeletedRow                          // "Deleted row"
    | FailedToReadFileVersion             // "Failed to read fileversion"
    | FileVersionNotCorrect               // "Fileversion is not correct"
    | FailedToReadTableIndex              // "Failed to read table index"
    | FailedToReadIndex                   // "Failed to read index"
    | FailedToReadLastTableOffset         // "Failed to read last table offset"
    | AlreadyClosed                       // "Already closed"
    | TableDoesNotExist                   // "Table does not exist"
    | InvalidCommand                      // "Invalid Command"
    | InvalidCondition                    // "Invalid Condition"
    | InvalidColumnType                   // "Invalid ColumnType"
    | EOF                                 // io.EOF from a short positional read
    | NegativeOffset                      // ReadAt/WriteAt at a negative offset
    | InvalidFile                         // os.ErrInvalid: an operation on a nil *os.File
    | Panic                               // the Go code panics at this point

  function Max(a: int, b: int): int { if a < b then b else a }

  /** Go's integer `/`, which truncates toward zero. */
  function Quot(a: int, b: int): (q: int)
    requires b > 0
    ensures a >= 0 ==> q == a / b
    ensures q * b <= a < q * b + b || (a < 0 && q * b - b < a <= q * b)
  {
    if a >= 0 then a / b else -((-a) / b)
  }

  /** Go's quotient of a non-negative number by a positive one is not negative. */
  lemma QuotNonNegative(a: int, b: int)
    requires a >= 0 && b > 0
    ensures Quot(a, b) >= 0
  {
    if Quot(a, b) < 0 {
      MulMono(Quot(a, b), -1, b);
    }
  }

  /** Division by a positive stride: `q` is the quotient exactly when `a` lies in the `q`-th stride. */
  lemma DivUnique(a: int, s: int, q: int)
    requires s > 0 && q * s <= a < q * s + s
    ensures a / s == q
  {
    var d := a / s;
    assert d * s <= a < d * s + s;
    if d < q {
      assert (d + 1) * s <= q * s by { MulMono(d + 1, q, s); }
    } else if d > q {
      assert (q + 1) * s <= d * s by { MulMono(q + 1, d, s); }
    }
  }

  lemma MulMono(x: int, y: int, s: int)
    requires x <= y && s >= 0
    ensures x * s <= y * s
  {
    assert y * s - x * s == (y - x) * s;
  }

  /** A freshly made `[]byte` of length `n`. */
  function Zeros(n: nat): (z: seq<byte>)
    ensures |z| == n
    ensures forall i :: 0 <= i < n ==> z[i] == 0
  {
    seq(n, _ => 0)
  }

  /**
   * The contents of a file after `WriteAt(b, off)` with `off >= 0`: the bytes
   * of `b` replace those at `off ..`, a write past the end first fills the gap
   * with zero bytes, and an empty write changes nothing.
   */
  function Overwrite(data: seq<byte>, off: nat, b: seq<byte>): (r: seq<byte>)
    ensures |b| == 0 ==> r == data
    ensures |b| > 0 ==> |r| == Max(|data|, off + |b|)
    ensures |r| >= |data|
  {
    if |b| == 0 then data
    else seq(Max(|data|, off + |b|), i requires 0 <= i =>
           if off <= i < off + |b| then b[i - off] else if i < |data| then data[i] else 0)
  }

  /** Byte by byte: the written range holds `b`, the rest of the old file is kept, a gap reads as zeros. */
  lemma OverwriteAt(data: seq<byte>, off: nat, b: seq<byte>)
    ensures forall i :: 0 <= i < |Overwrite(data, off, b)| ==>
              Overwrite(data, off, b)[i] ==
                if off <= i < off + |b| then b[i - off] else if i < |data| then data[i] else 0
  {
  }

  /** The written range reads back as the bytes written. */
  lemma OverwriteSlice(data: seq<byte>, off: nat, b: seq<byte>)
    requires |b| > 0 || off <= |data|
    ensures off + |b| <= |Overwrite(data, off, b)|
    ensures Overwrite(data, off, b)[off..off + |b|] == b
  {
    var r := Overwrite(data, off, b);
    OverwriteAt(data, off, b);
    forall i | 0 <= i < |b| ensures r[off..off + |b|][i] == b[i] {
      assert r[off..off + |b|][i] == r[off + i];
    }
  }

  /** Outside the written range a write leaves the file as it was. */
  lemma OverwriteOutside(data: seq<byte>, off: nat, b: seq<byte>, lo: nat, hi: nat)
    requires lo <= hi <= |data|
    requires hi <= off || off + |b| <= lo
    ensures hi <= |Overwrite(data, off, b)|
    ensures Overwrite(data, off, b)[lo..hi] == data[lo..hi]
  {
    var r := Overwrite(data, off, b);
    OverwriteAt(data, off, b);
    forall i | 0 <= i < hi - lo ensures r[lo..hi][i] == data[lo..hi][i] {
      assert r[lo..hi][i] == r[lo + i];
    }
  }

  /** Two writes back to back are one write of the concatenation. */
  lemma OverwriteAppend(data: seq<byte>, off: nat, a: seq<byte>, b: seq<byte>)
    ensures Overwrite(Overwrite(data, off, a), off + |a|, b) == Overwrite(data, off, a + b)
  {
    if |a| == 0 {
      assert a + b == b;
    } else if |b| == 0 {
      assert a + b == a;
    } else {
      OverwriteAppendBoth(data, off, a, b);
    }
  }

  lemma OverwriteAppendBoth(data: seq<byte>, off: nat, a: seq<byte>, b: seq<byte>)
    requires |a| > 0 && |b| > 0
    ensures Overwrite(Overwrite(data, off, a), off + |a|, b) == Overwrite(data, off, a + b)
  {
    var mid := Overwrite(data, off, a);
    var lhs := Overwrite(mid, off + |a|, b);
    var rhs := Overwrite(data, off, a + b);
    OverwriteAt(data, off, a);
    OverwriteAt(mid, off + |a|, b);
    OverwriteAt(data, off, a + b);
    assert |lhs| == |rhs|;
    forall i | 0 <= i < |lhs| ensures lhs[i] == rhs[i] {
      if i < off + |a| {
        assert i < |mid|;
      }
    }
  }

  /** The two halves of a slice, as slices of the whole. */
  lemma SubSlices(d: seq<byte>, lo: nat, mid: nat, hi: nat)
    requires lo <= mid <= hi <= |d|
    ensures d[lo..mid] == d[lo..hi][..mid - lo]
    ensures d[mid..hi] == d[lo..hi][mid - lo..]
  {
  }

  /** Where `a + b` lies at `lo`, `a` lies at `lo` and `b` right after it. */
  lemma SliceSplit(d: seq<byte>, lo: nat, a: seq<byte>, b: seq<byte>)
    requires lo + |a| + |b| <= |d| && d[lo..lo + |a| + |b|] == a + b
    ensures d[lo..lo + |a|] == a
    ensures d[lo + |a|..lo + |a| + |b|] == b
  {
    SubSlices(d, lo, lo + |a|, lo + |a| + |b|);
    assert (a + b)[..|a|] == a;
    assert (a + b)[|a|..] == b;
  }

  /** The bytes `s` lie in `d` from offset `off` on. */
  predicate Holds(d: seq<byte>, off: int, s: seq<byte>)
  {
    0 <= off && off + |s| <= |d| && d[off..off + |s|] == s
  }

  /** What a write puts down lies where it was written. */
  lemma OverwriteHolds(data: seq<byte>, off: nat, s: seq<byte>)
    requires |s| > 0 || off <= |data|
    ensures Holds(Overwrite(data, off, s), off, s)
  {
    OverwriteSlice(data, off, s);
  }

  /** Where `a + b` lies, `a` lies at the same offset and `b` right after it. */
  lemma HoldsSplit(d: seq<byte>, off: int, whole: seq<byte>, a: seq<byte>, b: seq<byte>)
    requires whole == a + b && Holds(d, off, whole)
    ensures Holds(d, off, a) && Holds(d, off + |a|, b)
  {
    SliceSplit(d, off, a, b);
  }

  /** The outcome of `ReadAt` into a buffer of `n` bytes: the buffer, the count read, the error. */
  datatype ReadOutcome = ReadOutcome(buf: seq<byte>, num: nat, err: Option<Error>)

  /**
   * `os.File.ReadAt` of `n` bytes at `off` from a file holding `data`: a negative
   * offset is an error, a read that runs past the end fills what it can and
   * reports `EOF`, the rest of the buffer keeps the zeros it was made with.
   */
  function ReadBytes(data: seq<byte>, n: nat, off: int): (r: ReadOutcome)
    ensures |r.buf| == n && r.num <= n
    ensures r.err == None <==> 0 <= off && (n == 0 || off + n <= |data|)
    ensures r.err == None ==> r.num == n
    ensures r.err == None && n > 0 ==> r.buf == data[off..off + n]
    ensures r.err.Some? && off >= 0 ==> r.err == Some(EOF)
  {
    if off < 0 then ReadOutcome(Zeros(n), 0, Some(NegativeOffset))
    else if n == 0 then ReadOutcome([], 0, None)
    else if off + n <= |data| then ReadOutcome(data[off..off + n], n, None)
    else
      var got := if off < |data| then data[off..] else [];
      ReadOutcome(got + Zeros(n - |got|), |got|, Some(EOF))
  }

  /** A read inside two files that agree on the bytes read gives the same outcome. */
  lemma ReadFrame(d1: seq<byte>, d2: seq<byte>, n: nat, off: nat)
    requires off + n <= |d1| && off + n <= |d2| && d1[off..off + n] == d2[off..off + n]
    ensures ReadBytes(d1, n, off) == ReadBytes(d2, n, off)
  {
  }

  /** An open file on disk. A table whose handle is `null` has been closed. */
  class File {
    var bytes: seq<byte>

    constructor (contents: seq<byte>)
      ensures bytes == contents
    {
      bytes := contents;
    }

    /** `os.File.WriteAt`. */
    method WriteAt(b: seq<byte>, off: int) returns (n: int, err: Option<Error>)
      modifies this
      ensures off < 0 ==> n == 0 && err == Some(NegativeOffset) && bytes == old(bytes)
      ensures off >= 0 ==> n == |b| && err == None && bytes == Overwrite(old(bytes), off, b)
    {
      if off < 0 {
        return 0, Some(NegativeOffset);
      }
      bytes := Overwrite(bytes, off, b);
      return |b|, None;
    }

    /** `os.File.ReadAt` into a fresh buffer of `n` bytes. */
    method ReadAt(n: nat, off: int) returns (r: ReadOutcome)
      ensures r == ReadBytes(bytes, n, off)
    {
      r := ReadBytes(bytes, n, off);
    }

    /** `Seek(0, 2)`: the offset of the end of the file. */
    function Size(): (s: nat)
      reads this
      ensures s == |bytes|
    {
      |bytes|
    }
  }
}
