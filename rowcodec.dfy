/**
 * The column loops every fixed-width engine runs over a row, written once
 * over the per-column codec of each engine version.
 *
 * A write puts down, column after column, the column's image (the value's
 * encoding, or the column's nil bytes when the row has no such key), each
 * right after the previous one, and stops at the first column that fails.
 * A read takes, for each column, as many bytes as the column's nil value
 * has at the column's offset, decodes them, and advances by the column's
 * width.
 */
module RowCodec {
  import opened Bytes
  import opened Values

  /** The per-column functions of one engine version (`GetBytes`, `GetNil`, the converters). */
  datatype Codec<!C> = Codec(
    name: C -> string,
    width: C -> Result<int>,
    nil: C -> Result<seq<byte>>,
    encode: (C, Value) -> Result<seq<byte>>,
    decode: (C, seq<byte>) -> Result<Value>)

  /** The bytes a write puts down for column `c` of `row`. */
  function Image<C>(k: Codec<C>, c: C, row: Row): Result<seq<byte>>
  {
    if k.name(c) in row then k.encode(c, row[k.name(c)]) else k.nil(c)
  }

  /** What a column loop wrote, and the error that stopped it, if any. */
  datatype Encoded = Encoded(bytes: seq<byte>, err: Option<Error>)

  /** The column loop of a write: the images of `cols` in order, up to the first failure. */
  function EncodePrefix<C>(k: Codec<C>, cols: seq<C>, row: Row): Encoded
    decreases |cols|
  {
    if cols == [] then Encoded([], None)
    else
      var p := EncodePrefix(k, cols[..|cols| - 1], row);
      if p.err.Some? then p
      else match Image(k, cols[|cols| - 1], row)
        case Ok(b) => Encoded(p.bytes + b, None)
        case Err(e) => Encoded(p.bytes, Some(e))
  }

  function WidthOf<C>(k: Codec<C>, c: C): int
  {
    if k.width(c).Ok? then k.width(c).value else 0
  }

  /** The offset of the column after `cols`, relative to the first column. */
  function WidthSum<C>(k: Codec<C>, cols: seq<C>): int
    decreases |cols|
  {
    if cols == [] then 0 else WidthSum(k, cols[..|cols| - 1]) + WidthOf(k, cols[|cols| - 1])
  }

  /**
   * One column of a read at `off`: a buffer as long as the column's nil
   * value is filled from the file and decoded, and the column's width must
   * be known to step past it.
   */
  function ReadColumn<C>(k: Codec<C>, c: C, data: seq<byte>, off: int): Result<Value>
  {
    match k.nil(c)
    case Err(e) => Err(e)
    case Ok(buf) =>
      var rd := ReadBytes(data, |buf|, off);
      if rd.err.Some? then Err(rd.err.value)
      else match k.decode(c, rd.buf)
        case Err(e) => Err(e)
        case Ok(v) => if k.width(c).Err? then Err(k.width(c).error) else Ok(v)
  }

  /** The column loop of a read of the columns that start at `off`. */
  function DecodeColumns<C>(k: Codec<C>, cols: seq<C>, data: seq<byte>, off: int): Result<Row>
    decreases |cols|
  {
    if cols == [] then Ok(map[])
    else
      var init := cols[..|cols| - 1];
      var c := cols[|cols| - 1];
      match DecodeColumns(k, init, data, off)
      case Err(e) => Err(e)
      case Ok(m) =>
        match ReadColumn(k, c, data, off + WidthSum(k, init))
        case Err(e) => Err(e)
        case Ok(v) => Ok(m[k.name(c) := v])
  }

  /** The row a read returns after a clean write of `row`: `readBack` says what each column reads back as. */
  function ExpectedRow<C>(k: Codec<C>, readBack: (C, Row) -> Value, cols: seq<C>, row: Row): Row
    decreases |cols|
  {
    if cols == [] then map[]
    else ExpectedRow(k, readBack, cols[..|cols| - 1], row)[k.name(cols[|cols| - 1]) := readBack(cols[|cols| - 1], row)]
  }

  /**
   * Column `c` of `row` round-trips in place: its image is as long as the
   * column is wide and as its nil value, and decodes to `readBack(c, row)`.
   */
  predicate Aligned<C>(k: Codec<C>, readBack: (C, Row) -> Value, c: C, row: Row)
  {
    && Image(k, c, row).Ok?
    && k.width(c).Ok?
    && k.nil(c).Ok?
    && |Image(k, c, row).value| == k.width(c).value == |k.nil(c).value|
    && k.decode(c, Image(k, c, row).value) == Ok(readBack(c, row))
  }

  /** Reading column `c` takes exactly its width in bytes. */
  predicate NilFitsWidth<C>(k: Codec<C>, c: C)
  {
    WidthOf(k, c) >= 0 && (k.nil(c).Ok? ==> k.width(c) == Ok(|k.nil(c).value|))
  }

  /** The write loop stops exactly at the first column whose image fails. */
  lemma {:induction false} EncodePrefixOk<C>(k: Codec<C>, cols: seq<C>, row: Row)
    ensures EncodePrefix(k, cols, row).err == None <==>
            forall i :: 0 <= i < |cols| ==> Image(k, cols[i], row).Ok?
    decreases |cols|
  {
    if cols != [] {
      var init := cols[..|cols| - 1];
      EncodePrefixOk(k, init, row);
      assert forall i :: 0 <= i < |init| ==> init[i] == cols[i];
    }
  }

  /** A clean write of columns as wide as their images puts down the row's full width. */
  lemma {:induction false} EncodePrefixWidth<C>(k: Codec<C>, cols: seq<C>, row: Row)
    requires forall i :: 0 <= i < |cols| ==>
               Image(k, cols[i], row).Ok? && |Image(k, cols[i], row).value| == WidthOf(k, cols[i])
    ensures EncodePrefix(k, cols, row).err == None
    ensures |EncodePrefix(k, cols, row).bytes| == WidthSum(k, cols)
    decreases |cols|
  {
    if cols != [] {
      var init := cols[..|cols| - 1];
      assert forall i :: 0 <= i < |init| ==> init[i] == cols[i];
      EncodePrefixWidth(k, init, row);
    }
  }

  /** One turn of the write loop: the images of `cols[..i + 1]` extend those of `cols[..i]` by column `i`'s. */
  lemma EncodeStep<C>(k: Codec<C>, cols: seq<C>, i: nat, row: Row)
    requires i < |cols|
    ensures EncodePrefix(k, cols[..i + 1], row) ==
            var p := EncodePrefix(k, cols[..i], row);
            if p.err.Some? then p
            else match Image(k, cols[i], row)
              case Ok(b) => Encoded(p.bytes + b, None)
              case Err(e) => Encoded(p.bytes, Some(e))
  {
    assert cols[..i + 1][..i] == cols[..i];
  }

  /**
   * One clean turn of a write loop that writes in place: after the images of
   * `cols[..i]` were written from `off`, writing column `i`'s image right
   * after them leaves the images of `cols[..i + 1]` written from `off`.
   */
  lemma WriteStep<C>(k: Codec<C>, cols: seq<C>, i: nat, row: Row, start: seq<byte>, off: nat,
                     before: seq<byte>, after: seq<byte>)
    requires i < |cols| && EncodePrefix(k, cols[..i], row).err == None && Image(k, cols[i], row).Ok?
    requires before == Overwrite(start, off, EncodePrefix(k, cols[..i], row).bytes)
    requires after == Overwrite(before, off + |EncodePrefix(k, cols[..i], row).bytes|, Image(k, cols[i], row).value)
    ensures EncodePrefix(k, cols[..i + 1], row).err == None
    ensures |EncodePrefix(k, cols[..i + 1], row).bytes| ==
            |EncodePrefix(k, cols[..i], row).bytes| + |Image(k, cols[i], row).value|
    ensures after == Overwrite(start, off, EncodePrefix(k, cols[..i + 1], row).bytes)
  {
    EncodeStep(k, cols, i, row);
    OverwriteAppend(start, off, EncodePrefix(k, cols[..i], row).bytes, Image(k, cols[i], row).value);
  }

  /** A write loop that reaches a failing column `i` stops there with what it wrote so far. */
  lemma FailStep<C>(k: Codec<C>, cols: seq<C>, i: nat, row: Row)
    requires i < |cols| && EncodePrefix(k, cols[..i], row).err == None && Image(k, cols[i], row).Err?
    ensures EncodePrefix(k, cols, row) == Encoded(EncodePrefix(k, cols[..i], row).bytes, Some(Image(k, cols[i], row).error))
  {
    EncodeStep(k, cols, i, row);
    EncodePrefixStops(k, cols, i + 1, row);
  }

  /** One clean turn of the read loop: column `i`, read at the offset after `cols[..i]`, joins the row. */
  lemma DecodeStep<C>(k: Codec<C>, cols: seq<C>, i: nat, data: seq<byte>, off: int, m: Row, v: Value)
    requires i < |cols| && DecodeColumns(k, cols[..i], data, off) == Ok(m)
    requires ReadColumn(k, cols[i], data, off + WidthSum(k, cols[..i])) == Ok(v)
    ensures DecodeColumns(k, cols[..i + 1], data, off) == Ok(m[k.name(cols[i]) := v])
    ensures WidthSum(k, cols[..i + 1]) == WidthSum(k, cols[..i]) + WidthOf(k, cols[i])
  {
    assert cols[..i + 1][..i] == cols[..i];
  }

  /** A read loop that reaches a column `i` it cannot read reports that column's error. */
  lemma DecodeFailStep<C>(k: Codec<C>, cols: seq<C>, i: nat, data: seq<byte>, off: int)
    requires i < |cols| && DecodeColumns(k, cols[..i], data, off).Ok?
    requires ReadColumn(k, cols[i], data, off + WidthSum(k, cols[..i])).Err?
    ensures DecodeColumns(k, cols, data, off) == Err(ReadColumn(k, cols[i], data, off + WidthSum(k, cols[..i])).error)
  {
    assert cols[..i + 1][..i] == cols[..i];
    DecodeStops(k, cols, data, off, i + 1);
  }

  /** Once a column fails, the columns after it are neither written nor reported. */
  lemma {:induction false} EncodePrefixStops<C>(k: Codec<C>, cols: seq<C>, j: nat, row: Row)
    requires j <= |cols| && EncodePrefix(k, cols[..j], row).err.Some?
    ensures EncodePrefix(k, cols, row) == EncodePrefix(k, cols[..j], row)
    decreases |cols| - j
  {
    if j < |cols| {
      var init := cols[..|cols| - 1];
      assert init[..j] == cols[..j];
      EncodePrefixStops(k, init, j, row);
    } else {
      assert cols[..j] == cols;
    }
  }

  /** A read that fails on a column reports that column's error, whatever follows. */
  lemma {:induction false} DecodeStops<C>(k: Codec<C>, cols: seq<C>, data: seq<byte>, off: int, j: nat)
    requires j <= |cols| && DecodeColumns(k, cols[..j], data, off).Err?
    ensures DecodeColumns(k, cols, data, off) == DecodeColumns(k, cols[..j], data, off)
    decreases |cols| - j
  {
    if j < |cols| {
      var init := cols[..|cols| - 1];
      assert init[..j] == cols[..j];
      DecodeStops(k, init, data, off, j);
    } else {
      assert cols[..j] == cols;
    }
  }

  /**
   * When every column is wider than nothing and every image that succeeds is
   * exactly as wide as its column, a failed write puts down less than a full
   * row, and a clean one exactly a full row.
   */
  lemma {:induction false} EncodePrefixShort<C>(k: Codec<C>, cols: seq<C>, row: Row)
    requires forall i :: 0 <= i < |cols| ==> WidthOf(k, cols[i]) > 0
    requires forall i :: 0 <= i < |cols| && Image(k, cols[i], row).Ok? ==>
               |Image(k, cols[i], row).value| == WidthOf(k, cols[i])
    ensures EncodePrefix(k, cols, row).err.Some? ==> |EncodePrefix(k, cols, row).bytes| < WidthSum(k, cols)
    ensures EncodePrefix(k, cols, row).err.None? ==> |EncodePrefix(k, cols, row).bytes| == WidthSum(k, cols)
    decreases |cols|
  {
    if cols != [] {
      var init := cols[..|cols| - 1];
      assert forall i :: 0 <= i < |init| ==> init[i] == cols[i];
      EncodePrefixShort(k, init, row);
    }
  }

  /** The row a clean write reads back has exactly the columns' names, each with its column's value. */
  lemma ExpectedRowAt<C>(k: Codec<C>, readBack: (C, Row) -> Value, cols: seq<C>, row: Row)
    requires forall i, j :: 0 <= i < j < |cols| ==> k.name(cols[i]) != k.name(cols[j])
    ensures ExpectedRow(k, readBack, cols, row).Keys == set i | 0 <= i < |cols| :: k.name(cols[i])
    ensures forall i :: 0 <= i < |cols| ==> ExpectedRow(k, readBack, cols, row)[k.name(cols[i])] == readBack(cols[i], row)
  {
    ExpectedRowKeys(k, readBack, cols, row);
    ExpectedRowValues(k, readBack, cols, row);
  }

  lemma {:induction false} ExpectedRowKeys<C>(k: Codec<C>, readBack: (C, Row) -> Value, cols: seq<C>, row: Row)
    ensures ExpectedRow(k, readBack, cols, row).Keys == set i | 0 <= i < |cols| :: k.name(cols[i])
    decreases |cols|
  {
    if cols != [] {
      var init := cols[..|cols| - 1];
      ExpectedRowKeys(k, readBack, init, row);
      var names := set i | 0 <= i < |cols| :: k.name(cols[i]);
      var initNames := set i | 0 <= i < |init| :: k.name(init[i]);
      forall x | x in names ensures x in initNames + {k.name(cols[|cols| - 1])} {
        var i :| 0 <= i < |cols| && k.name(cols[i]) == x;
        if i < |init| { assert k.name(init[i]) == x; }
      }
      forall x | x in initNames ensures x in names {
        var i :| 0 <= i < |init| && k.name(init[i]) == x;
        assert k.name(cols[i]) == x;
      }
    }
  }

  lemma {:induction false} ExpectedRowValues<C>(k: Codec<C>, readBack: (C, Row) -> Value, cols: seq<C>, row: Row)
    requires forall i, j :: 0 <= i < j < |cols| ==> k.name(cols[i]) != k.name(cols[j])
    ensures forall i :: 0 <= i < |cols| ==> k.name(cols[i]) in ExpectedRow(k, readBack, cols, row)
    ensures forall i :: 0 <= i < |cols| ==> ExpectedRow(k, readBack, cols, row)[k.name(cols[i])] == readBack(cols[i], row)
    decreases |cols|
  {
    if cols != [] {
      var init := cols[..|cols| - 1];
      assert forall i :: 0 <= i < |init| ==> init[i] == cols[i];
      ExpectedRowValues(k, readBack, init, row);
    }
  }

  lemma {:induction false} WidthSumNonNegative<C>(k: Codec<C>, cols: seq<C>)
    requires forall i :: 0 <= i < |cols| ==> WidthOf(k, cols[i]) >= 0
    ensures WidthSum(k, cols) >= 0
    decreases |cols|
  {
    if cols != [] {
      var init := cols[..|cols| - 1];
      assert forall i :: 0 <= i < |init| ==> init[i] == cols[i];
      WidthSumNonNegative(k, init);
    }
  }

  /**
   * Reading back what a clean write put down at `off` gives, column by
   * column, what each column's image decodes to.
   */
  lemma {:induction false} DecodeWritten<C>(k: Codec<C>, readBack: (C, Row) -> Value, cols: seq<C>, row: Row,
                                            data: seq<byte>, off: int)
    requires forall i :: 0 <= i < |cols| ==> Aligned(k, readBack, cols[i], row)
    requires Holds(data, off, EncodePrefix(k, cols, row).bytes)
    ensures DecodeColumns(k, cols, data, off).Ok?
    ensures DecodeColumns(k, cols, data, off).value == ExpectedRow(k, readBack, cols, row)
    decreases |cols|
  {
    if cols != [] {
      assert forall i :: 0 <= i < |cols| - 1 ==> cols[..|cols| - 1][i] == cols[i];
      EncodePrefixWidth(k, cols[..|cols| - 1], row);
      EncodePrefixSnoc(k, cols, row);
      HoldsSplit(data, off, EncodePrefix(k, cols, row).bytes, EncodePrefix(k, cols[..|cols| - 1], row).bytes,
                 Image(k, cols[|cols| - 1], row).value);
      DecodeWritten(k, readBack, cols[..|cols| - 1], row, data, off);
      ReadColumnWritten(k, readBack, cols[|cols| - 1], row, data, off + |EncodePrefix(k, cols[..|cols| - 1], row).bytes|);
    }
  }

  /** A clean last column extends the images of the first columns by its own. */
  lemma EncodePrefixSnoc<C>(k: Codec<C>, cols: seq<C>, row: Row)
    requires cols != [] && EncodePrefix(k, cols[..|cols| - 1], row).err == None
    requires Image(k, cols[|cols| - 1], row).Ok?
    ensures EncodePrefix(k, cols, row).err == None
    ensures EncodePrefix(k, cols, row).bytes == EncodePrefix(k, cols[..|cols| - 1], row).bytes + Image(k, cols[|cols| - 1], row).value
  {
  }

  /** One column reads back as what its image decodes to. */
  lemma ReadColumnWritten<C>(k: Codec<C>, readBack: (C, Row) -> Value, c: C, row: Row, data: seq<byte>, pos: int)
    requires Aligned(k, readBack, c, row)
    requires Holds(data, pos, Image(k, c, row).value)
    ensures ReadColumn(k, c, data, pos) == Ok(readBack(c, row))
  {
  }

  /** Reading one column depends only on the bytes of that column. */
  lemma ReadColumnFrame<C>(k: Codec<C>, c: C, d1: seq<byte>, d2: seq<byte>, pos: nat)
    requires NilFitsWidth(k, c)
    requires pos + WidthOf(k, c) <= |d1| && pos + WidthOf(k, c) <= |d2|
    requires d1[pos..pos + WidthOf(k, c)] == d2[pos..pos + WidthOf(k, c)]
    ensures ReadColumn(k, c, d1, pos) == ReadColumn(k, c, d2, pos)
  {
    if k.nil(c).Ok? {
      ReadFrame(d1, d2, |k.nil(c).value|, pos);
    }
  }

  /** A read depends only on the bytes of the row it reads. */
  lemma {:induction false} DecodeFrame<C>(k: Codec<C>, cols: seq<C>, d1: seq<byte>, d2: seq<byte>, off: int)
    requires forall i :: 0 <= i < |cols| ==> NilFitsWidth(k, cols[i])
    requires 0 <= off <= off + WidthSum(k, cols) <= |d1| && off + WidthSum(k, cols) <= |d2|
    requires d1[off..off + WidthSum(k, cols)] == d2[off..off + WidthSum(k, cols)]
    ensures DecodeColumns(k, cols, d1, off) == DecodeColumns(k, cols, d2, off)
    decreases |cols|
  {
    if cols != [] {
      var init := cols[..|cols| - 1];
      var c := cols[|cols| - 1];
      assert forall i :: 0 <= i < |init| ==> init[i] == cols[i];
      WidthSumNonNegative(k, init);
      var w0 := WidthSum(k, init);
      var w := WidthSum(k, cols);
      SubSlices(d1, off, off + w0, off + w);
      SubSlices(d2, off, off + w0, off + w);
      DecodeFrame(k, init, d1, d2, off);
      ReadColumnFrame(k, c, d1, d2, off + w0);
    }
  }

  /**
   * The column loop of a read, on an open file: for each column the nil-sized
   * buffer is read at the column's offset, decoded, and the offset advanced
   * by the column's width; the first failure is returned.
   */
  method ReadColumnsAt<C>(k: Codec<C>, f: File, cols: seq<C>, off: int) returns (r: Result<Row>)
    ensures r == DecodeColumns(k, cols, f.bytes, off)
  {
    var targetOff := off;
    var result: Row := map[];
    var i := 0;
    while i < |cols|
      invariant 0 <= i <= |cols|
      invariant DecodeColumns(k, cols[..i], f.bytes, off) == Ok(result)
      invariant targetOff == off + WidthSum(k, cols[..i])
    {
      var c := cols[i];
      var v: Result<Value>;
      var b := k.nil(c);
      if b.Err? {
        v := Err(b.error);
      } else {
        var rd := f.ReadAt(|b.value|, targetOff);
        if rd.err.Some? {
          v := Err(rd.err.value);
        } else {
          v := k.decode(c, rd.buf);
          if v.Ok? && k.width(c).Err? {
            v := Err(k.width(c).error);
          }
        }
      }
      assert v == ReadColumn(k, c, f.bytes, targetOff);
      if v.Err? {
        DecodeFailStep(k, cols, i, f.bytes, off);
        return Err(v.error);
      }
      DecodeStep(k, cols, i, f.bytes, off, result, v.value);
      result := result[k.name(c) := v.value];
      targetOff := targetOff + k.width(c).value;
      i := i + 1;
    }
    assert cols[..|cols|] == cols;
    return Ok(result);
  }

  /**
   * The column loop of a write, on an open file: each column's image is
   * written right after the previous one, starting at `off`, until one fails.
   */
  method WriteColumnsAt<C>(k: Codec<C>, f: File, cols: seq<C>, off: nat, row: Row) returns (err: Option<Error>)
    modifies f
    ensures f.bytes == Overwrite(old(f.bytes), off, EncodePrefix(k, cols, row).bytes)
    ensures err == EncodePrefix(k, cols, row).err
  {
    ghost var start := f.bytes;
    var targetOff := off;
    var i := 0;
    while i < |cols|
      invariant 0 <= i <= |cols|
      invariant EncodePrefix(k, cols[..i], row).err == None
      invariant targetOff == off + |EncodePrefix(k, cols[..i], row).bytes|
      invariant f.bytes == Overwrite(start, off, EncodePrefix(k, cols[..i], row).bytes)
    {
      var c := cols[i];
      var b: Result<seq<byte>>;
      if k.name(c) in row {
        b := k.encode(c, row[k.name(c)]);
      } else {
        b := k.nil(c);
      }
      if b.Err? {
        FailStep(k, cols, i, row);
        return Some(b.error);
      }
      ghost var before := f.bytes;
      var num, werr := f.WriteAt(b.value, targetOff);
      WriteStep(k, cols, i, row, start, off, before, f.bytes);
      targetOff := targetOff + num;
      i := i + 1;
    }
    assert cols[..|cols|] == cols;
    return None;
  }
}
