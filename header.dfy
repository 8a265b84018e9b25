/**
 * The 10-byte varint headers of the current engines' files, and what opening
 * a file does with them: a file too short to hold a header gets one, any
 * other file must already carry the expected version.
 *
 * `binary.PutVarint` writes into the buffer the failed header read left
 * behind, so the bytes after the varint are whatever that read found.
 */
module Header {
  import opened Bytes
  import opened Binary
  import opened Column

  /** The length of a header field: one varint slot. */
  const HEADER: nat := MaxVarintLen64

  /** `binary.PutVarint(buf, x)` into a header-sized buffer: the varint, then the rest of `buf`. */
  function PutVarintInto(buf: seq<byte>, x: int): (r: seq<byte>)
    requires |buf| == HEADER && InInt64(x)
    ensures |r| == HEADER
  {
    VarintLength(x);
    PutVarint(x) + buf[|PutVarint(x)|..]
  }

  /** The file after opening, the version the table records, and the error reported. */
  datatype Opened = Opened(data: seq<byte>, version: int, err: Option<Error>)

  /** `openTableFile`: the header logic for a table file of the given version. */
  function OpenHeader(data: seq<byte>, version: int): Opened
    requires InInt64(version)
  {
    var rd := ReadBytes(data, HEADER, 0);
    if rd.err.Some? then
      Opened(Overwrite(data, 0, PutVarintInto(rd.buf, version)), version, None)
    else
      var d := Varint(rd.buf);
      if d.n == 0 then Opened(data, d.value, Some(FailedToReadFileVersion))
      else if d.value != version then Opened(data, d.value, Some(FileVersionNotCorrect))
      else Opened(data, d.value, None)
  }

  /**
   * `openIndexFile`: a short index file gets the index version at byte 0 and
   * an append pointer of 10 (the end of the table file's header) at byte 10;
   * an existing one must carry the index version. The version is not recorded.
   */
  function OpenIndexHeader(data: seq<byte>): Opened
  {
    var rd := ReadBytes(data, HEADER, 0);
    if rd.err.Some? then
      var b1 := PutVarintInto(rd.buf, DYNAMIC1_INDEX);
      var b2 := PutVarintInto(b1, HEADER);
      Opened(Overwrite(Overwrite(data, 0, b1), HEADER, b2), DYNAMIC1_INDEX, None)
    else
      var d := Varint(rd.buf);
      if d.n == 0 then Opened(data, d.value, Some(FailedToReadFileVersion))
      else if d.value != DYNAMIC1_INDEX then Opened(data, d.value, Some(FileVersionNotCorrect))
      else Opened(data, d.value, None)
  }

  /** The varint stored in the header field at `off`, as `binary.Varint` reads it. */
  function FieldAt(data: seq<byte>, off: nat): Decoded
    requires off + HEADER <= |data|
  {
    Varint(data[off..off + HEADER])
  }

  /**
   * Opening a file too short for a header succeeds, leaves a file of at least
   * a header's length whose header decodes to the version, and an empty file
   * gets exactly the version's zero-padded slot.
   */
  lemma OpenShortFile(data: seq<byte>, version: int)
    requires |data| < HEADER && InInt64(version)
    ensures OpenHeader(data, version).err == None
    ensures OpenHeader(data, version).version == version
    ensures |OpenHeader(data, version).data| == HEADER
    ensures FieldAt(OpenHeader(data, version).data, 0).value == version
    ensures FieldAt(OpenHeader(data, version).data, 0).n >= 1
    ensures data == [] ==> OpenHeader(data, version).data == VarintSlot(version)
  {
    var rd := ReadBytes(data, HEADER, 0);
    var b := PutVarintInto(rd.buf, version);
    var r := Overwrite(data, 0, b);
    OverwriteSlice(data, 0, b);
    assert r[0..HEADER] == b;
    VarintRoundTrip(version, rd.buf[|PutVarint(version)|..]);
    if data == [] {
      assert rd.buf == Zeros(HEADER);
      assert r == b;
    }
  }

  /** What opening writes is accepted when the file is opened again, with nothing written. */
  lemma ReopenAccepts(data: seq<byte>, version: int)
    requires InInt64(version)
    requires OpenHeader(data, version).err == None
    ensures OpenHeader(OpenHeader(data, version).data, version) ==
            Opened(OpenHeader(data, version).data, version, None)
  {
    if |data| < HEADER {
      OpenShortFile(data, version);
    }
  }

  /** A file long enough for a header is never written by opening, and is rejected unless its header holds the version. */
  lemma OpenExistingFile(data: seq<byte>, version: int)
    requires HEADER <= |data| && InInt64(version)
    ensures OpenHeader(data, version).data == data
    ensures OpenHeader(data, version).err == None <==>
            FieldAt(data, 0).n != 0 && FieldAt(data, 0).value == version
  {
  }

  /**
   * Opening an index file too short for a header leaves two complete fields:
   * the index version, and an append pointer of 10.
   */
  lemma OpenShortIndex(data: seq<byte>)
    requires |data| < HEADER
    ensures OpenIndexHeader(data).err == None
    ensures |OpenIndexHeader(data).data| == 2 * HEADER
    ensures FieldAt(OpenIndexHeader(data).data, 0) == Decoded(DYNAMIC1_INDEX, 1)
    ensures FieldAt(OpenIndexHeader(data).data, HEADER) == Decoded(HEADER, 1)
    ensures data == [] ==> OpenIndexHeader(data).data == VarintSlot(DYNAMIC1_INDEX) + VarintSlot(HEADER)
  {
    var rd := ReadBytes(data, HEADER, 0);
    var b1 := PutVarintInto(rd.buf, DYNAMIC1_INDEX);
    var b2 := PutVarintInto(b1, HEADER);
    var d1 := Overwrite(data, 0, b1);
    var r := Overwrite(d1, HEADER, b2);
    OverwriteSlice(data, 0, b1);
    OverwriteSlice(d1, HEADER, b2);
    OverwriteOutside(d1, HEADER, b2, 0, HEADER);
    assert r[0..HEADER] == b1;
    assert r[HEADER..2 * HEADER] == b2;
    assert PutVarint(DYNAMIC1_INDEX) == [6];
    assert PutVarint(HEADER) == [20];
    VarintRoundTrip(DYNAMIC1_INDEX, rd.buf[1..]);
    VarintRoundTrip(HEADER, b1[1..]);
    if data == [] {
      assert rd.buf == Zeros(HEADER);
      assert r == b1 + b2;
    }
  }

  /** An index file long enough for a header is never written by opening, and must hold the index version. */
  lemma OpenExistingIndex(data: seq<byte>)
    requires HEADER <= |data|
    ensures OpenIndexHeader(data).data == data
    ensures OpenIndexHeader(data).err == None <==>
            FieldAt(data, 0).n != 0 && FieldAt(data, 0).value == DYNAMIC1_INDEX
  {
  }
}
