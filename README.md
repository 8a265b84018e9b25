# TinyDatabase storage engine in Dafny

TinyDatabase keeps each table in one file. A table file starts with a
ten-byte header that holds the file version as a Go varint. Rows follow the
header. Every row starts with a tombstone byte: 1 is a live row and 0 a
deleted one. Each column is then stored through its column type:
- `int64`: a ten-byte zig-zag varint;
- `float64`: eight little-endian bytes of the IEEE bit pattern;
- strings: zero-padded bytes;
- `time`: the fifteen-byte binary form of Go's `time.Time`.

The repository holds several generations of this engine, and the model
covers each of them:

- **the current engine** (`tinydatabase/`):
  - the column codec (`ColumnType` with `GetBytes`, `GetNil`,
    `ConvertToBytes`, `ConvertToVal`);
  - the static table (`TableStatic`), with fixed-stride rows;
  - the dynamic table (`TableDynamic`). Its rows lie end to end in a table
    file. An index file finds them: after two header fields, the index
    version and the append pointer, it keeps one slot per row. A slot holds
    the row's table offset and the length of every flexible (width 0)
    column;
- **day3 and day2**:
  - the `ColumnConfig` codec, which numbers the column types 1 to 4;
  - the row `Condition`s;
  - the `Table` class with `WriteRow`, `Update`, `Insert`, `Read`, `Delete`
    and `Select`. day3 returns a map from row numbers to rows; day2 returns
    a list;
  - the database's `Exec` and `convertJson`;
- **part1**: a table class over a codec that does not check string sizes,
  and whose `WriteRow` takes -1 to mean "append";
- **day1**: the first table class. Its `Insert` writes at the end of the
  file.

Modules, one per file:

- `Bytes`: byte sequences, `Overwrite` and `ReadBytes` (what Go's `WriteAt`
  and `ReadAt` do to a file's contents), the `File` class, truncating
  division, errors.
- `Binary`: Go's `PutVarint`, `Varint` and little-endian encoding.
- `Values`: runtime values and rows.
- `Header`: the version headers of table and index files.
- `Column`: the current column codec.
- `Schema`: the checks `setColumns` makes on a schema.
- `RowCodec`: a column codec as a value, and the column-by-column row
  encoding and decoding that every generation shares.
- `Static`: the static table.
- `Dynamic` and `DynamicTable`: the dynamic table's specification, and its
  class.
- `Stride`: the fixed-stride layout shared by day1, day2, day3 and part1.
- `Legacy`: the day1–day3 codec and `ColumnConfig`.
- `Conditions`: `Condition.Check`.
- `ConfigTable`: the day2/day3 `Table` and `Select`.
- `Databases`: `Exec` and `convertJson`.
- `Part1` and `Day1`.

Each method is proved against a specification function on the file
contents. Properties relate the functions to one another: write then read,
delete then read, "other rows are untouched", codec round trips, and the
meaning of a select.

Go's panics appear as the error `Panic`. A closed table is a `null` file;
every operation on it fails with `InvalidFile`, as Go's `*os.File` methods
do on a nil receiver. File offsets and sizes are unbounded integers.

## Model

| member | source | states |
|---|---|---|
| Bytes.Quot | tinydatabase/tinydatabase_tablestatic.go:313-316 | Go's integer division truncates toward zero: it agrees with Euclidean division on non-negative dividends, and rounds up for a negative dividend |
| Bytes.ReadBytes | tinydatabase/tinydatabase_tablestatic.go:145-190 | a read of n bytes at off succeeds exactly when off is non-negative and either n is 0 (an empty read succeeds at any such offset, even past the end) or the file holds off+n bytes; a non-empty read then returns those bytes; a short read fills what it can and reports EOF |
| Bytes.File.WriteAt | tinydatabase/tinydatabase_tablestatic.go:106-143 | a write at a negative offset fails and changes nothing; otherwise it writes every byte and the contents become the old ones overwritten from off, zero-filled past the old end |
| Bytes.File.ReadAt | tinydatabase/tinydatabase_tablestatic.go:145-190 | reading a file gives ReadBytes of its current contents |
| Binary.VarintRoundTrip | tinydatabase/tinydatabase_table.go:110-128 | decoding PutVarint(x) gives back x and the byte count, whatever bytes follow |
| Binary.VarintSlotRoundTrip | tinydatabase/tinydatabase_tabledynamic.go:145-147 | a ten-byte slot holding a varint offset reads back as that offset |
| Binary.UnterminatedFails | tinydatabase/tinydatabase_table.go:170-176 | a buffer in which every byte has its continuation bit set never decodes |
| Binary.ZeroSlot | tinydatabase/tinydatabase_table.go:74-102 | the nil int64 cell is ten zero bytes and decodes to 0 using one byte |
| Binary.LittleEndianRoundTrip | tinydatabase/tinydatabase_table.go:129-137 | reading k little-endian bytes gives back any value below 256^k |
| Values.IndexOfZero | tinydatabase/tinydatabase_table.go:181-187 | the index of the first zero byte, or -1 exactly when there is none |
| Header.OpenShortFile | tinydatabase/tinydatabase_tablestatic.go:241-272 | opening a file shorter than the header writes a header holding the given version and succeeds |
| Header.OpenExistingFile | tinydatabase/tinydatabase_tablestatic.go:241-272 | opening an existing file leaves it unchanged, and succeeds exactly when its header decodes to the expected version |
| Header.ReopenAccepts | tinydatabase/tinydatabase_tablestatic.go:241-272 | a file that opened once opens again unchanged, with the same version |
| Header.OpenShortIndex | tinydatabase/tinydatabase_tabledynamic.go:378-417 | a fresh index file gets two header fields: the index version and an append pointer that points just past the table header |
| Header.OpenExistingIndex | tinydatabase/tinydatabase_tabledynamic.go:378-417 | an existing index file is left unchanged, and opens exactly when its version field is DYNAMIC1_INDEX |
| Column.GetBytes | tinydatabase/tinydatabase_table.go:58-72 | a width exists exactly for the four known types, and for strings only with a non-negative size; the width is 0 exactly for strings declared with size 0; otherwise the error says whether the size or the type was invalid |
| Column.GetNil | tinydatabase/tinydatabase_table.go:74-102 | a nil cell exists exactly when the width does; it is one byte long for flexible strings and the full width otherwise |
| Column.ConvertToBytes | tinydatabase/tinydatabase_table.go:104-167 | the byte-copying method computes Encode |
| Column.EncodeOkIff | tinydatabase/tinydatabase_table.go:104-167 | a value encodes exactly when the type is valid, the value has that type and a sized string fits; a value of the wrong type gives the mismatch error for the column |
| Column.EncodeLength | tinydatabase/tinydatabase_table.go:104-167 | an encoded cell is as wide as the type, or as long as the string for a flexible string |
| Column.StringCell | tinydatabase/tinydatabase_table.go:138-153 | a string cell starts with the string's bytes and is zero-padded |
| Column.EncodeRoundTrip | tinydatabase/tinydatabase_table.go:169-198 | ConvertToVal of ConvertToBytes gives back every encodable value whose string has no NUL; Go's smaller integer types come back as int64 |
| Column.NilRoundTrip | tinydatabase/tinydatabase_table.go:74-102 | the nil cell decodes to the type's zero value |
| Column.ImageRoundTrip | tinydatabase/tinydatabase_table.go:169-198 | the cell written for a row's column, whether the value or nil, reads back as that column's value in the row |
| Column.UnterminatedIntCell | tinydatabase/tinydatabase_table.go:170-176 | an int64 cell with no terminating varint byte fails with the mismatch error |
| Schema.CheckColumnsOk | tinydatabase/tinydatabase_tablestatic.go:287-307 | setColumns accepts a schema exactly when its names are unique and every column has a width |
| Schema.CheckColumnsWidth | tinydatabase/tinydatabase_tablestatic.go:287-307 | an accepted schema's row width is the sum of its column widths |
| Conditions.CheckMeaning | underReview/day3/tinydatabase.go:125-139 | a missing column or a value of an unknown kind does not match; values of different kinds panic; numbers and times match by their order under the operator; strings match only on equality |
| Conditions.NaNMatchesNothing | underReview/day3/tinydatabase.go:168-193 | a NaN on either side matches under no operator |
| Conditions.ZerosEqual | underReview/day3/tinydatabase.go:168-193 | +0 and -0 compare equal |
| Conditions.OperatorsRelated | underReview/day3/tinydatabase.go:141-166 | <= is < or ==, and >= is > or ==; ordered values satisfy one of <, == and >; an unknown operator matches nothing |
| Conditions.SubSign | underReview/day3/tinydatabase.go:195-220 | the saturating time difference is zero or positive exactly when the instants are equal or ordered the same way |
| Conditions.AllHoldMeaning | underReview/day3/tinydatabase.go:492-521 | all conditions hold exactly when each holds in turn; evaluation fails exactly when some condition panics after all before it held |
| Conditions.MatchAll | underReview/day3/tinydatabase.go:492-521 | the loop over a row's conditions computes AllHold |
| RowCodec.EncodePrefixOk | tinydatabase/tinydatabase_tablestatic.go:106-143 | a row encodes without error exactly when every column's cell does |
| RowCodec.EncodePrefixWidth | tinydatabase/tinydatabase_tablestatic.go:106-143 | when every cell is as wide as its column, the encoded row is as wide as the schema |
| RowCodec.DecodeWritten | tinydatabase/tinydatabase_tablestatic.go:145-190 | decoding the columns where a row's encoding lies gives the expected row |
| RowCodec.DecodeFrame | tinydatabase/tinydatabase_tablestatic.go:145-190 | decoding depends only on the bytes of the row itself |
| RowCodec.ExpectedRowAt | tinydatabase/tinydatabase_tablestatic.go:145-190 | the row read back has exactly the schema's names, each mapped to its column's read-back value |
| RowCodec.ReadColumnsAt | tinydatabase/tinydatabase_tablestatic.go:170-188 | the column-reading loop computes DecodeColumns of the file |
| RowCodec.WriteColumnsAt | tinydatabase/tinydatabase_tablestatic.go:120-137 | the column-writing loop leaves the file overwritten with the encoded prefix, and reports the first failing cell |
| Static.OffsetRoundTrip | tinydatabase/tinydatabase_tablestatic.go:309-316 | converting a row number to an offset and back gives the row number |
| Static.RowCountBounds | tinydatabase/tinydatabase_tablestatic.go:318-330 | the last row number is the number of whole row slots: the next slot starts within the file and ends past its end |
| Static.WriteThenRead | tinydatabase/tinydatabase_tablestatic.go:106-143 | a storable row is appended as row number RowCount, the count grows by one, and that row reads back as the expected row |
| Static.ReadBackColumns | tinydatabase/tinydatabase_tablestatic.go:168-188 | under an accepted schema, the row a clean write reads back (ExpectedRow, see Static.WriteThenRead) has exactly the schema's columns, each the written value (smaller integers widened to int64) or, when the row lacks it, the column's zero value |
| Static.WritesAreNumbered | tinydatabase/tinydatabase_tablestatic.go:106-143 | two writes to a fresh table return row numbers 0 and 1 |
| Static.FailedWriteKeepsCount | tinydatabase/tinydatabase_tablestatic.go:106-143 | a failed write does not change the row count |
| Static.WriteKeepsRows | tinydatabase/tinydatabase_tablestatic.go:106-143 | a write leaves every existing row reading as before |
| Static.DeleteThenRead | tinydatabase/tinydatabase_tablestatic.go:192-214 | after deleting a row in range, reading it reports a deleted row |
| Static.DeleteKeepsRows | tinydatabase/tinydatabase_tablestatic.go:192-214 | deleting a row leaves every other row reading as before |
| Static.RowCountPassesCheck | tinydatabase/tinydatabase_tablestatic.go:145-155 | the range check admits a row number equal to the row count; on a file of whole rows, reading it hits EOF, and deleting it appends a cleared tombstone byte; that byte adds no row when the schema's columns have a positive total width, and is one more row for an empty schema, whose stride is 1 |
| Static.ReadLiveRow | tinydatabase/tinydatabase_tablestatic.go:145-190 | a row in range with a live tombstone reads as the columns decoded after it |
| Static.TableStatic.Close | tinydatabase/tinydatabase_tablestatic.go:91-101 | closing drops the file and keeps the schema |
| Static.TableStatic.SetColumns | tinydatabase/tinydatabase_tablestatic.go:287-307 | an accepted schema is installed with its width; a rejected one leaves the table as it was and returns the error |
| Static.TableStatic.OpenTableFile | tinydatabase/tinydatabase_tablestatic.go:241-272 | the file gets the header OpenHeader writes, with version STATIC1 |
| Static.TableStatic.SearchLastRowNum | tinydatabase/tinydatabase_tablestatic.go:318-330 | returns the row count, and fails on a closed table |
| Static.TableStatic.WriteRow | tinydatabase/tinydatabase_tablestatic.go:106-143 | the file and the result become those of WriteRowSpec |
| Static.TableStatic.ReadRow | tinydatabase/tinydatabase_tablestatic.go:145-190 | returns ReadRowSpec of the file |
| Static.TableStatic.DeleteRow | tinydatabase/tinydatabase_tablestatic.go:192-214 | the file and the error become those of DeleteRowSpec |
| Stride.ReadRowIn | day2/tinydatabase.go:431-467 | reading a row at an offset checks the tombstone, then decodes the columns |
| Stride.WriteLiveRow | day1/tinydatabase.go:210-243 | a negative offset fails and changes nothing; otherwise a live tombstone and the encoded columns overwrite the file from the offset, and the error is the first failing cell's |
| Stride.LiveRowReads | day1/tinydatabase.go:261-297 | a live row holding a fitting row's encoding reads back as the expected row |
| Stride.AppendThenRead | day2/tinydatabase.go:384-390 | a fitting row written at the slot after the last whole row reads back, and the count grows by one |
| Stride.RewriteThenRead | day2/tinydatabase.go:379-382 | a fitting row rewritten over row m reads back and leaves the count unchanged |
| Stride.TombstoneReads | day2/tinydatabase.go:469-480 | a row whose tombstone is cleared reads as deleted |
| Stride.OtherRowKept | day2/tinydatabase.go:336-377 | writing at most one row's worth of bytes at row m leaves every other row reading as before |
| Stride.SumWidthsMeaning | day1/tinydatabase.go:197-208 | the summed width has no error exactly when every column has a width; it is then the schema's width, and otherwise the sum stops at the first bad column |
| Stride.OpenFileMeaning | day1/tinydatabase.go:159-188 | a short file gets a version-1 header; an existing file is left unchanged and its version is read without being checked |
| Dynamic.IndexOffsetRoundTrip | tinydatabase/tinydatabase_tabledynamic.go:459-466 | converting an index number to an offset and back gives the index number |
| Dynamic.IndexCountBounds | tinydatabase/tinydatabase_tabledynamic.go:468-475 | the last index number counts the whole slots: the next slot starts within the index and ends past its end |
| Dynamic.FreshIndexIsEmpty | tinydatabase/tinydatabase_tabledynamic.go:378-417 | a freshly opened index has no slots, and its append pointer is just past the table header |
| Dynamic.EncodeDynBody | tinydatabase/tinydatabase_tabledynamic.go:154-180 | the bytes the dynamic write puts in the table file are the shared row encoding, with the same error |
| Dynamic.EncodeDynEntries | tinydatabase/tinydatabase_tabledynamic.go:170-178 | a clean write adds one ten-byte length entry per flexible column |
| Dynamic.FlexibleCountIs | tinydatabase/tinydatabase_tabledynamic.go:432-457 | the number of flexible columns setColumns counts is the number of entries a slot holds |
| Dynamic.DecodeDynWritten | tinydatabase/tinydatabase_tabledynamic.go:199-280 | reading the columns where a row and its index entries lie gives the expected row |
| Dynamic.IntendedWriteThenRead | tinydatabase/tinydatabase_tabledynamic.go:126-197 | with entries written for flexible columns, a storable row gets the next index number, the index grows by one slot, the append pointer moves past the row, and the row reads back |
| Dynamic.WriteThenRead | tinydatabase/tinydatabase_tabledynamic.go:126-197 | the same holds for the write as written when the declared sizes agree with the widths |
| Dynamic.WritesAreNumbered | tinydatabase/tinydatabase_tabledynamic.go:126-197 | two successive writes get consecutive index numbers |
| Dynamic.FailedWriteKeepsPointer | tinydatabase/tinydatabase_tabledynamic.go:181-186 | a failed write leaves the append pointer unchanged |
| Dynamic.IntendedFailedWriteKeepsIndex | tinydatabase/tinydatabase_tabledynamic.go:126-197 | when the row is encoded before anything is written, a failed write leaves the index, its count and its pointer unchanged |
| Dynamic.FailedWriteAddsRow | tinydatabase/tinydatabase_tabledynamic.go:145-165 | as written, a write to a fresh index with no flexible columns fails on a mismatched value yet leaves one more index slot |
| Dynamic.DeclaredSizeOverflow | tinydatabase/tinydatabase_tabledynamic.go:170-178 | as written, an int64 column declared with size 0 writes a length entry that no slot has room for: one write leaves two slots |
| Dynamic.AsWrittenAgrees | tinydatabase/tinydatabase_tabledynamic.go:170-178 | when declared sizes agree with widths, the write as written equals the intended one |
| Dynamic.WellDeclaredWhen | tinydatabase/tinydatabase_tabledynamic.go:432-457 | declared sizes agree with widths whenever every non-string column has a non-zero declared size |
| Dynamic.ReadInRange | tinydatabase/tinydatabase_tabledynamic.go:199-280 | a row number in range is read through its index slot |
| Dynamic.DeleteThenRead | tinydatabase/tinydatabase_tabledynamic.go:282-313 | after deleting a row whose slot points into the table, reading it reports a deleted row |
| Dynamic.DeleteTouchesTombstone | tinydatabase/tinydatabase_tabledynamic.go:282-313 | a delete clears only the tombstone its slot points at; every other table byte stays |
| Dynamic.IndexCountPassesCheck | tinydatabase/tinydatabase_tabledynamic.go:199-209 | the range check admits the index count; on an index of whole slots, reading it and deleting it hit EOF |
| DynamicTable.WriteDynColumnsAt | tinydatabase/tinydatabase_tabledynamic.go:154-180 | the column loop overwrites the table from the row's offset with the encoded body, and the index with the length entries |
| DynamicTable.ReadDynColumnsAt | tinydatabase/tinydatabase_tabledynamic.go:238-278 | the column-reading loop computes DecodeDyn of both files |
| DynamicTable.TableDynamic.Close | tinydatabase/tinydatabase_tabledynamic.go:105-121 | closing drops both files and keeps the schema |
| DynamicTable.TableDynamic.SetColumns | tinydatabase/tinydatabase_tabledynamic.go:432-457 | an accepted schema is installed with its width and its count of flexible columns; a rejected one changes nothing |
| DynamicTable.TableDynamic.OpenTableFile | tinydatabase/tinydatabase_tabledynamic.go:341-376 | the table file gets the header with version DYNAMIC1_TABLE |
| DynamicTable.TableDynamic.OpenIndexFile | tinydatabase/tinydatabase_tabledynamic.go:378-417 | the index file gets OpenIndexHeader's two header fields |
| DynamicTable.TableDynamic.SearchLastIndexNum | tinydatabase/tinydatabase_tabledynamic.go:468-475 | returns the slot count, and fails without an index |
| DynamicTable.TableDynamic.SearchLastTableOffset | tinydatabase/tinydatabase_tabledynamic.go:477-489 | returns the append pointer |
| DynamicTable.TableDynamic.WriteRow | tinydatabase/tinydatabase_tabledynamic.go:126-197 | both files and the result become those of WriteRowSpec |
| DynamicTable.TableDynamic.ReadRow | tinydatabase/tinydatabase_tabledynamic.go:199-280 | returns ReadRowSpec of both files |
| DynamicTable.TableDynamic.DeleteRow | tinydatabase/tinydatabase_tabledynamic.go:282-313 | the table file and the error become those of DeleteRowSpec |
| Legacy.ConvertBytes | underReview/day3/tinydatabase.go:277-325 | the method computes Convert |
| Legacy.CellWidths | underReview/day3/tinydatabase.go:233-275 | widths and nil cells exist exactly for known kinds; nil cells and encoded cells are exactly as wide as the kind |
| Legacy.ConfigWidths | underReview/day3/tinydatabase.go:233-246 | the ColumnConfig widths: 10, 8, 256 and 15, otherwise an invalid type |
| Legacy.ConvertOkIff | underReview/day3/tinydatabase.go:277-325 | a value converts exactly when it has the column's kind and, for strings, is at most 256 bytes; otherwise a mismatch, or a panic for a too-long string |
| Legacy.ConvertRoundTrip | underReview/day3/tinydatabase.go:327-354 | a storable value (for a string: shorter than 256 bytes and free of NULs) converts and reads back unchanged |
| Legacy.NilRoundTrip | underReview/day3/tinydatabase.go:248-275 | the nil cell reads back as the kind's zero value |
| Legacy.FullStringPanics | day2/tinydatabase.go:253-256 | as written, a 256-byte string with no NUL is accepted by ConvertBytes but panics in ConvertVal |
| Legacy.GuardedRoundTrip | day2/tinydatabase.go:240-267 | with the -1 guard of the current codec, every NUL-free string of at most 256 bytes reads back |
| ConfigTable.StagedFails | underReview/day3/tinydatabase.go:423-464 | staging a row fails exactly when some cell fails, with the first failing cell's error |
| ConfigTable.StagedCells | underReview/day3/tinydatabase.go:423-464 | with distinct names, the staged cells laid out in schema order are the row's encoding |
| ConfigTable.StageRow | underReview/day3/tinydatabase.go:428-442 | the staging loop computes Staged |
| ConfigTable.WriteCells | underReview/day3/tinydatabase.go:452-458 | the writing loop overwrites the file with the staged cells in schema order |
| ConfigTable.WriteStagedRow | underReview/day3/tinydatabase.go:444-458 | a negative offset fails and changes nothing; otherwise the tombstone and the cells are written |
| ConfigTable.WriteRowOutcome | underReview/day3/tinydatabase.go:423-464 | a row that does not encode leaves the file unchanged with the cell's error; for a schema with distinct names, one that does is written whole at the offset |
| ConfigTable.ScanFails | underReview/day3/tinydatabase.go:492-521 | a scan fails exactly when some row in range fails to read for a reason other than deletion (an undecodable int64 cell, a bad time version byte, a string cell that panics), or its conditions panic |
| ConfigTable.ScanSound | underReview/day3/tinydatabase.go:492-521 | every hit is a row number in range whose row reads and matches, and hits ascend |
| ConfigTable.ScanComplete | underReview/day3/tinydatabase.go:492-521 | every matching row in range is a hit |
| ConfigTable.HitMapOfScan | underReview/day3/tinydatabase.go:492-521 | the select map's keys are exactly the matching row numbers, each mapped to its row |
| ConfigTable.SelectMeaning | underReview/day3/tinydatabase.go:492-521 | Select fails exactly when some row in range fails to read for a reason other than deletion, or its conditions panic; otherwise it maps exactly the matching live rows to their contents |
| ConfigTable.SelectAllLive | underReview/day3/tinydatabase.go:492-521 | with no conditions, Select returns exactly the rows that read |
| ConfigTable.SelectListMeaning | day2/tinydatabase.go:402-429 | day2's list holds the same rows as day3's map, in ascending row order |
| ConfigTable.AcceptedFits | underReview/day3/tinydatabase.go:410-421 | under an accepted schema, every storable row is exactly as wide as the row stride |
| ConfigTable.InsertThenRead | underReview/day3/tinydatabase.go:471-480 | for an accepted schema with distinct names, a fitting row is inserted as row RowCount, the count grows by one, and it reads back |
| ConfigTable.RepeatedNameShortRow | underReview/day3/tinydatabase.go:410-458 | setColumns accepts a schema with two columns named "a" (string256, int64) and width 266, yet writing an empty row writes only the tombstone and two ten-byte cells: 21 bytes, not a 267-byte row |
| ConfigTable.FailedInsertKeepsFile | underReview/day3/tinydatabase.go:471-480 | an insert whose row does not encode leaves the file unchanged |
| ConfigTable.UpdateThenRead | underReview/day3/tinydatabase.go:466-469 | for an accepted schema with distinct names, after updating row m with a fitting row, it reads back as the expected row |
| ConfigTable.UpdateKeepsOthers | underReview/day3/tinydatabase.go:466-469 | for an accepted schema with distinct names and a fitting row, an update leaves every other whole row reading as before |
| ConfigTable.DeleteThenRead | underReview/day3/tinydatabase.go:561-572 | a deleted row reads as deleted; a negative offset leaves the file unchanged |
| ConfigTable.DeleteKeepsOthers | underReview/day3/tinydatabase.go:561-572 | a delete leaves every other whole row reading as before |
| ConfigTable.ReadOutOfRange | underReview/day3/tinydatabase.go:523-559 | a row past the end of the file reads EOF, and a negative row offset fails |
| ConfigTable.Table.OpenFile | underReview/day3/tinydatabase.go:369-398 | the file gets the header of Stride.OpenFileHeader, and the table records its name |
| ConfigTable.Table.Close | underReview/day3/tinydatabase.go:400-408 | closing a closed table reports it; otherwise the file and name are dropped |
| ConfigTable.Table.SetColumns | underReview/day3/tinydatabase.go:410-421 | the schema is installed and the width summed up to the first invalid column |
| ConfigTable.Table.GetLastNum | underReview/day3/tinydatabase.go:482-490 | returns the row count, or -1 with an error on a closed table |
| ConfigTable.Table.WriteRow | underReview/day3/tinydatabase.go:423-464 | the file and error become those of WriteRowSpec |
| ConfigTable.Table.Update | underReview/day3/tinydatabase.go:466-469 | writes the row at row m's offset |
| ConfigTable.Table.Insert | underReview/day3/tinydatabase.go:471-480 | writes at the slot after the last whole row and returns its number; a closed table gives -1 |
| ConfigTable.Table.InsertUnchecked | day2/tinydatabase.go:384-390 | day2's insert ignores the count's error: on a closed table it returns -1 with the write's error |
| ConfigTable.Table.Read | underReview/day3/tinydatabase.go:523-559 | returns the row at row m's offset |
| ConfigTable.Table.Delete | underReview/day3/tinydatabase.go:561-572 | clears row m's tombstone |
| ConfigTable.Table.Select | underReview/day3/tinydatabase.go:492-521 | the scanning loop returns SelectSpec |
| ConfigTable.Table.SelectList | day2/tinydatabase.go:402-429 | the scanning loop returns SelectListSpec |
| Databases.CommandWords | underReview/day3/tinydatabase.go:716-768 | the command words and the command numbers are in one-to-one correspondence |
| Databases.LookupWords | underReview/day3/tinydatabase.go:716-768 | the lookup words and the operators are in one-to-one correspondence |
| Databases.ColumnTypeWords | underReview/day3/tinydatabase.go:716-768 | the column type words and the type numbers are in one-to-one correspondence |
| Databases.WhereFails | underReview/day3/tinydatabase.go:716-768 | converting the conditions fails exactly when one fails, with the first failure |
| Databases.WhereValues | underReview/day3/tinydatabase.go:716-768 | a converted where clause has one condition per JSON condition, each its conversion |
| Databases.ConvertJsonFails | underReview/day3/tinydatabase.go:716-768 | an unknown command fails; otherwise conversion fails exactly when some condition has an unknown lookup or type |
| Databases.ConvertJsonRoundTrip | underReview/day3/tinydatabase.go:716-768 | a sentence with known words converts back from its JSON form |
| Databases.ConvertJsonInverse | underReview/day3/tinydatabase.go:716-768 | a JSON sentence that converts is the JSON form of its conversion |
| Databases.ConvertJson | underReview/day3/tinydatabase.go:716-768 | the conversion loop computes ConvertedSentence |
| Databases.AcceptedStampFits | underReview/day3/tinydatabase.go:666-714 | under an accepted schema with distinct names, an update's cells fit in one row |
| Databases.ExecDropMeaning | underReview/day3/tinydatabase.go:666-714 | a drop returns the select's result; every selected row then reads as deleted and every other row as before |
| Databases.ExecUpdateResult | underReview/day3/tinydatabase.go:666-714 | for an accepted schema with distinct names and row data whose every value fits its column: an update fails exactly when its select does, maps every selected row to the new row, and never changes the file's length |
| Databases.ExecUpdateReads | underReview/day3/tinydatabase.go:666-714 | for an accepted schema with distinct names and row data whose every value fits its column, after a successful select: every selected row reads as the expected row (the written values, integers widened, with missing columns read as their zero values) and every other row as before |
| Databases.ExecUpdateUnconvertible | underReview/day3/tinydatabase.go:676-687 | an update whose select is non-empty but whose row data does not convert fails with the conversion's error and leaves the file unchanged |
| Databases.ExecInsertMeaning | underReview/day3/tinydatabase.go:666-714 | an insert returns the new row under the next row number, and the count grows by one |
| Databases.UpdateRows | underReview/day3/tinydatabase.go:681-687 | the update loop rewrites every target row, in any order, with the staged cells |
| Databases.DeleteRows | underReview/day3/tinydatabase.go:703-709 | the drop loop clears every target's tombstone, in any order |
| Databases.Database.Exec | underReview/day3/tinydatabase.go:666-714 | an unknown table fails; otherwise the result and the file are ExecOnFile's |
| Part1.ConvertToBytes | underReview/part1/tinydatabase.go:219-265 | the byte-copying method computes PartEncode |
| Part1.NegativeSizeAccepted | underReview/part1/tinydatabase.go:179-217 | a string declared with a negative size is accepted by setColumns, yet its nil cell and its values panic |
| Part1.PartAligned | underReview/part1/tinydatabase.go:267-293 | every storable cell reads back as written, and nil cells are as wide as the column |
| Part1.PartFits | underReview/part1/tinydatabase.go:362-374 | under an accepted schema, a fitting row is exactly as wide as the stride |
| Part1.OffsetsAgree | underReview/part1/tinydatabase.go:376-392 | part1's offsets and its last row number agree with the static table's |
| Part1.WriteResolved | underReview/part1/tinydatabase.go:85-125 | row -1 resolves to the row after the last whole row, any other number to itself |
| Part1.AppendThenRead | underReview/part1/tinydatabase.go:85-125 | writing row -1 appends as row RowCount, the count grows by one, and it reads back |
| Part1.RewriteThenRead | underReview/part1/tinydatabase.go:85-125 | writing row m returns m and row m reads back as the expected row |
| Part1.FailedWriteLeavesLiveRow | underReview/part1/tinydatabase.go:85-125 | a failed write still marks its row live, because the tombstone goes out before the columns |
| Part1.DeleteThenRead | underReview/part1/tinydatabase.go:164-175 | a deleted row reads as deleted; a negative offset leaves the file unchanged |
| Part1.ReadOutOfRange | underReview/part1/tinydatabase.go:127-162 | a row past the end reads EOF; a negative offset fails |
| Part1.Table.OpenTableFile | underReview/part1/tinydatabase.go:316-347 | the file gets the version-1 header |
| Part1.Table.Close | underReview/part1/tinydatabase.go:73-83 | closing drops the file and keeps the schema |
| Part1.Table.SetColumns | underReview/part1/tinydatabase.go:362-374 | the schema is installed and the width summed up to the first invalid column |
| Part1.Table.WriteRow | underReview/part1/tinydatabase.go:85-125 | the file and result become those of WriteRowSpec |
| Part1.Table.ReadRow | underReview/part1/tinydatabase.go:127-162 | returns the row at the row's offset, with no range check |
| Part1.Table.DeleteRow | underReview/part1/tinydatabase.go:164-175 | clears the row's tombstone |
| Day1.TypeNames | day1/tinydatabase.go:30-41 | exactly the four type names are known, each keeps its name, and their widths are 10, 8, 256 and 15 |
| Day1.Day1Aligned | day1/tinydatabase.go:118-144 | every storable cell reads back as written |
| Day1.AcceptedFits | day1/tinydatabase.go:197-208 | under an accepted schema, a fitting row is exactly as wide as the stride |
| Day1.UpdateThenRead | day1/tinydatabase.go:245-248 | after updating row m, it reads back as the expected row |
| Day1.InsertAtBoundary | day1/tinydatabase.go:250-259 | on a file of whole rows, inserting at the file end is inserting at the next row's offset; it succeeds, keeps the file whole and adds one row |
| Day1.AlignedInsertThenRead | day1/tinydatabase.go:250-259 | inserting at the offset of the returned row number succeeds and that row reads back |
| Day1.MisalignedInsert | day1/tinydatabase.go:250-259 | as written, after a failed insert leaves a partial row, the next insert returns row 0, yet row 0 reads a wrong value and the row written is unreachable |
| Day1.DeleteThenRead | day1/tinydatabase.go:299-310 | a deleted row reads as deleted; a negative offset leaves the file unchanged |
| Day1.Table.OpenFile | day1/tinydatabase.go:159-188 | the file gets the header of Stride.OpenFileHeader, and the table records its name |
| Day1.Table.Close | day1/tinydatabase.go:190-195 | closing drops the file and name, without an error |
| Day1.Table.SetColumns | day1/tinydatabase.go:197-208 | the schema is installed and the width summed up to the first invalid column |
| Day1.Table.WriteRow | day1/tinydatabase.go:210-243 | the file and error become those of WriteRowSpec |
| Day1.Table.Update | day1/tinydatabase.go:245-248 | writes the row at row m's offset |
| Day1.Table.Insert | day1/tinydatabase.go:250-259 | writes at the file end and returns the truncated row count |
| Day1.Table.Read | day1/tinydatabase.go:261-297 | returns the row at row m's offset |
| Day1.Table.Delete | day1/tinydatabase.go:299-310 | clears row m's tombstone |

## Left out

- File I/O is the `File` class over a byte sequence. `Sync`, seeking, operating-system errors and partial writes are not modelled. `WriteAt` either fails at a negative offset or writes every byte.
- File offsets are unbounded integers. Go's int64 wrap-around of offsets, and day1's uint64 wrap of `columnBytes + 1`, are not modelled.
- `time.Time` is its fifteen-byte wire form. `MarshalBinary` and `UnmarshalBinary` are not modelled beyond the version byte, and time zones are not modelled.
- A float is its 64-bit pattern. Comparison follows IEEE order through a sign-magnitude key; no arithmetic is modelled.
- Go map iteration order is arbitrary. Exec's update and drop loops pick their rows with `:|`, and their results are stated for every order.
- The JSON configuration files (`Save`, `LoadConfig`, `openConfigFile`, `saveConfigFile`) are not modelled, because they are `encoding/json` I/O.
- `NewTable`, `NewDatabase`, `CreateTable`, `Open`, `Database.Close` and `GetTableType` are not modelled. They only open files and wire up the tables modelled here.
- `ExecJson` is not modelled: its unmarshalling is `encoding/json`, and `convertJson`, which it calls, is modelled.
- The web interface, the database config layer and the server are not part of this model.
- Databases.Database.Exec: the file after an update is stated only when the update's cells fit in one row. This always holds for accepted schemas with distinct names (`AcceptedStampFits`). A wider row would spill into the next row's slot.
- DynamicTable.TableDynamic.ReadRow: when the index is open but the table file is closed, the contract says only that the read fails, not which error it reports.
- Static.WriteThenRead: proved for schemas in which every column has a positive width. A string declared with size 0 makes static rows variable-width, and the row stride no longer finds them.
- Dynamic.WriteThenRead: proved for schemas whose declared sizes agree with the column widths (see Findings). The intended write is proved for every schema by Dynamic.IntendedWriteThenRead.
- Part1.Table.SetColumns: part1 assigns `val.Size = num` to the loop's copy of the column. That assignment has no effect, so it is not modelled.
- ConfigTable.WriteRowOutcome: the whole-row clause needs distinct column names. day3's setColumns accepts repeated names; the staging map then keeps one cell per name, and the written row is narrower than the stride (ConfigTable.RepeatedNameShortRow).
- ConfigTable.InsertThenRead: proved for schemas with distinct names only, for the reason above.
- ConfigTable.UpdateThenRead: proved for schemas with distinct names only, for the reason above.
- ConfigTable.UpdateKeepsOthers: proved for schemas with distinct names only, for the reason above.
- Rows that extend past the end of a file are partial rows. Reading one fails with EOF, which the read lemmas state. Whole-row lemmas assume the row lies inside the file.

## Findings

| source | as written | input that shows it | evidently intended | confidence | as-written member | corrected member |
|---|---|---|---|---|---|---|
| tinydatabase/tinydatabase_tabledynamic.go:170-178 | an index length entry is written when the declared `Size` is 0, while setColumns counts flexible columns by width | an int64 column declared with size 0, on a fresh index: one write leaves two slots | write an entry exactly for the columns whose width is 0 | not executed | Dynamic.DeclaredSizeOverflow | Dynamic.IntendedWriteThenRead |
| tinydatabase/tinydatabase_tabledynamic.go:145-165 | the index slot is written before the row is converted, and a conversion error returns without undoing it | no flexible columns, fresh index, a string stored in an int64 column: the write fails and the slot count becomes 1 | a failed write leaves the index unchanged | not executed | Dynamic.FailedWriteAddsRow | Dynamic.IntendedFailedWriteKeepsIndex |
| day2/tinydatabase.go:253-256 | the string decode slices up to `IndexByte(b, 0)` without handling -1 | a 256-byte string with no zero byte is accepted on write and panics on read | treat a cell without NUL as the whole cell, as the current codec does | not executed | Legacy.FullStringPanics | Legacy.GuardedRoundTrip |
| day1/tinydatabase.go:250-259 | Insert writes at the file end but returns a row number from a truncating division | schema [a int64], fresh file: inserting a string fails after writing the tombstone; inserting 0 then returns row 0, row 0 reads a == -1, and row 1 reads as deleted | write at the offset of the returned row number, as day2 and later do | not executed | Day1.MisalignedInsert | Day1.AlignedInsertThenRead |
