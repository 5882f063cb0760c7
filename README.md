# IES table decoder — a Dafny model

This project models the decoder of the IES table format (`IesFile` in
`ConsoleApplication1/IESFormat.cs`). An IES file holds three parts:

- a fixed 156-byte header;
- a catalog of 136-byte column entries, anchored at the end of the file;
- the rows, anchored at the end of the file as well.

The decoder works in three steps:

1. It reads the header.
2. It reads the catalog. Both names of each entry are de-obfuscated, and a name already taken gets `_1`, `_2`, … appended. The catalog is then sorted with `IesColumn.CompareTo`.
3. It reads `RowCount` rows against the sorted catalog. Each row is a dictionary from column name to cell. For a numeric cell the decoder tests whether the float read is a whole number, but it stores a float either way. The conditional that picks the value has a `uint` and a `float` operand, so its type is `float`. The cell is therefore the float read, except that −0.0 becomes +0.0. A text cell is a de-obfuscated string.

`IesRow`'s typed accessors read the cells back.

The modules follow the source's structure:

- `Primitives`: bytes, the unsigned widths, `Option`/`Result`, and the exceptions a decode can end with (`DecodeError`).
- `ByteCursor`: the `BinaryReader`/`MemoryStream` behaviour the decoder relies on.
  - The pure readers are `ReadU16At`, `ReadU32At`, `ReadBytesAt` and `SeekAt`.
  - A `Cursor` class has a position that the reads advance in place.
  - `Repeat` is a counted loop of reads, with generic lemmas about it.
- `StringCodec`: `DecryptString`, an XOR with key 1 followed by trimming trailing U+0001.
- `ColumnNames`: the duplicate-name loop of `ReadColumns` (`UniqueName`, `Deduplicate`).
- `Columns`: `IesColumn`, `ColumnType`, `IsNumber`, `CompareTo` and the sort.
- `Rows`: `IesRow` as a dictionary, the numeric-cell rule (`WholeValue`, `NumericCell`), the value of a single (`SingleValue`) and its truncation (`Truncated`), and the accessors.
- `IesLayout`: the byte layout as pure functions of the buffer. These are `ParseHeader`, `ColumnBlock`, `ParseCell`, `ParseRow` and `RowBlock`, each with lemmas stating where every field lies and when a read fails.
- `IesFormat`: the `IesFile` class. Its fields are `header`, `columns` and `rows`, over a `Cursor`. Its methods change them step by step, as the C# methods do, and each method is proved equal to the matching `IesLayout` function. `Open` is the `IesFile(byte[])` constructor. It either gives an object whose state satisfies `Decodes`, or fails with an error that `FailsWith` describes. The two never both hold, whatever order `List.Sort` leaves equal keys in, so a file that decodes always opens.

Exceptions are modelled as `Err` values:

- `EndOfStream` for `ReadUInt16`/`ReadUInt32`/`ReadSingle` past the end of the buffer;
- `SeekBeforeBegin` for a seek to a negative position, and for one past `int.MaxValue`, because a `MemoryStream` position is an `int` and such a target wraps to a negative one;
- `DuplicateKey` for `Dictionary.Add`.

A failed read ends the decode, so the model does not track the position after a failure.

The model follows the code:

- Both anchors are measured from the length of the buffer, because `Seek` is called with `SeekOrigin.End` (IESFormat.cs lines 66 and 110). The header's `FileSize` plays no part.
- `ReadBytes` returns fewer bytes than asked when the buffer runs out, and that is not an error. Only the fixed-size reads fail at the end. A seek fails only on a target that is negative or past `int.MaxValue`. The forward seek after each row (IESFormat.cs line 155) can therefore fail on a buffer that ends within `StringColumnCount` bytes of `int.MaxValue`.
- `CompareTo` is a total preorder on the key (type group, position), as `CompareToIsTotalPreorder` proves. String and String2 share a group.
- `List.Sort` is not stable. The model therefore promises a sorted permutation of the catalog, not one particular order of equal keys.
- `(uint)f` is an unchecked conversion, which does not throw, so the `catch` that would turn the float into NaN never runs.

## Model

The layout functions of `IesLayout` (`ParseHeader`, `ColumnBlock`, `ParseCell`, `ParseCells`, `ParseRow`, `RowBlock`) and of `StringCodec` (`Xored`, `TrimEnd`, `Decrypted`) are the model itself. Their contracts are the lemmas about them in the rows below.

| member | source | states |
|---|---|---|
| ByteCursor.ReadBytesAt | ConsoleApplication1/IESFormat.cs:117 | at most n bytes are returned and the position moves by what was returned; these are the n bytes at pos when they fit, the rest of the buffer when fewer remain, nothing past the end; there is never a failure |
| ByteCursor.SeekAt | ConsoleApplication1/IESFormat.cs:155 | the target is origin plus offset, computed without wrap-around; a target that is negative or past int.MaxValue fails with SeekBeforeBegin; otherwise the new position is the target, even past the end |
| ByteCursor.RepeatCount | ConsoleApplication1/IESFormat.cs:113-156 | a counted read loop that finishes has appended exactly `count` records and keeps what was collected before as its prefix |
| ByteCursor.RepeatFailsWith | ConsoleApplication1/IESFormat.cs:113-156 | if each single read can fail only with errors from a set, the loop fails only with errors from that set |
| ByteCursor.RepeatKeeps | ConsoleApplication1/IESFormat.cs:113-156 | a property that every successful read gives its record holds of every record the loop collects |
| ByteCursor.RepeatFixed | ConsoleApplication1/IESFormat.cs:69-86 | fixed-width records: the loop succeeds exactly when `count` whole records fit (or count is 0), ends width·count bytes on, and otherwise fails with the reader's error |
| ByteCursor.RepeatFixedAt | ConsoleApplication1/IESFormat.cs:69-86 | fixed-width records: record i of the result is the record read i widths after the start |
| ByteCursor.RepeatFixedExact | ConsoleApplication1/IESFormat.cs:69-86 | records that each sit at their place are exactly what the loop reads (the converse of RepeatFixedAt) |
| ByteCursor.Cursor.constructor | ConsoleApplication1/IESFormat.cs:42-45 | a reader over the whole content, positioned at 0 |
| ByteCursor.Cursor.ReadUInt16 | ConsoleApplication1/IESFormat.cs:100-105 | returns the little-endian u16 at the position and advances by 2, or fails with EndOfStream when fewer than 2 bytes remain |
| ByteCursor.Cursor.ReadUInt32 | ConsoleApplication1/IESFormat.cs:96-99 | returns the little-endian u32 at the position and advances by 4 (this is also ReadSingle's raw bits), or fails with EndOfStream |
| ByteCursor.Cursor.ReadBytes | ConsoleApplication1/IESFormat.cs:73-74 | returns the bytes ReadBytesAt describes and moves past exactly those |
| ByteCursor.Cursor.Seek | ConsoleApplication1/IESFormat.cs:66 | moves to SeekAt's target, or fails with its error and leaves the position alone |
| StringCodec.XoredBytes | ConsoleApplication1/IESFormat.cs:52-54 | the XORed buffer has the field's length, and byte i is byte i of the field XOR 1 |
| StringCodec.TrimEndShape | ConsoleApplication1/IESFormat.cs:56 | TrimEnd keeps a prefix that does not end in U+0001, and everything it cuts off is U+0001 |
| StringCodec.DecryptedShape | ConsoleApplication1/IESFormat.cs:47-57 | the text is no longer than the field, never ends in U+0001, is the field XOR 1 byte by byte, and is cut short only over NUL padding |
| StringCodec.TrimEndPadded | ConsoleApplication1/IESFormat.cs:56 | trimming a text that does not end in U+0001, followed by any run of U+0001, gives the text back |
| StringCodec.DecryptEncrypt | ConsoleApplication1/IESFormat.cs:47-57 | round trip: a text not ending in U+0001, obfuscated with key 1 and padded with NULs, decrypts back to itself |
| StringCodec.DecryptString | ConsoleApplication1/IESFormat.cs:47-57 | the loop filling a fresh buffer with data XOR key, followed by the trim, gives Decrypted(data) |
| ColumnNames.Digit | ConsoleApplication1/IESFormat.cs:83 | the ASCII digit of d |
| ColumnNames.Decimal | ConsoleApplication1/IESFormat.cs:83 | the decimal spelling of j is never empty, and has at least two digits from 10 on |
| ColumnNames.DecimalInjective | ConsoleApplication1/IESFormat.cs:83 | different suffix numbers have different spellings |
| ColumnNames.CandidateInjective | ConsoleApplication1/IESFormat.cs:81-83 | the names tried (stem, stem_1, stem_2, …) are pairwise different |
| ColumnNames.CandidateSetSize | ConsoleApplication1/IESFormat.cs:82-83 | the first m names tried are m different names |
| ColumnNames.FirstFreeIsFree | ConsoleApplication1/IESFormat.cs:82-83 | pigeonhole: among the first \|taken\|+1 names tried one is free, and the search stops at the first free one |
| ColumnNames.NameSetSize | ConsoleApplication1/IESFormat.cs:82 | a catalog of n columns holds at most n distinct names |
| ColumnNames.UniqueNameRule | ConsoleApplication1/IESFormat.cs:80-85 | the chosen name is not taken; a free name is kept; otherwise it is stem_j for the least free j ≥ 1, with j ≤ \|taken\| |
| ColumnNames.Deduplicate | ConsoleApplication1/IESFormat.cs:80-85 | the renaming loop terminates with j ≤ \|taken\|+1 and the name UniqueName describes, which is not taken |
| Columns.Names | ConsoleApplication1/IESFormat.cs:82 | the catalog's names, one per column, in catalog order |
| Columns.IsNumber | ConsoleApplication1/IESFormat.cs:179 | a column is numeric exactly when its type is Float, which is exactly the first sort group |
| Columns.NumbersCompareFirst | ConsoleApplication1/IESFormat.cs:179-194 | a numeric column compares before every text column, whatever the positions |
| Columns.CompareTo | ConsoleApplication1/IESFormat.cs:181-194 | negative, zero or positive exactly when the key (type group, position) is less, equal or greater, with String2 in String's group |
| Columns.CompareToIsTotalPreorder | ConsoleApplication1/IESFormat.cs:181-194 | CompareTo is reflexive, sign-antisymmetric, transitive for ≤ 0 and < 0, and total |
| Columns.UniqueNamesDistinct | ConsoleApplication1/IESFormat.cs:80-85 | pairwise different column names are exactly a duplicate-free name list |
| Columns.NumbersBeforeText | ConsoleApplication1/IESFormat.cs:87 | in the sorted catalog every Float column comes before every String and String2 column |
| Columns.SwapNeighbours | ConsoleApplication1/IESFormat.cs:87 | swapping two neighbours keeps the same multiset of columns |
| Columns.OccursAtMostOnce | ConsoleApplication1/IESFormat.cs:80-85 | with unique names no column occurs twice |
| Columns.PermutationKeepsUniqueNames | ConsoleApplication1/IESFormat.cs:87 | sorting a catalog with unique names keeps them unique |
| Columns.SortColumns | ConsoleApplication1/IESFormat.cs:87 | the result is sorted by CompareTo and is a permutation of the input |
| Columns.InsertAt | ConsoleApplication1/IESFormat.cs:87 | one insertion pass keeps the multiset of columns and leaves the prefix up to and including the inserted column sorted under CompareTo |
| Columns.NumberCountPermutation | ConsoleApplication1/IESFormat.cs:87 | reordering a catalog keeps its number of Float columns |
| Columns.SortedNumbersFirst | ConsoleApplication1/IESFormat.cs:87 | in a sorted catalog the Float columns are exactly the first NumberCount columns |
| Columns.SortedPermutationsSameKinds | ConsoleApplication1/IESFormat.cs:87 | every sorted reordering of a catalog has its Float columns at the same places, whatever order equal keys are left in |
| Rows.Keys | ConsoleApplication1/IESFormat.cs:204 | the row's keys, one per entry, in the order they were added |
| Rows.Find | ConsoleApplication1/IESFormat.cs:204 | there is a cell exactly when some entry has the key, and it is the cell of such an entry |
| Rows.Lookup | ConsoleApplication1/IESFormat.cs:204 | there is a cell exactly when the row contains the key |
| Rows.Add | ConsoleApplication1/IESFormat.cs:137-150 | fails with DuplicateKey exactly when the key is present; otherwise the keys gain the new key at the end |
| Rows.AddThenLookup | ConsoleApplication1/IESFormat.cs:137-150 | after Add the new key maps to the new cell, and every other key maps to what it mapped to before |
| Rows.HalvedExactlyDivides | ConsoleApplication1/IESFormat.cs:130-139 | halving k times succeeds exactly when 2^k divides m, giving m / 2^k |
| Rows.DoubledIsProduct | ConsoleApplication1/IESFormat.cs:130-139 | doubling k times is multiplying by 2^k |
| Rows.DoubledBelow | ConsoleApplication1/IESFormat.cs:130 | a 24-bit significand shifted left by at most 8 places fits in a uint |
| Rows.WholeValue | ConsoleApplication1/IESFormat.cs:126-140 | the whole-number test `(float)(uint)f == f`: it accepts +0.0 and −0.0 with 0, and no negative float other than −0.0; together with the lemmas below it accepts exactly the floats whose value is a whole number below 2^32 (WholeValueIsTheValue, WholeNumbersPass) |
| Rows.WholeValueIsTheFloat | ConsoleApplication1/IESFormat.cs:126-140 | for a positive single with exponent e: below 2^23 it is accepted exactly when its value m·2^(e−150) is whole, and the accepted number is that value; from 2^23 up to 2^32 it is accepted with m·2^(e−150) |
| Rows.WholeValueIsTheValue | ConsoleApplication1/IESFormat.cs:126-140 | a number the test accepts is finite and is exactly the value of the float read |
| Rows.WholeNumbersPass | ConsoleApplication1/IESFormat.cs:126-140 | conversely, a float whose value is a whole number n below 2^32 is accepted with n |
| Rows.WholeValueOfFiveMillion | ConsoleApplication1/IESFormat.cs:126-140 | 5000000.0 passes the test with 5000000 and is stored as the same float |
| Rows.WholeValueOfAFraction | ConsoleApplication1/IESFormat.cs:126-140 | 4194304.5 fails the test and is stored as the same float |
| Rows.WholeValueOfALargeNumber | ConsoleApplication1/IESFormat.cs:126-140 | 16777218.0 passes the test with 16777218 and is stored as the same float |
| Rows.WholeValueOfSpecials | ConsoleApplication1/IESFormat.cs:126-140 | NaN and 2^32 fail the test; −0.0 passes it with 0 and is stored as +0.0 |
| Rows.NumericCell | ConsoleApplication1/IESFormat.cs:137-141 | the cell of a numeric field is always a float, never a uint |
| Rows.NumericCellKeepsTheFloat | ConsoleApplication1/IESFormat.cs:137-141 | whatever the test decides, the cell holds the float read, except that −0.0 becomes +0.0 |
| Rows.NumericCellIsTheWholeNumber | ConsoleApplication1/IESFormat.cs:137-141 | when the test passes the stored float is non-negative and finite, and its value is exactly the accepted whole number |
| Rows.Truncated | ConsoleApplication1/IESFormat.cs:227 | the truncation toward zero that (int) applies to a float exists exactly for finite floats |
| Rows.TruncatedIsTheWholePart | ConsoleApplication1/IESFormat.cs:227 | the truncation has the float's sign, and its magnitude k is the whole part: k ≤ \|f\| < k + 1 |
| Rows.TruncatedOfWhole | ConsoleApplication1/IESFormat.cs:227 | a stored float that passed the test truncates to the accepted whole number |
| Rows.TruncatedExamples | ConsoleApplication1/IESFormat.cs:227 | −2.5 truncates to −2 and 0.5 to 0; NaN has no whole part |
| Rows.AsInt32 | ConsoleApplication1/IESFormat.cs:228 | the unchecked (int) of a uint has the same 32 bits |
| Rows.AsUInt32 | ConsoleApplication1/IESFormat.cs:219 | the unchecked (uint) of an int is congruent to it modulo 2^32 |
| Rows.IntOfSingle | ConsoleApplication1/IESFormat.cs:227 | (int) of a float is exactly its truncation when that lies in the int range, and is unspecified otherwise (NaN, infinities, out of range) |
| Rows.GetFloat | ConsoleApplication1/IESFormat.cs:206-215 | an unknown name fails with UnknownField; a text cell fails with NotNumeric; it succeeds exactly for numeric cells |
| Rows.GetFloatOfDecoded | ConsoleApplication1/IESFormat.cs:206-211 | GetFloat of a decoded numeric cell is the float read, +0.0 for −0.0 |
| Rows.GetInt | ConsoleApplication1/IESFormat.cs:222-231 | the same error cases as GetFloat; an exact result lies in the int range; the result is never a uint-typed unspecified value |
| Rows.GetUInt | ConsoleApplication1/IESFormat.cs:217-220 | fails exactly when GetInt fails, with the same error; an exact result is in the uint range and congruent modulo 2^32 to GetInt's exact result; an unspecified int becomes an unspecified uint |
| Rows.GetUIntOfWhole | ConsoleApplication1/IESFormat.cs:217-231 | GetUInt of a uint stored by other code gives u back; GetInt gives u read as two's complement |
| Rows.GetIntOfDecodedWhole | ConsoleApplication1/IESFormat.cs:217-231 | for a decoded cell that passed the test with u: GetInt and GetUInt give u when u < 2^31, and are unspecified from 2^31 on, because (int) of the float is then out of range |
| Rows.GetIntOfANegativeFloat | ConsoleApplication1/IESFormat.cs:217-231 | a stored −2.5 gives −2 from GetInt and 2^32 − 2 from GetUInt |
| Rows.GetString | ConsoleApplication1/IESFormat.cs:233-242 | an unknown name fails with UnknownField and a numeric cell with NotAString; otherwise it returns the stored text |
| IesLayout.HeaderLayout | ConsoleApplication1/IESFormat.cs:90-106 | the header reads exactly when 156 bytes remain, fails only with EndOfStream, and each field sits at its fixed offset (name 0-127, DataOffset 132, ResourceOffset 136, FileSize 140, RowCount 146, ColumnCount 148, NumberColumnCount 150, StringColumnCount 152) |
| IesLayout.ColumnEntryLayout | ConsoleApplication1/IESFormat.cs:71-78 | an entry reads exactly when 136 bytes remain, fails only at the end, and holds two 64-byte names, the type at 128 and the position at 134 |
| IesLayout.EntryReaderFixed | ConsoleApplication1/IESFormat.cs:71-78 | the entry reader is a fixed-width reader of 136 bytes that fails only with EndOfStream |
| IesLayout.ReadEntriesExtent | ConsoleApplication1/IESFormat.cs:69-86 | the catalog entries read exactly when count·136 bytes remain (or count is 0), end there, and fail only at the end of the buffer |
| IesLayout.ReadEntriesShort | ConsoleApplication1/IESFormat.cs:69-86 | when entry i of count does not fit, the catalog read fails with EndOfStream |
| IesLayout.ReadEntriesAt | ConsoleApplication1/IESFormat.cs:69-86 | each entry read is the 136-byte entry at its place |
| IesLayout.EntryAtAppend | ConsoleApplication1/IESFormat.cs:69-86 | appending the entry that follows keeps every entry at its place |
| IesLayout.EntryReaderAt | ConsoleApplication1/IESFormat.cs:71-78 | at a place that holds an entry, the entry reader reads that entry |
| IesLayout.ReadEntriesExact | ConsoleApplication1/IESFormat.cs:69-86 | entries that are each at their place are exactly what the catalog read gives |
| IesLayout.RenameAll | ConsoleApplication1/IESFormat.cs:80-85 | one column per entry |
| IesLayout.RenameAllAppend | ConsoleApplication1/IESFormat.cs:80-85 | renaming one more entry appends it under the name UniqueName gives against the names before it |
| IesLayout.AppendRenamed | ConsoleApplication1/IESFormat.cs:80-85 | appending a column under the name UniqueName gives keeps the names pairwise different |
| IesLayout.RenamedAtExtend | ConsoleApplication1/IESFormat.cs:80-85 | renaming more entries does not change the columns already renamed |
| IesLayout.RenameAllRule | ConsoleApplication1/IESFormat.cs:80-85 | after renaming, the names are pairwise different, and column i is entry i decrypted, with only its name replaced by UniqueName against the columns before it |
| IesLayout.ColumnBlockExtent | ConsoleApplication1/IESFormat.cs:64-88 | the catalog starts at len − ResourceOffset − DataOffset; a start that is negative or past int.MaxValue fails with SeekBeforeBegin; otherwise the read succeeds exactly when ColumnCount·136 bytes fit, fails only with EndOfStream, and gives ColumnCount columns |
| IesLayout.ColumnBlockEntries | ConsoleApplication1/IESFormat.cs:64-88 | in a decoded catalog the names are pairwise different, and column i is the i-th entry after the start, renamed |
| IesLayout.CatalogFromEntries | ConsoleApplication1/IESFormat.cs:69-86 | the renamed entries of a catalog that reads are the entries at their places, renamed, with unique names |
| IesLayout.ColumnAt | ConsoleApplication1/IESFormat.cs:69-86 | the entry at place i, renamed as RenameAll does, is column i |
| IesLayout.CellLayout | ConsoleApplication1/IESFormat.cs:124-151 | a numeric cell takes 4 bytes and holds the float they encode (+0.0 for −0.0); a text cell takes a 2-byte length plus that many bytes, is empty after 2 bytes for length 0, and is the decrypted bytes when they fit; the only failure is EndOfStream |
| IesLayout.CellFailsAtEnd | ConsoleApplication1/IESFormat.cs:124-151 | a cell fails only at the end of the buffer |
| IesLayout.CellWidth | ConsoleApplication1/IESFormat.cs:124-151 | a cell whose bytes fit is read, and ends 4 bytes on (numeric) or 2 plus the length on (text) |
| IesLayout.NamesCons | ConsoleApplication1/IESFormat.cs:120-122 | the names of a catalog are its first name, then the names of the rest |
| IesLayout.UniqueFresh | ConsoleApplication1/IESFormat.cs:137-150 | unique names that are not yet keys never collide during Add |
| IesLayout.KeysThenNames | ConsoleApplication1/IESFormat.cs:120-152 | the keys after adding the next name, then the names still to come, are the old keys followed by all names |
| IesLayout.EmptyRowFresh | ConsoleApplication1/IESFormat.cs:119 | unique names never collide in a row that starts empty |
| IesLayout.CellsStep | ConsoleApplication1/IESFormat.cs:120-152 | one step of the cell loop: read the first cell and add it under the first name, then read the rest |
| IesLayout.ParseCellsFailsAtEnd | ConsoleApplication1/IESFormat.cs:120-152 | with fresh names the cell loop never meets DuplicateKey; it fails only with EndOfStream |
| IesLayout.ParseCellsKeys | ConsoleApplication1/IESFormat.cs:120-152 | a decoded row's keys are the old keys followed by the column names in catalog order |
| IesLayout.CellsTakeTheirSize | ConsoleApplication1/IESFormat.cs:120-152 | when the cells lie inside the buffer they decode and take exactly their layout size |
| IesLayout.CellsEndInside | ConsoleApplication1/IESFormat.cs:120-152 | cells read from inside the buffer end inside it |
| IesLayout.RowCells | ConsoleApplication1/IESFormat.cs:115-152 | a row's cells start after the dropped u32, the preamble length and the preamble |
| IesLayout.RowKeys | ConsoleApplication1/IESFormat.cs:113-156 | with unique column names a row fails only with EndOfStream or, at its trailing seek, SeekBeforeBegin, and the latter only when the buffer ends within StringColumnCount bytes of int.MaxValue; a decoded row is keyed by the column names in catalog order |
| IesLayout.RowTakesItsSize | ConsoleApplication1/IESFormat.cs:113-156 | a row whose layout lies inside the buffer decodes and ends 4 + 2 + preamble + cells + StringColumnCount bytes on, unless that end passes int.MaxValue, where the trailing seek fails with SeekBeforeBegin |
| IesLayout.RowCellsTakeTheirSize | ConsoleApplication1/IESFormat.cs:119-152 | the cells of such a row, from an empty row, decode and take exactly their size |
| IesLayout.RowsStep | ConsoleApplication1/IESFormat.cs:113-156 | one step of the row loop: a failing row ends it with that error; otherwise the row is appended and the loop continues after it |
| IesLayout.ParseRowsShape | ConsoleApplication1/IESFormat.cs:113-156 | with unique names the row loop fails only with EndOfStream or SeekBeforeBegin, only with EndOfStream when the buffer ends at least StringColumnCount bytes below int.MaxValue; it gives exactly count rows, each keyed by the column names |
| IesLayout.RowBlockShape | ConsoleApplication1/IESFormat.cs:108-157 | rows start at len − ResourceOffset; a start that is negative or past int.MaxValue fails with SeekBeforeBegin; otherwise it is the row loop from there, which fails only with EndOfStream or SeekBeforeBegin, and only with EndOfStream when the buffer ends at least StringColumnCount bytes below int.MaxValue; a decoded block has RowCount rows, each keyed by the column names |
| IesLayout.CellSameExtent | ConsoleApplication1/IESFormat.cs:124-151 | a cell's success, end and error depend only on whether its column is numeric |
| IesLayout.CellsSameExtent | ConsoleApplication1/IESFormat.cs:120-152 | two catalogs numeric at the same places, with fresh names, read a row's cells alike: same success, same end, same error |
| IesLayout.RowSameExtent | ConsoleApplication1/IESFormat.cs:113-156 | a row read against two such catalogs with unique names succeeds alike, ends alike and fails alike |
| IesLayout.RowsSameExtent | ConsoleApplication1/IESFormat.cs:113-156 | the row loop against two such catalogs succeeds alike, ends alike and fails alike |
| IesLayout.RowBlockSameOutcome | ConsoleApplication1/IESFormat.cs:108-157 | the row block against two such catalogs succeeds for both, or fails for both with the same error |
| IesFormat.DecodeShape | ConsoleApplication1/IESFormat.cs:31-45 | a decoded file has ColumnCount columns, with unique names and sorted, and RowCount rows, each keyed by the column names in catalog order |
| IesFormat.FailsOnlyAtReads | ConsoleApplication1/IESFormat.cs:31-45 | decoding fails only with EndOfStream or SeekBeforeBegin, never with a duplicate key |
| IesFormat.SortingDoesNotDecideSuccess | ConsoleApplication1/IESFormat.cs:87-157 | two sorted reorderings of a catalog with unique names read the rows alike: both succeed, or both fail with the same error |
| IesFormat.DecodesExcludesFailure | ConsoleApplication1/IESFormat.cs:31-45 | decoding is decided by the content: a file that decodes under one sorting never also fails, so Decodes and FailsWith exclude each other |
| IesFormat.IesFile.constructor | ConsoleApplication1/IESFormat.cs:31-35 | a fresh reader at position 0 over the content, with nothing read yet |
| IesFormat.IesFile.ReadHeader | ConsoleApplication1/IESFormat.cs:90-106 | sets the header to what ParseHeader reads at the position and advances past it, or fails with its error; catalog and rows unchanged |
| IesFormat.IesFile.ReadOffsets | ConsoleApplication1/IESFormat.cs:96-99 | the dropped u32 and DataOffset, ResourceOffset and FileSize, as ParseOffsets reads them |
| IesFormat.IesFile.ReadCounts | ConsoleApplication1/IESFormat.cs:100-105 | the two dropped u16 and RowCount, ColumnCount, NumberColumnCount and StringColumnCount, as ParseCounts reads them |
| IesFormat.IesFile.ReadColumns | ConsoleApplication1/IESFormat.cs:64-88 | on success the catalog is a sorted permutation of what ColumnBlock reads; on failure the error is ColumnBlock's; header and rows unchanged |
| IesFormat.IesFile.ReadCatalog | ConsoleApplication1/IESFormat.cs:69-86 | the loop leaves the renamed entries that ReadEntries reads, or fails with its error |
| IesFormat.IesFile.ReadColumn | ConsoleApplication1/IESFormat.cs:71-85 | appends the 136-byte entry at the position under its unique name, or fails exactly when fewer than 136 bytes remain |
| IesFormat.IesFile.ReadColumnEntry | ConsoleApplication1/IESFormat.cs:71-78 | returns the entry ParseColumnEntry reads and moves past it |
| IesFormat.IesFile.ReadRows | ConsoleApplication1/IESFormat.cs:108-111 | on success the rows are those RowBlock reads against the sorted catalog; on failure the error is RowBlock's; header and catalog unchanged |
| IesFormat.IesFile.ReadRowsFrom | ConsoleApplication1/IESFormat.cs:112-156 | the row loop leaves the rows ParseRows reads from the position and ends where it ends, or fails with its error; header and catalog unchanged |
| IesFormat.IesFile.ReadRow | ConsoleApplication1/IESFormat.cs:114-155 | returns the row ParseRow reads from the position and ends where it ends, or fails with its error, including a failed trailing seek |
| IesFormat.IesFile.ReadCells | ConsoleApplication1/IESFormat.cs:119-152 | returns the cells ParseCells reads, into an empty row, or fails with its error |
| IesFormat.IesFile.ReadCell | ConsoleApplication1/IESFormat.cs:122-151 | one step of the cell loop: a failure is the failure of the whole ParseCells; on success the rest of ParseCells, from the new position and row, gives what ParseCells gives from the old |
| IesFormat.IesFile.Open | ConsoleApplication1/IESFormat.cs:31-45 | success yields a fresh object over the content whose header, catalog and rows satisfy Decodes; failure yields an error that FailsWith describes (header, catalog or row read), and then no header, catalog and rows satisfy Decodes |

## Left out

- `ConsoleApplication1/MakeExcel.cs` and `ConsoleApplication1/Program.cs` are not part of this model. They cover file selection, spreadsheet output and the console entry point.
- `IesFile(Stream)` over an arbitrary stream is not modelled. The model reads an in-memory buffer, as `IesFile(byte[])` does.
- `Dispose` is left out because closing the reader is I/O.
- UTF-8 decoding in `DecryptString` and of the header name is left out because it is a library call. Names and texts are kept as bytes, and names are compared as bytes. This loses one case: two names whose ill-formed UTF-8 bytes differ decode to the same replacement-character string, so the source renames the second (`…_1`) while the model keeps both names unchanged. Byte 0x01 is always a character of its own in UTF-8, so trimming it before decoding matches trimming U+0001 after.
- Rows.GetFloat: the `(float)` conversion of a stored `uint` is symbolic (`SingleOfUInt`), because single-precision rounding is not modelled. The decoder never stores a `uint`, so this applies only to values put into the row by other code.
- Rows.GetInt: `(int)` of NaN, an infinity or a float whose whole part is outside the int range is unspecified in C#; the model keeps it symbolic (`UnspecifiedInt`).
- Rows.GetUInt: `(uint)` of such an unspecified int is kept symbolic too (`UnspecifiedUInt`).
- Rows.WholeValue: at exactly 2^32 the test is modelled as failing. There `(uint)f` is unspecified, and a runtime that saturates to `uint.MaxValue` would pass it. This changes only which branch is taken: the stored float is 2^32 either way.
- Columns.SortColumns: it promises what every correct `List.Sort` gives, a sorted permutation. It does not fix the order that introsort leaves among columns with equal keys. `Decodes` allows any such order.
- The buffer length is not bounded, although a `MemoryStream` holds at most `int.MaxValue` bytes. Positions are bounded, because `SeekAt` fails past `int.MaxValue` as `MemoryStream.Seek` does, and reads never move past the end of the buffer.
- `FileSize` and `NumberColumnCount` are read into the header but are otherwise unused, as in the source.
- The position after a failed read is not modelled (`PositionAfter`), because the first failure ends the decode.
- The C# methods are split into smaller methods to keep each proof small:
  - `ReadHeader` into `ReadOffsets` and `ReadCounts`;
  - `ReadColumns` into `ReadCatalog`, `ReadColumn` and `ReadColumnEntry`;
  - `ReadRows` into `ReadRowsFrom`, `ReadRow`, `ReadCells` and `ReadCell`.

  Every split method changes the same state as the source and is proved against the same layout functions.
