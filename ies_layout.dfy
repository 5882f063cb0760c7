/**
 * The byte layout of an IES file, as the decoder reads it: a 156-byte header
 * at the front, a column catalog and a row block located from the END of the
 * buffer (the catalog at len - ResourceOffset - DataOffset, the rows at
 * len - ResourceOffset, where len is the buffer length), and a trailing
 * resource region that is never read.
 *
 * Each function here reads from a position and returns the value with the
 * position after it; IesFile's methods are proved to do the same.
 */
module IesLayout {
  import opened Primitives
  import opened ByteCursor
  import opened StringCodec
  import opened ColumnNames
  import opened Columns
  import opened Rows

  const NAME_SIZE: nat := 0x80
  const HEADER_SIZE: nat := 156
  const COLUMN_NAME_SIZE: nat := 0x40
  const COLUMN_ENTRY_SIZE: nat := 136

  /** IesHeader. The name is read in the clear (not XORed) and is not trimmed. */
  datatype Header = Header(
    name: seq<byte>,
    dataOffset: uint32,
    resourceOffset: uint32,
    fileSize: uint32,
    rowCount: uint16,
    columnCount: uint16,
    numberColumnCount: uint16,
    stringColumnCount: uint16)

  /** The four u32 after the header's name: one dropped, then DataOffset, ResourceOffset and FileSize. */
  function ParseOffsets(data: seq<byte>, pos: nat): Result<Parsed<(uint32, uint32, uint32)>, DecodeError> {
    var unknown :- ReadU32At(data, pos);
    var dataOffset :- ReadU32At(data, unknown.next);
    var resourceOffset :- ReadU32At(data, dataOffset.next);
    var fileSize :- ReadU32At(data, resourceOffset.next);
    Ok(Parsed((dataOffset.value, resourceOffset.value, fileSize.value), fileSize.next))
  }

  /**
   * The six u16 that end the header: one dropped, then RowCount, ColumnCount,
   * NumberColumnCount and StringColumnCount, then one more dropped.
   */
  function ParseCounts(data: seq<byte>, pos: nat): Result<Parsed<(uint16, uint16, uint16, uint16)>, DecodeError> {
    var reserved :- ReadU16At(data, pos);
    var rowCount :- ReadU16At(data, reserved.next);
    var columnCount :- ReadU16At(data, rowCount.next);
    var numberColumnCount :- ReadU16At(data, columnCount.next);
    var stringColumnCount :- ReadU16At(data, numberColumnCount.next);
    var trailer :- ReadU16At(data, stringColumnCount.next);
    Ok(Parsed((rowCount.value, columnCount.value, numberColumnCount.value, stringColumnCount.value), trailer.next))
  }

  /** IesFile.ReadHeader: the 128-byte name, then the offsets, then the counts. */
  function ParseHeader(data: seq<byte>, pos: nat): Result<Parsed<Header>, DecodeError> {
    var name := ReadBytesAt(data, pos, NAME_SIZE);
    var offsets :- ParseOffsets(data, name.next);
    var counts :- ParseCounts(data, offsets.next);
    var (dataOffset, resourceOffset, fileSize) := offsets.value;
    var (rowCount, columnCount, numberColumnCount, stringColumnCount) := counts.value;
    Ok(Parsed(
      Header(name.value, dataOffset, resourceOffset, fileSize,
             rowCount, columnCount, numberColumnCount, stringColumnCount),
      counts.next))
  }

  /**
   * The header is the 156 bytes at pos and nothing else: the read fails
   * exactly when fewer remain, and each field sits at its fixed offset (the
   * u32 at 128 and the u16s at 144 and 154 are read and dropped).
   */
  lemma HeaderLayout(data: seq<byte>, pos: nat)
    ensures ParseHeader(data, pos).Ok? <==> pos + HEADER_SIZE <= |data|
    ensures ParseHeader(data, pos).Err? ==> ParseHeader(data, pos).error == EndOfStream
    ensures ParseHeader(data, pos).Ok? ==>
              ParseHeader(data, pos).value == Parsed(
                Header(data[pos..pos + 128], U32At(data, pos + 132), U32At(data, pos + 136), U32At(data, pos + 140),
                       U16At(data, pos + 146), U16At(data, pos + 148), U16At(data, pos + 150), U16At(data, pos + 152)),
                pos + HEADER_SIZE)
  {
  }

  /** A catalog entry as it lies in the file: both names still XORed and padded. */
  datatype RawEntry = RawEntry(name: seq<byte>, name2: seq<byte>, kind: ColumnType, position: uint16)

  /**
   * The column an entry describes. DecryptString is pure and cannot fail, so
   * decrypting right after each read, as ReadColumns does, and decrypting
   * after all the reads give the same catalog.
   */
  function Decoded(raw: RawEntry): Column {
    Column(Decrypted(raw.name), Decrypted(raw.name2), raw.kind, raw.position)
  }

  /** The column an entry describes once its name is made unique against `taken`. */
  function Renamed(taken: seq<seq<byte>>, raw: RawEntry): Column {
    Decoded(raw).(name := UniqueName(taken, Decoded(raw).name))
  }

  /** One 136-byte catalog entry. */
  function ParseColumnEntry(data: seq<byte>, pos: nat): Result<Parsed<RawEntry>, DecodeError> {
    var name := ReadBytesAt(data, pos, COLUMN_NAME_SIZE);
    var name2 := ReadBytesAt(data, name.next, COLUMN_NAME_SIZE);
    var kind :- ReadU16At(data, name2.next);
    var reserved :- ReadU32At(data, kind.next);
    var position :- ReadU16At(data, reserved.next);
    Ok(Parsed(RawEntry(name.value, name2.value, kind.value, position.value), position.next))
  }

  /** The whole 136-byte entry at pos, field by field at its fixed offset. */
  function EntryValue(data: seq<byte>, pos: nat): RawEntry
    requires pos + COLUMN_ENTRY_SIZE <= |data|
  {
    RawEntry(data[pos..pos + 64], data[pos + 64..pos + 128], U16At(data, pos + 128), U16At(data, pos + 134))
  }

  /** An entry is 64 + 64 + 2 + 4 + 2 bytes: two XORed names, the type, a dropped u32 and the position. */
  lemma ColumnEntryLayout(data: seq<byte>, pos: nat)
    ensures ParseColumnEntry(data, pos).Ok? <==> pos + COLUMN_ENTRY_SIZE <= |data|
    ensures ParseColumnEntry(data, pos).Err? ==> ParseColumnEntry(data, pos).error == EndOfStream
    ensures ParseColumnEntry(data, pos).Ok? ==>
              ParseColumnEntry(data, pos).value == Parsed(EntryValue(data, pos), pos + COLUMN_ENTRY_SIZE)
  {
  }

  /** The entry reader of ReadColumns, as a function of the position. */
  function EntryReader(data: seq<byte>): nat -> Result<Parsed<RawEntry>, DecodeError> {
    (pos: nat) => ParseColumnEntry(data, pos)
  }

  /** The catalog entries of ReadColumns as read, in file order: `count` more after those in `acc`. */
  function ReadEntries(data: seq<byte>, pos: nat, count: nat, acc: seq<RawEntry>): Result<Parsed<seq<RawEntry>>, DecodeError> {
    Repeat(EntryReader(data), pos, count, acc)
  }

  lemma EntryReaderFixed(data: seq<byte>)
    ensures FixedWidth(EntryReader(data), COLUMN_ENTRY_SIZE, |data|, EndOfStream)
  {
    forall p: nat
      ensures EntryReader(data)(p).Ok? <==> p + COLUMN_ENTRY_SIZE <= |data|
      ensures EntryReader(data)(p).Ok? ==> EntryReader(data)(p).value.next == p + COLUMN_ENTRY_SIZE
      ensures EntryReader(data)(p).Err? ==> EntryReader(data)(p).error == EndOfStream
    {
      ColumnEntryLayout(data, p);
    }
  }

  /**
   * The entries fit exactly when `count` whole entries remain (none always
   * fit, wherever the position is); the read fails only at the end of the
   * buffer and keeps `acc` as its prefix.
   */
  lemma ReadEntriesExtent(data: seq<byte>, pos: nat, count: nat, acc: seq<RawEntry>)
    ensures var r := ReadEntries(data, pos, count, acc);
            && (r.Ok? <==> count == 0 || pos + COLUMN_ENTRY_SIZE * count <= |data|)
            && (r.Err? ==> r.error == EndOfStream)
            && (r.Ok? ==>
                  && |r.value.value| == |acc| + count
                  && r.value.next == pos + COLUMN_ENTRY_SIZE * count
                  && r.value.value[..|acc|] == acc)
  {
    EntryReaderFixed(data);
    RepeatFixed(EntryReader(data), COLUMN_ENTRY_SIZE, |data|, EndOfStream, pos, count, acc);
    RepeatCount(EntryReader(data), pos, count, acc);
  }

  /** Entry base + i of raws is the 136-byte entry i places after pos. */
  predicate EntryAt(data: seq<byte>, pos: nat, raws: seq<RawEntry>, base: nat, i: nat) {
    var at := pos + COLUMN_ENTRY_SIZE * i;
    base + i < |raws| && at + COLUMN_ENTRY_SIZE <= |data| && raws[base + i] == EntryValue(data, at)
  }

  /** When entry i of `count` does not fit, reading the catalog fails at the end of the buffer. */
  lemma ReadEntriesShort(data: seq<byte>, pos: nat, count: nat, i: nat)
    requires i < count && |data| < pos + COLUMN_ENTRY_SIZE * i + COLUMN_ENTRY_SIZE
    ensures ReadEntries(data, pos, count, []) == Err(EndOfStream)
  {
    assert COLUMN_ENTRY_SIZE * i + COLUMN_ENTRY_SIZE <= COLUMN_ENTRY_SIZE * count;
    ReadEntriesExtent(data, pos, count, []);
  }

  /** Each entry read is the 136-byte entry at its place in the catalog. */
  lemma ReadEntriesAt(data: seq<byte>, pos: nat, count: nat, acc: seq<RawEntry>)
    ensures var r := ReadEntries(data, pos, count, acc);
            r.Ok? ==> forall i :: 0 <= i < count ==> EntryAt(data, pos, r.value.value, |acc|, i)
  {
    var r := ReadEntries(data, pos, count, acc);
    EntryReaderFixed(data);
    RepeatFixedAt(EntryReader(data), COLUMN_ENTRY_SIZE, |data|, EndOfStream, pos, count, acc);
    if r.Ok? {
      forall i | 0 <= i < count
        ensures EntryAt(data, pos, r.value.value, |acc|, i)
      {
        ColumnEntryLayout(data, pos + COLUMN_ENTRY_SIZE * i);
      }
    }
  }

  /** Every entry of raws is the 136-byte entry at its place after pos. */
  ghost predicate EntriesAt(data: seq<byte>, pos: nat, raws: seq<RawEntry>) {
    forall k :: 0 <= k < |raws| ==> EntryAt(data, pos, raws, 0, k)
  }

  /** Appending the entry that follows keeps every entry at its place. */
  lemma EntryAtAppend(data: seq<byte>, pos: nat, raws: seq<RawEntry>, raw: RawEntry)
    requires EntriesAt(data, pos, raws)
    requires pos + COLUMN_ENTRY_SIZE * |raws| + COLUMN_ENTRY_SIZE <= |data|
    requires raw == EntryValue(data, pos + COLUMN_ENTRY_SIZE * |raws|)
    ensures EntriesAt(data, pos, raws + [raw])
  {
    var raws' := raws + [raw];
    forall k | 0 <= k < |raws'|
      ensures EntryAt(data, pos, raws', 0, k)
    {
      if k < |raws| {
        assert EntryAt(data, pos, raws, 0, k);
      }
    }
  }

  /** The entry reader at a place holding a whole entry reads that entry. */
  lemma EntryReaderAt(data: seq<byte>, raws: seq<RawEntry>, pos: nat, i: nat)
    requires EntryAt(data, pos, raws, 0, i)
    ensures EntryReader(data)(pos + COLUMN_ENTRY_SIZE * i)
         == Ok(Parsed(raws[i], pos + COLUMN_ENTRY_SIZE * i + COLUMN_ENTRY_SIZE))
  {
    ColumnEntryLayout(data, pos + COLUMN_ENTRY_SIZE * i);
  }

  /** Entries that are each the 136-byte entry at their place are exactly what ReadEntries reads. */
  lemma ReadEntriesExact(data: seq<byte>, pos: nat, raws: seq<RawEntry>)
    requires EntriesAt(data, pos, raws)
    ensures ReadEntries(data, pos, |raws|, []) == Ok(Parsed(raws, pos + COLUMN_ENTRY_SIZE * |raws|))
  {
    forall i | 0 <= i < |raws|
      ensures EntryReader(data)(pos + COLUMN_ENTRY_SIZE * i)
           == Ok(Parsed(raws[i], pos + COLUMN_ENTRY_SIZE * i + COLUMN_ENTRY_SIZE))
    {
      EntryReaderAt(data, raws, pos, i);
    }
    RepeatFixedExact(EntryReader(data), COLUMN_ENTRY_SIZE, pos, raws, []);
    assert [] + raws == raws;
  }

  /**
   * The renaming of ReadColumns over the entries in file order: each entry
   * is decrypted and takes the name UniqueName gives against the names of
   * the columns before it.
   */
  function RenameAll(raws: seq<RawEntry>): (cols: seq<Column>)
    ensures |cols| == |raws|
    decreases |raws|
  {
    if raws == [] then []
    else
      var init := RenameAll(raws[..|raws| - 1]);
      init + [Renamed(Names(init), raws[|raws| - 1])]
  }

  lemma RenameAllAppend(raws: seq<RawEntry>, raw: RawEntry)
    ensures RenameAll(raws + [raw]) == RenameAll(raws) + [Renamed(Names(RenameAll(raws)), raw)]
  {
    assert (raws + [raw])[..|raws|] == raws;
  }

  /** Appending a column under the name UniqueName gives keeps the names pairwise different. */
  lemma AppendRenamed(built: seq<Column>, column: Column)
    requires UniqueNames(built)
    ensures UniqueNames(built + [column.(name := UniqueName(Names(built), column.name))])
  {
    var built' := built + [column.(name := UniqueName(Names(built), column.name))];
    UniqueNameRule(Names(built), column.name);
    forall i, j | 0 <= i < |built'| && 0 <= j < |built'| && i != j
      ensures built'[i].name != built'[j].name
    {
      if i == |built| {
        assert Names(built)[j] == built'[j].name;
      } else if j == |built| {
        assert Names(built)[i] == built'[i].name;
      }
    }
  }

  /** Column i is entry i decrypted, with its name made unique against the columns before it. */
  predicate RenamedAt(raws: seq<RawEntry>, cols: seq<Column>, i: nat)
    requires i < |raws| && |cols| == |raws|
  {
    cols[i] == Renamed(Names(cols[..i]), raws[i])
  }

  /** Renaming more entries leaves the columns already renamed as they were. */
  lemma RenamedAtExtend(prefix: seq<RawEntry>, init: seq<Column>, raws: seq<RawEntry>, cols: seq<Column>, i: nat)
    requires i < |prefix| == |init| <= |raws| == |cols|
    requires prefix == raws[..|prefix|] && init == cols[..|init|]
    requires RenamedAt(prefix, init, i)
    ensures RenamedAt(raws, cols, i)
  {
    assert cols[..i] == init[..i];
    assert raws[i] == prefix[i];
  }

  /**
   * After renaming, the names are pairwise different, and column i is entry
   * i decrypted with only its name replaced, by the name UniqueName gives
   * against the columns before it.
   */
  lemma {:induction false} RenameAllRule(raws: seq<RawEntry>)
    ensures UniqueNames(RenameAll(raws))
    ensures forall i :: 0 <= i < |raws| ==> RenamedAt(raws, RenameAll(raws), i)
    decreases |raws|
  {
    if raws != [] {
      var prefix := raws[..|raws| - 1];
      var init := RenameAll(prefix);
      RenameAllRule(prefix);
      AppendRenamed(init, Decoded(raws[|raws| - 1]));
      var cols := RenameAll(raws);
      assert cols[..|init|] == init;
      forall i | 0 <= i < |raws|
        ensures RenamedAt(raws, cols, i)
      {
        if i < |init| {
          RenamedAtExtend(prefix, init, raws, cols, i);
        } else {
          assert cols[..i] == init;
        }
      }
    }
  }

  /** The catalog as ReadColumns reads it: seek to len - ResourceOffset - DataOffset, read the entries, rename. */
  function ColumnBlock(data: seq<byte>, h: Header): Result<Parsed<seq<Column>>, DecodeError> {
    var start :- SeekAt(|data|, 0, -(h.resourceOffset as int) - h.dataOffset, End);
    var raws :- ReadEntries(data, start, h.columnCount, []);
    Ok(Parsed(RenameAll(raws.value), raws.next))
  }

  /**
   * Column i of cols is the 136-byte entry i places after start, decrypted,
   * with only its name replaced by the one UniqueName gives against the
   * columns before it.
   */
  predicate ColumnFromEntry(data: seq<byte>, start: nat, cols: seq<Column>, i: nat) {
    var at := start + COLUMN_ENTRY_SIZE * i;
    && i < |cols|
    && at + COLUMN_ENTRY_SIZE <= |data|
    && var column := Decoded(EntryValue(data, at));
       cols[i] == column.(name := UniqueName(Names(cols[..i]), column.name))
  }

  /**
   * The catalog starts at len - ResourceOffset - DataOffset (len being the
   * buffer length; FileSize plays no part) and fails with a seek error when
   * that is negative or past int.MaxValue; otherwise it reads ColumnCount entries of 136 bytes,
   * which must fit in the buffer, and fails only at the end of the buffer.
   */
  lemma ColumnBlockExtent(data: seq<byte>, h: Header)
    ensures var r := ColumnBlock(data, h);
            var start := |data| - h.resourceOffset - h.dataOffset;
            && (start < 0 || MAX_POSITION < start ==> r == Err(SeekBeforeBegin))
            && (0 <= start <= MAX_POSITION ==> (r.Ok? <==> start + COLUMN_ENTRY_SIZE * h.columnCount <= |data|))
            && (0 <= start <= MAX_POSITION && r.Err? ==> r.error == EndOfStream)
            && (r.Ok? ==>
                  && |r.value.value| == h.columnCount
                  && r.value.next == start + COLUMN_ENTRY_SIZE * h.columnCount)
  {
    var start := |data| - h.resourceOffset - h.dataOffset;
    if 0 <= start <= MAX_POSITION {
      assert SeekAt(|data|, 0, -(h.resourceOffset as int) - h.dataOffset, End) == Ok(start);
      ReadEntriesExtent(data, start, h.columnCount, []);
    } else {
      assert SeekAt(|data|, 0, -(h.resourceOffset as int) - h.dataOffset, End) == Err(SeekBeforeBegin);
    }
  }

  /**
   * In a decoded catalog the names are pairwise different, and column i is
   * the i-th 136-byte entry after len - ResourceOffset - DataOffset with its
   * name made unique against the columns before it.
   */
  lemma ColumnBlockEntries(data: seq<byte>, h: Header)
    ensures var r := ColumnBlock(data, h);
            var start := |data| - h.resourceOffset - h.dataOffset;
            r.Ok? ==>
              && UniqueNames(r.value.value)
              && forall i :: 0 <= i < |r.value.value| ==> ColumnFromEntry(data, start, r.value.value, i)
  {
    var start := |data| - h.resourceOffset - h.dataOffset;
    if 0 <= start <= MAX_POSITION {
      assert SeekAt(|data|, 0, -(h.resourceOffset as int) - h.dataOffset, End) == Ok(start);
      var raws := ReadEntries(data, start, h.columnCount, []);
      if raws.Ok? {
        assert ColumnBlock(data, h) == Ok(Parsed(RenameAll(raws.value.value), raws.value.next));
        CatalogFromEntries(data, start, h.columnCount);
      }
    } else {
      assert SeekAt(|data|, 0, -(h.resourceOffset as int) - h.dataOffset, End) == Err(SeekBeforeBegin);
    }
  }

  /** The renamed entries of a catalog read at start are the entries at their places, renamed. */
  lemma CatalogFromEntries(data: seq<byte>, start: nat, count: nat)
    requires ReadEntries(data, start, count, []).Ok?
    ensures var cols := RenameAll(ReadEntries(data, start, count, []).value.value);
            && UniqueNames(cols)
            && forall i :: 0 <= i < |cols| ==> ColumnFromEntry(data, start, cols, i)
  {
    var raws := ReadEntries(data, start, count, []).value.value;
    ReadEntriesExtent(data, start, count, []);
    ReadEntriesAt(data, start, count, []);
    RenameAllRule(raws);
    forall i | 0 <= i < count
      ensures ColumnFromEntry(data, start, RenameAll(raws), i)
    {
      ColumnAt(data, start, raws, i);
    }
  }

  /** Entry i at its place, renamed as RenameAll does, is column i of the catalog. */
  lemma ColumnAt(data: seq<byte>, start: nat, raws: seq<RawEntry>, i: nat)
    requires EntryAt(data, start, raws, 0, i)
    requires RenamedAt(raws, RenameAll(raws), i)
    ensures ColumnFromEntry(data, start, RenameAll(raws), i)
  {
  }

  /**
   * One cell: for a numeric column the four bytes of a single, stored as a
   * float (NumericCell); for a text column a u16 length and that many
   * XORed bytes (none read, and the empty text, for length 0).
   */
  function ParseCell(data: seq<byte>, pos: nat, column: Column): Result<Parsed<Cell>, DecodeError> {
    if IsNumber(column) then
      var single :- ReadU32At(data, pos);
      Ok(Parsed(NumericCell(single.value), single.next))
    else
      var length :- ReadU16At(data, pos);
      if length.value > 0 then
        var text := ReadBytesAt(data, length.next, length.value);
        Ok(Parsed(TextCell(Decrypted(text.value)), text.next))
      else
        Ok(Parsed(TextCell([]), length.next))
  }

  /**
   * A numeric cell takes exactly 4 bytes and holds the single they encode
   * (+0.0 for -0.0); a text cell takes its 2-byte length plus the declared
   * length, and a zero length gives the empty text after just the 2 bytes.
   */
  lemma CellLayout(data: seq<byte>, pos: nat, column: Column)
    ensures var r := ParseCell(data, pos, column);
            && (r.Err? ==> r.error == EndOfStream)
            && (IsNumber(column) ==>
                  && (r.Ok? <==> pos + 4 <= |data|)
                  && (r.Ok? ==> r.value == Parsed(NumericCell(U32At(data, pos)), pos + 4))
                  && (r.Ok? ==> var bits := U32At(data, pos);
                                r.value.value == FloatCell(if bits == 0x8000_0000 then 0 else bits)))
            && (!IsNumber(column) ==>
                  && (r.Ok? <==> pos + 2 <= |data|)
                  && (r.Ok? ==>
                        var n := U16At(data, pos);
                        && r.value.value.TextCell?
                        && r.value.next <= pos + 2 + n
                        && (n == 0 ==> r.value == Parsed(TextCell([]), pos + 2))
                        && (pos + 2 + n <= |data| ==>
                              r.value == Parsed(TextCell(Decrypted(data[pos + 2..pos + 2 + n])), pos + 2 + n))))
  {
    if IsNumber(column) && pos + 4 <= |data| {
      NumericCellKeepsTheFloat(U32At(data, pos));
    }
  }

  /** A cell fails only at the end of the buffer. */
  lemma CellFailsAtEnd(data: seq<byte>, pos: nat, column: Column)
    ensures ParseCell(data, pos, column).Err? ==> ParseCell(data, pos, column).error == EndOfStream
  {
  }

  /** A cell whose bytes lie inside the buffer is read whole: 4 bytes, or 2 plus the declared length. */
  lemma CellWidth(data: seq<byte>, pos: nat, column: Column)
    requires IsNumber(column) ==> pos + 4 <= |data|
    requires !IsNumber(column) ==> pos + 2 <= |data| && pos + 2 + U16At(data, pos) <= |data|
    ensures ParseCell(data, pos, column).Ok?
    ensures ParseCell(data, pos, column).value.next == if IsNumber(column) then pos + 4 else pos + 2 + U16At(data, pos)
  {
  }

  /** The cells of one row, added to `row` under their column names in catalog order. */
  function ParseCells(data: seq<byte>, pos: nat, cols: seq<Column>, row: Row): Result<Parsed<Row>, DecodeError>
    decreases |cols|
  {
    if cols == [] then Ok(Parsed(row, pos))
    else
      var cell :- ParseCell(data, pos, cols[0]);
      var added :- Add(row, cols[0].name, cell.value);
      ParseCells(data, cell.next, cols[1..], added)
  }

  /** The names of a non-empty catalog are its first name, then the names of the rest. */
  lemma NamesCons(cols: seq<Column>)
    requires cols != []
    ensures Names(cols) == [cols[0].name] + Names(cols[1..])
  {
  }

  /**
   * Each column's name differs from the keys already there and from the
   * names of the columns before it: the condition under which Add never
   * meets a duplicate.
   */
  predicate FreshNames(keys: seq<seq<byte>>, cols: seq<Column>)
    decreases |cols|
  {
    cols == [] || (cols[0].name !in keys && FreshNames(keys + [cols[0].name], cols[1..]))
  }

  /** Pairwise different names, none of them a key yet, are fresh in that sense. */
  lemma {:induction false} UniqueFresh(keys: seq<seq<byte>>, cols: seq<Column>)
    requires UniqueNames(cols)
    requires forall i :: 0 <= i < |cols| ==> cols[i].name !in keys
    ensures FreshNames(keys, cols)
    decreases |cols|
  {
    if cols != [] {
      var rest := cols[1..];
      forall i | 0 <= i < |rest|
        ensures rest[i].name !in keys + [cols[0].name]
      {
        assert rest[i] == cols[i + 1];
      }
      assert UniqueNames(rest) by {
        forall i, j | 0 <= i < |rest| && 0 <= j < |rest| && i != j
          ensures rest[i].name != rest[j].name
        {
          assert rest[i] == cols[i + 1] && rest[j] == cols[j + 1];
        }
      }
      UniqueFresh(keys + [cols[0].name], rest);
    }
  }

  /** The keys after adding the next column's name, followed by the names still to come. */
  lemma KeysThenNames(keys: seq<seq<byte>>, added: seq<seq<byte>>, cols: seq<Column>)
    requires cols != [] && added == keys + [cols[0].name]
    ensures added + Names(cols[1..]) == keys + Names(cols)
  {
    calc {
      added + Names(cols[1..]);
      (keys + [cols[0].name]) + Names(cols[1..]);
      keys + ([cols[0].name] + Names(cols[1..]));
      { NamesCons(cols); }
      keys + Names(cols);
    }
  }

  /** Unique column names are all fresh for a row that has no entries yet. */
  lemma EmptyRowFresh(cols: seq<Column>)
    requires UniqueNames(cols)
    ensures FreshNames(Keys(Row([])), cols)
  {
    assert Keys(Row([])) == [];
    UniqueFresh([], cols);
  }

  /** One step of ParseCells once the first cell has been read and its name is fresh. */
  lemma CellsStep(data: seq<byte>, pos: nat, cols: seq<Column>, row: Row)
    requires cols != [] && ParseCell(data, pos, cols[0]).Ok?
    requires !ContainsKey(row, cols[0].name)
    ensures var cell := ParseCell(data, pos, cols[0]).value;
            var added := Row(row.entries + [Entry(cols[0].name, cell.value)]);
            && Keys(added) == Keys(row) + [cols[0].name]
            && ParseCells(data, pos, cols, row) == ParseCells(data, cell.next, cols[1..], added)
  {
  }

  /** With fresh names Add never meets a duplicate: the only failure is the end of the buffer. */
  lemma {:induction false} ParseCellsFailsAtEnd(data: seq<byte>, pos: nat, cols: seq<Column>, row: Row)
    requires FreshNames(Keys(row), cols)
    ensures ParseCells(data, pos, cols, row).Err? ==> ParseCells(data, pos, cols, row).error == EndOfStream
    decreases |cols|
  {
    if cols != [] {
      CellFailsAtEnd(data, pos, cols[0]);
      if ParseCell(data, pos, cols[0]).Ok? {
        var cell := ParseCell(data, pos, cols[0]).value;
        var added := Row(row.entries + [Entry(cols[0].name, cell.value)]);
        CellsStep(data, pos, cols, row);
        ParseCellsFailsAtEnd(data, cell.next, cols[1..], added);
      }
    }
  }

  /** A decoded row gets one entry per column, keyed by the column names in catalog order. */
  lemma {:induction false} ParseCellsKeys(data: seq<byte>, pos: nat, cols: seq<Column>, row: Row)
    requires FreshNames(Keys(row), cols)
    ensures var r := ParseCells(data, pos, cols, row);
            r.Ok? ==> Keys(r.value.value) == Keys(row) + Names(cols)
    decreases |cols|
  {
    if cols != [] && ParseCell(data, pos, cols[0]).Ok? {
      var cell := ParseCell(data, pos, cols[0]).value;
      var added := Row(row.entries + [Entry(cols[0].name, cell.value)]);
      CellsStep(data, pos, cols, row);
      KeysThenNames(Keys(row), Keys(added), cols);
      ParseCellsKeys(data, cell.next, cols[1..], added);
    }
  }

  /** Plus on optional sizes. */
  function Plus(n: nat, rest: Option<nat>): Option<nat> {
    match rest
    case Some(m) => Some(n + m)
    case None => None
  }

  /**
   * The bytes the cells of a row occupy according to the layout: 4 for each
   * numeric column, 2 plus the declared length for each text column. None
   * when a length field lies past the end of the buffer.
   */
  function CellsSize(data: seq<byte>, pos: nat, cols: seq<Column>): Option<nat>
    decreases |cols|
  {
    if cols == [] then Some(0)
    else if IsNumber(cols[0]) then Plus(4, CellsSize(data, pos + 4, cols[1..]))
    else if pos + 2 <= |data| then
      var width := 2 + U16At(data, pos);
      Plus(width, CellsSize(data, pos + width, cols[1..]))
    else None
  }

  /** The bytes a row occupies before its trailing skip: 4 + 2 + preamble length + its cells. */
  function RowSize(data: seq<byte>, pos: nat, cols: seq<Column>): Option<nat> {
    if pos + 6 <= |data| then
      var preamble := U16At(data, pos + 4);
      Plus(6 + preamble, CellsSize(data, pos + 6 + preamble, cols))
    else None
  }

  /** When the layout's cells lie inside the buffer, reading them takes exactly that many bytes. */
  lemma {:induction false} CellsTakeTheirSize(data: seq<byte>, pos: nat, cols: seq<Column>, row: Row, n: nat)
    requires FreshNames(Keys(row), cols)
    requires CellsSize(data, pos, cols) == Some(n) && pos + n <= |data|
    ensures ParseCells(data, pos, cols, row).Ok?
    ensures ParseCells(data, pos, cols, row).value.next == pos + n
    decreases |cols|
  {
    if cols != [] {
      var width := if IsNumber(cols[0]) then 4 else 2 + U16At(data, pos);
      var rest := CellsSize(data, pos + width, cols[1..]);
      assert rest.Some? && n == width + rest.value;
      CellWidth(data, pos, cols[0]);
      var cell := ParseCell(data, pos, cols[0]).value;
      var added := Row(row.entries + [Entry(cols[0].name, cell.value)]);
      CellsStep(data, pos, cols, row);
      CellsTakeTheirSize(data, pos + width, cols[1..], added, rest.value);
    }
  }

  /**
   * One row of ReadRows: a dropped u32, a u16 preamble length, the preamble
   * (skipped), the cells in catalog order, then a forward seek of `skip`
   * bytes. That seek has a non-negative offset, so it fails only when the
   * position would pass int.MaxValue.
   */
  function ParseRow(data: seq<byte>, pos: nat, cols: seq<Column>, skip: uint16): Result<Parsed<Row>, DecodeError> {
    var reserved :- ReadU32At(data, pos);
    var count :- ReadU16At(data, reserved.next);
    var preamble := ReadBytesAt(data, count.next, count.value);
    var cells :- ParseCells(data, preamble.next, cols, Row([]));
    var next :- SeekAt(|data|, cells.next, skip as int, Current);
    Ok(Parsed(cells.value, next))
  }

  /** The cells of a row start after the dropped u32, the preamble length and the preamble. */
  lemma RowCells(data: seq<byte>, pos: nat, cols: seq<Column>, skip: uint16)
    requires pos + 6 <= |data|
    ensures var preamble := ReadBytesAt(data, pos + 6, U16At(data, pos + 4));
            var cells := ParseCells(data, preamble.next, cols, Row([]));
            && (cells.Ok? && cells.value.next + skip <= MAX_POSITION ==>
                  ParseRow(data, pos, cols, skip) == Ok(Parsed(cells.value.value, cells.value.next + skip)))
            && (cells.Ok? && MAX_POSITION < cells.value.next + skip ==> ParseRow(data, pos, cols, skip) == Err(SeekBeforeBegin))
            && (cells.Err? ==> ParseRow(data, pos, cols, skip) == Err(cells.error))
  {
    assert ReadU32At(data, pos) == Ok(Parsed(U32At(data, pos), pos + 4));
    assert ReadU16At(data, pos + 4) == Ok(Parsed(U16At(data, pos + 4), pos + 6));
  }

  /** Cells read from inside the buffer end inside it. */
  lemma {:induction false} CellsEndInside(data: seq<byte>, pos: nat, cols: seq<Column>, row: Row)
    requires pos <= |data|
    ensures ParseCells(data, pos, cols, row).Ok? ==> ParseCells(data, pos, cols, row).value.next <= |data|
    decreases |cols|
  {
    if cols != [] {
      var cell := ParseCell(data, pos, cols[0]);
      if cell.Ok? {
        CellLayout(data, pos, cols[0]);
        var added := Add(row, cols[0].name, cell.value.value);
        if added.Ok? {
          CellsEndInside(data, cell.value.next, cols[1..], added.value);
        }
      }
    }
  }

  /**
   * With unique column names a row fails only at the end of the buffer or
   * at its trailing seek, and the seek can fail only when the buffer ends
   * within `skip` bytes of int.MaxValue. A decoded row has one entry per
   * column, keyed by the column names in catalog order.
   */
  lemma RowKeys(data: seq<byte>, pos: nat, cols: seq<Column>, skip: uint16)
    requires UniqueNames(cols)
    ensures var r := ParseRow(data, pos, cols, skip);
            && (r.Err? ==> r.error == EndOfStream || r.error == SeekBeforeBegin)
            && (r.Err? && |data| + skip <= MAX_POSITION ==> r.error == EndOfStream)
            && (r.Ok? ==> Keys(r.value.value) == Names(cols))
  {
    if pos + 6 <= |data| {
      var preamble := ReadBytesAt(data, pos + 6, U16At(data, pos + 4));
      assert Keys(Row([])) + Names(cols) == Names(cols);
      EmptyRowFresh(cols);
      ParseCellsFailsAtEnd(data, preamble.next, cols, Row([]));
      ParseCellsKeys(data, preamble.next, cols, Row([]));
      CellsEndInside(data, preamble.next, cols, Row([]));
      RowCells(data, pos, cols, skip);
    }
  }

  /**
   * A row whose layout lies inside the buffer decodes and takes
   * 4 + 2 + preamble + cells + skip bytes, unless the trailing seek would
   * pass int.MaxValue.
   */
  lemma RowTakesItsSize(data: seq<byte>, pos: nat, cols: seq<Column>, skip: uint16, n: nat)
    requires UniqueNames(cols)
    requires RowSize(data, pos, cols) == Some(n) && pos + n <= |data|
    ensures pos + n + skip <= MAX_POSITION ==>
              ParseRow(data, pos, cols, skip).Ok? && ParseRow(data, pos, cols, skip).value.next == pos + n + skip
    ensures MAX_POSITION < pos + n + skip ==> ParseRow(data, pos, cols, skip) == Err(SeekBeforeBegin)
  {
    var preamble := U16At(data, pos + 4);
    var start := pos + 6 + preamble;
    assert CellsSize(data, start, cols) == Some(n - 6 - preamble);
    assert ReadBytesAt(data, pos + 6, preamble).next == start;
    RowCellsTakeTheirSize(data, start, cols, n - 6 - preamble);
    RowCells(data, pos, cols, skip);
  }

  /** The cells of a row whose layout lies inside the buffer decode and take exactly their size. */
  lemma RowCellsTakeTheirSize(data: seq<byte>, start: nat, cols: seq<Column>, m: nat)
    requires UniqueNames(cols)
    requires CellsSize(data, start, cols) == Some(m) && start + m <= |data|
    ensures ParseCells(data, start, cols, Row([])).Ok?
    ensures ParseCells(data, start, cols, Row([])).value.next == start + m
  {
    EmptyRowFresh(cols);
    CellsTakeTheirSize(data, start, cols, Row([]), m);
  }

  /** The row reader of ReadRows, as a function of the position. */
  function RowReader(data: seq<byte>, cols: seq<Column>, skip: uint16): nat -> Result<Parsed<Row>, DecodeError> {
    (pos: nat) => ParseRow(data, pos, cols, skip)
  }

  /** The row loop of ReadRows: `count` more rows after `rows`. */
  function ParseRows(data: seq<byte>, pos: nat, cols: seq<Column>, skip: uint16, count: nat, rows: seq<Row>): Result<Parsed<seq<Row>>, DecodeError> {
    Repeat(RowReader(data, cols, skip), pos, count, rows)
  }

  /** The first step of the row loop: one row, then the rest after it. */
  lemma RowsStep(data: seq<byte>, pos: nat, cols: seq<Column>, skip: uint16, count: nat, rows: seq<Row>)
    requires 0 < count
    ensures var row := ParseRow(data, pos, cols, skip);
            && (row.Err? ==> ParseRows(data, pos, cols, skip, count, rows) == Err(row.error))
            && (row.Ok? ==>
                  ParseRows(data, pos, cols, skip, count, rows)
                  == ParseRows(data, row.value.next, cols, skip, count - 1, rows + [row.value.value]))
  {
  }

  /** Every row has one entry per column, keyed by the column names in catalog order. */
  ghost predicate AllKeyed(rows: seq<Row>, cols: seq<Column>) {
    forall i :: 0 <= i < |rows| ==> Keys(rows[i]) == Names(cols)
  }

  /**
   * With unique column names the row loop fails only at the end of the
   * buffer or at a trailing seek past int.MaxValue (and then only when the
   * buffer ends within `skip` bytes of it), adds exactly `count` rows, and
   * every row it adds is keyed by the column names in catalog order.
   */
  lemma ParseRowsShape(data: seq<byte>, pos: nat, cols: seq<Column>, skip: uint16, count: nat)
    requires UniqueNames(cols)
    ensures var r := ParseRows(data, pos, cols, skip, count, []);
            && (r.Err? ==> r.error == EndOfStream || r.error == SeekBeforeBegin)
            && (r.Err? && |data| + skip <= MAX_POSITION ==> r.error == EndOfStream)
            && (r.Ok? ==> |r.value.value| == count && AllKeyed(r.value.value, cols))
  {
    var read := RowReader(data, cols, skip);
    var keyed := (row: Row) => Keys(row) == Names(cols);
    var errors := if |data| + skip <= MAX_POSITION then {EndOfStream} else {EndOfStream, SeekBeforeBegin};
    forall p: nat
      ensures read(p).Err? ==> read(p).error in errors
      ensures read(p).Ok? ==> keyed(read(p).value.value)
    {
      RowKeys(data, p, cols, skip);
    }
    RepeatFailsWith(read, errors, pos, count, []);
    RepeatCount(read, pos, count, []);
    RepeatKeeps(read, keyed, pos, count, []);
  }

  /** The rows as ReadRows reads them: seek to len - ResourceOffset, then RowCount rows. */
  function RowBlock(data: seq<byte>, h: Header, cols: seq<Column>): Result<Parsed<seq<Row>>, DecodeError> {
    var start :- SeekAt(|data|, 0, -(h.resourceOffset as int), End);
    ParseRows(data, start, cols, h.stringColumnCount, h.rowCount, [])
  }

  /**
   * The row block starts at len - ResourceOffset and fails with a seek error
   * when that is negative or past int.MaxValue. With unique column names any
   * other failure is the end of the buffer or a row's trailing seek past
   * int.MaxValue, the latter only for a buffer that ends within
   * StringColumnCount bytes of it. A decoded block has exactly RowCount rows,
   * each keyed by the column names in catalog order.
   */
  lemma RowBlockShape(data: seq<byte>, h: Header, cols: seq<Column>)
    requires UniqueNames(cols)
    ensures var r := RowBlock(data, h, cols);
            var start := |data| - h.resourceOffset;
            && (start < 0 || MAX_POSITION < start ==> r == Err(SeekBeforeBegin))
            && (0 <= start <= MAX_POSITION ==>
                  r == ParseRows(data, start, cols, h.stringColumnCount, h.rowCount, []))
            && (r.Err? ==> r.error == EndOfStream || r.error == SeekBeforeBegin)
            && (0 <= start && |data| + h.stringColumnCount <= MAX_POSITION && r.Err? ==> r.error == EndOfStream)
            && (r.Ok? ==>
                  && |r.value.value| == h.rowCount
                  && AllKeyed(r.value.value, cols))
  {
    if h.resourceOffset <= |data| <= MAX_POSITION + h.resourceOffset {
      var start := |data| - h.resourceOffset;
      assert SeekAt(|data|, 0, -(h.resourceOffset as int), End) == Ok(start);
      ParseRowsShape(data, start, cols, h.stringColumnCount, h.rowCount);
    } else {
      assert SeekAt(|data|, 0, -(h.resourceOffset as int), End) == Err(SeekBeforeBegin);
    }
  }

  /** A cell's extent and failure depend only on whether its column is numeric. */
  lemma CellSameExtent(data: seq<byte>, pos: nat, a: Column, b: Column)
    requires IsNumber(a) == IsNumber(b)
    ensures var r, r' := ParseCell(data, pos, a), ParseCell(data, pos, b);
            && r.Ok? == r'.Ok?
            && (r.Ok? ==> r.value.next == r'.value.next)
            && (r.Err? ==> r.error == r'.error)
  {
  }

  /**
   * Two catalogs numeric at the same places, with fresh names, read the
   * cells of a row over the same bytes: they succeed together, end at the
   * same place and fail with the same error.
   */
  lemma {:induction false} CellsSameExtent(data: seq<byte>, pos: nat, a: seq<Column>, b: seq<Column>, ra: Row, rb: Row)
    requires SameKinds(a, b)
    requires FreshNames(Keys(ra), a) && FreshNames(Keys(rb), b)
    ensures var r, r' := ParseCells(data, pos, a, ra), ParseCells(data, pos, b, rb);
            && r.Ok? == r'.Ok?
            && (r.Ok? ==> r.value.next == r'.value.next)
            && (r.Err? ==> r.error == r'.error)
    decreases |a|
  {
    if a != [] {
      CellSameExtent(data, pos, a[0], b[0]);
      var cell, cell' := ParseCell(data, pos, a[0]), ParseCell(data, pos, b[0]);
      if cell.Ok? {
        var added := Row(ra.entries + [Entry(a[0].name, cell.value.value)]);
        var added' := Row(rb.entries + [Entry(b[0].name, cell'.value.value)]);
        CellsStep(data, pos, a, ra);
        CellsStep(data, pos, b, rb);
        assert SameKinds(a[1..], b[1..]) by {
          forall i | 0 <= i < |a| - 1
            ensures IsNumber(a[1..][i]) == IsNumber(b[1..][i])
          {
            assert a[1..][i] == a[i + 1] && b[1..][i] == b[i + 1];
          }
        }
        CellsSameExtent(data, cell.value.next, a[1..], b[1..], added, added');
      }
    }
  }

  /** Rows read against two catalogs numeric at the same places succeed together, end together and fail alike. */
  lemma RowSameExtent(data: seq<byte>, pos: nat, a: seq<Column>, b: seq<Column>, skip: uint16)
    requires SameKinds(a, b) && UniqueNames(a) && UniqueNames(b)
    ensures var r, r' := ParseRow(data, pos, a, skip), ParseRow(data, pos, b, skip);
            && r.Ok? == r'.Ok?
            && (r.Ok? ==> r.value.next == r'.value.next)
            && (r.Err? ==> r.error == r'.error)
  {
    if pos + 6 <= |data| {
      var preamble := ReadBytesAt(data, pos + 6, U16At(data, pos + 4));
      EmptyRowFresh(a);
      EmptyRowFresh(b);
      CellsSameExtent(data, preamble.next, a, b, Row([]), Row([]));
      RowCells(data, pos, a, skip);
      RowCells(data, pos, b, skip);
    }
  }

  /** The row loops of two catalogs numeric at the same places, with unique names, succeed together, end together and fail alike. */
  lemma {:induction false} RowsSameExtent(data: seq<byte>, pos: nat, a: seq<Column>, b: seq<Column>, skip: uint16, count: nat, done: seq<Row>, done': seq<Row>)
    requires SameKinds(a, b) && UniqueNames(a) && UniqueNames(b)
    ensures var r, r' := ParseRows(data, pos, a, skip, count, done), ParseRows(data, pos, b, skip, count, done');
            && r.Ok? == r'.Ok?
            && (r.Ok? ==> r.value.next == r'.value.next)
            && (r.Err? ==> r.error == r'.error)
    decreases count
  {
    if count > 0 {
      var row, row' := ParseRow(data, pos, a, skip), ParseRow(data, pos, b, skip);
      RowSameExtent(data, pos, a, b, skip);
      RowsStep(data, pos, a, skip, count, done);
      RowsStep(data, pos, b, skip, count, done');
      if row.Ok? {
        RowsSameExtent(data, row.value.next, a, b, skip, count - 1, done + [row.value.value], done' + [row'.value.value]);
      }
    }
  }

  /**
   * The row block read against two catalogs numeric at the same places,
   * with unique names, succeeds for both or fails for both with the same
   * error.
   */
  lemma RowBlockSameOutcome(data: seq<byte>, h: Header, a: seq<Column>, b: seq<Column>)
    requires SameKinds(a, b) && UniqueNames(a) && UniqueNames(b)
    ensures RowBlock(data, h, a).Ok? == RowBlock(data, h, b).Ok?
    ensures RowBlock(data, h, a).Err? ==> RowBlock(data, h, b) == Err(RowBlock(data, h, a).error)
  {
    var start := SeekAt(|data|, 0, -(h.resourceOffset as int), End);
    if start.Ok? {
      RowsSameExtent(data, start.value, a, b, h.stringColumnCount, h.rowCount, [], []);
    }
  }
}
