/**
 * IesFile: the decoder object. Opening a buffer reads the header, the column
 * catalog and the rows, in that order, through one binary reader; each step
 * stores what it read in a field of the object.
 *
 * The C# constructor throws on the first failed read. Here each step returns
 * an Outcome, and Open returns the decoded file or the first error.
 */
module IesFormat {
  import opened Primitives
  import opened ByteCursor
  import opened StringCodec
  import opened ColumnNames
  import opened Columns
  import opened Rows
  import opened IesLayout

  /** The header of an object whose header has not been read yet. */
  const UNREAD_HEADER := Header([], 0, 0, 0, 0, 0, 0, 0)

  /**
   * What decoding `content` gives: the header at the front, the catalog
   * sorted by CompareTo (in any order List.Sort may leave equal keys), and
   * the rows read against that sorted catalog.
   */
  ghost predicate Decodes(content: seq<byte>, h: Header, cols: seq<Column>, rows: seq<Row>) {
    && ParseHeader(content, 0).Ok?
    && ParseHeader(content, 0).value.value == h
    && ColumnBlock(content, h).Ok?
    && Sorted(cols)
    && multiset(cols) == multiset(ColumnBlock(content, h).value.value)
    && RowBlock(content, h, cols).Ok?
    && RowBlock(content, h, cols).value.value == rows
  }

  /**
   * Decoding `content` stops with `e`: the header read fails with it, or the
   * catalog read does, or the row read does against a sorting of the
   * catalog.
   */
  ghost predicate FailsWith(content: seq<byte>, e: DecodeError) {
    var header := ParseHeader(content, 0);
    if header.Err? then e == header.error
    else
      var block := ColumnBlock(content, header.value.value);
      if block.Err? then e == block.error
      else
        exists cols ::
          && Sorted(cols)
          && multiset(cols) == multiset(block.value.value)
          && RowBlock(content, header.value.value, cols) == Err(e)
  }

  /**
   * A decoded file has ColumnCount columns with pairwise different names,
   * sorted by CompareTo, and RowCount rows, each holding one entry per
   * column keyed by the column names in catalog order.
   */
  lemma DecodeShape(content: seq<byte>, h: Header, cols: seq<Column>, rows: seq<Row>)
    ensures Decodes(content, h, cols, rows) ==>
              && |cols| == h.columnCount && UniqueNames(cols) && Sorted(cols)
              && |rows| == h.rowCount && AllKeyed(rows, cols)
  {
    if !Decodes(content, h, cols, rows) { return; }
    var block := ColumnBlock(content, h).value.value;
    ColumnBlockExtent(content, h);
    ColumnBlockEntries(content, h);
    assert |cols| == |multiset(cols)| == |multiset(block)| == |block|;
    PermutationKeepsUniqueNames(block, cols);
    RowBlockShape(content, h, cols);
  }

  /**
   * Decoding only ever stops at a read: past the end of the buffer, or at a
   * seek before its start. The dictionary of a row never meets a duplicate
   * key, because the catalog's names are made unique first.
   */
  lemma FailsOnlyAtReads(content: seq<byte>, e: DecodeError)
    ensures FailsWith(content, e) ==> e == EndOfStream || e == SeekBeforeBegin
  {
    if !FailsWith(content, e) { return; }
    HeaderLayout(content, 0);
    var header := ParseHeader(content, 0);
    if header.Ok? {
      var h := header.value.value;
      ColumnBlockExtent(content, h);
      var block := ColumnBlock(content, h);
      if block.Ok? {
        var cols :| Sorted(cols) && multiset(cols) == multiset(block.value.value) && RowBlock(content, h, cols) == Err(e);
        ColumnBlockEntries(content, h);
        PermutationKeepsUniqueNames(block.value.value, cols);
        RowBlockShape(content, h, cols);
      }
    }
  }

  /**
   * Which sorted order List.Sort leaves the catalog in does not decide
   * whether the rows decode: two sorted reorderings of one catalog with
   * unique names both succeed, or both fail with the same error.
   */
  lemma SortingDoesNotDecideSuccess(content: seq<byte>, h: Header, c1: seq<Column>, c2: seq<Column>)
    requires Sorted(c1) && Sorted(c2) && multiset(c1) == multiset(c2) && UniqueNames(c1)
    ensures RowBlock(content, h, c1).Ok? == RowBlock(content, h, c2).Ok?
    ensures RowBlock(content, h, c1).Err? ==> RowBlock(content, h, c2) == Err(RowBlock(content, h, c1).error)
  {
    PermutationKeepsUniqueNames(c1, c2);
    SortedPermutationsSameKinds(c1, c2);
    RowBlockSameOutcome(content, h, c1, c2);
  }

  /**
   * Decoding is decided by the content alone: a file that decodes under
   * one sorting of its catalog does not fail under another, so Decodes and
   * FailsWith never both hold.
   */
  lemma DecodesExcludesFailure(content: seq<byte>, h: Header, cols: seq<Column>, rows: seq<Row>, e: DecodeError)
    ensures Decodes(content, h, cols, rows) ==> !FailsWith(content, e)
  {
    if !Decodes(content, h, cols, rows) { return; }
    var block := ColumnBlock(content, h).value.value;
    ColumnBlockEntries(content, h);
    PermutationKeepsUniqueNames(block, cols);
    if FailsWith(content, e) {
      var other :| Sorted(other) && multiset(other) == multiset(block) && RowBlock(content, h, other) == Err(e);
      SortingDoesNotDecideSuccess(content, h, cols, other);
      assert false;
    }
  }

  class IesFile {
    const reader: Cursor
    var header: Header
    var columns: seq<Column>
    var rows: seq<Row>

    /** The object over a fresh reader at the start of `content`, nothing read yet. */
    constructor (content: seq<byte>)
      ensures fresh(reader) && reader.data == content && reader.pos == 0
      ensures header == UNREAD_HEADER && columns == [] && rows == []
    {
      reader := new Cursor(content);
      header := UNREAD_HEADER;
      columns := [];
      rows := [];
    }

    /** IesFile.ReadHeader: the 156-byte header at the reader's position. */
    method ReadHeader() returns (o: Outcome<DecodeError>)
      modifies this, reader
      ensures columns == old(columns) && rows == old(rows)
      ensures var r := ParseHeader(reader.data, old(reader.pos));
              && (r.Err? ==> o == Fail(r.error))
              && (r.Ok? ==> o == Pass && header == r.value.value && reader.pos == r.value.next)
    {
      var name := reader.ReadBytes(NAME_SIZE);
      var offsets := ReadOffsets();
      if offsets.Err? { return Fail(offsets.error); }
      var counts := ReadCounts();
      if counts.Err? { return Fail(counts.error); }
      var (dataOffset, resourceOffset, fileSize) := offsets.value;
      var (rowCount, columnCount, numberColumnCount, stringColumnCount) := counts.value;
      header := Header(name, dataOffset, resourceOffset, fileSize,
                       rowCount, columnCount, numberColumnCount, stringColumnCount);
      o := Pass;
    }

    /** The u32 fields of ReadHeader. */
    method ReadOffsets() returns (r: Result<(uint32, uint32, uint32), DecodeError>)
      modifies reader
      ensures var spec := ParseOffsets(reader.data, old(reader.pos));
              && r == Returned(spec)
              && (spec.Ok? ==> reader.pos == spec.value.next)
    {
      var unknown := reader.ReadUInt32();
      if unknown.Err? { return Err(unknown.error); }
      var dataOffset := reader.ReadUInt32();
      if dataOffset.Err? { return Err(dataOffset.error); }
      var resourceOffset := reader.ReadUInt32();
      if resourceOffset.Err? { return Err(resourceOffset.error); }
      var fileSize := reader.ReadUInt32();
      if fileSize.Err? { return Err(fileSize.error); }
      r := Ok((dataOffset.value, resourceOffset.value, fileSize.value));
    }

    /** The u16 fields of ReadHeader. */
    method ReadCounts() returns (r: Result<(uint16, uint16, uint16, uint16), DecodeError>)
      modifies reader
      ensures var spec := ParseCounts(reader.data, old(reader.pos));
              && r == Returned(spec)
              && (spec.Ok? ==> reader.pos == spec.value.next)
    {
      var reserved := reader.ReadUInt16();
      if reserved.Err? { return Err(reserved.error); }
      var rowCount := reader.ReadUInt16();
      if rowCount.Err? { return Err(rowCount.error); }
      var columnCount := reader.ReadUInt16();
      if columnCount.Err? { return Err(columnCount.error); }
      var numberColumnCount := reader.ReadUInt16();
      if numberColumnCount.Err? { return Err(numberColumnCount.error); }
      var stringColumnCount := reader.ReadUInt16();
      if stringColumnCount.Err? { return Err(stringColumnCount.error); }
      var trailer := reader.ReadUInt16();
      if trailer.Err? { return Err(trailer.error); }
      r := Ok((rowCount.value, columnCount.value, numberColumnCount.value, stringColumnCount.value));
    }

    /**
     * IesFile.ReadColumns: seek to the catalog, read ColumnCount entries,
     * decrypting both names and renaming a name already taken, then sort.
     */
    method ReadColumns() returns (o: Outcome<DecodeError>)
      modifies this, reader
      ensures header == old(header) && rows == old(rows)
      ensures var r := ColumnBlock(reader.data, header);
              && (r.Err? ==> o == Fail(r.error))
              && (r.Ok? ==>
                    && o == Pass
                    && reader.pos == r.value.next
                    && Sorted(columns)
                    && multiset(columns) == multiset(r.value.value))
    {
      var start := reader.Seek(-(header.resourceOffset as int) - header.dataOffset, End);
      if start.Err? { return Fail(start.error); }
      columns := [];
      o := ReadCatalog(header.columnCount);
      if o.Fail? { return; }
      columns := SortColumns(columns);
    }

    /**
     * The loop of ReadColumns: `count` entries from the reader's position,
     * each appended to the catalog under the name UniqueName gives it.
     */
    method ReadCatalog(count: nat) returns (o: Outcome<DecodeError>)
      requires columns == []
      modifies this, reader
      ensures header == old(header) && rows == old(rows)
      ensures var spec := ReadEntries(reader.data, old(reader.pos), count, []);
              && (spec.Err? ==> o == Fail(spec.error))
              && (spec.Ok? ==> o == Pass && columns == RenameAll(spec.value.value) && reader.pos == spec.value.next)
    {
      ghost var start := reader.pos;
      ghost var raws: seq<RawEntry> := [];
      var i := 0;
      while i < count
        invariant 0 <= i <= count && |raws| == i
        invariant header == old(header) && rows == old(rows)
        invariant reader.pos == start + COLUMN_ENTRY_SIZE * i
        invariant EntriesAt(reader.data, start, raws)
        invariant columns == RenameAll(raws)
      {
        ghost var raw;
        o, raw := ReadColumn(raws);
        if o.Fail? {
          ReadEntriesShort(reader.data, start, count, i);
          return;
        }
        EntryAtAppend(reader.data, start, raws, raw);
        raws := raws + [raw];
        i := i + 1;
      }
      ReadEntriesExact(reader.data, start, raws);
      o := Pass;
    }

    /**
     * One catalog entry of ReadColumns, appended to the catalog: two 64-byte
     * names, each decrypted, the type, a dropped u32 and the position; the
     * name is made unique against the columns already in the catalog, which
     * RenameAll gives from the entries `raws`. The read fails exactly when
     * fewer than 136 bytes remain; the ghost result is the entry read.
     */
    method ReadColumn(ghost raws: seq<RawEntry>) returns (o: Outcome<DecodeError>, ghost raw: RawEntry)
      requires columns == RenameAll(raws)
      modifies this, reader
      ensures header == old(header) && rows == old(rows)
      ensures var p := old(reader.pos);
              && (o.Fail? <==> |reader.data| < p + COLUMN_ENTRY_SIZE)
              && (o.Fail? ==> o.error == EndOfStream)
              && (o.Pass? ==>
                    && raw == EntryValue(reader.data, p)
                    && reader.pos == p + COLUMN_ENTRY_SIZE
                    && columns == RenameAll(raws + [raw]))
    {
      var entry := ReadColumnEntry();
      if entry.Err? { return Fail(entry.error), RawEntry([], [], 0, 0); }
      var name := DecryptString(entry.value.name);
      var name2 := DecryptString(entry.value.name2);
      var unique, _ := Deduplicate(Names(columns), name);
      raw := entry.value;
      RenameAllAppend(raws, raw);
      columns := columns + [Column(unique, name2, entry.value.kind, entry.value.position)];
      o := Pass;
    }

    /** The reads of one catalog entry, names still XORed: the 136 bytes at the position, or EndOfStream. */
    method ReadColumnEntry() returns (r: Result<RawEntry, DecodeError>)
      modifies reader
      ensures var p := old(reader.pos);
              && (r.Ok? <==> p + COLUMN_ENTRY_SIZE <= |reader.data|)
              && (r.Err? ==> r.error == EndOfStream)
              && (r.Ok? ==> r.value == EntryValue(reader.data, p) && reader.pos == p + COLUMN_ENTRY_SIZE)
    {
      ColumnEntryLayout(reader.data, reader.pos);
      var name := reader.ReadBytes(COLUMN_NAME_SIZE);
      var name2 := reader.ReadBytes(COLUMN_NAME_SIZE);
      var kind := reader.ReadUInt16();
      if kind.Err? { return Err(kind.error); }
      var reserved := reader.ReadUInt32();
      if reserved.Err? { return Err(reserved.error); }
      var position := reader.ReadUInt16();
      if position.Err? { return Err(position.error); }
      r := Ok(RawEntry(name, name2, kind.value, position.value));
    }

    /**
     * IesFile.ReadRows: seek to the rows and read RowCount of them, each a
     * dropped u32, a skipped preamble, one cell per column of the sorted
     * catalog, and a forward skip of StringColumnCount bytes.
     */
    method ReadRows() returns (o: Outcome<DecodeError>)
      modifies this, reader
      ensures header == old(header) && columns == old(columns)
      ensures var r := RowBlock(reader.data, header, columns);
              && (r.Err? ==> o == Fail(r.error))
              && (r.Ok? ==> o == Pass && rows == r.value.value && reader.pos == r.value.next)
    {
      var start := reader.Seek(-(header.resourceOffset as int), End);
      if start.Err? { return Fail(start.error); }
      o := ReadRowsFrom(columns, header.stringColumnCount, header.rowCount);
    }

    /** The row loop of ReadRows: `count` rows from the reader's position. */
    method ReadRowsFrom(cols: seq<Column>, skip: uint16, count: nat) returns (o: Outcome<DecodeError>)
      modifies this, reader
      ensures header == old(header) && columns == old(columns)
      ensures var r := ParseRows(reader.data, old(reader.pos), cols, skip, count, []);
              && (r.Err? ==> o == Fail(r.error))
              && (r.Ok? ==> o == Pass && rows == r.value.value && reader.pos == r.value.next)
    {
      ghost var block := ParseRows(reader.data, reader.pos, cols, skip, count, []);
      rows := [];
      var i := 0;
      while i < count
        invariant 0 <= i <= count
        invariant header == old(header) && columns == old(columns)
        invariant block == ParseRows(reader.data, reader.pos, cols, skip, count - i, rows)
      {
        ghost var here := reader.pos;
        var item := ReadRow(cols, skip);
        RowsStep(reader.data, here, cols, skip, count - i, rows);
        if item.Err? { return Fail(item.error); }
        rows := rows + [item.value];
        i := i + 1;
      }
      o := Pass;
    }

    /**
     * One row of ReadRows, from the reader's position, read against the
     * sorted catalog `cols` and followed by a skip of `skip` bytes.
     */
    method ReadRow(cols: seq<Column>, skip: uint16) returns (r: Result<Row, DecodeError>)
      modifies reader
      ensures var spec := ParseRow(reader.data, old(reader.pos), cols, skip);
              && (r.Err? ==> spec == Err(r.error))
              && (r.Ok? ==> spec == Ok(Parsed(r.value, reader.pos)))
    {
      ghost var start := reader.pos;
      var reserved := reader.ReadUInt32();
      if reserved.Err? { return Err(reserved.error); }
      var length := reader.ReadUInt16();
      if length.Err? { return Err(length.error); }
      var _ := reader.ReadBytes(length.value);
      RowCells(reader.data, start, cols, skip);
      var cells := ReadCells(cols);
      if cells.Err? { return Err(cells.error); }
      var next := reader.Seek(skip as int, Current);
      if next.Err? { return Err(next.error); }
      r := Ok(cells.value);
    }

    /** The cells of one row, read in catalog order from the reader's position. */
    method ReadCells(cols: seq<Column>) returns (r: Result<Row, DecodeError>)
      modifies reader
      ensures var spec := ParseCells(reader.data, old(reader.pos), cols, Row([]));
              && (r.Err? ==> spec == Err(r.error))
              && (r.Ok? ==> spec == Ok(Parsed(r.value, reader.pos)))
    {
      ghost var start := reader.pos;
      var item := Row([]);
      var j := 0;
      while j < |cols|
        invariant 0 <= j <= |cols|
        invariant ParseCells(reader.data, start, cols, Row([]))
               == ParseCells(reader.data, reader.pos, cols[j..], item)
      {
        var added := ReadCell(cols[j..], item);
        if added.Err? { return Err(added.error); }
        item := added.value;
        j := j + 1;
      }
      assert cols[j..] == [];
      r := Ok(item);
    }

    /**
     * One cell of ReadRows, stored in `item` under the name of the first of
     * `cols`: a Float column holds a 4-byte single, any other a u16 length
     * and, when that is not 0, that many XORed bytes. A name already in the
     * row fails with DuplicateKey. This is the first step of ParseCells.
     */
    method ReadCell(cols: seq<Column>, item: Row) returns (r: Result<Row, DecodeError>)
      requires cols != []
      modifies reader
      ensures var spec := ParseCells(reader.data, old(reader.pos), cols, item);
              && (r.Err? ==> spec == Err(r.error))
              && (r.Ok? ==> spec == ParseCells(reader.data, reader.pos, cols[1..], r.value))
    {
      var column := cols[0];
      var cell: Cell;
      if IsNumber(column) {
        var single := reader.ReadUInt32();
        if single.Err? { return Err(single.error); }
        cell := NumericCell(single.value);
      } else {
        var length := reader.ReadUInt16();
        if length.Err? { return Err(length.error); }
        var text: seq<byte> := [];
        if length.value > 0 {
          var bytes := reader.ReadBytes(length.value);
          text := DecryptString(bytes);
        }
        cell := TextCell(text);
      }
      r := Add(item, column.name, cell);
    }

    /**
     * The IesFile(byte[]) constructor: a reader over the content, then the
     * header, the catalog and the rows; the first failure ends the decode.
     */
    static method Open(content: seq<byte>) returns (r: Result<IesFile, DecodeError>)
      ensures r.Ok? ==> fresh(r.value) && r.value.reader.data == content
      ensures r.Ok? ==> Decodes(content, r.value.header, r.value.columns, r.value.rows)
      ensures r.Err? ==> FailsWith(content, r.error)
      ensures r.Err? ==> forall h, cols, rows :: !Decodes(content, h, cols, rows)
    {
      var file := new IesFile(content);
      var o := file.ReadHeader();
      if o.Pass? {
        o := file.ReadColumns();
      }
      if o.Pass? {
        o := file.ReadRows();
        if o.Fail? {
          assert RowBlock(content, file.header, file.columns) == Err(o.error);
        }
      }
      if o.Fail? {
        r := Err(o.error);
        forall h, cols, rows
          ensures !Decodes(content, h, cols, rows)
        {
          DecodesExcludesFailure(content, h, cols, rows, r.error);
        }
      } else {
        r := Ok(file);
      }
    }
  }
}
