/**
 * The `Table` record store of table.h: an in-memory index (`header`) over
 * two append-only files, the data file `<name>.dat` and the index file
 * `<name>_h.dat`, both held here as byte sequences.
 */
module Store {
  import opened Results
  import opened Bytes
  import opened Decimal
  import opened Codec
  import opened Layout
  import opened IndexFile
  import opened Join

  /**
   * The two files as the store writes them: whole index pairs, entry k
   * holding _id k and the offset of record k, every record RecordSize(s)
   * bytes long, so record k starts at k * RecordSize(s), and nothing in the
   * data file after the last record.
   */
  ghost predicate StoreFiles(s: Schema, data: seq<Byte>, index: seq<Byte>) {
    var h := ParseIndex(index);
    && |index| % ENTRY_SIZE == 0
    && Gapless(h)
    && (forall k :: 0 <= k < |h| ==> h[k].1 == k * RecordSize(s))
    && |data| == |h| * RecordSize(s)
  }

  lemma WholePairs(len: nat)
    requires len % ENTRY_SIZE == 0
    ensures (len + ENTRY_SIZE) % ENTRY_SIZE == 0
  {
  }

  lemma MulSucc(n: nat, size: nat)
    ensures (n + 1) * size == n * size + size
  {
  }

  lemma RecordFits(k: nat, n: nat, size: nat)
    requires k < n
    ensures k * size + size <= n * size
  {
    assert n * size == (k + 1) * size + (n - k - 1) * size;
  }

  /** Every record the index of well-laid-out files points to can be read. */
  lemma StoredRecordReadable(s: Schema, data: seq<Byte>, index: seq<Byte>, k: int)
    requires StoreFiles(s, data, index)
    requires 0 <= k < |ParseIndex(index)|
    ensures RowAt(s, data, ParseIndex(index)[k].1).Ok?
  {
    RecordFits(k, |ParseIndex(index)|, RecordSize(s));
  }

  /**
   * In well-laid-out files the record offsets strictly increase along the
   * index, each record starting where the one before it ends.
   */
  lemma OffsetsIncrease(s: Schema, data: seq<Byte>, index: seq<Byte>)
    requires StoreFiles(s, data, index)
    ensures forall k :: 0 < k < |ParseIndex(index)| ==>
      ParseIndex(index)[k].1 == ParseIndex(index)[k - 1].1 + RecordSize(s)
    ensures forall i, j :: 0 <= i < j < |ParseIndex(index)| ==> ParseIndex(index)[i].1 < ParseIndex(index)[j].1
  {
    var h := ParseIndex(index);
    forall k | 0 < k < |h| ensures h[k].1 == h[k - 1].1 + RecordSize(s) {
      MulSucc(k - 1, RecordSize(s));
    }
    forall i, j | 0 <= i < j < |h| ensures h[i].1 < h[j].1 {
      RecordFits(i, j, RecordSize(s));
    }
  }

  /** A fresh store (both files absent or empty) is well laid out. */
  lemma EmptyFilesAreStoreFiles(s: Schema)
    ensures StoreFiles(s, [], [])
  {
    assert ParseIndex([]) == [];
  }

  /**
   * The _id `insert` prepends as column 0 reads back as its decimal text
   * when column 0 is an integer column wide enough for it.
   */
  lemma IdColumnReadsBack(s: Schema, id: int, row: seq<string>)
    requires |s| >= 1 && s[0].kind != Char && InSignedRange(id, s[0].width)
    requires WellFormedRow(s[1..], row)
    ensures WellFormedRow(s, [Show(id)] + row)
    ensures CanonicalRow(s, [Show(id)] + row)[0] == Show(id)
  {
    ShowIsCanonical(id, s[0]);
    var values := [Show(id)] + row;
    forall i | 1 <= i < |s| ensures WellFormedValue(values[i], s[i]) {
      assert values[i] == row[i - 1] && s[i] == s[1..][i - 1];
    }
  }

  /**
   * One turn of insert's column loop: the first value of a well-formed row
   * is written first, and what remains is a well-formed row of the
   * remaining columns.
   */
  lemma WriteStep(s: Schema, values: seq<string>, d: seq<Byte>, target: seq<Byte>)
    requires ValidSchema(s) && WellFormedRow(s, values) && values != []
    requires d + EncodeFields(s, values) == target
    ensures ValidColumn(s[0]) && WellFormedValue(values[0], s[0])
    ensures ValidSchema(s[1..]) && WellFormedRow(s[1..], values[1..])
    ensures (d + EncodeField(values[0], s[0])) + EncodeFields(s[1..], values[1..]) == target
  {
    forall i | 0 <= i < |s| - 1
      ensures ValidColumn(s[1..][i]) && WellFormedValue(values[1..][i], s[1..][i])
    {
      assert s[1..][i] == s[i + 1] && values[1..][i] == values[i + 1];
    }
    var field := EncodeField(values[0], s[0]);
    var later := EncodeFields(s[1..], values[1..]);
    assert d + (field + later) == (d + field) + later;
  }

  /** A record is appended as its header bytes followed by its field bytes. */
  lemma RecordParts(d: seq<Byte>, name: string, s: Schema, values: seq<string>, stamp: int)
    requires IsByteText(name) && InSignedRange(stamp, TIME_STAMP_BYTES)
    requires ValidSchema(s) && WellFormedRow(s, values)
    ensures d + EncodeRecord(name, s, values, stamp)
         == (d + EncodeRecordHeader(name, PayloadSize(s), stamp)) + EncodeFields(s, values)
  {
    var head := EncodeRecordHeader(name, PayloadSize(s), stamp);
    var fields := EncodeFields(s, values);
    assert d + (head + fields) == (d + head) + fields;
  }

  /** The next _id and the next offset of well-laid-out files fit in a long long. */
  lemma IndexBelowPosition(s: Schema, data: seq<Byte>, index: seq<Byte>)
    requires StoreFiles(s, data, index)
    ensures |ParseIndex(index)| <= |data|
  {
    AtMostProduct(|ParseIndex(index)|, RecordSize(s));
  }

  lemma {:induction false} AtMostProduct(n: nat, size: nat)
    requires size >= 1
    ensures n <= n * size
  {
    if n > 0 {
      AtMostProduct(n - 1, size);
      MulSucc(n - 1, size);
    }
  }

  /** Appending bytes to the data file leaves every record an index points to as it was. */
  lemma AppendKeepsRecords(s: Schema, data: seq<Byte>, h: seq<Entry>, extra: seq<Byte>)
    requires forall k :: 0 <= k < |h| ==> h[k].1 == k * RecordSize(s)
    requires |data| == |h| * RecordSize(s)
    ensures forall k :: 0 <= k < |h| ==> RowAt(s, data + extra, h[k].1) == RowAt(s, data, h[k].1)
  {
    forall k | 0 <= k < |h|
      ensures RowAt(s, data + extra, h[k].1) == RowAt(s, data, h[k].1)
    {
      RecordFits(k, |h|, RecordSize(s));
      assert h[k].1 + RecordSize(s) <= |data|;
      ReadUnaffectedByAppend(s, data, extra, h[k].1);
    }
  }

  /**
   * Appending one record to the data file and its entry to the index file
   * keeps the files well laid out, adds that entry to what the index file
   * loads as, and leaves every stored record as it was.
   */
  lemma AppendRecordKeepsStoreFiles(s: Schema, data: seq<Byte>, index: seq<Byte>, record: seq<Byte>)
    requires StoreFiles(s, data, index) && |record| == RecordSize(s)
    requires InSignedRange(|data|, POSITION_BYTES)
    ensures EntryInRange((|ParseIndex(index)|, |data|))
    ensures ParseIndex(index + EncodeEntry((|ParseIndex(index)|, |data|)))
         == ParseIndex(index) + [(|ParseIndex(index)|, |data|)]
    ensures StoreFiles(s, data + record, index + EncodeEntry((|ParseIndex(index)|, |data|)))
    ensures forall k :: 0 <= k < |ParseIndex(index)| ==>
      RowAt(s, data + record, ParseIndex(index)[k].1) == RowAt(s, data, ParseIndex(index)[k].1)
  {
    var h := ParseIndex(index);
    var n := |h|;
    IndexBelowPosition(s, data, index);
    ParseAppendEntry(index, (n, |data|));
    var h' := h + [(n, |data|)];
    MulSucc(n, RecordSize(s));
    assert |data + record| == (n + 1) * RecordSize(s);
    assert Gapless(h');
    assert forall k :: 0 <= k < |h'| ==> h'[k].1 == k * RecordSize(s);
    var index' := index + EncodeEntry((n, |data|));
    assert ParseIndex(index') == h';
    assert |index'| == |index| + ENTRY_SIZE;
    WholePairs(|index|);
    AppendKeepsRecords(s, data, h, record);
  }

  class Table {
    const name: string
    const schema: Schema
    /** The in-memory index: (_id, registry_position) per row, in insertion order. */
    var header: seq<Entry>
    /** The bytes of the data file `<name>.dat`. */
    var data: seq<Byte>
    /** The bytes of the index file `<name>_h.dat`. */
    var indexFile: seq<Byte>

    /** The in-memory index mirrors the index file, and both files are well laid out. */
    ghost predicate Valid()
      reads this
    {
      && ValidSchema(schema) && IsByteText(name)
      && header == ParseIndex(indexFile)
      && StoreFiles(schema, data, indexFile)
    }

    /**
     * The (registry_position, text of column col) of every row of this
     * table, in index order: the keys a join on column col compares.
     */
    ghost function Keys(col: nat): (keys: Keyed)
      reads this
      requires Valid() && col < |schema|
      ensures |keys| == |header|
    {
      assert forall k :: 0 <= k < |header| ==> RowAt(schema, data, header[k].1).Ok? by {
        forall k | 0 <= k < |header| ensures RowAt(schema, data, header[k].1).Ok? {
          StoredRecordReadable(schema, data, indexFile, k);
        }
      }
      var h, d := header, data;
      seq(|h|, k requires 0 <= k < |h| => (h[k].1, RowAt(schema, d, h[k].1).value[col]))
    }

    /**
     * `Table(name)` followed by `setSchema`: opens the store over the files
     * found on disk and loads the index file into memory.
     */
    constructor (name: string, schema: Schema, dataFile: seq<Byte>, indexBytes: seq<Byte>)
      requires ValidSchema(schema) && IsByteText(name)
      ensures this.name == name && this.schema == schema
      ensures data == dataFile && indexFile == indexBytes
      ensures header == ParseIndex(indexBytes)
      ensures StoreFiles(schema, dataFile, indexBytes) ==> Valid()
    {
      this.name := name;
      this.schema := schema;
      data := dataFile;
      indexFile := indexBytes;
      header := [];
      new;
      LoadHeader();
    }

    /**
     * `loadHeader`: reads (_id, registry_position) pairs from the index file
     * until a read comes up short, pushing each onto the index.
     */
    method LoadHeader()
      modifies this`header
      ensures header == old(header) + ParseIndex(indexFile)
    {
      var p := 0;
      while p < |indexFile|
        invariant 0 <= p <= |indexFile|
        invariant header + ParseIndex(indexFile[p..]) == old(header) + ParseIndex(indexFile)
        decreases |indexFile| - p
      {
        if p + ID_BYTES > |indexFile| || p + ENTRY_SIZE > |indexFile| {
          break;  // one of the two reads fails: a partial pair is dropped
        }
        var id := Signed(indexFile[p .. p + ID_BYTES]);
        var position := Signed(indexFile[p + ID_BYTES .. p + ENTRY_SIZE]);
        assert indexFile[p..][..ID_BYTES] == indexFile[p .. p + ID_BYTES];
        assert indexFile[p..][ID_BYTES..ENTRY_SIZE] == indexFile[p + ID_BYTES .. p + ENTRY_SIZE];
        assert indexFile[p..][ENTRY_SIZE..] == indexFile[p + ENTRY_SIZE..];
        header := header + [(id, position)];
        p := p + ENTRY_SIZE;
      }
    }

    /**
     * `insertOnHeaderFile`: appends one entry to the index file and to the
     * in-memory index.
     */
    method InsertOnHeaderFile(e: Entry)
      requires EntryInRange(e)
      modifies this`header, this`indexFile
      ensures indexFile == old(indexFile) + EncodeEntry(e)
      ensures header == old(header) + [e]
    {
      indexFile := indexFile + EncodeEntry(e);
      header := header + [e];
    }

    /**
     * `insert`: gives the row the next _id, records the data file's length
     * as its position, appends the index entry (before the record, as the
     * source does), then the RegistryHeader and one field per column, the
     * _id text first.
     */
    method Insert(row: seq<string>, now: int) returns (id: int)
      requires Valid()
      requires WellFormedRow(schema, [Show(|header|)] + row)
      requires InSignedRange(now, TIME_STAMP_BYTES)
      requires InSignedRange(|data|, POSITION_BYTES)
      modifies this
      ensures Valid()
      ensures id == old(|header|) <= old(|data|)
      ensures header == old(header) + [(id, old(|data|))]
      ensures indexFile == old(indexFile) + EncodeEntry((id, old(|data|)))
      ensures data == old(data) + EncodeRecord(name, schema, [Show(id)] + row, now)
      ensures |data| == old(|data|) + HEADER_SIZE + PayloadSize(schema)
      ensures RowAt(schema, data, header[id].1) == Ok(CanonicalRow(schema, [Show(id)] + row))
      ensures forall k :: 0 <= k < id ==> RowAt(schema, data, header[k].1) == old(RowAt(schema, data, header[k].1))
    {
      var position := |data|;  // tellp() of the data file opened for appending
      id := |header|;
      ghost var data0, index0 := data, indexFile;
      IndexBelowPosition(schema, data, indexFile);
      InsertOnHeaderFile((id, position));

      var values := [Show(id)] + row;
      WriteRegistry(values, now);
      AppendRecordKeepsStoreFiles(schema, data0, index0, EncodeRecord(name, schema, values, now));
      ReadAppendedRecord(data0, name, schema, values, now);
    }

    /**
     * The data-file half of `insert`: the RegistryHeader, then each value
     * (the _id text first) through `convertAndSave`, column by column.
     */
    method WriteRegistry(values: seq<string>, now: int)
      requires ValidSchema(schema) && IsByteText(name) && WellFormedRow(schema, values)
      requires InSignedRange(now, TIME_STAMP_BYTES)
      modifies this`data
      ensures data == old(data) + EncodeRecord(name, schema, values, now)
    {
      RecordParts(data, name, schema, values, now);
      data := data + EncodeRecordHeader(name, PayloadSize(schema), now);
      ghost var written := data + EncodeFields(schema, values);
      var cols := schema;
      var rest := values;
      while rest != []
        modifies this`data
        invariant ValidSchema(cols) && WellFormedRow(cols, rest)
        invariant data + EncodeFields(cols, rest) == written
        decreases |rest|
      {
        WriteStep(cols, rest, data, written);
        ConvertAndSave(rest[0], cols[0]);
        cols := cols[1..];
        rest := rest[1..];
      }
      assert cols == [] && EncodeFields(cols, rest) == [];
    }

    /** `convertAndSave`: appends the bytes of one value to the data file. */
    method ConvertAndSave(value: string, column: Column)
      requires ValidColumn(column) && WellFormedValue(value, column)
      modifies this`data
      ensures data == old(data) + EncodeField(value, column)
    {
      data := data + EncodeField(value, column);
    }

    /**
     * `getRow(registry_position)`: reads the record at that offset and
     * decodes its columns in schema order; a record running past the end of
     * the data file is an error.
     */
    method GetRow(position: int) returns (r: Result<seq<string>>)
      ensures r == RowAt(schema, data, position)
    {
      if position < 0 || position + RecordSize(schema) > |data| {
        return Err(ReadPastEnd);
      }
      // the RegistryHeader at position is read and not used
      var payload := data[position + HEADER_SIZE .. position + RecordSize(schema)];
      var stream := payload;
      var cols := schema;
      var row := [];
      while cols != []
        invariant |stream| == PayloadSize(cols)
        invariant row + DecodeFields(cols, stream) == DecodeFields(schema, payload)
        decreases |cols|
      {
        var column := cols[0];
        var text := DecodeField(stream[..column.width], column);
        ghost var later := DecodeFields(cols[1..], stream[column.width..]);
        assert row + ([text] + later) == (row + [text]) + later;
        row := row + [text];
        stream := stream[column.width..];
        cols := cols[1..];
      }
      assert row == DecodeFields(schema, payload);
      r := Ok(row);
    }

    /**
     * `getRowById(_id)` as written: lower_bound over the index, then
     * `header->at(idx)`, which throws when the search runs off the end.
     */
    method GetRowById(id: int) returns (r: Result<seq<string>>)
      requires Valid()
      ensures 0 <= id < |header| && id < 0x8000_0000 ==> r.Ok? && r == RowAt(schema, data, header[id].1)
      ensures id < 0 && |header| > 0 ==> r == Ok([])
      ensures (id >= |header| || |header| == 0) && |header| < 0x1_0000_0000 ==> r == Err(OutOfRange)
      ensures id >= 0x8000_0000 ==> r == Ok([]) || r == Err(OutOfRange)
    {
      ProbeByIdGapless(header, id);
      match ProbeById(header, id)
      case Thrown =>
        r := Err(OutOfRange);
      case Hit(position) =>
        StoredRecordReadable(schema, data, indexFile, id);
        r := GetRow(position);
      case Miss =>
        r := Ok([]);
    }

    /**
     * `getRowById(_id)` as evidently intended: the same search, reporting
     * NotFound instead of indexing past the end of the index.
     */
    method LookupRowById(id: int) returns (r: Result<seq<string>>)
      requires Valid()
      ensures 0 <= id < |header| ==> r.Ok? && r == RowAt(schema, data, header[id].1)
      ensures !(0 <= id < |header|) ==> r == Err(NotFound)
    {
      FindByIdGapless(header, id);
      match FindById(header, id)
      case Some(position) =>
        StoredRecordReadable(schema, data, indexFile, id);
        r := GetRow(position);
      case None =>
        r := Err(NotFound);
    }

    /** `drop`: removes both files and clears the in-memory index. */
    method Drop()
      requires ValidSchema(schema) && IsByteText(name)
      modifies this
      ensures Valid()
      ensures header == [] && data == [] && indexFile == []
    {
      data := [];
      indexFile := [];
      header := [];
      EmptyFilesAreStoreFiles(schema);
    }

    /**
     * The inner loop of both joins, run over this table as the outer side:
     * reads every row in index order and emits [position, outer position]
     * for each row whose text in column col equals key.
     */
    method MatchRows(position: int, key: string, col: nat) returns (pairs: seq<(int, int)>)
      requires Valid() && col < |schema|
      ensures pairs == MatchRow(position, key, Keys(col))
    {
      ghost var outers := Keys(col);
      pairs := [];
      var j := 0;
      while j < |header|
        invariant 0 <= j <= |header| == |outers|
        invariant pairs + MatchRow(position, key, outers[j..]) == MatchRow(position, key, outers)
      {
        KeyAt(col, j);
        var row := GetRow(header[j].1);
        assert header[j].1 == outers[j].0 && row.value[col] == outers[j].1;
        MatchRowStep(position, key, outers, j, pairs);
        var found := if key == row.value[col] then [(position, header[j].1)] else [];
        pairs := pairs + found;
        j := j + 1;
      }
      assert outers[j..] == [];
    }

    /**
     * `nestedLoopJoin`: for every inner row (this table) and, inside, every
     * outer row, emits [inner position, outer position] when the decoded
     * texts of the two chosen columns are equal.
     */
    method NestedLoopJoin(outer: Table, outerColumn: nat, innerColumn: nat) returns (result: seq<(int, int)>)
      requires Valid() && outer.Valid()
      requires innerColumn < |schema| && outerColumn < |outer.schema|
      ensures result == JoinAll(Keys(innerColumn), outer.Keys(outerColumn))
    {
      ghost var inner := Keys(innerColumn);
      ghost var outers := outer.Keys(outerColumn);
      result := [];
      var i := 0;
      while i < |header|
        invariant 0 <= i <= |header| == |inner|
        invariant result + JoinAll(inner[i..], outers) == JoinAll(inner, outers)
      {
        KeyAt(innerColumn, i);
        var innerRow := GetRow(header[i].1);
        assert header[i].1 == inner[i].0 && innerRow.value[innerColumn] == inner[i].1;
        JoinAllStep(inner, outers, i, result);
        var pairs := outer.MatchRows(header[i].1, innerRow.value[innerColumn], outerColumn);
        result := result + pairs;
        i := i + 1;
      }
      assert inner[i..] == [];
    }

    /**
     * `indexNestedLoopJoin`: the same join with the inner side fixed to the
     * row at position innerIndex of this table's index; `header->at` throws
     * for a position outside the index.
     */
    method IndexNestedLoopJoin(outer: Table, outerColumn: nat, innerColumn: nat, innerIndex: int)
      returns (r: Result<seq<(int, int)>>)
      requires Valid() && outer.Valid()
      requires innerColumn < |schema| && outerColumn < |outer.schema|
      ensures 0 <= innerIndex < |header| ==>
        r == Ok(MatchRow(Keys(innerColumn)[innerIndex].0, Keys(innerColumn)[innerIndex].1, outer.Keys(outerColumn)))
      ensures !(0 <= innerIndex < |header|) ==> r == Err(OutOfRange)
    {
      if innerIndex < 0 || innerIndex >= |header| {
        return Err(OutOfRange);
      }
      KeyAt(innerColumn, innerIndex);
      var innerRow := GetRow(header[innerIndex].1);
      var pairs := outer.MatchRows(header[innerIndex].1, innerRow.value[innerColumn], outerColumn);
      r := Ok(pairs);
    }

    /** Row k of the index can be read, and its key is its position and its column text. */
    lemma KeyAt(col: nat, k: int)
      requires Valid() && col < |schema| && 0 <= k < |header|
      ensures RowAt(schema, data, header[k].1).Ok?
      ensures Keys(col)[k] == (header[k].1, RowAt(schema, data, header[k].1).value[col])
    {
      StoredRecordReadable(schema, data, indexFile, k);
    }
  }
}
