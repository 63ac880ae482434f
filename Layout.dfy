/**
 * The layout of one record in the data file: a fixed RegistryHeader
 * (table name, registry size, time stamp) followed by one fixed-width field
 * per schema column.
 */
module Layout {
  import opened Results
  import opened Bytes
  import opened Decimal
  import opened Codec

  const TABLE_NAME_BYTES := 255    // sizeof(RegistryHeader::table_name)
  const REGISTRY_SIZE_BYTES := 4   // sizeof(unsigned)
  const TIME_STAMP_BYTES := 8      // sizeof(time_t)

  /** HEADER_SIZE: the width of a RegistryHeader, the sum of its three fields. */
  const HEADER_SIZE := TABLE_NAME_BYTES + REGISTRY_SIZE_BYTES + TIME_STAMP_BYTES

  /** The columns of a table, in on-disk order; column 0 holds the _id. */
  type Schema = seq<Column>

  predicate ValidSchema(s: Schema) {
    forall i :: 0 <= i < |s| ==> ValidColumn(s[i])
  }

  /** `Schema::getSize`: the sum of the column widths. */
  function PayloadSize(s: Schema): nat {
    if s == [] then 0 else s[0].width + PayloadSize(s[1..])
  }

  /** The registry size stored in every header: the header plus the payload. */
  function RecordSize(s: Schema): nat {
    HEADER_SIZE + PayloadSize(s)
  }

  /**
   * The RegistryHeader bytes `insert` writes: the table name through
   * strncpy into 255 bytes, the registry size as an unsigned (wrapping
   * modulo 2^32) and the time stamp as a time_t.
   */
  function EncodeRecordHeader(name: string, payload: nat, stamp: int): (bs: seq<Byte>)
    requires IsByteText(name) && InSignedRange(stamp, TIME_STAMP_BYTES)
    ensures |bs| == HEADER_SIZE
  {
    StrNCpy(name, TABLE_NAME_BYTES)
      + EncodeInt((HEADER_SIZE + payload) % Pow256(REGISTRY_SIZE_BYTES), REGISTRY_SIZE_BYTES)
      + EncodeInt(stamp, TIME_STAMP_BYTES)
  }

  /** The fields of a RegistryHeader read back from its bytes. */
  datatype RegistryHeader = RegistryHeader(tableName: string, registrySize: nat, timeStamp: int)

  function DecodeRecordHeader(bs: seq<Byte>): RegistryHeader
    requires |bs| == HEADER_SIZE
  {
    RegistryHeader(
      UntilNul(bs[..TABLE_NAME_BYTES]),
      Unsigned(bs[TABLE_NAME_BYTES..TABLE_NAME_BYTES + REGISTRY_SIZE_BYTES]),
      Signed(bs[TABLE_NAME_BYTES + REGISTRY_SIZE_BYTES..]))
  }

  /**
   * A header reads back as the table name (cut to 255 bytes), the record
   * size of the schema and the time stamp it was written with.
   */
  lemma RecordHeaderRoundTrip(name: string, payload: nat, stamp: int)
    requires IsByteText(name) && InSignedRange(stamp, TIME_STAMP_BYTES)
    requires HEADER_SIZE + payload < Pow256(REGISTRY_SIZE_BYTES)
    ensures DecodeRecordHeader(EncodeRecordHeader(name, payload, stamp))
         == RegistryHeader(Truncate(CText(name), TABLE_NAME_BYTES), HEADER_SIZE + payload, stamp)
  {
    var n := StrNCpy(name, TABLE_NAME_BYTES);
    var z := EncodeInt(HEADER_SIZE + payload, REGISTRY_SIZE_BYTES);
    var t := EncodeInt(stamp, TIME_STAMP_BYTES);
    var bs := EncodeRecordHeader(name, payload, stamp);
    assert bs == n + z + t;
    assert bs[..TABLE_NAME_BYTES] == n;
    assert bs[TABLE_NAME_BYTES..TABLE_NAME_BYTES + REGISTRY_SIZE_BYTES] == z;
    assert bs[TABLE_NAME_BYTES + REGISTRY_SIZE_BYTES..] == t;
    CharRoundTrip(name, TABLE_NAME_BYTES);
    UnsignedRoundTrip(HEADER_SIZE + payload, REGISTRY_SIZE_BYTES);
    SignedRoundTrip(stamp, TIME_STAMP_BYTES);
  }

  /** A row whose i-th value fits the i-th column. */
  predicate WellFormedRow(s: Schema, values: seq<string>) {
    |values| == |s| && forall i :: 0 <= i < |s| ==> WellFormedValue(values[i], s[i])
  }

  /** The payload `insert` writes: each value through its column's codec, in order. */
  function EncodeFields(s: Schema, values: seq<string>): (bs: seq<Byte>)
    requires ValidSchema(s) && WellFormedRow(s, values)
    ensures |bs| == PayloadSize(s)
  {
    if s == [] then [] else EncodeField(values[0], s[0]) + EncodeFields(s[1..], values[1..])
  }

  /** The row `getRow` reads from a payload: one text per column, in schema order. */
  function DecodeFields(s: Schema, bs: seq<Byte>): (row: seq<string>)
    requires |bs| == PayloadSize(s)
    ensures |row| == |s|
  {
    if s == [] then []
    else [DecodeField(bs[..s[0].width], s[0])] + DecodeFields(s[1..], bs[s[0].width..])
  }

  /** The text each value of a row reads back as. */
  function CanonicalRow(s: Schema, values: seq<string>): (row: seq<string>)
    requires WellFormedRow(s, values)
    ensures |row| == |s|
    ensures forall i :: 0 <= i < |s| ==> row[i] == Canonical(values[i], s[i])
  {
    seq(|s|, i requires 0 <= i < |s| => Canonical(values[i], s[i]))
  }

  /** A row written by EncodeFields reads back value by value in canonical form. */
  lemma {:induction false} RowRoundTrip(s: Schema, values: seq<string>)
    requires ValidSchema(s) && WellFormedRow(s, values)
    ensures DecodeFields(s, EncodeFields(s, values)) == CanonicalRow(s, values)
  {
    if s != [] {
      var head := EncodeField(values[0], s[0]);
      var bs := EncodeFields(s, values);
      assert bs[..s[0].width] == head;
      assert bs[s[0].width..] == EncodeFields(s[1..], values[1..]);
      FieldRoundTrip(values[0], s[0]);
      RowRoundTrip(s[1..], values[1..]);
    }
  }

  /** The bytes `insert` appends to the data file for one row. */
  function EncodeRecord(name: string, s: Schema, values: seq<string>, stamp: int): (bs: seq<Byte>)
    requires IsByteText(name) && InSignedRange(stamp, TIME_STAMP_BYTES)
    requires ValidSchema(s) && WellFormedRow(s, values)
    ensures |bs| == RecordSize(s)
  {
    EncodeRecordHeader(name, PayloadSize(s), stamp) + EncodeFields(s, values)
  }

  /**
   * `getRow(position)`: the record starting at position, decoded column by
   * column; a record that would run past the end of the file is an error.
   */
  function RowAt(s: Schema, data: seq<Byte>, position: int): (r: Result<seq<string>>)
    ensures r.Ok? <==> 0 <= position && position + RecordSize(s) <= |data|
    ensures r.Ok? ==> |r.value| == |s|
  {
    if 0 <= position && position + RecordSize(s) <= |data|
    then Ok(DecodeFields(s, data[position + HEADER_SIZE .. position + RecordSize(s)]))
    else Err(ReadPastEnd)
  }

  /** A record appended at the end of the data file reads back as its canonical row. */
  lemma ReadAppendedRecord(data: seq<Byte>, name: string, s: Schema, values: seq<string>, stamp: int)
    requires IsByteText(name) && InSignedRange(stamp, TIME_STAMP_BYTES)
    requires ValidSchema(s) && WellFormedRow(s, values)
    ensures RowAt(s, data + EncodeRecord(name, s, values, stamp), |data|) == Ok(CanonicalRow(s, values))
  {
    var d := data + EncodeRecord(name, s, values, stamp);
    assert d[|data| + HEADER_SIZE .. |data| + RecordSize(s)] == EncodeFields(s, values);
    RowRoundTrip(s, values);
  }

  /** Appending to the data file leaves every record already inside it unchanged. */
  lemma ReadUnaffectedByAppend(s: Schema, data: seq<Byte>, extra: seq<Byte>, position: int)
    requires 0 <= position && position + RecordSize(s) <= |data|
    ensures RowAt(s, data + extra, position) == RowAt(s, data, position)
  {
    assert (data + extra)[position + HEADER_SIZE .. position + RecordSize(s)]
        == data[position + HEADER_SIZE .. position + RecordSize(s)];
  }
}
