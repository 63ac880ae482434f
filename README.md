# NaiveDB record store, in Dafny

This project models the `Table` record store of NaiveDB (`table.h`) and
proves properties of that model. A table keeps two append-only files:

- the data file `<name>.dat`: for each row, a `RegistryHeader` (a 255-byte
  table name, an `unsigned` record size and a `time_t` stamp), then one
  fixed-width field per schema column;
- the index file `<name>_h.dat`: one 16-byte `(_id, registry_position)` pair
  per row.

It also holds the in-memory index `header`, which mirrors the index file.
Rows get auto-incremented `_id`s 0, 1, 2, … and are found by binary search
(`getRowById`). Two nested-loop equi-joins compare the decoded text of one
column of each table and return pairs of record offsets.

Modules, in dependency order:

- `Results`: `Result`, `Option` and the error kinds.
- `Bytes`: little-endian two's-complement encoding of native integers
  (`int`, `long long`, `unsigned`, `time_t`).
- `Decimal`: decimal text of integers. `Show` is `ostream <<`; `Parse` is
  `atoi`/`stoll` on well-formed text.
- `Codec`: the per-column codec of `convertAndSave` and `getRow`, covering
  INT32, INT64, FOREIGN_KEY and CHAR through `strncpy`.
- `Layout`: the record header, the record size and the record codec, plus
  `RowAt`, which is what `getRow` reads at an offset.
- `IndexFile`: the index file format, `loadHeader`'s parse, and the
  `lower_bound` search of `getRowById`.
- `Join`: `MatchRow` and `JoinAll`, the specification functions of the two
  joins.
- `Store`: the class `Table`. Both files are `seq<Byte>` fields and the index
  is a `seq<(int, int)>` field. Its methods update them as the C++ methods
  update the streams and the vector. `Valid()` is the invariant:
  - the in-memory index is what the index file loads as;
  - entry k holds `_id` k and offset k · RecordSize;
  - the data file holds exactly the indexed records.

Modelling choices:

- Native integers are assumed little-endian, as on x86-64; nothing in the
  code fixes the byte order. `sizeof(unsigned) == 4` and `sizeof(time_t) == sizeof(long long) == 8`.
  So HEADER_SIZE is 267, the sum of the written field sizes (`table.h:223`).
- `tellp()` on the data file opened for appending is taken to be the file's
  length, which is how the offsets in the index file are described
  (`table.h:24-30`).
- The schema is a constructor argument: `Table(name)` followed by
  `setSchema`. The files on disk are constructor arguments too. Column
  positions are already resolved (`getColPosition` is not part of this
  model).
- The wall clock `time()` is the parameter `now` of `Insert`.

Where the documented design and the code differ, the model follows the code:

- `insert` appends the index entry before it writes the record.
- `getRowById` returns an empty row for a negative `_id` when the index is
  not empty, and throws when the index is empty or the `_id` is at or past
  the end of an index shorter than 2^32 entries; past the end of a wider
  index the narrowed `idx` either throws or returns an empty row, depending
  on where it lands. It reports no "not found" error.
  Both behaviours are modelled as written in `Store.Table.GetRowById`. The
  corrected behaviour is `Store.Table.LookupRowById`.
- Reading past the end of the data file yields indeterminate values in the
  code. In the model it is the error `ReadPastEnd`.
- `drop` leaves a usable, empty table; there is no terminal "dropped" state.
- The documented example of `indexNestedLoopJoin` (table.h:133-134) seeds the
  join with `inner_index=dre=10`, a key value. The code uses `inner_index` as
  a position in the index (`header->at(inner_index)`, table.h:696), so on the
  two-row Person table that call would throw. `Store.Table.IndexNestedLoopJoin`
  takes a position, and the seeded form in `Join.PersonWorkedExample` is
  Marta's row, at position 1.
- `getRowById` keeps the `lower_bound` distance in an `int idx` (table.h:637).
  The model narrows it to 32 bits, as gcc converts it (`Bytes.Int32Of`), so an
  `_id` of 2^31 or more is never found.

## Model

| member | source | states |
|---|---|---|
| Bytes.Int32Of | table.h:637 | the value kept in an `int` is the one 32-bit value congruent to the wider value modulo 2^32, and equals it when it fits |
| Bytes.SignedRoundTrip | table.h:279-281 | a native integer written as n little-endian two's-complement bytes reads back as the same value, for every value of the type |
| Bytes.UnsignedRoundTrip | table.h:302-306 | an `unsigned` registry size written as 4 bytes reads back as the same size |
| Bytes.UnsignedOfLittleEndian | table.h:302-306 | reading n little-endian bytes inverts writing any value below 256^n |
| Decimal.ParseShow | table.h:312-319 | the decimal text `stringstream <<` gives an integer is well-formed and `stoll` parses it back to that integer |
| Decimal.DigitsValueOfDigits | table.h:312-319 | the digits of a natural number have that number as their value |
| Codec.StrNCpy | table.h:266-269 | `strncpy` into a w-byte column gives exactly w bytes: the text's bytes before its first NUL, cut to w, then zero bytes |
| Codec.UntilNul | table.h:599-603 | for a CHAR buffer that holds a zero byte, the text read is the buffer up to its first zero byte, byte for byte, with no NUL in it; a buffer without one is read as all its bytes, the corrected reading of the first finding below |
| Codec.UntilNulUnique | table.h:599-603 | the text read from a CHAR buffer is the only text with those three properties |
| Codec.CharRoundTrip | table.h:266-269 | a CHAR value stored in a w-byte column reads back as its text before the first NUL, cut to w characters |
| Codec.CharStreamAsWritten | table.h:599-603 | as written, printing a CHAR buffer is defined exactly when the value is shorter than the column; a value that fills the column has no terminator |
| Codec.EncodeField | table.h:261-284 | `convertAndSave` writes exactly the column's width of bytes for a value |
| Codec.FieldRoundTrip | table.h:594-618 | decoding the stored bytes of any well-formed value gives its canonical text: the integer in decimal, or the CHAR text cut at NUL and at the width |
| Codec.ShowIsCanonical | table.h:594-598 | an integer printed in decimal is stored and read back unchanged by an integer column wide enough for it |
| Layout.EncodeRecordHeader | table.h:300-307 | the RegistryHeader is written as exactly HEADER_SIZE = 255 + 4 + 8 bytes |
| Layout.RecordHeaderRoundTrip | table.h:18-22 | a written RegistryHeader reads back as the table name cut to 255 bytes, HEADER_SIZE plus the payload size, and the time stamp |
| Layout.EncodeFields | table.h:321-331 | the fields of a row take exactly the schema's payload size |
| Layout.DecodeFields | table.h:590-626 | `getRow` returns one text per schema column |
| Layout.RowRoundTrip | table.h:590-626 | the payload written for a well-formed row decodes, column by column, to the row's canonical text |
| Layout.EncodeRecord | table.h:300-331 | one record is exactly HEADER_SIZE plus the payload size bytes long |
| Layout.RowAt | table.h:571-631 | reading at an offset succeeds exactly when the whole record lies inside the data file, and then gives one text per column |
| Layout.ReadAppendedRecord | table.h:286-337 | a record appended at the end of the data file reads back at the old file length as the canonical row |
| Layout.ReadUnaffectedByAppend | table.h:289-290 | appending to the data file leaves every record already inside it unchanged |
| IndexFile.ParseIndexLength | table.h:248-256 | `loadHeader` yields one entry per complete 16-byte pair of the index file |
| IndexFile.ParseEntry | table.h:248-256 | one complete pair loads as its (_id, registry_position) entry, followed by what the rest of the file loads as |
| IndexFile.ReloadReproducesIndex | table.h:339-348 | reloading an index file written entry by entry reproduces the in-memory index |
| IndexFile.ParseAppendEntry | table.h:339-348 | appending one pair to an index file of whole pairs adds exactly that entry at the end of what it loads as |
| IndexFile.ParseDropsPartialTail | table.h:248-256 | a trailing partial pair is silently dropped by `loadHeader` |
| IndexFile.AppendAfterPartialTailMisaligned | table.h:339-348 | as written: after a reload that dropped half a pair, the next appended pair is read back shifted by 8 bytes, so _id 1 is given registry position 1 instead of the one written |
| IndexFile.CompletePairs | table.h:248-256 | the complete pairs at the front of an index file load as the same index as the whole file |
| IndexFile.AppendAfterCompletePairs | table.h:339-348 | corrected: a pair appended after the complete pairs loads as the in-memory index plus exactly that entry |
| IndexFile.LowerBound | table.h:637-638 | `lower_bound` returns the index that splits the entries below the key from those at or above it |
| IndexFile.ProbeByIdGapless | table.h:633-647 | as written, on a gapless index, `lower_bound` lands on k clamped to 0 .. the row count; a search for `_id` k hits entry k when k is in range and below 2^31, gives an empty row for a negative k on a non-empty index, throws for k at or past the end of an index shorter than 2^32 entries or on an empty index, and never hits for k of 2^31 or more |
| IndexFile.WideIndexProbe | table.h:637-641 | as written, on a gapless index of more than 2^32 entries, the narrowed `int idx` makes `_id` 2^31 throw and `_id` 2^32 give an empty row, though both are stored |
| IndexFile.ProbePastEndThrows | table.h:641 | on an index shorter than 2^32 entries, the `_id` just past the last row makes `header->at` throw; on one shorter than 2^31 entries, every stored `_id` is found |
| IndexFile.FindByIdGapless | table.h:633-647 | the corrected search finds the offset of entry k exactly when 0 <= k < the row count, and reports not found otherwise |
| Join.MatchRowMembers | table.h:698-712 | one inner row is paired with an outer offset exactly when some outer row at that offset has equal key text |
| Join.MatchRowLength | table.h:698-712 | one inner row yields at most one pair per outer row |
| Join.JoinAllMembers | table.h:663-682 | the nested-loop join contains a pair exactly when some inner row and some outer row at those offsets have equal key text |
| Join.JoinAllLength | table.h:663-682 | the join has at most inner-count times outer-count pairs |
| Join.JoinAllSplit | table.h:688-715 | the join is inner-major: the pairs of inner row k are one contiguous block, the seeded join of row k |
| Join.PersonWorkedExample | table.h:140-154 | the documented Person/Worked example gives [111,555], [222,666], [222,777], and its seeded form for Marta gives [222,666], [222,777] |
| Store.OffsetsIncrease | table.h:24-30 | in a well-laid-out store each record starts where the previous one ends, so offsets strictly increase |
| Store.StoredRecordReadable | table.h:296 | every offset the index holds points to a whole record inside the data file |
| Store.EmptyFilesAreStoreFiles | table.h:649-653 | absent (empty) files form a well-laid-out store |
| Store.IdColumnReadsBack | table.h:312-319 | the `_id` that `insert` prepends as column 0 reads back as its own decimal text |
| Store.AppendRecordKeepsStoreFiles | table.h:286-351 | appending one record and its index pair keeps the files well laid out, adds exactly that entry, and leaves every earlier record unchanged |
| Store.Table.constructor | table.h:215-226 | opening a table loads the index file into the in-memory index, and the table is valid when its files are well laid out |
| Store.Table.LoadHeader | table.h:244-259 | the loop pushes exactly the entries the index file parses to, dropping a partial tail |
| Store.Table.InsertOnHeaderFile | table.h:339-351 | one pair is appended to the index file and the same entry to the in-memory index |
| Store.Table.Insert | table.h:286-337 | returns the old row count as the `_id`; appends (id, old data length) to both indexes; the data file grows by exactly one record; the new row reads back as its canonical text with the `_id` first; earlier rows are unchanged; the invariant is kept |
| Store.Table.WriteRegistry | table.h:300-331 | the data file grows by the header bytes, then each value's field bytes in schema order |
| Store.Table.ConvertAndSave | table.h:261-284 | appends exactly the encoded bytes of one value |
| Store.Table.GetRow | table.h:571-631 | the column loop returns exactly what `RowAt` gives for that offset, including the out-of-file error |
| Store.Table.GetRowById | table.h:633-647 | as written: the stored row for an `_id` in range and below 2^31, an empty row for a negative `_id` on a non-empty table, OutOfRange for an `_id` at or past the end of a table shorter than 2^32 rows or on an empty table, and never a stored row for an `_id` of 2^31 or more |
| Store.Table.LookupRowById | table.h:633-647 | corrected: the stored row for every `_id` in range, NotFound for every other `_id` |
| Store.Table.Drop | table.h:649-653 | whatever the files hold, both files and the in-memory index become empty, and the resulting table satisfies the invariant |
| Store.Table.MatchRows | table.h:698-712 | the inner loop emits exactly MatchRow of the key over this table's rows, in index order |
| Store.Table.NestedLoopJoin | table.h:655-685 | the nested loops emit exactly JoinAll of the two tables' key columns |
| Store.Table.IndexNestedLoopJoin | table.h:688-715 | for an inner index in range, emits exactly the MatchRow block of that inner row; OutOfRange where `header->at` throws |

## Left out

- FLOAT and DOUBLE columns (`atof`, IEEE-754 and stream formatting of floating point) are not modelled.
- The two `query` overloads, `convertFromCSV`, `print` and `printHeaderFile` are not modelled. They are a tokenizer, a stub, and console or CSV glue.
- `importSchema`, `getSchema`, `Schema`, `SchemaCol::getSize`, `getColPosition`, `Cursor` and `split` are not part of this model (schema.h, cursor.h and util.h). Column types, widths and resolved column positions are inputs.
- File open, seek, close and `remove` are not modelled; the files are byte sequences held by the table. I/O failures are not modelled.
- The destructor is not modelled; it only frees the in-memory index.
- `time()` is not modelled; the time stamp is the parameter `now`.
- `Codec.WellFormedValue`: integer text is an optional sign and digits whose value fits the column. Leading blanks and trailing junk, which `atoi` and `stoll` skip or stop at, are not modelled, nor are out-of-range values, which are undefined for `atoi` and throw for `stoll`.
- Store.Table.Insert: requires a well-formed row of exactly the schema's length. The source writes fewer fields for a shorter row. For a longer row it throws from `schema_cols->at` after writing part of the record.
- Store.Table.Insert: requires the data file's length to fit in a `long long`. An offset is stored in 8 bytes.
- Store.Table.GetRowById: for an `_id` of 2^31 or more it promises only an empty row or OutOfRange; which of the two depends on where the narrowed `idx` lands, shown for two ids by `IndexFile.WideIndexProbe`.
- Store.Table.NestedLoopJoin: the loop counters `int i` and `int j` (table.h:663, table.h:667, table.h:698) are unbounded in the model. In the source, `i++` past INT_MAX is signed overflow, so a table of more than 2^31 - 1 rows is outside what the source defines; `Store.Table.MatchRows` and `Store.Table.IndexNestedLoopJoin` share this.
- Store.Table.Insert: it is modelled only on files that satisfy `Valid()`, and so are `GetRowById`, `LookupRowById`, `MatchRows` and the two joins (the constructor, `LoadHeader`, `GetRow` and `Drop` take any files). `Valid()` means an index file of whole pairs, ids 0, 1, … and records laid end to end. On an index file with a partial trailing pair, which `loadHeader` drops, the source appends the new pair after the partial bytes, so the file no longer reloads as the in-memory index; `IndexFile.AppendAfterPartialTailMisaligned` shows this on the file bytes.
- Store.Table.GetRow: a CHAR field is decoded with the corrected reading `Codec.UntilNul`, so a field with no zero byte decodes as the whole field. The source reads past the end of the buffer there (the first finding below); that reading is `Codec.CStreamText` and is not used by `GetRow`.
- Store.Table.GetRow: a record that runs past the end of the data file is the error `ReadPastEnd`. The source returns texts of indeterminate bytes there.
- Store.Table.LoadHeader: the two reads of a pair are modelled as one step. A pair whose first half is complete is dropped just as the source drops it.
- The constructor's open of a missing index file is the empty file.

## Findings

| source | as written | input that shows it | evidently intended | confidence | as-written member | corrected member |
|---|---|---|---|---|---|---|
| table.h:266-269 | `strncpy` into a CHAR buffer adds no terminator when the value is at least as long as the column. `getRow` then streams the buffer as a C string (table.h:599-603) and reads past its end | a CHAR(4) column holding "abcd" | the value reads back as its first 4 characters | high, not executed | Codec.CharStreamAsWritten | Codec.CharRoundTrip |
| table.h:641 | `header->at(idx)` is called even when `lower_bound` returns the end of the index, so on an index shorter than 2^32 entries the call throws | `getRowById(0)` on an empty table, or `getRowById(n)` on a table of n rows | report that no row has that `_id` | high, not executed | IndexFile.ProbePastEndThrows | Store.Table.LookupRowById |
| table.h:637 | the `lower_bound` distance is stored in an `int idx`, which wraps for an index of 2^31 or more entries | `getRowById(2^31)` (throws) or `getRowById(2^32)` (empty row) on a table of more than 2^32 rows | every stored `_id` is found, with an index as wide as the distance | medium, not executed | IndexFile.WideIndexProbe | IndexFile.FindByIdGapless |
| table.h:339-348 | `insertOnHeaderFile` opens the index file for appending, after any partial pair that `loadHeader` (table.h:248-256) skipped | the index file `EncodeEntry((0, 0))` followed by the 8 bytes of `_id` 1, then `insert` of a row at offset r != 1 | the new pair is written after the complete pairs, so the file reloads as the in-memory index | medium, not executed | IndexFile.AppendAfterPartialTailMisaligned | IndexFile.AppendAfterCompletePairs |
