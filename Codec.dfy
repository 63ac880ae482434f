/**
 * The per-column codec of table.h: `convertAndSave` turns the text of one
 * value into the fixed-width bytes of its column, and the branches of
 * `getRow` turn those bytes back into text.
 */
module Codec {
  import opened Results
  import opened Bytes
  import opened Decimal

  /** Column types whose encoding is modelled (FLOAT and DOUBLE are not). */
  datatype ColumnType = Int32 | Int64 | ForeignKey | Char

  /** A schema column: its type and the byte width `SchemaCol::getSize` reports. */
  datatype Column = Column(kind: ColumnType, width: nat)

  const INT32_BYTES := 4  // sizeof(int)
  const INT64_BYTES := 8  // sizeof(long long)

  /**
   * Integer columns are as wide as the native variable the codec copies
   * through; a CHAR column may have any width.
   */
  predicate ValidColumn(c: Column) {
    match c.kind
    case Int32 => c.width == INT32_BYTES
    case Int64 => c.width == INT64_BYTES
    case ForeignKey => c.width == INT64_BYTES
    case Char => true
  }

  /** Text whose characters each fit in one byte, as the bytes of a std::string do. */
  predicate IsByteText(s: string) {
    forall i :: 0 <= i < |s| ==> s[i] as int < 256
  }

  predicate NoNul(s: string) {
    forall i :: 0 <= i < |s| ==> s[i] != '\0'
  }

  /** The C string `c_str()` exposes: the characters before the first NUL. */
  function CText(s: string): (t: string)
    ensures |t| <= |s| && t == s[..|t|]
    ensures NoNul(t)
    ensures |t| < |s| ==> s[|t|] == '\0'
  {
    if s == [] || s[0] == '\0' then [] else [s[0]] + CText(s[1..])
  }

  /** The bytes of byte text, one per character. */
  function TextBytes(t: string): (bs: seq<Byte>)
    requires IsByteText(t)
    ensures |bs| == |t|
    ensures forall i :: 0 <= i < |t| ==> bs[i] == t[i] as int
  {
    if t == [] then [] else [t[0] as int] + TextBytes(t[1..])
  }

  function Zeros(k: nat): (bs: seq<Byte>)
    ensures |bs| == k && forall i :: 0 <= i < k ==> bs[i] == 0
  {
    seq(k, _ => 0)
  }

  /**
   * `strncpy(buffer, s.c_str(), w)`: the C string of s cut to w bytes, and
   * zero-filled up to w bytes when it is shorter.
   */
  function StrNCpy(s: string, w: nat): (bs: seq<Byte>)
    requires IsByteText(s)
    ensures |bs| == w
    ensures forall i :: 0 <= i < w ==>
      bs[i] == if i < |CText(s)| then CText(s)[i] as int else 0
  {
    var t := CText(s);
    if |t| >= w then TextBytes(t[..w]) else TextBytes(t) + Zeros(w - |t|)
  }

  /** The first w characters of t, or all of t when it is shorter. */
  function Truncate(t: string, w: nat): (r: string)
    ensures |r| == if |t| < w then |t| else w
    ensures r == t[..|r|]
  {
    if |t| <= w then t else t[..w]
  }

  /**
   * The text held in a fixed-width CHAR buffer: its bytes up to the first
   * zero byte, or all of them when the buffer holds none.
   */
  function UntilNul(bs: seq<Byte>): (t: string)
    ensures |t| <= |bs| && NoNul(t) && IsByteText(t)
    ensures forall i :: 0 <= i < |t| ==> t[i] as int == bs[i]
    ensures |t| < |bs| ==> bs[|t|] == 0
  {
    if bs == [] || bs[0] == 0 then [] else [bs[0] as char] + UntilNul(bs[1..])
  }

  /**
   * What `stream << value` reads from a CHAR buffer in `getRow`, as the code
   * is written: a `char[]` is printed as a C string, so a buffer that holds
   * no zero byte is read past its end (None: no defined result).
   */
  function CStreamText(bs: seq<Byte>): Option<string> {
    if 0 in bs then Some(UntilNul(bs)) else None
  }

  /**
   * UntilNul is the only text that agrees with a buffer byte for byte, holds
   * no NUL and stops at the buffer's first zero byte (or at its end).
   */
  lemma UntilNulUnique(bs: seq<Byte>, t: string)
    requires |t| <= |bs| && NoNul(t)
    requires forall i :: 0 <= i < |t| ==> t[i] as int == bs[i]
    requires |t| < |bs| ==> bs[|t|] == 0
    ensures UntilNul(bs) == t
  {
    var u := UntilNul(bs);
    assert forall i :: 0 <= i < |t| ==> bs[i] != 0;
    assert forall i :: 0 <= i < |u| ==> bs[i] != 0;
    assert |u| == |t|;
    forall i | 0 <= i < |t| ensures u[i] == t[i] {
      assert u[i] as int == t[i] as int;
    }
  }

  /**
   * A CHAR value survives the column round trip cut to the column width and
   * to its first NUL.
   */
  lemma CharRoundTrip(s: string, w: nat)
    requires IsByteText(s)
    ensures UntilNul(StrNCpy(s, w)) == Truncate(CText(s), w)
  {
    var t := CText(s);
    var bs := StrNCpy(s, w);
    var r := Truncate(t, w);
    forall i | 0 <= i < |r| ensures r[i] as int == bs[i] {
      assert r[i] == t[i];
    }
    UntilNulUnique(bs, r);
  }

  /**
   * As written, printing a CHAR buffer is defined exactly when the value's C
   * string is shorter than the column: a value that fills the whole width is
   * stored without a terminator.
   */
  lemma CharStreamAsWritten(s: string, w: nat)
    requires IsByteText(s)
    ensures CStreamText(StrNCpy(s, w)) == if |CText(s)| < w then Some(CText(s)) else None
  {
    var t := CText(s);
    var bs := StrNCpy(s, w);
    if |t| < w {
      assert bs[|t|] == 0;
      CharRoundTrip(s, w);
    } else {
      forall i | 0 <= i < w ensures bs[i] != 0 {
        assert t[i] != '\0';
      }
    }
  }

  /** Text that the column's branch of `convertAndSave` stores without error. */
  predicate WellFormedValue(text: string, c: Column) {
    if c.kind == Char then IsByteText(text)
    else IsDecimal(text) && InSignedRange(Parse(text), c.width)
  }

  /** `convertAndSave`: the bytes written for one value of column c. */
  function EncodeField(text: string, c: Column): (bs: seq<Byte>)
    requires ValidColumn(c) && WellFormedValue(text, c)
    ensures |bs| == c.width
  {
    match c.kind
    case Int32 => EncodeInt(Parse(text), INT32_BYTES)
    case Int64 => EncodeInt(Parse(text), INT64_BYTES)
    case ForeignKey => EncodeInt(Parse(text), INT64_BYTES)
    case Char => StrNCpy(text, c.width)
  }

  /** One branch of `getRow`: the text read back from the bytes of column c. */
  function DecodeField(bs: seq<Byte>, c: Column): string
    requires |bs| == c.width
  {
    match c.kind
    case Int32 => Show(Signed(bs))
    case Int64 => Show(Signed(bs))
    case ForeignKey => Show(Signed(bs))
    case Char => UntilNul(bs)
  }

  /**
   * The text a stored value reads back as: an integer in its printed form, a
   * CHAR value cut to its first NUL and to the column width.
   */
  function Canonical(text: string, c: Column): string
    requires WellFormedValue(text, c)
  {
    if c.kind == Char then Truncate(CText(text), c.width) else Show(Parse(text))
  }

  /** Decoding a field gives back the canonical text of the encoded value. */
  lemma FieldRoundTrip(text: string, c: Column)
    requires ValidColumn(c) && WellFormedValue(text, c)
    ensures DecodeField(EncodeField(text, c), c) == Canonical(text, c)
  {
    if c.kind == Char {
      CharRoundTrip(text, c.width);
    } else {
      SignedRoundTrip(Parse(text), c.width);
    }
  }

  /** Printed integers are stored and read back unchanged by integer columns. */
  lemma ShowIsCanonical(v: int, c: Column)
    requires c.kind != Char && InSignedRange(v, c.width)
    ensures WellFormedValue(Show(v), c) && Canonical(Show(v), c) == Show(v)
  {
    ParseShow(v);
  }
}
