/**
 * Bytes as stored in the data and index files, and the native
 * little-endian, two's-complement layout of C++ integers.
 */
module Bytes {

  /** One byte of a file, as an unsigned value. */
  type Byte = b: int | 0 <= b < 256

  /** 256^n: how many distinct values n bytes can hold. */
  function Pow256(n: nat): (p: nat)
    ensures p >= 1
  {
    if n == 0 then 1 else 256 * Pow256(n - 1)
  }

  /** The n little-endian bytes of an unsigned value that fits in them. */
  function LittleEndian(u: nat, n: nat): (bs: seq<Byte>)
    ensures |bs| == n
  {
    if n == 0 then [] else [u % 256] + LittleEndian(u / 256, n - 1)
  }

  /** The unsigned value held by little-endian bytes. */
  function Unsigned(bs: seq<Byte>): (u: nat)
    ensures u < Pow256(|bs|)
  {
    if bs == [] then 0 else bs[0] + 256 * Unsigned(bs[1..])
  }

  /** The value an n-byte signed (two's-complement) integer can take. */
  predicate InSignedRange(v: int, n: nat) {
    -(Pow256(n) as int) <= 2 * v < Pow256(n)
  }

  /** The value an n-byte unsigned integer can take. */
  predicate InUnsignedRange(v: int, n: nat) {
    0 <= v < Pow256(n)
  }

  /**
   * The bytes a native n-byte integer variable holding v occupies in memory,
   * as `ofstream::write(reinterpret_cast<char *>(&v), n)` copies them out on a
   * little-endian machine: a negative value is stored as its two's complement.
   */
  function EncodeInt(v: int, n: nat): (bs: seq<Byte>)
    requires InSignedRange(v, n) || InUnsignedRange(v, n)
    ensures |bs| == n
  {
    LittleEndian(if v < 0 then v + Pow256(n) else v, n)
  }

  /** The signed value an n-byte two's-complement integer read from bs holds. */
  function Signed(bs: seq<Byte>): (v: int)
    ensures InSignedRange(v, |bs|)
  {
    var u := Unsigned(bs);
    if 2 * u >= Pow256(|bs|) then u - Pow256(|bs|) else u
  }

  /**
   * The value of a wider integer converted to a 32-bit `int`: the one value
   * of that type congruent to x modulo 2^32, as gcc defines the conversion.
   */
  function Int32Of(x: int): (y: int)
    ensures -0x8000_0000 <= y < 0x8000_0000
    ensures (x - y) % 0x1_0000_0000 == 0
    ensures -0x8000_0000 <= x < 0x8000_0000 ==> y == x
    ensures 0x8000_0000 <= x < 0x1_0000_0000 ==> y == x - 0x1_0000_0000
  {
    var m := x % 0x1_0000_0000;
    if m < 0x8000_0000 then m else m - 0x1_0000_0000
  }

  lemma {:induction false} UnsignedOfLittleEndian(u: nat, n: nat)
    requires u < Pow256(n)
    ensures Unsigned(LittleEndian(u, n)) == u
  {
    if n > 0 {
      var bs := LittleEndian(u, n);
      assert bs[1..] == LittleEndian(u / 256, n - 1);
      UnsignedOfLittleEndian(u / 256, n - 1);
    }
  }

  /** Reading back a signed integer written by EncodeInt yields the same integer. */
  lemma SignedRoundTrip(v: int, n: nat)
    requires InSignedRange(v, n)
    ensures Signed(EncodeInt(v, n)) == v
  {
    UnsignedOfLittleEndian(if v < 0 then v + Pow256(n) else v, n);
  }

  /** Reading back an unsigned integer written by EncodeInt yields the same integer. */
  lemma UnsignedRoundTrip(v: int, n: nat)
    requires InUnsignedRange(v, n)
    ensures Unsigned(EncodeInt(v, n)) == v
  {
    UnsignedOfLittleEndian(v, n);
  }
}
