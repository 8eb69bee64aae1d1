/**
 * Fixed-width integers and their little-endian wire form.
 *
 * The C readers copy raw bytes into integer variables and convert some of them with
 * le32toh/le64toh. Here every multi-byte field is decoded explicitly, least significant
 * byte first, and the fixed C widths are subset types of int.
 */
module Endian {

  type Byte = b: int | 0 <= b < 256

  type Int32 = x: int | -0x8000_0000 <= x < 0x8000_0000
  type Uint32 = x: int | 0 <= x < 0x1_0000_0000
  type Int64 = x: int | -0x8000_0000_0000_0000 <= x < 0x8000_0000_0000_0000
  type Uint64 = x: int | 0 <= x < 0x1_0000_0000_0000_0000

  /** 256 to the power n: the number of distinct n-byte values. */
  function Pow256(n: nat): (r: nat)
    ensures r > 0
  {
    if n == 0 then 1 else 256 * Pow256(n - 1)
  }

  lemma Pow256Widths()
    ensures Pow256(4) == 0x1_0000_0000
    ensures Pow256(8) == 0x1_0000_0000_0000_0000
  {
  }

  /** The unsigned value of s read little-endian: s[0] is the least significant byte. */
  function LeUint(s: seq<Byte>): (r: nat)
    ensures r < Pow256(|s|)
  {
    if s == [] then 0
    else
      var high := LeUint(s[1..]);
      assert 256 * high <= 256 * (Pow256(|s| - 1) - 1);
      s[0] + 256 * high
  }

  /** The n little-endian bytes of v. */
  function LeBytes(v: nat, n: nat): (s: seq<Byte>)
    requires v < Pow256(n)
    ensures |s| == n
  {
    if n == 0 then []
    else [v % 256] + LeBytes(v / 256, n - 1)
  }

  lemma {:induction false} LeUintOfLeBytes(v: nat, n: nat)
    requires v < Pow256(n)
    ensures LeUint(LeBytes(v, n)) == v
  {
    if n > 0 {
      var s := LeBytes(v, n);
      assert s[1..] == LeBytes(v / 256, n - 1);
      LeUintOfLeBytes(v / 256, n - 1);
    }
  }

  lemma {:induction false} LeBytesOfLeUint(s: seq<Byte>)
    ensures LeBytes(LeUint(s), |s|) == s
  {
    if s != [] {
      var v := LeUint(s);
      assert v % 256 == s[0] && v / 256 == LeUint(s[1..]);
      LeBytesOfLeUint(s[1..]);
    }
  }

  /** The two's-complement reading of an n-byte unsigned value. */
  function Signed(u: nat, n: nat): int
    requires u < Pow256(n)
  {
    if u < Pow256(n) / 2 then u else u - Pow256(n)
  }

  /** The n-byte two's-complement bit pattern of x, as an unsigned value. */
  function Unsigned(x: int, n: nat): (u: nat)
    requires -(Pow256(n) / 2) <= x < Pow256(n) / 2
    ensures u < Pow256(n)
  {
    if x >= 0 then x else x + Pow256(n)
  }

  /** The signed value of s read little-endian in two's complement. */
  function LeInt(s: seq<Byte>): (x: int)
    requires |s| > 0
    ensures -(Pow256(|s|) / 2) <= x < Pow256(|s|) / 2
  {
    assert Pow256(|s|) == 2 * (Pow256(|s|) / 2) by {
      assert Pow256(|s|) == 256 * Pow256(|s| - 1);
    }
    Signed(LeUint(s), |s|)
  }

  /** The n little-endian two's-complement bytes of x. */
  function IntBytes(x: int, n: nat): (s: seq<Byte>)
    requires -(Pow256(n) / 2) <= x < Pow256(n) / 2
    ensures |s| == n
  {
    LeBytes(Unsigned(x, n), n)
  }

  lemma LeIntOfIntBytes(x: int, n: nat)
    requires n > 0
    requires -(Pow256(n) / 2) <= x < Pow256(n) / 2
    ensures LeInt(IntBytes(x, n)) == x
  {
    LeUintOfLeBytes(Unsigned(x, n), n);
  }

  lemma IntBytesOfLeInt(s: seq<Byte>)
    requires |s| > 0
    ensures IntBytes(LeInt(s), |s|) == s
  {
    LeBytesOfLeUint(s);
  }

  // The C field widths.

  function LeUint32(s: seq<Byte>): Uint32
    requires |s| == 4
  {
    Pow256Widths();
    LeUint(s)
  }

  function LeInt32(s: seq<Byte>): Int32
    requires |s| == 4
  {
    Pow256Widths();
    LeInt(s)
  }

  function LeUint64(s: seq<Byte>): Uint64
    requires |s| == 8
  {
    Pow256Widths();
    LeUint(s)
  }

  function LeInt64(s: seq<Byte>): Int64
    requires |s| == 8
  {
    Pow256Widths();
    LeInt(s)
  }

  function Uint32Bytes(x: Uint32): (s: seq<Byte>)
    ensures |s| == 4
  {
    Pow256Widths();
    LeBytes(x, 4)
  }

  function Int32Bytes(x: Int32): (s: seq<Byte>)
    ensures |s| == 4
  {
    Pow256Widths();
    IntBytes(x, 4)
  }

  function Uint64Bytes(x: Uint64): (s: seq<Byte>)
    ensures |s| == 8
  {
    Pow256Widths();
    LeBytes(x, 8)
  }

  function Int64Bytes(x: Int64): (s: seq<Byte>)
    ensures |s| == 8
  {
    Pow256Widths();
    IntBytes(x, 8)
  }

  /** Decoding inverts encoding for every fixed width the trace format uses. */
  lemma FixedWidthRoundTrip(u32: Uint32, i32: Int32, u64: Uint64, i64: Int64)
    ensures LeUint32(Uint32Bytes(u32)) == u32
    ensures LeInt32(Int32Bytes(i32)) == i32
    ensures LeUint64(Uint64Bytes(u64)) == u64
    ensures LeInt64(Int64Bytes(i64)) == i64
  {
    Pow256Widths();
    LeUintOfLeBytes(u32, 4);
    LeIntOfIntBytes(i32, 4);
    LeUintOfLeBytes(u64, 8);
    LeIntOfIntBytes(i64, 8);
  }

  /** Every byte pattern of each fixed width is the encoding of its decode. */
  lemma FixedWidthCanonical(s4: seq<Byte>, s8: seq<Byte>)
    requires |s4| == 4 && |s8| == 8
    ensures Uint32Bytes(LeUint32(s4)) == s4
    ensures Int32Bytes(LeInt32(s4)) == s4
    ensures Uint64Bytes(LeUint64(s8)) == s8
    ensures Int64Bytes(LeInt64(s8)) == s8
  {
    LeBytesOfLeUint(s4);
    IntBytesOfLeInt(s4);
    LeBytesOfLeUint(s8);
    IntBytesOfLeInt(s8);
  }

  /** The unsigned 32-bit view of the bytes of a signed 32-bit value (int32_t* written, uint32_t read). */
  function AsUint32(x: Int32): (u: Uint32)
    ensures forall s: seq<Byte> :: |s| == 4 && LeInt32(s) == x ==> LeUint32(s) == u
  {
    Pow256Widths();
    if x >= 0 then x else x + 0x1_0000_0000
  }
}
