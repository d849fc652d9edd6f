/**
 * Bytes and Java's fixed-width integers.
 *
 * Buffers are sequences of unsigned byte values. Java's `int` and `short`
 * wrap around; the conversions below make that wrap-around explicit, and
 * the big-endian accessors model `ByteBuffer.getShort`/`putShort`/`getInt`/`putInt`.
 */
module Bytes {

  type byte = b: int | 0 <= b < 0x100

  /** The value range of a Java `int`. */
  type int32 = x: int | -0x8000_0000 <= x < 0x8000_0000

  /** The value range of a Java `short`. */
  type short = x: int | -0x8000 <= x < 0x8000

  /** An unsigned 16-bit value, as produced by `Short.toUnsignedInt`. */
  type u16 = x: int | 0 <= x < 0x1_0000

  /** Java `int` arithmetic: the two's complement wrap-around of an exact result. */
  function Wrap32(x: int): (r: int32)
    ensures (r - x) % 0x1_0000_0000 == 0
  {
    (x + 0x8000_0000) % 0x1_0000_0000 - 0x8000_0000
  }

  /** Java `(short) x`: keep the low 16 bits, read them as signed. */
  function ToShort(x: int): (r: short)
    ensures (r - x) % 0x1_0000 == 0
  {
    (x + 0x8000) % 0x1_0000 - 0x8000
  }

  /** `Short.toUnsignedInt((short) x)`: the low 16 bits of `x`, unsigned. */
  function ToUnsigned16(x: int): (r: u16)
    ensures (r - x) % 0x1_0000 == 0
  {
    x % 0x1_0000
  }

  /** The unsigned 32-bit pattern of a Java `int`. */
  function ToUnsigned32(x: int): (r: nat)
    ensures r < 0x1_0000_0000
    ensures (r - x) % 0x1_0000_0000 == 0
  {
    x % 0x1_0000_0000
  }

  lemma Wrap32Identity(x: int)
    requires -0x8000_0000 <= x < 0x8000_0000
    ensures Wrap32(x) == x
  {
  }

  lemma ToShortIdentity(x: int)
    requires -0x8000 <= x < 0x8000
    ensures ToShort(x) == x
  {
  }

  /** A signed short and its unsigned reading carry the same 16 bits. */
  lemma ShortUnsignedRoundTrip(x: int)
    ensures ToUnsigned16(ToShort(x)) == ToUnsigned16(x)
    ensures ToShort(ToUnsigned16(x)) == ToShort(x)
  {
    var s := ToShort(x);
    var k := (s - x) / 0x1_0000;
    assert s - x == k * 0x1_0000;
    SameLow16(s, x, k);
    var u := ToUnsigned16(x);
    var j := (u - x) / 0x1_0000;
    assert u - x == j * 0x1_0000;
    SameLow16(u + 0x8000, x + 0x8000, j);
  }

  /** Java `int` addition may wrap at every step or only at the end: the result is the same. */
  lemma Wrap32Add(x: int, y: int)
    ensures Wrap32(Wrap32(x) + y) == Wrap32(x + y)
  {
    var k := (Wrap32(x) - x) / 0x1_0000_0000;
    assert Wrap32(x) + y == (x + y) + k * 0x1_0000_0000;
  }

  /** Numbers that differ by a multiple of 2^16 have the same low 16 bits. */
  lemma SameLow16(a: int, b: int, k: int)
    requires a - b == k * 0x1_0000
    ensures a % 0x1_0000 == b % 0x1_0000
  {
  }

  /** Narrowing a Java `int` sum to a `short` keeps the low 16 bits of the exact sum. */
  lemma ShortOfWrap32(x: int)
    ensures ToShort(Wrap32(x)) % 0x1_0000 == x % 0x1_0000
  {
    var w := Wrap32(x);
    var q := (w - x) / 0x1_0000_0000;
    assert w - x == q * 0x1_0000_0000;
    SameLow16(w, x, q * 0x1_0000);
    var s := ToShort(w);
    var k := (s - w) / 0x1_0000;
    assert s - w == k * 0x1_0000;
    SameLow16(s, w, k);
  }

  /** Big-endian unsigned 16-bit read at `off` (`ByteBuffer.getShort`, then unsigned). */
  function GetU16(s: seq<byte>, off: nat): u16
    requires off + 2 <= |s|
  {
    (s[off] as int) * 0x100 + s[off + 1] as int
  }

  /** `ByteBuffer.getShort`: the same bits, read as signed. */
  function GetShort(s: seq<byte>, off: nat): short
    requires off + 2 <= |s|
  {
    ToShort(GetU16(s, off))
  }

  /** Big-endian unsigned 32-bit read at `off`. */
  function GetU32(s: seq<byte>, off: nat): nat
    requires off + 4 <= |s|
  {
    GetU16(s, off) * 0x1_0000 + GetU16(s, off + 2)
  }

  /** `ByteBuffer.getInt`: the same bits, read as a Java `int`. */
  function GetInt(s: seq<byte>, off: nat): int32
    requires off + 4 <= |s|
  {
    Wrap32(GetU32(s, off))
  }

  lemma ModOf256(v: int)
    ensures (v % 0x1_0000) % 0x100 == v % 0x100
  {
    var q := v / 0x1_0000;
    assert v == q * 0x1_0000 + v % 0x1_0000;
    assert q * 0x1_0000 == (q * 0x100) * 0x100;
  }

  /** `ByteBuffer.putShort(off, (short) v)`: writes the low 16 bits of `v`, high byte first. */
  function PutU16(s: seq<byte>, off: nat, v: int): (r: seq<byte>)
    requires off + 2 <= |s|
    ensures |r| == |s|
    ensures GetU16(r, off) == v % 0x1_0000
    ensures forall i :: 0 <= i < |s| && i != off && i != off + 1 ==> r[i] == s[i]
  {
    ModOf256(v);
    s[off := (v % 0x1_0000) / 0x100][off + 1 := v % 0x100]
  }

  /** `ByteBuffer.putInt(off, v)`: writes the 32 bits of `v`, most significant byte first. */
  function PutU32(s: seq<byte>, off: nat, v: int): (r: seq<byte>)
    requires off + 4 <= |s|
    ensures |r| == |s|
    ensures GetU32(r, off) == v % 0x1_0000_0000
    ensures forall i :: 0 <= i < |s| && !(off <= i < off + 4) ==> r[i] == s[i]
  {
    var u := v % 0x1_0000_0000;
    var r := PutU16(PutU16(s, off, u / 0x1_0000), off + 2, u % 0x1_0000);
    assert GetU16(r, off) == u / 0x1_0000;
    r
  }

  /** Reading back a written 32-bit value as a Java `int` restores it. */
  lemma GetIntPutU32(s: seq<byte>, off: nat, v: int32)
    requires off + 4 <= |s|
    ensures GetInt(PutU32(s, off, v), off) == v
  {
  }

  /** Writing the 16 bits already present changes nothing. */
  lemma PutU16Same(s: seq<byte>, off: nat)
    requires off + 2 <= |s|
    ensures PutU16(s, off, GetU16(s, off)) == s
  {
    var r := PutU16(s, off, GetU16(s, off));
    assert r[off] == s[off] && r[off + 1] == s[off + 1];
    assert r == s;
  }

  /** A second 16-bit write at the same offset overrides the first. */
  lemma PutU16Twice(s: seq<byte>, off: nat, v: int, w: int)
    requires off + 2 <= |s|
    ensures PutU16(PutU16(s, off, v), off, w) == PutU16(s, off, w)
  {
  }
}
