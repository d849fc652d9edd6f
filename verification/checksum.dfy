/**
 * The Internet checksum of RFC 1071 (used by RFC 792 for ICMP and by
 * RFC 791 for the IPv4 header): the 16-bit one's complement of the one's
 * complement sum of the big-endian 16-bit words of the data.
 */
module Checksum {
  import opened Bytes

  /**
   * The plain sum of the big-endian 16-bit words of `s`. An odd trailing
   * byte counts as the high byte of a last word whose low byte is zero.
   */
  function WordSum(s: seq<byte>): nat
    decreases |s|
  {
    if |s| == 0 then 0
    else if |s| == 1 then (s[0] as int) * 0x100
    else GetU16(s, 0) + WordSum(s[2..])
  }

  /** One folding step moves the carries above bit 16 back into the low 16 bits. */
  lemma FoldStep(x: nat)
    requires x >= 0x1_0000
    ensures 0 < x % 0x1_0000 + x / 0x1_0000 < x
    ensures (x % 0x1_0000 + x / 0x1_0000) % 0xffff == x % 0xffff
  {
    var q := x / 0x1_0000;
    var y := x % 0x1_0000 + q;
    assert x == y + 0xffff * q;
    assert q >= 1;
  }

  /**
   * Repeats `sum = (sum & 0xffff) + (sum >> 16)` until no carry remains.
   * The result is congruent to the input modulo 0xffff (the one's
   * complement sum), fits 16 bits, and is zero only for a zero input.
   */
  function Fold(x: nat): (r: nat)
    ensures r < 0x1_0000
    ensures r % 0xffff == x % 0xffff
    ensures r == 0 <==> x == 0
    decreases x
  {
    if x < 0x1_0000 then x
    else
      FoldStep(x);
      Fold(x % 0x1_0000 + x / 0x1_0000)
  }

  /**
   * The value stored in a checksum field: Java writes `(short) ~sum` for
   * the folded sum, whose low 16 bits are 0xffff minus the sum.
   */
  function Checksum(s: seq<byte>): (c: u16)
    ensures c == (-(Fold(WordSum(s)) as int) - 1) % 0x1_0000
  {
    0xffff - Fold(WordSum(s))
  }

  /** Concatenation at an even boundary adds the word sums. */
  lemma {:induction false} WordSumAppend(a: seq<byte>, b: seq<byte>)
    requires |a| % 2 == 0
    ensures WordSum(a + b) == WordSum(a) + WordSum(b)
    decreases |a|
  {
    if |a| == 0 {
      assert a + b == b;
    } else {
      assert (a + b)[2..] == a[2..] + b;
      WordSumAppend(a[2..], b);
    }
  }

  /** Summing one more aligned word of `s` extends the sum of the prefix before it. */
  lemma WordSumPrefixStep(s: seq<byte>, i: nat)
    requires 2 * i + 2 <= |s|
    ensures WordSum(s[..2 * i + 2]) == WordSum(s[..2 * i]) + GetU16(s, 2 * i)
  {
    var w := s[2 * i..2 * i + 2];
    assert s[..2 * i + 2] == s[..2 * i] + w;
    WordSumAppend(s[..2 * i], w);
    assert w[2..] == [];
  }

  /** An odd trailing byte counts as the high byte of a last word. */
  lemma WordSumOddTail(s: seq<byte>)
    requires |s| % 2 == 1
    ensures WordSum(s) == WordSum(s[..|s| - 1]) + (s[|s| - 1] as int) * 0x100
  {
    assert s == s[..|s| - 1] + [s[|s| - 1]];
    WordSumAppend(s[..|s| - 1], [s[|s| - 1]]);
  }

  /** Overwriting one aligned word changes the sum by the difference of the words. */
  lemma {:induction false} WordSumPut(s: seq<byte>, off: nat, v: int)
    requires off % 2 == 0 && off + 2 <= |s|
    ensures WordSum(PutU16(s, off, v)) == WordSum(s) - GetU16(s, off) + v % 0x1_0000
    decreases off
  {
    var r := PutU16(s, off, v);
    if off == 0 {
      assert r[2..] == s[2..];
    } else {
      assert r[2..] == PutU16(s[2..], off - 2, v);
      WordSumPut(s[2..], off - 2, v);
    }
  }

  /** Replacing one byte changes the sum by the byte difference, weighted by its place in its word. */
  lemma {:induction false} WordSumUpdate(s: seq<byte>, i: nat, b: byte)
    requires i < |s|
    ensures WordSum(s[i := b]) == WordSum(s) + (b - s[i]) * (if i % 2 == 0 then 0x100 else 1)
    decreases i
  {
    var r := s[i := b];
    if i < 2 {
      if |s| >= 2 {
        assert r[2..] == s[2..];
      }
    } else {
      assert r[2..] == s[2..][i - 2 := b];
      WordSumUpdate(s[2..], i - 2, b);
    }
  }

  /**
   * Verification at the receiver: once the checksum of data whose checksum
   * field (at an even offset) is zero has been stored into that field,
   * re-summing all words, the checksum included, folds to 0xffff.
   */
  lemma StoredChecksumVerifies(s: seq<byte>, off: nat)
    requires off % 2 == 0 && off + 2 <= |s|
    requires s[off] == 0 && s[off + 1] == 0
    ensures Fold(WordSum(PutU16(s, off, Checksum(s)))) == 0xffff
  {
    var c := 0xffff - Fold(WordSum(s));
    assert Checksum(s) == c;
    assert GetU16(s, off) == 0 && c % 0x1_0000 == c;
    WordSumPut(s, off, c);
    assert WordSum(PutU16(s, off, c)) == WordSum(s) + c;
    FoldComplement(WordSum(s));
  }

  /** Adding the complement of a sum's fold to the sum makes it fold to 0xffff. */
  lemma FoldComplement(x: nat)
    ensures Fold(x + (0xffff - Fold(x))) == 0xffff
  {
    var f := Fold(x);
    var t := x + (0xffff - f);
    assert x % 0xffff == f % 0xffff;
    assert (x - f) % 0xffff == 0;
    assert t % 0xffff == 0;
    assert t > 0;
    var g := Fold(t);
    assert g == g / 0xffff * 0xffff && 0 < g < 0x1_0000;
    assert g / 0xffff == 1;
  }

  /** A non-zero change smaller than a word, or a byte change moved into the high byte, is never a multiple of 0xffff. */
  lemma NoSmallMultiple(d: int, w: int)
    requires d != 0 && -0x100 < d < 0x100
    requires w == 1 || w == 0x100
    ensures (d * w) % 0xffff != 0
  {
    var x := d * w;
    if w == 0x100 {
      assert x == d * 0x100;
      assert x % 2 == 0;
    }
    assert x != 0 && -0xffff < x < 0xffff;
    if x > 0 {
      assert x % 0xffff == x;
    } else {
      assert x % 0xffff == x + 0xffff;
    }
  }

  /** Adding a non-multiple of 0xffff changes the residue modulo 0xffff. */
  lemma ShiftChangesResidue(x: int, e: int)
    requires e % 0xffff != 0
    ensures (x + e) % 0xffff != x % 0xffff
  {
    var a := x % 0xffff;
    var b := e % 0xffff;
    assert x + e == (x / 0xffff + e / 0xffff) * 0xffff + (a + b);
    if a + b < 0xffff {
      assert (x + e) % 0xffff == a + b;
    } else {
      assert (x + e) % 0xffff == a + b - 0xffff;
    }
  }

  /** Corrupting any single byte changes the folded sum, hence the checksum. */
  lemma SingleByteCorruptionDetected(s: seq<byte>, i: nat, b: byte)
    requires i < |s| && b != s[i]
    ensures Checksum(s[i := b]) != Checksum(s)
  {
    var w := if i % 2 == 0 then 0x100 else 1;
    WordSumUpdate(s, i, b);
    var d := b - s[i];
    NoSmallMultiple(d, w);
    var x := WordSum(s);
    var y := WordSum(s[i := b]);
    assert y == x + d * w;
    ShiftChangesResidue(x, d * w);
    assert Fold(y) % 0xffff != Fold(x) % 0xffff;
  }

  /**
   * Resets the 16-bit checksum field at `off` of `s` to zero, then stores the
   * checksum of `s` followed by `tail` (the payload summed after a header).
   * Whatever the field held before, the stored value makes the data verify.
   */
  function StoreChecksum(s: seq<byte>, off: nat, tail: seq<byte>): (r: seq<byte>)
    requires off % 2 == 0 && off + 2 <= |s| && |s| % 2 == 0
    ensures |r| == |s|
    ensures forall i :: 0 <= i < |s| && i != off && i != off + 1 ==> r[i] == s[i]
    ensures Fold(WordSum(r + tail)) == 0xffff
  {
    var z := PutU16(s, off, 0);
    var c := Checksum(z + tail);
    StoredChecksumVerifies(z + tail, off);
    assert PutU16(z + tail, off, c) == PutU16(z, off, c) + tail;
    PutU16(z, off, c)
  }

  /** The old content of the checksum field does not influence the new one. */
  lemma StoreChecksumIgnoresOldField(s: seq<byte>, off: nat, tail: seq<byte>, v: int)
    requires off % 2 == 0 && off + 2 <= |s| && |s| % 2 == 0
    ensures StoreChecksum(PutU16(s, off, v), off, tail) == StoreChecksum(s, off, tail)
  {
    PutU16Twice(s, off, v, 0);
  }

  /** Recomputing a stored checksum over unchanged data stores the same bytes. */
  lemma StoreChecksumIdempotent(s: seq<byte>, off: nat, tail: seq<byte>)
    requires off % 2 == 0 && off + 2 <= |s| && |s| % 2 == 0
    ensures StoreChecksum(StoreChecksum(s, off, tail), off, tail) == StoreChecksum(s, off, tail)
  {
    var z := PutU16(s, off, 0);
    var r := StoreChecksum(s, off, tail);
    assert r == PutU16(z, off, Checksum(z + tail));
    PutU16Twice(z, off, Checksum(z + tail), 0);
    PutU16Twice(s, off, 0, 0);
  }
}
