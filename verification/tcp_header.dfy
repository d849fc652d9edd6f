/**
 * The TCP header of RFC 793, section 3.1. TCPHeader.java is not part of this
 * model; only the accessors and setters the relay calls are defined, at the
 * fixed offsets of the RFC, over the header bytes (options included).
 */
module TcpHeaders {
  import opened Bytes
  import Checksum

  /** The header length without options. */
  const MIN_HEADER_LENGTH := 20

  /** Offset of the 16-bit checksum. */
  const CHECKSUM_OFFSET := 16

  /** The control bits of byte 13. */
  const FLAG_FIN := 1
  const FLAG_SYN := 2
  const FLAG_RST := 4
  const FLAG_PSH := 8
  const FLAG_ACK := 16

  datatype TcpHeader = TcpHeader(raw: seq<byte>)

  /** The data offset: the header length in 32-bit words. */
  function DataOffset(raw: seq<byte>): nat
    requires |raw| > 12
  {
    raw[12] / 0x10
  }

  /** Bytes the model can read as a header: the declared length, options included. */
  predicate IsHeader(h: TcpHeader) {
    |h.raw| >= MIN_HEADER_LENGTH && DataOffset(h.raw) * 4 == |h.raw|
  }

  /** Bytes that start with a whole TCP header. */
  predicate Parses(raw: seq<byte>) {
    |raw| >= MIN_HEADER_LENGTH && DataOffset(raw) * 4 >= MIN_HEADER_LENGTH && DataOffset(raw) * 4 <= |raw|
  }

  /** The header is the declared number of leading bytes. */
  function Parse(raw: seq<byte>): (h: TcpHeader)
    requires Parses(raw)
    ensures IsHeader(h) && h.raw == raw[..DataOffset(raw) * 4]
  {
    TcpHeader(raw[..DataOffset(raw) * 4])
  }

  function HeaderLength(h: TcpHeader): nat
    requires IsHeader(h)
  {
    |h.raw|
  }

  function SourcePort(h: TcpHeader): u16
    requires IsHeader(h)
  {
    GetU16(h.raw, 0)
  }

  function DestinationPort(h: TcpHeader): u16
    requires IsHeader(h)
  {
    GetU16(h.raw, 2)
  }

  function SequenceNumber(h: TcpHeader): int32
    requires IsHeader(h)
  {
    GetInt(h.raw, 4)
  }

  function AcknowledgementNumber(h: TcpHeader): int32
    requires IsHeader(h)
  {
    GetInt(h.raw, 8)
  }

  function Flags(h: TcpHeader): byte
    requires IsHeader(h)
  {
    h.raw[13]
  }

  /** The sequence and acknowledgement numbers and the flags live in bytes 4-13. */
  lemma SameNumbers(a: TcpHeader, b: TcpHeader)
    requires IsHeader(a) && IsHeader(b)
    requires forall i :: 4 <= i < 14 ==> a.raw[i] == b.raw[i]
    ensures SequenceNumber(a) == SequenceNumber(b)
    ensures AcknowledgementNumber(a) == AcknowledgementNumber(b)
    ensures Flags(a) == Flags(b)
  {
    assert a.raw[4] == b.raw[4] && a.raw[5] == b.raw[5] && a.raw[6] == b.raw[6] && a.raw[7] == b.raw[7];
    assert a.raw[8] == b.raw[8] && a.raw[9] == b.raw[9] && a.raw[10] == b.raw[10] && a.raw[11] == b.raw[11];
    assert a.raw[13] == b.raw[13];
  }

  /** Whether the control bit `flag` (a power of two below 256) is set. */
  predicate HasFlag(h: TcpHeader, flag: nat)
    requires IsHeader(h) && flag > 0
  {
    (Flags(h) / flag) % 2 == 1
  }

  predicate IsFin(h: TcpHeader) requires IsHeader(h) { HasFlag(h, FLAG_FIN) }
  predicate IsSyn(h: TcpHeader) requires IsHeader(h) { HasFlag(h, FLAG_SYN) }
  predicate IsRst(h: TcpHeader) requires IsHeader(h) { HasFlag(h, FLAG_RST) }
  predicate IsAck(h: TcpHeader) requires IsHeader(h) { HasFlag(h, FLAG_ACK) }

  function Window(h: TcpHeader): u16
    requires IsHeader(h)
  {
    GetU16(h.raw, 14)
  }

  /** Writes the low 16 bits of `p` into bytes 0-1. */
  function SetSourcePort(h: TcpHeader, p: int): (r: TcpHeader)
    requires IsHeader(h)
    ensures IsHeader(r) && SourcePort(r) == p % 0x1_0000
    ensures |r.raw| == |h.raw|
    ensures forall i :: 2 <= i < |h.raw| ==> r.raw[i] == h.raw[i]
  {
    TcpHeader(PutU16(h.raw, 0, p))
  }

  /** Writes the low 16 bits of `p` into bytes 2-3. */
  function SetDestinationPort(h: TcpHeader, p: int): (r: TcpHeader)
    requires IsHeader(h)
    ensures IsHeader(r) && DestinationPort(r) == p % 0x1_0000
    ensures |r.raw| == |h.raw|
    ensures forall i :: 0 <= i < |h.raw| && i != 2 && i != 3 ==> r.raw[i] == h.raw[i]
  {
    TcpHeader(PutU16(h.raw, 2, p))
  }

  function SetSequenceNumber(h: TcpHeader, n: int32): (r: TcpHeader)
    requires IsHeader(h)
    ensures IsHeader(r) && SequenceNumber(r) == n
    ensures |r.raw| == |h.raw|
    ensures forall i :: 0 <= i < |h.raw| && !(4 <= i < 8) ==> r.raw[i] == h.raw[i]
  {
    GetIntPutU32(h.raw, 4, n);
    TcpHeader(PutU32(h.raw, 4, n))
  }

  function SetAcknowledgementNumber(h: TcpHeader, n: int32): (r: TcpHeader)
    requires IsHeader(h)
    ensures IsHeader(r) && AcknowledgementNumber(r) == n
    ensures |r.raw| == |h.raw|
    ensures forall i :: 0 <= i < |h.raw| && !(8 <= i < 12) ==> r.raw[i] == h.raw[i]
  {
    GetIntPutU32(h.raw, 8, n);
    TcpHeader(PutU32(h.raw, 8, n))
  }

  /**
   * Replaces the nine control bits (the low bit of byte 12 and byte 13) with
   * the low nine bits of `flags`, keeping the data offset.
   */
  function SetFlags(h: TcpHeader, flags: nat): (r: TcpHeader)
    requires IsHeader(h)
    ensures IsHeader(r) && Flags(r) == flags % 0x100
    ensures DataOffset(r.raw) == DataOffset(h.raw)
    ensures |r.raw| == |h.raw|
    ensures forall i :: 0 <= i < |h.raw| && i != 12 && i != 13 ==> r.raw[i] == h.raw[i]
  {
    TcpHeader(h.raw[12 := (h.raw[12] / 2) * 2 + (flags / 0x100) % 2][13 := flags % 0x100])
  }

  /** Drops the options: keeps the first 20 bytes and sets the data offset to 5. */
  function ShrinkOptions(h: TcpHeader): (r: TcpHeader)
    requires IsHeader(h)
    ensures IsHeader(r) && HeaderLength(r) == MIN_HEADER_LENGTH
    ensures forall i :: 0 <= i < MIN_HEADER_LENGTH && i != 12 ==> r.raw[i] == h.raw[i]
    ensures r.raw[12] % 0x10 == h.raw[12] % 0x10
  {
    TcpHeader(h.raw[..MIN_HEADER_LENGTH][12 := 0x50 + h.raw[12] % 0x10])
  }

  /** A header set with a flag set reports exactly the flags set. */
  lemma SetFlagsReadBack(h: TcpHeader, flags: nat)
    requires IsHeader(h) && flags < 0x100
    ensures IsSyn(SetFlags(h, flags)) <==> (flags / FLAG_SYN) % 2 == 1
    ensures IsAck(SetFlags(h, flags)) <==> (flags / FLAG_ACK) % 2 == 1
    ensures IsFin(SetFlags(h, flags)) <==> flags % 2 == 1
    ensures IsRst(SetFlags(h, flags)) <==> (flags / FLAG_RST) % 2 == 1
  {
  }

  /**
   * `computeChecksum(ipv4Header, payload)`: the one's complement of the
   * folded word sum of the header (its checksum field zeroed) and the
   * payload, stored at bytes 16-17. This model assumes no RFC 793
   * pseudo-header is summed (addresses, protocol and length are left out),
   * so `ipv4` is unused. Receivers then re-sum header and payload to 0xffff.
   */
  function ComputeChecksum(h: TcpHeader, ipv4: seq<byte>, payload: seq<byte>): (r: TcpHeader)
    requires IsHeader(h) && |ipv4| >= 20
    ensures IsHeader(r)
    ensures Checksum.Fold(Checksum.WordSum(r.raw + payload)) == 0xffff
    ensures |r.raw| == |h.raw|
    ensures forall i :: 0 <= i < |h.raw| && i != 16 && i != 17 ==> r.raw[i] == h.raw[i]
  {
    TcpHeader(Checksum.StoreChecksum(h.raw, CHECKSUM_OFFSET, payload))
  }

  /** Records that `ipv4` is unused: two packets with the same TCP bytes get the same checksum. */
  lemma ChecksumIgnoresIPv4(h: TcpHeader, a: seq<byte>, b: seq<byte>, payload: seq<byte>)
    requires IsHeader(h) && |a| >= 20 && |b| >= 20
    ensures ComputeChecksum(h, a, payload) == ComputeChecksum(h, b, payload)
  {
  }

  /** The old checksum field does not matter, and recomputing the checksum changes nothing. */
  lemma ComputeChecksumIdempotent(h: TcpHeader, ipv4: seq<byte>, payload: seq<byte>)
    requires IsHeader(h) && |ipv4| >= 20
    ensures ComputeChecksum(ComputeChecksum(h, ipv4, payload), ipv4, payload) == ComputeChecksum(h, ipv4, payload)
  {
    Checksum.StoreChecksumIdempotent(h.raw, CHECKSUM_OFFSET, payload);
  }
}
