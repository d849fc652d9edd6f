/**
 * The IPv4 header, read and written at the fixed offsets of section 3.1 of
 * RFC 791. IPv4Header.java is not part of this model; only the accessors the
 * relay calls are defined, over the 20 header bytes of a datagram without
 * options.
 */
module IPv4Headers {
  import opened Bytes
  import Checksum

  /** The only header length the relay supports: no IP options. */
  const HEADER_LENGTH := 20

  /** Offset of the 16-bit header checksum. */
  const CHECKSUM_OFFSET := 10

  datatype Protocol = TCP | UDP | ICMP | OTHER

  /** The protocol numbers of RFC 790: 1 for ICMP, 6 for TCP, 17 for UDP. */
  function ProtocolOf(n: byte): (p: Protocol)
    ensures p == ICMP <==> n == 1
    ensures p == TCP <==> n == 6
    ensures p == UDP <==> n == 17
  {
    if n == 6 then TCP else if n == 17 then UDP else if n == 1 then ICMP else OTHER
  }

  /** The bytes of a header the model can read: the fixed 20-byte part. */
  predicate IsHeader(raw: seq<byte>) {
    |raw| == HEADER_LENGTH
  }

  function Version(raw: seq<byte>): nat
    requires |raw| >= 1
  {
    raw[0] / 0x10
  }

  /** The header length in bytes: the IHL field counts 32-bit words. */
  function HeaderLength(raw: seq<byte>): nat
    requires |raw| >= 1
  {
    (raw[0] % 0x10) * 4
  }

  function TotalLength(raw: seq<byte>): u16
    requires |raw| >= 4
  {
    GetU16(raw, 2)
  }

  function GetProtocol(raw: seq<byte>): Protocol
    requires |raw| >= 10
  {
    ProtocolOf(raw[9])
  }

  function Source(raw: seq<byte>): int32
    requires |raw| >= 16
  {
    GetInt(raw, 12)
  }

  function Destination(raw: seq<byte>): int32
    requires |raw| >= 20
  {
    GetInt(raw, 16)
  }

  /** A header the relay handles: IPv4, no options, and TCP, UDP or ICMP. */
  predicate IsSupported(raw: seq<byte>)
    requires |raw| >= 20
  {
    Version(raw) == 4 && HeaderLength(raw) == HEADER_LENGTH && GetProtocol(raw) != OTHER
  }

  /** `readVersion`: -1 while the buffer is empty. */
  function ReadVersion(buffer: seq<byte>): int
  {
    if |buffer| == 0 then -1 else Version(buffer)
  }

  /** `readLength`: the total-length field, or -1 while the buffer does not hold it yet. */
  function ReadLength(buffer: seq<byte>): (n: int)
    ensures n == -1 <==> |buffer| < 4
    ensures n != -1 ==> n == TotalLength(buffer)
  {
    if |buffer| < 4 then -1 else TotalLength(buffer)
  }

  /** `setTotalLength`: writes the low 16 bits of `n` into bytes 2-3 and changes nothing else. */
  function SetTotalLength(raw: seq<byte>, n: int): (r: seq<byte>)
    requires IsHeader(raw)
    ensures IsHeader(r)
    ensures TotalLength(r) == n % 0x1_0000
    ensures forall i :: 0 <= i < |raw| && i != 2 && i != 3 ==> r[i] == raw[i]
  {
    PutU16(raw, 2, n)
  }

  /**
   * `swapSourceAndDestination`: exchanges the two addresses (bytes 12-15 and
   * 16-19) and changes nothing else.
   */
  function SwapSourceAndDestination(raw: seq<byte>): (r: seq<byte>)
    requires IsHeader(raw)
    ensures IsHeader(r)
    ensures Source(r) == Destination(raw) && Destination(r) == Source(raw)
    ensures forall i :: 0 <= i < 12 ==> r[i] == raw[i]
  {
    raw[..12] + raw[16..20] + raw[12..16]
  }

  /** Swapping twice restores the header byte for byte. */
  lemma SwapInvolution(raw: seq<byte>)
    requires IsHeader(raw)
    ensures SwapSourceAndDestination(SwapSourceAndDestination(raw)) == raw
  {
    var r := SwapSourceAndDestination(SwapSourceAndDestination(raw));
    assert forall i :: 0 <= i < 20 ==> r[i] == raw[i];
  }

  /** `computeChecksum`: the RFC 791 header checksum over the 20 header bytes. */
  function ComputeChecksum(raw: seq<byte>): (r: seq<byte>)
    requires IsHeader(raw)
    ensures IsHeader(r)
    ensures Checksum.Fold(Checksum.WordSum(r)) == 0xffff
    ensures forall i :: 0 <= i < |raw| && i != 10 && i != 11 ==> r[i] == raw[i]
    ensures SameIdentity(r, raw) && TotalLength(r) == TotalLength(raw)
  {
    var r := Checksum.StoreChecksum(raw, CHECKSUM_OFFSET, []);
    assert r + [] == r;
    assert r[12..20] == raw[12..20];
    r
  }

  /** The header checksum does not depend on the previous checksum field, and recomputing it changes nothing. */
  lemma ComputeChecksumIdempotent(raw: seq<byte>, v: int)
    requires IsHeader(raw)
    ensures ComputeChecksum(PutU16(raw, CHECKSUM_OFFSET, v)) == ComputeChecksum(raw)
    ensures ComputeChecksum(ComputeChecksum(raw)) == ComputeChecksum(raw)
  {
    Checksum.StoreChecksumIgnoresOldField(raw, CHECKSUM_OFFSET, [], v);
    Checksum.StoreChecksumIdempotent(raw, CHECKSUM_OFFSET, []);
  }

  /** The fields a packet's identity depends on: version and header length, protocol, and both addresses. */
  predicate SameIdentity(a: seq<byte>, b: seq<byte>)
    requires IsHeader(a) && IsHeader(b)
  {
    a[0] == b[0] && a[9] == b[9] && a[12..20] == b[12..20]
  }

  /** Headers with the same identity agree on the protocol, the addresses and whether they are supported. */
  lemma SameIdentityFields(a: seq<byte>, b: seq<byte>)
    requires IsHeader(a) && IsHeader(b) && SameIdentity(a, b)
    ensures GetProtocol(a) == GetProtocol(b) && IsSupported(a) == IsSupported(b)
    ensures Source(a) == Source(b) && Destination(a) == Destination(b)
  {
    assert a[12] == b[12] && a[13] == b[13] && a[14] == b[14] && a[15] == b[15];
    assert a[16] == b[16] && a[17] == b[17] && a[18] == b[18] && a[19] == b[19];
  }
}
