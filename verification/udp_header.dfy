/**
 * The UDP header of RFC 768 (UDPHeader.java): eight bytes, with the two
 * ports also cached as Java `int`s next to the bytes.
 */
module UdpHeaders {
  import opened Bytes

  /** `UDP_HEADER_LENGTH`. */
  const HEADER_LENGTH := 8

  /**
   * The header bytes and the cached ports. The setters keep the cache and the
   * bytes in step only up to 16 bits: a port outside [0, 65535] is cached
   * whole but written truncated.
   */
  datatype UdpHeader = UdpHeader(raw: seq<byte>, sourcePort: int32, destinationPort: int32)

  predicate IsHeader(h: UdpHeader) {
    |h.raw| == HEADER_LENGTH
  }

  /** The cached ports are the ones the bytes hold. */
  predicate Consistent(h: UdpHeader)
    requires IsHeader(h)
  {
    h.sourcePort == GetU16(h.raw, 0) && h.destinationPort == GetU16(h.raw, 2)
  }

  /**
   * The constructor: keeps the first eight bytes (the Java code limits the
   * buffer there) and reads both ports as unsigned big-endian values.
   */
  function Parse(raw: seq<byte>): (h: UdpHeader)
    requires |raw| >= HEADER_LENGTH
    ensures IsHeader(h) && Consistent(h)
    ensures h.raw == raw[..HEADER_LENGTH]
    ensures 0 <= h.sourcePort < 0x1_0000 && 0 <= h.destinationPort < 0x1_0000
  {
    UdpHeader(raw[..HEADER_LENGTH], GetU16(raw, 0), GetU16(raw, 2))
  }

  /** `setSourcePort`: caches `p` and writes its low 16 bits into bytes 0-1. */
  function SetSourcePort(h: UdpHeader, p: int32): (r: UdpHeader)
    requires IsHeader(h)
    ensures IsHeader(r)
    ensures r.sourcePort == p && r.destinationPort == h.destinationPort
    ensures GetU16(r.raw, 0) == p % 0x1_0000
    ensures forall i :: 2 <= i < HEADER_LENGTH ==> r.raw[i] == h.raw[i]
  {
    ShortUnsignedRoundTrip(p);
    h.(sourcePort := p, raw := PutU16(h.raw, 0, ToShort(p)))
  }

  /** `setDestinationPort`: caches `p` and writes its low 16 bits into bytes 2-3. */
  function SetDestinationPort(h: UdpHeader, p: int32): (r: UdpHeader)
    requires IsHeader(h)
    ensures IsHeader(r)
    ensures r.destinationPort == p && r.sourcePort == h.sourcePort
    ensures GetU16(r.raw, 2) == p % 0x1_0000
    ensures forall i :: 0 <= i < HEADER_LENGTH && i != 2 && i != 3 ==> r.raw[i] == h.raw[i]
  {
    ShortUnsignedRoundTrip(p);
    h.(destinationPort := p, raw := PutU16(h.raw, 2, ToShort(p)))
  }

  /**
   * `setPayloadLength`: the length field of RFC 768 counts the header too,
   * so `8 + n` (a Java `int` sum, then cast to `short`) goes into bytes 4-5.
   */
  function SetPayloadLength(h: UdpHeader, n: int32): (r: UdpHeader)
    requires IsHeader(h)
    ensures IsHeader(r)
    ensures r.sourcePort == h.sourcePort && r.destinationPort == h.destinationPort
    ensures GetU16(r.raw, 4) == (HEADER_LENGTH + n) % 0x1_0000
    ensures 0 <= n <= 0xffff - HEADER_LENGTH ==> GetU16(r.raw, 4) == HEADER_LENGTH + n
    ensures forall i :: 0 <= i < HEADER_LENGTH && i != 4 && i != 5 ==> r.raw[i] == h.raw[i]
  {
    ShortOfWrap32(HEADER_LENGTH + n);
    h.(raw := PutU16(h.raw, 4, ToShort(Wrap32(HEADER_LENGTH + n))))
  }

  /**
   * `computeChecksum`: checksum validation is disabled by storing zero, which
   * RFC 768 reads as "no checksum computed", whatever the payload.
   */
  function ComputeChecksum(h: UdpHeader, payload: seq<byte>): (r: UdpHeader)
    requires IsHeader(h)
    ensures IsHeader(r)
    ensures r.raw[6] == 0 && r.raw[7] == 0
    ensures r.raw[..6] == h.raw[..6]
    ensures r.sourcePort == h.sourcePort && r.destinationPort == h.destinationPort
  {
    h.(raw := PutU16(h.raw, 6, 0))
  }

  /** `copyTo`: the copy is re-read from the eight bytes. */
  function CopyTo(h: UdpHeader): (r: UdpHeader)
    requires IsHeader(h)
    ensures IsHeader(r) && Consistent(r) && r.raw == h.raw
    ensures r.sourcePort == GetU16(h.raw, 0) && r.destinationPort == GetU16(h.raw, 2)
  {
    Parse(h.raw)
  }

  /** A port cached whole is copied truncated: the copy only sees the 16 bits written. */
  lemma CopyAfterSetSourcePort(h: UdpHeader, p: int32)
    requires IsHeader(h)
    ensures CopyTo(SetSourcePort(h, p)).sourcePort == ToUnsigned16(p)
  {
  }

  /** A header whose cache agrees with its bytes is copied exactly, ports included. */
  lemma CopyToExact(h: UdpHeader)
    requires IsHeader(h) && Consistent(h)
    ensures CopyTo(h) == h
  {
    assert h.raw[..HEADER_LENGTH] == h.raw;
  }

  /** Setting a port inside [0, 65535] keeps the cache and the bytes consistent. */
  lemma SettersKeepConsistent(h: UdpHeader, p: int32)
    requires IsHeader(h) && Consistent(h) && 0 <= p < 0x1_0000
    ensures Consistent(SetSourcePort(h, p)) && Consistent(SetDestinationPort(h, p))
    ensures Consistent(SetPayloadLength(h, p)) && Consistent(ComputeChecksum(h, []))
  {
  }
}
