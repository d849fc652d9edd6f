/**
 * The ICMP header of RFC 792 (ICMPHeader.java): eight bytes, plus a cached
 * "source port" (the echo identifier), a cached destination port and a
 * cached payload length that the relay uses to treat ICMP like a transport.
 */
module IcmpHeaders {
  import opened Bytes
  import Checksum
  import IPv4Headers

  /** `ICMP_HEADER_LENGTH`. */
  const HEADER_LENGTH := 8

  /** Offset of the 16-bit checksum. */
  const CHECKSUM_OFFSET := 2

  /** The type of an echo request (RFC 792). */
  const ECHO_REQUEST := 8

  datatype IcmpHeader = IcmpHeader(raw: seq<byte>, sourcePort: int32, destinationPort: int32, payloadLength: int)

  predicate IsHeader(h: IcmpHeader) {
    |h.raw| == HEADER_LENGTH
  }

  /**
   * The constructor: the payload length is whatever the buffer holds after
   * the eight header bytes; the source port is the identifier at bytes 4-5
   * read as a SIGNED short (unlike UDP); the destination port starts at 0.
   */
  function Parse(raw: seq<byte>): (h: IcmpHeader)
    requires |raw| >= HEADER_LENGTH
    ensures IsHeader(h) && h.raw == raw[..HEADER_LENGTH]
    ensures h.payloadLength == |raw| - HEADER_LENGTH
    ensures h.sourcePort == GetShort(raw, 4) && -0x8000 <= h.sourcePort < 0x8000
    ensures h.destinationPort == 0
  {
    IcmpHeader(raw[..HEADER_LENGTH], GetShort(raw, 4), 0, |raw| - HEADER_LENGTH)
  }

  /** `setPong`: turns the message into an echo reply, type 0 and code 0. */
  function SetPong(h: IcmpHeader): (r: IcmpHeader)
    requires IsHeader(h)
    ensures IsHeader(r) && r.raw[0] == 0 && r.raw[1] == 0
    ensures r.raw[2..] == h.raw[2..]
    ensures r.sourcePort == h.sourcePort && r.destinationPort == h.destinationPort && r.payloadLength == h.payloadLength
  {
    h.(raw := h.raw[0 := 0][1 := 0])
  }

  /** `isPing`: the type byte is 8, an echo request. */
  predicate IsPing(h: IcmpHeader)
    requires IsHeader(h)
  {
    h.raw[0] == ECHO_REQUEST
  }

  /** An echo reply is never a ping. */
  lemma PongIsNotPing(h: IcmpHeader)
    requires IsHeader(h)
    ensures !IsPing(SetPong(h))
    ensures IsPing(h) <==> h.raw[0] == 8
  {
  }

  /** `getSeq`: the echo sequence number at bytes 6-7, signed. */
  function GetSeq(h: IcmpHeader): short
    requires IsHeader(h)
  {
    GetShort(h.raw, 6)
  }

  /** `setSeq`: stores a sequence number that `getSeq` reads back; only bytes 6-7 change. */
  function SetSeq(h: IcmpHeader, s: short): (r: IcmpHeader)
    requires IsHeader(h)
    ensures IsHeader(r) && GetSeq(r) == s
    ensures r.raw[..6] == h.raw[..6]
    ensures r.sourcePort == h.sourcePort && r.destinationPort == h.destinationPort && r.payloadLength == h.payloadLength
  {
    var r := h.(raw := PutU16(h.raw, 6, s));
    assert GetU16(r.raw, 6) == s % 0x1_0000;
    r
  }

  /** `setSourcePort`: only the cache changes, never the bytes. */
  function SetSourcePort(h: IcmpHeader, p: int32): (r: IcmpHeader)
    ensures r.raw == h.raw && r.sourcePort == p
    ensures r.destinationPort == h.destinationPort && r.payloadLength == h.payloadLength
  {
    h.(sourcePort := p)
  }

  /** `setDestinationPort`: only the cache changes, never the bytes. */
  function SetDestinationPort(h: IcmpHeader, p: int32): (r: IcmpHeader)
    ensures r.raw == h.raw && r.destinationPort == p
    ensures r.sourcePort == h.sourcePort && r.payloadLength == h.payloadLength
  {
    h.(destinationPort := p)
  }

  /** `setPayloadLength`: only the cache changes, never the bytes. */
  function SetPayloadLength(h: IcmpHeader, n: int32): (r: IcmpHeader)
    ensures r.raw == h.raw && r.payloadLength == n
    ensures r.sourcePort == h.sourcePort && r.destinationPort == h.destinationPort
  {
    h.(payloadLength := n)
  }

  /** `copyTo`: re-read from the eight copied bytes, so the copy has payload length 0. */
  function CopyTo(h: IcmpHeader): (r: IcmpHeader)
    requires IsHeader(h)
    ensures IsHeader(r) && r.raw == h.raw && r.payloadLength == 0
    ensures r.sourcePort == GetShort(h.raw, 4) && r.destinationPort == 0
  {
    Parse(h.raw)
  }

  /**
   * What `computeChecksum` demands: the payload length the IPv4 header
   * declares (total length, minus its header length, minus eight) is the
   * length of the payload given.
   */
  predicate PayloadMatches(ipv4: seq<byte>, payload: seq<byte>)
    requires |ipv4| >= 4
  {
    IPv4Headers.TotalLength(ipv4) - IPv4Headers.HeaderLength(ipv4) - HEADER_LENGTH == |payload|
  }

  /**
   * `computeChecksum`: zeroes the checksum field, then stores the one's
   * complement of the folded word sum of the header and the payload; the
   * header and payload then re-sum to 0xffff.
   */
  function ComputeChecksum(h: IcmpHeader, ipv4: seq<byte>, payload: seq<byte>): (r: IcmpHeader)
    requires IsHeader(h) && |ipv4| >= 4 && PayloadMatches(ipv4, payload)
    ensures IsHeader(r)
    ensures Checksum.Fold(Checksum.WordSum(r.raw + payload)) == 0xffff
    ensures r.raw[..2] == h.raw[..2] && r.raw[4..] == h.raw[4..]
    ensures r.sourcePort == h.sourcePort && r.destinationPort == h.destinationPort && r.payloadLength == h.payloadLength
  {
    h.(raw := Checksum.StoreChecksum(h.raw, CHECKSUM_OFFSET, payload))
  }

  /** The old checksum field does not matter, and computing the checksum twice changes nothing. */
  lemma ComputeChecksumIdempotent(h: IcmpHeader, ipv4: seq<byte>, payload: seq<byte>, v: int)
    requires IsHeader(h) && |ipv4| >= 4 && PayloadMatches(ipv4, payload)
    ensures ComputeChecksum(h.(raw := PutU16(h.raw, CHECKSUM_OFFSET, v)), ipv4, payload) == ComputeChecksum(h, ipv4, payload)
    ensures ComputeChecksum(ComputeChecksum(h, ipv4, payload), ipv4, payload) == ComputeChecksum(h, ipv4, payload)
  {
    Checksum.StoreChecksumIgnoresOldField(h.raw, CHECKSUM_OFFSET, payload, v);
    Checksum.StoreChecksumIdempotent(h.raw, CHECKSUM_OFFSET, payload);
  }

  /** The first Java loop: the sum of the four header words, in a Java `int`. */
  method SumHeaderWords(raw: seq<byte>) returns (sum: int32)
    requires |raw| == HEADER_LENGTH
    ensures sum == Checksum.WordSum(raw)
    ensures sum <= (HEADER_LENGTH / 2) * 0xffff
  {
    sum := 0;
    var i := 0;
    while i < HEADER_LENGTH / 2
      invariant 0 <= i <= HEADER_LENGTH / 2
      invariant sum == Checksum.WordSum(raw[..2 * i])
      invariant sum <= i * 0xffff
    {
      Checksum.WordSumPrefixStep(raw, i);
      sum := sum + (raw[2 * i] as int) * 0x100 + raw[2 * i + 1] as int;
      i := i + 1;
    }
    assert raw[..2 * i] == raw;
  }

  /**
   * The second Java loop and the odd trailing byte: adds the payload's word
   * sum to the header's. A payload of at most 65527 bytes (what a 16-bit
   * total length leaves after an ICMP header) never overflows the `int`.
   */
  method AddPayloadWords(start: int32, payload: seq<byte>) returns (sum: int32)
    requires 0 <= start <= (HEADER_LENGTH / 2) * 0xffff
    requires |payload| <= 0xffff - HEADER_LENGTH
    ensures sum == start + Checksum.WordSum(payload)
  {
    var n := |payload|;
    sum := start;
    var i := 0;
    while i < n / 2
      invariant 0 <= i <= n / 2
      invariant sum == start + Checksum.WordSum(payload[..2 * i])
      invariant sum <= (HEADER_LENGTH / 2 + i) * 0xffff
    {
      Checksum.WordSumPrefixStep(payload, i);
      sum := sum + (payload[2 * i] as int) * 0x100 + payload[2 * i + 1] as int;
      i := i + 1;
    }
    if n % 2 != 0 {
      Checksum.WordSumOddTail(payload);
      assert payload[..2 * i] == payload[..n - 1];
      sum := sum + (payload[n - 1] as int) * 0x100;
    } else {
      assert payload[..2 * i] == payload;
    }
  }

  /** The carry-folding Java loop: computes the folded sum. */
  method FoldCarries(x: int32) returns (sum: int32)
    requires x >= 0
    ensures sum == Checksum.Fold(x)
  {
    sum := x;
    while sum >= 0x1_0000
      invariant sum >= 0 && Checksum.Fold(sum) == Checksum.Fold(x)
      decreases sum
    {
      sum := sum % 0x1_0000 + sum / 0x1_0000;
    }
  }

  /**
   * The Java `computeChecksum`: header words, payload words, an odd trailing
   * byte, then carry folding, in a Java `int`. It stores exactly the
   * checksum of the functional definition.
   */
  method ComputeChecksumLoop(h: IcmpHeader, ipv4: seq<byte>, payload: seq<byte>) returns (r: IcmpHeader)
    requires IsHeader(h) && |ipv4| >= 4 && PayloadMatches(ipv4, payload)
    ensures r == ComputeChecksum(h, ipv4, payload)
  {
    var raw := PutU16(h.raw, CHECKSUM_OFFSET, 0);
    var sum := SumHeaderWords(raw);
    sum := AddPayloadWords(sum, payload);
    Checksum.WordSumAppend(raw, payload);
    sum := FoldCarries(sum);
    r := h.(raw := PutU16(raw, CHECKSUM_OFFSET, -sum - 1));
    assert PutU16(raw, CHECKSUM_OFFSET, -sum - 1) == PutU16(raw, CHECKSUM_OFFSET, Checksum.Checksum(raw + payload));
  }
}
