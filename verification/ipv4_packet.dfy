/**
 * A view of one IPv4 datagram (IPv4Packet.java): the IPv4 header, the
 * transport header created for its protocol, and the payload up to the
 * total length the header declares.
 */
module IPv4Packets {
  import opened Bytes
  import Checksum
  import IPv4Headers
  import UdpHeaders
  import TcpHeaders
  import IcmpHeaders
  import TransportHeaders
  import opened Wrappers

  /** `MAX_PACKET_LENGTH`: the total length is stored on 16 bits. */
  const MAX_PACKET_LENGTH := 0x1_0000

  /**
   * `Unsupported`: the IPv4 header is not one the relay handles (`isValid`
   * is false). `Malformed`: the declared lengths do not fit the bytes, where
   * the Java constructors or `getPayload` would throw. `Valid`: a transport
   * header was created.
   */
  datatype Packet =
    | Unsupported(raw: seq<byte>)
    | Malformed(raw: seq<byte>)
    | Valid(ipv4: seq<byte>, transport: TransportHeaders.Transport, payload: seq<byte>)

  /** `isValid`: a transport header exists. */
  predicate IsValid(p: Packet) {
    p.Valid?
  }

  /**
   * The transport header the constructor creates for `protocol` from the
   * bytes after the IPv4 header (`getRawTransport`), or None where the
   * transport constructor would find too few bytes.
   */
  function CreateTransport(protocol: IPv4Headers.Protocol, rest: seq<byte>): (t: Option<TransportHeaders.Transport>)
    ensures t.Some? ==> TransportHeaders.IsHeader(t.value) && TransportHeaders.Consistent(t.value)
    ensures t.Some? ==> TransportHeaders.HeaderLength(t.value) <= |rest|
    ensures t.Some? ==> TransportHeaders.Raw(t.value) == rest[..TransportHeaders.HeaderLength(t.value)]
    ensures t.Some? ==> (t.value.Udp? <==> protocol == IPv4Headers.UDP)
    ensures t.Some? ==> (t.value.Tcp? <==> protocol == IPv4Headers.TCP)
    ensures t.Some? ==> (t.value.Icmp? <==> protocol == IPv4Headers.ICMP)
    ensures t.None? <==> protocol == IPv4Headers.OTHER || |rest| < UdpHeaders.HEADER_LENGTH
                         || (protocol == IPv4Headers.TCP && !TcpHeaders.Parses(rest))
  {
    match protocol
    case UDP => if |rest| < UdpHeaders.HEADER_LENGTH then None else Some(TransportHeaders.Udp(UdpHeaders.Parse(rest)))
    case TCP => if !TcpHeaders.Parses(rest) then None else Some(TransportHeaders.Tcp(TcpHeaders.Parse(rest)))
    case ICMP => if |rest| < IcmpHeaders.HEADER_LENGTH then None else Some(TransportHeaders.Icmp(IcmpHeaders.Parse(rest)))
    case OTHER => None
  }

  /**
   * The constructor. An unsupported header gives an invalid packet over the
   * bytes as given; otherwise the transport header is read from the bytes
   * after the IPv4 header and the packet is cut at the declared total length.
   */
  function Parse(raw: seq<byte>): (p: Packet)
  {
    if |raw| < IPv4Headers.HEADER_LENGTH then Malformed(raw)
    else
      var ip := raw[..IPv4Headers.HEADER_LENGTH];
      if !IPv4Headers.IsSupported(ip) then Unsupported(raw)
      else
        match CreateTransport(IPv4Headers.GetProtocol(ip), raw[IPv4Headers.HEADER_LENGTH..])
        case None => Malformed(raw)
        case Some(t) =>
          var total := IPv4Headers.TotalLength(ip);
          var headers := IPv4Headers.HEADER_LENGTH + TransportHeaders.HeaderLength(t);
          if total > |raw| || total < headers then Malformed(raw)
          else Valid(ip, t, raw[headers..total])
  }

  /**
   * The transport port caches hold what parsing the bytes would give: for
   * UDP the ports, for ICMP the signed identifier and a zero destination.
   */
  predicate CachesReparse(t: TransportHeaders.Transport)
    requires TransportHeaders.IsHeader(t)
  {
    TransportHeaders.Consistent(t)
    && (t.Icmp? ==> t.icmp.sourcePort == GetShort(t.icmp.raw, 4) && t.icmp.destinationPort == 0)
  }

  /**
   * A valid packet as the constructor leaves it: a supported 20-byte IPv4
   * header, a transport header of its protocol, and a total length that
   * covers exactly the two headers and the payload.
   */
  predicate WellFormed(p: Packet) {
    p.Valid?
    && IPv4Headers.IsHeader(p.ipv4) && IPv4Headers.IsSupported(p.ipv4)
    && TransportHeaders.IsHeader(p.transport)
    && (p.transport.Udp? <==> IPv4Headers.GetProtocol(p.ipv4) == IPv4Headers.UDP)
    && (p.transport.Tcp? <==> IPv4Headers.GetProtocol(p.ipv4) == IPv4Headers.TCP)
    && (p.transport.Icmp? <==> IPv4Headers.GetProtocol(p.ipv4) == IPv4Headers.ICMP)
    && IPv4Headers.TotalLength(p.ipv4) == IPv4Headers.HEADER_LENGTH + TransportHeaders.HeaderLength(p.transport) + |p.payload|
  }

  /** `getRaw`: the bytes of the packet, up to the total length for a valid one. */
  function Raw(p: Packet): seq<byte> {
    match p
    case Unsupported(raw) => raw
    case Malformed(raw) => raw
    case Valid(ip, t, payload) => ip + TransportHeaders.Raw(t) + payload
  }

  /** `getRawLength`: for a well-formed packet, the IPv4 total length. */
  function RawLength(p: Packet): (n: nat)
    ensures WellFormed(p) ==> n == IPv4Headers.TotalLength(p.ipv4)
  {
    |Raw(p)|
  }

  /** Offset of the transport header: the IPv4 header length. */
  function TransportOffset(p: Packet): (n: nat)
    requires WellFormed(p)
    ensures n == IPv4Headers.HeaderLength(p.ipv4)
    ensures Raw(p)[n..n + TransportHeaders.HeaderLength(p.transport)] == TransportHeaders.Raw(p.transport)
  {
    var r := Raw(p);
    assert r[20..20 + TransportHeaders.HeaderLength(p.transport)] == TransportHeaders.Raw(p.transport);
    IPv4Headers.HEADER_LENGTH
  }

  /** Offset of the payload: both header lengths. */
  function PayloadOffset(p: Packet): (n: nat)
    requires WellFormed(p)
    ensures n == IPv4Headers.HeaderLength(p.ipv4) + TransportHeaders.HeaderLength(p.transport)
    ensures Raw(p)[n..] == p.payload
  {
    var n := IPv4Headers.HEADER_LENGTH + TransportHeaders.HeaderLength(p.transport);
    assert Raw(p)[n..] == p.payload;
    n
  }

  /** `getPayloadLength`: the raw length minus both header lengths. */
  function PayloadLength(p: Packet): (n: int)
    requires WellFormed(p)
    ensures n == |p.payload|
    ensures n == IPv4Headers.TotalLength(p.ipv4) - IPv4Headers.HeaderLength(p.ipv4) - TransportHeaders.HeaderLength(p.transport)
  {
    RawLength(p) - IPv4Headers.HEADER_LENGTH - TransportHeaders.HeaderLength(p.transport)
  }

  /**
   * A valid result of the constructor is well formed and consists of the
   * first total-length bytes. The ICMP payload-length cache is counted from
   * the end of the buffer given, not from the total length.
   */
  lemma ParseWellFormed(raw: seq<byte>)
    ensures Parse(raw).Valid? ==> WellFormed(Parse(raw)) && CachesReparse(Parse(raw).transport)
    ensures Parse(raw).Valid? ==> Raw(Parse(raw)) == raw[..IPv4Headers.TotalLength(raw[..20])]
    ensures Parse(raw).Valid? && Parse(raw).transport.Icmp? ==> Parse(raw).transport.icmp.payloadLength == |raw| - 28
    ensures Parse(raw).Unsupported? <==> |raw| >= 20 && !IPv4Headers.IsSupported(raw[..20])
    ensures !Parse(raw).Valid? ==> Raw(Parse(raw)) == raw
  {
    var p := Parse(raw);
    if p.Valid? {
      var ip := raw[..20];
      var t := p.transport;
      var h := TransportHeaders.HeaderLength(t);
      var total := IPv4Headers.TotalLength(ip);
      assert raw[20..][..h] == raw[20..20 + h];
      assert raw[..total] == ip + raw[20..20 + h] + raw[20 + h..total];
    }
  }

  /** A packet the constructor could have produced from its own bytes. */
  predicate Reparses(p: Packet) {
    WellFormed(p) && CachesReparse(p.transport)
    && (p.transport.Icmp? ==> p.transport.icmp.payloadLength == |p.payload|)
  }

  /**
   * Re-reading the bytes of a well-formed packet gives the same IPv4 header,
   * transport bytes and payload; the transport caches are re-read from the
   * bytes, as by the Java constructors.
   */
  lemma ParseParts(p: Packet)
    requires WellFormed(p)
    ensures Parse(Raw(p)).Valid?
    ensures Parse(Raw(p)).ipv4 == p.ipv4 && Parse(Raw(p)).payload == p.payload
    ensures TransportHeaders.Raw(Parse(Raw(p)).transport) == TransportHeaders.Raw(p.transport)
    ensures Parse(Raw(p)).transport.Udp? == p.transport.Udp? && Parse(Raw(p)).transport.Icmp? == p.transport.Icmp?
    ensures Parse(Raw(p)).transport.Tcp? ==> Parse(Raw(p)).transport == p.transport
    ensures CachesReparse(Parse(Raw(p)).transport)
    ensures Parse(Raw(p)).transport.Icmp? ==> Parse(Raw(p)).transport.icmp.payloadLength == |p.payload|
  {
    var raw := Raw(p);
    var t := p.transport;
    var h := TransportHeaders.HeaderLength(t);
    assert raw[..20] == p.ipv4;
    var rest := raw[20..];
    assert rest == TransportHeaders.Raw(t) + p.payload;
    assert rest[..h] == TransportHeaders.Raw(t);
    assert raw[20 + h..|raw|] == p.payload;
    match t
    case Udp(u) =>
      assert rest[..8] == u.raw;
    case Tcp(c) =>
      assert TcpHeaders.Parse(rest) == c;
    case Icmp(c) =>
      assert rest[..8] == c.raw;
  }

  /** Parsing the bytes of a packet the constructor could have produced gives the packet back. */
  lemma ParseRaw(p: Packet)
    requires Reparses(p)
    ensures Parse(Raw(p)) == p
  {
    ParseParts(p);
  }

  /**
   * `swapSourceAndDestination`: exchanges the IPv4 addresses and the
   * transport ports; the lengths, the protocol and the payload stay.
   */
  function Swap(p: Packet): (r: Packet)
    requires WellFormed(p)
    ensures WellFormed(r) && r.payload == p.payload
    ensures IPv4Headers.Source(r.ipv4) == IPv4Headers.Destination(p.ipv4)
    ensures IPv4Headers.Destination(r.ipv4) == IPv4Headers.Source(p.ipv4)
    ensures TransportHeaders.SourcePort(r.transport) == TransportHeaders.DestinationPort(p.transport)
    ensures TransportHeaders.DestinationPort(r.transport) == TransportHeaders.SourcePort(p.transport)
    ensures RawLength(r) == RawLength(p)
  {
    TransportHeaders.SwapExchangesPorts(p.transport);
    Valid(IPv4Headers.SwapSourceAndDestination(p.ipv4), TransportHeaders.Swap(p.transport), p.payload)
  }

  /** Swapping a packet twice gives it back, when its transport cache agrees with its bytes. */
  lemma SwapInvolution(p: Packet)
    requires WellFormed(p) && TransportHeaders.Consistent(p.transport)
    ensures Swap(Swap(p)) == p
  {
    IPv4Headers.SwapInvolution(p.ipv4);
    TransportHeaders.SwapInvolution(p.transport);
  }

  /**
   * `computeChecksums`: the IPv4 header checksum first, then the transport
   * checksum over the current payload; nothing else changes.
   */
  function ComputeChecksums(p: Packet): (r: Packet)
    requires WellFormed(p)
    ensures WellFormed(r) && r.payload == p.payload
    ensures IPv4Headers.SameIdentity(r.ipv4, p.ipv4) && IPv4Headers.TotalLength(r.ipv4) == IPv4Headers.TotalLength(p.ipv4)
    ensures Checksum.Fold(Checksum.WordSum(r.ipv4)) == 0xffff
    ensures TransportHeaders.ChecksumVerifies(r.transport, r.ipv4, r.payload)
    ensures TransportHeaders.SourcePort(r.transport) == TransportHeaders.SourcePort(p.transport)
    ensures TransportHeaders.DestinationPort(r.transport) == TransportHeaders.DestinationPort(p.transport)
    ensures TransportHeaders.Consistent(p.transport) ==> TransportHeaders.Consistent(r.transport)
    ensures r.transport.Udp? == p.transport.Udp? && r.transport.Icmp? == p.transport.Icmp?
    ensures r.transport.Icmp? ==> r.transport.icmp.payloadLength == p.transport.icmp.payloadLength
    ensures |TransportHeaders.Raw(r.transport)| == |TransportHeaders.Raw(p.transport)|
    ensures forall i :: 0 <= i < |TransportHeaders.Raw(p.transport)| && !TransportHeaders.LengthOrChecksumByte(p.transport, i) ==>
              TransportHeaders.Raw(r.transport)[i] == TransportHeaders.Raw(p.transport)[i]
  {
    var ip := IPv4Headers.ComputeChecksum(p.ipv4);
    var t := TransportHeaders.ComputeChecksum(p.transport, ip, p.payload);
    Valid(ip, t, p.payload)
  }

  /** Checksums computed once are already final. */
  lemma ComputeChecksumsIdempotent(p: Packet)
    requires WellFormed(p)
    ensures ComputeChecksums(ComputeChecksums(p)) == ComputeChecksums(p)
  {
    var ip := IPv4Headers.ComputeChecksum(p.ipv4);
    IPv4Headers.ComputeChecksumIdempotent(p.ipv4, 0);
    TransportHeaders.ComputeChecksumIdempotent(p.transport, ip, p.payload);
  }
}
