/**
 * The identity of a flow (ConnectionId.java): protocol, source address and
 * port, destination address and port, with a text form computed once.
 */
module ConnectionIds {
  import opened Bytes
  import Net
  import IPv4Headers
  import TransportHeaders
  import IPv4Packets

  datatype ConnectionId = ConnectionId(
    protocol: IPv4Headers.Protocol,
    sourceIp: int32,
    sourcePort: short,
    destIp: int32,
    destPort: short,
    idString: string)

  /** The name of a protocol constant, as Java's `Enum.toString` gives it. */
  function ProtocolName(p: IPv4Headers.Protocol): string {
    match p
    case TCP => "TCP"
    case UDP => "UDP"
    case ICMP => "ICMP"
    case OTHER => "OTHER"
  }

  /** The text form of a flow: protocol, then source and destination endpoints. */
  function Describe(protocol: IPv4Headers.Protocol, sourceIp: int32, sourcePort: short, destIp: int32, destPort: short): string {
    ProtocolName(protocol) + " " + Net.ToString(sourceIp, sourcePort) + " -> " + Net.ToString(destIp, destPort)
  }

  /** An identifier whose text is the one its constructor computed from its fields. */
  predicate WellFormed(id: ConnectionId) {
    id.idString == Describe(id.protocol, id.sourceIp, id.sourcePort, id.destIp, id.destPort)
  }

  /** The constructor: stores the five fields and computes the text once. */
  function Create(protocol: IPv4Headers.Protocol, sourceIp: int32, sourcePort: short, destIp: int32, destPort: short): (id: ConnectionId)
    ensures WellFormed(id)
    ensures id.protocol == protocol && id.sourceIp == sourceIp && id.sourcePort == sourcePort
    ensures id.destIp == destIp && id.destPort == destPort
  {
    ConnectionId(protocol, sourceIp, sourcePort, destIp, destPort,
                 Describe(protocol, sourceIp, sourcePort, destIp, destPort))
  }

  /** `getSourcePort`: the stored short read as unsigned; it carries the same 16 bits. */
  function SourcePort(id: ConnectionId): (p: int)
    ensures 0 <= p < 0x1_0000 && ToShort(p) == id.sourcePort
  {
    ShortUnsignedRoundTrip(id.sourcePort);
    ToShortIdentity(id.sourcePort);
    ToUnsigned16(id.sourcePort)
  }

  /** `getDestinationPort`: the stored short read as unsigned; it carries the same 16 bits. */
  function DestinationPort(id: ConnectionId): (p: int)
    ensures 0 <= p < 0x1_0000 && ToShort(p) == id.destPort
  {
    ShortUnsignedRoundTrip(id.destPort);
    ToShortIdentity(id.destPort);
    ToUnsigned16(id.destPort)
  }

  /** `toString`: the text computed by the constructor. */
  function ToString(id: ConnectionId): (s: string)
    requires WellFormed(id)
    ensures s == Describe(id.protocol, id.sourceIp, id.sourcePort, id.destIp, id.destPort)
  {
    id.idString
  }

  /** The argument of `equals`: `null`, an object of another class, or an identifier. */
  datatype Object = Null | OtherClass | Id(id: ConnectionId)

  /** `equals`: false for `null` and other classes; otherwise the five fields are compared. */
  predicate Equals(a: ConnectionId, o: Object) {
    match o
    case Null => false
    case OtherClass => false
    case Id(b) =>
      a.sourceIp == b.sourceIp && a.sourcePort == b.sourcePort && a.destIp == b.destIp
      && a.destPort == b.destPort && a.protocol == b.protocol
  }

  /**
   * `equals` is an equivalence on identifiers, rejects `null` and other
   * classes, and on well-formed identifiers it is plain value equality.
   */
  lemma EqualsIsEquality(a: ConnectionId, b: ConnectionId, c: ConnectionId)
    ensures Equals(a, Id(a))
    ensures !Equals(a, Null) && !Equals(a, OtherClass)
    ensures Equals(a, Id(b)) ==> Equals(b, Id(a))
    ensures Equals(a, Id(b)) && Equals(b, Id(c)) ==> Equals(a, Id(c))
    ensures WellFormed(a) && WellFormed(b) ==> (Equals(a, Id(b)) <==> a == b)
  {
  }

  /** `hashCode`: `31 * result + field` over the five fields in Java `int` arithmetic, seeded by the protocol's hash. */
  function HashCode(id: ConnectionId, protocolHash: int32): int32 {
    var r := protocolHash;
    var r := Wrap32(31 * r + id.sourceIp);
    var r := Wrap32(31 * r + id.sourcePort);
    var r := Wrap32(31 * r + id.destIp);
    Wrap32(31 * r + id.destPort)
  }

  /** Equal identifiers have equal hash codes (the protocol's hash is fixed for a run). */
  lemma EqualsImpliesSameHash(a: ConnectionId, b: ConnectionId, protocolHash: int32)
    requires Equals(a, Id(b))
    ensures HashCode(a, protocolHash) == HashCode(b, protocolHash)
  {
  }

  /**
   * `from`: protocol and addresses from the IPv4 header, ports from the
   * transport header cast to `short`.
   */
  function From(ipv4: seq<byte>, t: TransportHeaders.Transport): (id: ConnectionId)
    requires IPv4Headers.IsHeader(ipv4) && TransportHeaders.IsHeader(t)
    ensures WellFormed(id)
    ensures id.protocol == IPv4Headers.GetProtocol(ipv4)
    ensures id.sourceIp == IPv4Headers.Source(ipv4) && id.destIp == IPv4Headers.Destination(ipv4)
    ensures SourcePort(id) == TransportHeaders.SourcePort(t) % 0x1_0000
    ensures DestinationPort(id) == TransportHeaders.DestinationPort(t) % 0x1_0000
  {
    ShortUnsignedRoundTrip(TransportHeaders.SourcePort(t));
    ShortUnsignedRoundTrip(TransportHeaders.DestinationPort(t));
    Create(IPv4Headers.GetProtocol(ipv4), IPv4Headers.Source(ipv4), ToShort(TransportHeaders.SourcePort(t)),
           IPv4Headers.Destination(ipv4), ToShort(TransportHeaders.DestinationPort(t)))
  }

  /** The identifier of a packet: `from` over its two headers. */
  function OfPacket(p: IPv4Packets.Packet): ConnectionId
    requires IPv4Packets.WellFormed(p)
  {
    From(p.ipv4, p.transport)
  }

  /** The same flow seen from the other end. */
  function Reverse(id: ConnectionId): ConnectionId {
    Create(id.protocol, id.destIp, id.destPort, id.sourceIp, id.sourcePort)
  }

  /** A swapped packet belongs to the reversed flow. */
  lemma SwapReversesId(p: IPv4Packets.Packet)
    requires IPv4Packets.WellFormed(p)
    ensures OfPacket(IPv4Packets.Swap(p)) == Reverse(OfPacket(p))
  {
    var q := IPv4Packets.Swap(p);
    assert q.ipv4[0] == p.ipv4[0] && q.ipv4[9] == p.ipv4[9];
  }
}
