/**
 * What every connection shares (AbstractConnection.java): the destination
 * it opens a socket to, the response template it builds packets for the
 * client from, and the calls it makes into its client.
 */
module Connections {
  import opened Bytes
  import Net
  import IPv4Headers
  import TransportHeaders
  import IPv4Packets
  import Packetizers
  import ConnectionIds
  import TcpHeaders

  /** `LOCALHOST_FORWARD`: 10.0.2.2, the address the device uses for the host. */
  const LOCALHOST_FORWARD: int32 := 0x0a00_0202

  /** An `InetAddress`: the loopback address, or the four bytes of an IPv4 address. */
  datatype InetAddress = Loopback | Address(bytes: seq<byte>)

  /** An `InetSocketAddress`. */
  datatype SocketAddress = SocketAddress(address: InetAddress, port: int)

  /** `getRewrittenAddress`: 10.0.2.2 becomes the loopback address, any other address is kept. */
  function RewrittenAddress(ip: int32): (a: InetAddress)
    ensures a.Loopback? <==> ip == LOCALHOST_FORWARD
    ensures a.Address? ==> |a.bytes| == 4 && a.bytes == Net.ToInetAddress(ip) && Net.FromAddressBytes(a.bytes) == ip
  {
    if ip == LOCALHOST_FORWARD then Loopback
    else
      Net.AddressRoundTrip(ip);
      Address(Net.ToInetAddress(ip))
  }

  /**
   * `getRewrittenDestination`: the rewritten destination address with the
   * identifier's destination port read as unsigned.
   */
  function RewrittenDestination(id: ConnectionIds.ConnectionId): (s: SocketAddress)
    ensures s.address.Loopback? <==> id.destIp == LOCALHOST_FORWARD
    ensures s.address.Address? ==> |s.address.bytes| == 4 && Net.FromAddressBytes(s.address.bytes) == id.destIp
    ensures 0 <= s.port < 0x1_0000 && ToShort(s.port) == id.destPort
  {
    SocketAddress(RewrittenAddress(id.destIp), ConnectionIds.DestinationPort(id))
  }

  /** Distinct destinations other than 10.0.2.2 are never rewritten to the same socket address. */
  lemma RewrittenDestinationInjective(a: ConnectionIds.ConnectionId, b: ConnectionIds.ConnectionId)
    requires a.destIp != LOCALHOST_FORWARD && b.destIp != LOCALHOST_FORWARD
    requires RewrittenDestination(a) == RewrittenDestination(b)
    ensures a.destIp == b.destIp && a.destPort == b.destPort
  {
  }

  /**
   * The calls a connection makes into its client: `sendToClient(packet)`,
   * `consume(this)`, and `close()`, which disconnects and removes the
   * connection from the router.
   */
  datatype Output = ToClient(packet: IPv4Packets.Packet) | Consume | Close

  /** Nothing follows a close: a `Close` can only be the last call, so there is at most one. */
  predicate ClosesLast(outs: seq<Output>) {
    forall i :: 0 <= i < |outs| && outs[i].Close? ==> i == |outs| - 1
  }

  /** The outcome of writing a buffer to a channel: the count the write returns, or an `IOException`. */
  datatype WriteResult = Written(n: int) | WriteError

  /** The interest set of a selection key: `OP_READ`, `OP_WRITE`, `OP_CONNECT`. */
  datatype Interests = Interests(read: bool, write: bool, connect: bool)

  /** The request headers a response template can be made from: a supported IPv4 header and a UDP or TCP header of its protocol. */
  predicate RequestHeaders(ipv4: seq<byte>, t: TransportHeaders.Transport) {
    IPv4Headers.IsHeader(ipv4) && IPv4Headers.IsSupported(ipv4)
    && TransportHeaders.IsHeader(t) && !t.Icmp?
    && (t.Udp? <==> IPv4Headers.GetProtocol(ipv4) == IPv4Headers.UDP)
    && (t.Tcp? <==> IPv4Headers.GetProtocol(ipv4) == IPv4Headers.TCP)
  }

  /**
   * The template a UDP or TCP connection answers with: a packetizer over the
   * request's headers whose addresses and ports are then swapped.
   */
  function ResponseTemplate(ipv4: seq<byte>, t: TransportHeaders.Transport): (z: Packetizers.Packetizer)
    requires RequestHeaders(ipv4, t)
    ensures Packetizers.IsTemplate(z) && TransportHeaders.Consistent(z.transport)
    ensures z.transport.Udp? == t.Udp? && z.transport.Tcp? == t.Tcp?
    ensures z.ipv4 == IPv4Headers.SwapSourceAndDestination(ipv4)
    ensures TransportHeaders.HeaderLength(z.transport) == TransportHeaders.HeaderLength(t)
    ensures Answers(ipv4, t, z)
  {
    var copy := TransportHeaders.CopyTo(t);
    TransportHeaders.SwapExchangesPorts(copy);
    match copy
    case Udp(h) =>
      TransportHeaders.SwapUdp(h);
      Packetizers.Packetizer(IPv4Headers.SwapSourceAndDestination(ipv4), TransportHeaders.Swap(copy))
    case Tcp(h) =>
      TransportHeaders.SwapTcp(h);
      Packetizers.Packetizer(IPv4Headers.SwapSourceAndDestination(ipv4), TransportHeaders.Swap(copy))
  }

  /** A template that answers the request headers: addresses swapped, and the port bytes exchanged. */
  predicate Answers(ipv4: seq<byte>, t: TransportHeaders.Transport, z: Packetizers.Packetizer)
    requires IPv4Headers.IsHeader(ipv4) && TransportHeaders.IsHeader(t) && Packetizers.IsTemplate(z)
  {
    z.ipv4 == IPv4Headers.SwapSourceAndDestination(ipv4)
    && GetU16(TransportHeaders.Raw(z.transport), 0) == GetU16(TransportHeaders.Raw(t), 2)
    && GetU16(TransportHeaders.Raw(z.transport), 2) == GetU16(TransportHeaders.Raw(t), 0)
  }

  /** A UDP or TCP header whose caches agree with its bytes reports the ports in bytes 0-3. */
  lemma PortsInBytes(t: TransportHeaders.Transport)
    requires TransportHeaders.IsHeader(t) && TransportHeaders.Consistent(t) && !t.Icmp?
    ensures TransportHeaders.SourcePort(t) == GetU16(TransportHeaders.Raw(t), 0)
    ensures TransportHeaders.DestinationPort(t) == GetU16(TransportHeaders.Raw(t), 2)
  {
  }

  /** A header with the same identity as a swapped one carries the exchanged addresses and the same protocol. */
  lemma SwappedIdentity(request: seq<byte>, response: seq<byte>)
    requires IPv4Headers.IsHeader(request) && IPv4Headers.IsHeader(response)
    requires IPv4Headers.SameIdentity(response, IPv4Headers.SwapSourceAndDestination(request))
    ensures IPv4Headers.GetProtocol(response) == IPv4Headers.GetProtocol(request)
    ensures IPv4Headers.Source(response) == IPv4Headers.Destination(request)
    ensures IPv4Headers.Destination(response) == IPv4Headers.Source(request)
  {
    IPv4Headers.SameIdentityFields(response, IPv4Headers.SwapSourceAndDestination(request));
  }

  /** Packets whose protocol agrees and whose addresses and ports are exchanged belong to reversed flows. */
  lemma ExchangedEndpoints(p: IPv4Packets.Packet, q: IPv4Packets.Packet)
    requires IPv4Packets.WellFormed(p) && IPv4Packets.WellFormed(q)
    requires IPv4Headers.GetProtocol(q.ipv4) == IPv4Headers.GetProtocol(p.ipv4)
    requires IPv4Headers.Source(q.ipv4) == IPv4Headers.Destination(p.ipv4)
    requires IPv4Headers.Destination(q.ipv4) == IPv4Headers.Source(p.ipv4)
    requires TransportHeaders.SourcePort(q.transport) == TransportHeaders.DestinationPort(p.transport)
    requires TransportHeaders.DestinationPort(q.transport) == TransportHeaders.SourcePort(p.transport)
    ensures ConnectionIds.OfPacket(q) == ConnectionIds.Reverse(ConnectionIds.OfPacket(p))
  {
    var a := ConnectionIds.OfPacket(p);
    ToShortIdentity(a.sourcePort);
    ToShortIdentity(a.destPort);
    ShortUnsignedRoundTrip(TransportHeaders.SourcePort(p.transport));
    ShortUnsignedRoundTrip(TransportHeaders.DestinationPort(p.transport));
  }

  /**
   * Every packet built from a template that answers a request travels the
   * reverse flow: its identifier is the request's with source and
   * destination exchanged.
   */
  lemma ResponseReversesFlow(p: IPv4Packets.Packet, z: Packetizers.Packetizer, payload: seq<byte>, q: IPv4Packets.Packet)
    requires IPv4Packets.WellFormed(p) && TransportHeaders.Consistent(p.transport) && !p.transport.Icmp?
    requires Packetizers.IsTemplate(z) && Answers(p.ipv4, p.transport, z)
    requires Packetizers.Built(z, payload, q)
    ensures ConnectionIds.OfPacket(q) == ConnectionIds.Reverse(ConnectionIds.OfPacket(p))
  {
    SwappedIdentity(p.ipv4, q.ipv4);
    var zr := TransportHeaders.Raw(z.transport);
    var qr := TransportHeaders.Raw(q.transport);
    assert !TransportHeaders.LengthOrChecksumByte(z.transport, 0) && !TransportHeaders.LengthOrChecksumByte(z.transport, 1);
    assert !TransportHeaders.LengthOrChecksumByte(z.transport, 2) && !TransportHeaders.LengthOrChecksumByte(z.transport, 3);
    assert qr[0] == zr[0] && qr[1] == zr[1] && qr[2] == zr[2] && qr[3] == zr[3];
    assert GetU16(qr, 0) == GetU16(zr, 0) && GetU16(qr, 2) == GetU16(zr, 2);
    PortsInBytes(p.transport);
    PortsInBytes(q.transport);
    ExchangedEndpoints(p, q);
  }

  /** The ICMP flow: only its identifier and the time of its last packet are modelled. */
  datatype IcmpConnection = IcmpConnection(id: ConnectionIds.ConnectionId, idleSince: int)

  /** `ICMPConnection.IDLE_TIMEOUT`, in milliseconds. */
  const ICMP_IDLE_TIMEOUT := 10 * 1000

  /** `ICMPConnection.sendToNetwork`: records the time; the echo reply runs elsewhere. */
  function IcmpSendToNetwork(c: IcmpConnection, now: int): (r: IcmpConnection)
    ensures r.id == c.id && !IcmpIsExpired(r, now)
  {
    c.(idleSince := now)
  }

  /** `ICMPConnection.isExpired`: ten seconds without a packet. */
  predicate IcmpIsExpired(c: IcmpConnection, now: int) {
    now >= c.idleSince + ICMP_IDLE_TIMEOUT
  }
}
