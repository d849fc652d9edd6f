/**
 * The transport headers behind one interface (TransportHeader.java): UDP,
 * TCP or ICMP, with the operations the packet and the packetizer call on
 * any of them, and the generic port swap.
 */
module TransportHeaders {
  import opened Bytes
  import Checksum
  import UdpHeaders
  import TcpHeaders
  import IcmpHeaders

  datatype Transport =
    | Udp(udp: UdpHeaders.UdpHeader)
    | Tcp(tcp: TcpHeaders.TcpHeader)
    | Icmp(icmp: IcmpHeaders.IcmpHeader)

  predicate IsHeader(t: Transport) {
    match t
    case Udp(h) => UdpHeaders.IsHeader(h)
    case Tcp(h) => TcpHeaders.IsHeader(h)
    case Icmp(h) => IcmpHeaders.IsHeader(h)
  }

  /** The cached ports agree with the bytes (only UDP caches them next to the bytes it writes). */
  predicate Consistent(t: Transport)
    requires IsHeader(t)
  {
    t.Udp? ==> UdpHeaders.Consistent(t.udp)
  }

  function Raw(t: Transport): seq<byte> {
    match t
    case Udp(h) => h.raw
    case Tcp(h) => h.raw
    case Icmp(h) => h.raw
  }

  /** `getHeaderLength`: 8 for UDP and ICMP, the data offset for TCP. */
  function HeaderLength(t: Transport): (n: nat)
    requires IsHeader(t)
    ensures n == |Raw(t)| && n >= 8
    ensures !t.Tcp? ==> n == 8
  {
    match t
    case Udp(_) => UdpHeaders.HEADER_LENGTH
    case Tcp(h) => TcpHeaders.HeaderLength(h)
    case Icmp(_) => IcmpHeaders.HEADER_LENGTH
  }

  function SourcePort(t: Transport): int
    requires IsHeader(t)
  {
    match t
    case Udp(h) => h.sourcePort
    case Tcp(h) => TcpHeaders.SourcePort(h)
    case Icmp(h) => h.sourcePort
  }

  function DestinationPort(t: Transport): int
    requires IsHeader(t)
  {
    match t
    case Udp(h) => h.destinationPort
    case Tcp(h) => TcpHeaders.DestinationPort(h)
    case Icmp(h) => h.destinationPort
  }

  /** Every port a header reports fits a Java `int`. */
  lemma PortsAreInts(t: Transport)
    requires IsHeader(t)
    ensures -0x8000_0000 <= SourcePort(t) < 0x8000_0000
    ensures -0x8000_0000 <= DestinationPort(t) < 0x8000_0000
  {
  }

  function SetSourcePort(t: Transport, p: int32): (r: Transport)
    requires IsHeader(t)
    ensures IsHeader(r) && HeaderLength(r) == HeaderLength(t)
    ensures SourcePort(r) == (if t.Tcp? then p % 0x1_0000 else p)
    ensures DestinationPort(r) == DestinationPort(t)
  {
    match t
    case Udp(h) => Udp(UdpHeaders.SetSourcePort(h, p))
    case Tcp(h) => Tcp(TcpHeaders.SetSourcePort(h, p))
    case Icmp(h) => Icmp(IcmpHeaders.SetSourcePort(h, p))
  }

  function SetDestinationPort(t: Transport, p: int32): (r: Transport)
    requires IsHeader(t)
    ensures IsHeader(r) && HeaderLength(r) == HeaderLength(t)
    ensures DestinationPort(r) == (if t.Tcp? then p % 0x1_0000 else p)
    ensures SourcePort(r) == SourcePort(t)
  {
    match t
    case Udp(h) => Udp(UdpHeaders.SetDestinationPort(h, p))
    case Tcp(h) => Tcp(TcpHeaders.SetDestinationPort(h, p))
    case Icmp(h) => Icmp(IcmpHeaders.SetDestinationPort(h, p))
  }

  /** The bytes `setPayloadLength` and `computeChecksum` may write: length and checksum fields. */
  predicate LengthOrChecksumByte(t: Transport, i: int) {
    match t
    case Udp(_) => 4 <= i < 8
    case Tcp(_) => i == 16 || i == 17
    case Icmp(_) => i == 2 || i == 3
  }

  /** `setPayloadLength`: the UDP length field, the ICMP cache; TCP has no length field. */
  function SetPayloadLength(t: Transport, n: int32): (r: Transport)
    requires IsHeader(t)
    ensures IsHeader(r) && HeaderLength(r) == HeaderLength(t)
    ensures SourcePort(r) == SourcePort(t) && DestinationPort(r) == DestinationPort(t)
    ensures t.Tcp? ==> r == t
    ensures t.Icmp? ==> r.Icmp? && r.icmp.payloadLength == n && r.icmp.raw == t.icmp.raw
    ensures t.Udp? ==> r.Udp? && GetU16(r.udp.raw, 4) == (UdpHeaders.HEADER_LENGTH + n) % 0x1_0000
    ensures |Raw(r)| == |Raw(t)|
    ensures forall i :: 0 <= i < |Raw(t)| && !LengthOrChecksumByte(t, i) ==> Raw(r)[i] == Raw(t)[i]
  {
    match t
    case Udp(h) => Udp(UdpHeaders.SetPayloadLength(h, n))
    case Tcp(h) => t
    case Icmp(h) => Icmp(IcmpHeaders.SetPayloadLength(h, n))
  }

  /** `copyTo`: a header of the same kind over a copy of the same bytes. */
  function CopyTo(t: Transport): (r: Transport)
    requires IsHeader(t)
    ensures IsHeader(r) && Consistent(r) && Raw(r) == Raw(t)
    ensures r.Udp? == t.Udp? && r.Tcp? == t.Tcp? && r.Icmp? == t.Icmp?
  {
    match t
    case Udp(h) => Udp(UdpHeaders.CopyTo(h))
    case Tcp(h) => t
    case Icmp(h) => Icmp(IcmpHeaders.CopyTo(h))
  }

  /** What the stored checksum guarantees a receiver, per kind (UDP: none computed). */
  predicate ChecksumVerifies(t: Transport, ipv4: seq<byte>, payload: seq<byte>)
    requires IsHeader(t) && |ipv4| >= 20
  {
    match t
    case Udp(h) => h.raw[6] == 0 && h.raw[7] == 0
    case Tcp(h) => Checksum.Fold(Checksum.WordSum(h.raw + payload)) == 0xffff
    case Icmp(h) => Checksum.Fold(Checksum.WordSum(h.raw + payload)) == 0xffff
  }

  /** `computeChecksum(ipv4Header, payload)` of whichever kind. */
  function ComputeChecksum(t: Transport, ipv4: seq<byte>, payload: seq<byte>): (r: Transport)
    requires IsHeader(t) && |ipv4| >= 20
    requires t.Icmp? ==> IcmpHeaders.PayloadMatches(ipv4, payload)
    ensures IsHeader(r) && HeaderLength(r) == HeaderLength(t)
    ensures r.Udp? == t.Udp? && r.Tcp? == t.Tcp? && r.Icmp? == t.Icmp?
    ensures SourcePort(r) == SourcePort(t) && DestinationPort(r) == DestinationPort(t)
    ensures ChecksumVerifies(r, ipv4, payload)
    ensures Consistent(t) ==> Consistent(r)
    ensures |Raw(r)| == |Raw(t)|
    ensures forall i :: 0 <= i < |Raw(t)| && !LengthOrChecksumByte(t, i) ==> Raw(r)[i] == Raw(t)[i]
  {
    match t
    case Udp(h) => Udp(UdpHeaders.ComputeChecksum(h, payload))
    case Tcp(h) => Tcp(TcpHeaders.ComputeChecksum(h, ipv4, payload))
    case Icmp(h) => Icmp(IcmpHeaders.ComputeChecksum(h, ipv4, payload))
  }

  /** Recomputing a checksum over the same IPv4 header and payload changes nothing. */
  lemma ComputeChecksumIdempotent(t: Transport, ipv4: seq<byte>, payload: seq<byte>)
    requires IsHeader(t) && |ipv4| >= 20
    requires t.Icmp? ==> IcmpHeaders.PayloadMatches(ipv4, payload)
    ensures ComputeChecksum(ComputeChecksum(t, ipv4, payload), ipv4, payload) == ComputeChecksum(t, ipv4, payload)
  {
    match t
    case Udp(h) => PutU16Twice(h.raw, 6, 0, 0);
    case Tcp(h) => TcpHeaders.ComputeChecksumIdempotent(h, ipv4, payload);
    case Icmp(h) => IcmpHeaders.ComputeChecksumIdempotent(h, ipv4, payload, 0);
  }

  /**
   * `swapSourceAndDestination`, the default method: reads the source port,
   * sets the source to the destination port, then the destination to the
   * saved source port, through the setters only.
   */
  function Swap(t: Transport): (r: Transport)
    requires IsHeader(t)
    ensures IsHeader(r)
  {
    PortsAreInts(t);
    var tmp := SourcePort(t);
    var s := SetSourcePort(t, DestinationPort(t));
    SetDestinationPort(s, tmp)
  }

  /** Setting both UDP ports writes their low 16 bits into bytes 0-3 and leaves the rest. */
  lemma SetUdpPorts(h: UdpHeaders.UdpHeader, p: int32, q: int32)
    requires UdpHeaders.IsHeader(h)
    ensures var b := UdpHeaders.SetDestinationPort(UdpHeaders.SetSourcePort(h, p), q);
      UdpHeaders.IsHeader(b) && b.sourcePort == p && b.destinationPort == q
      && GetU16(b.raw, 0) == p % 0x1_0000 && GetU16(b.raw, 2) == q % 0x1_0000
      && b.raw[4..] == h.raw[4..]
  {
    var a := UdpHeaders.SetSourcePort(h, p);
    var b := UdpHeaders.SetDestinationPort(a, q);
    assert b.raw[0] == a.raw[0] && b.raw[1] == a.raw[1];
    assert forall i :: 4 <= i < 8 ==> b.raw[i] == h.raw[i];
    assert b.raw[4..] == h.raw[4..];
  }

  /** The UDP swap rewrites bytes 0-3 only; with a consistent cache the bytes hold the new ports. */
  lemma SwapUdp(h: UdpHeaders.UdpHeader)
    requires UdpHeaders.IsHeader(h)
    ensures Swap(Udp(h)).Udp?
    ensures Swap(Udp(h)).udp.sourcePort == h.destinationPort && Swap(Udp(h)).udp.destinationPort == h.sourcePort
    ensures |Swap(Udp(h)).udp.raw| == |h.raw| && Swap(Udp(h)).udp.raw[4..] == h.raw[4..]
    ensures UdpHeaders.Consistent(h) ==> UdpHeaders.Consistent(Swap(Udp(h)).udp)
  {
    SwapUdpIs(h);
    SetUdpPorts(h, h.destinationPort, h.sourcePort);
    if UdpHeaders.Consistent(h) {
      assert 0 <= h.destinationPort < 0x1_0000 && 0 <= h.sourcePort < 0x1_0000;
    }
  }

  /** The UDP swap is the two UDP setters, with the cached ports. */
  lemma SwapUdpIs(h: UdpHeaders.UdpHeader)
    requires UdpHeaders.IsHeader(h)
    ensures Swap(Udp(h)) == Udp(UdpHeaders.SetDestinationPort(UdpHeaders.SetSourcePort(h, h.destinationPort), h.sourcePort))
  {
    var t := Udp(h);
    assert SourcePort(t) == h.sourcePort && DestinationPort(t) == h.destinationPort;
    assert SetSourcePort(t, h.destinationPort) == Udp(UdpHeaders.SetSourcePort(h, h.destinationPort));
  }

  /** The TCP swap rewrites bytes 0-3 only. */
  lemma SwapTcp(h: TcpHeaders.TcpHeader)
    requires TcpHeaders.IsHeader(h)
    ensures Swap(Tcp(h)).Tcp?
    ensures TcpHeaders.SourcePort(Swap(Tcp(h)).tcp) == TcpHeaders.DestinationPort(h)
    ensures TcpHeaders.DestinationPort(Swap(Tcp(h)).tcp) == TcpHeaders.SourcePort(h)
    ensures |Swap(Tcp(h)).tcp.raw| == |h.raw| && Swap(Tcp(h)).tcp.raw[4..] == h.raw[4..]
  {
    var a := TcpHeaders.SetSourcePort(h, TcpHeaders.DestinationPort(h));
    var b := TcpHeaders.SetDestinationPort(a, TcpHeaders.SourcePort(h));
    assert Swap(Tcp(h)) == Tcp(b);
    assert b.raw[4..] == h.raw[4..];
  }

  /** After a swap the ports are exchanged, and the header length and everything after the ports are unchanged. */
  lemma SwapExchangesPorts(t: Transport)
    requires IsHeader(t)
    ensures SourcePort(Swap(t)) == DestinationPort(t)
    ensures DestinationPort(Swap(t)) == SourcePort(t)
    ensures HeaderLength(Swap(t)) == HeaderLength(t)
    ensures Raw(Swap(t))[4..] == Raw(t)[4..]
    ensures t.Icmp? ==> Swap(t).Icmp? && Swap(t).icmp.payloadLength == t.icmp.payloadLength && Swap(t).icmp.raw == t.icmp.raw
    ensures Consistent(t) ==> Consistent(Swap(t))
  {
    match t
    case Udp(h) => SwapUdp(h);
    case Tcp(h) => SwapTcp(h);
    case Icmp(h) =>
  }

  /** Four writes that put back the 16-bit words already read leave the bytes as they were. */
  lemma RestoredPorts(raw: seq<byte>, r: seq<byte>)
    requires |raw| >= 4 && |r| == |raw|
    requires r[4..] == raw[4..]
    requires GetU16(r, 0) == GetU16(raw, 0) && GetU16(r, 2) == GetU16(raw, 2)
    ensures r == raw
  {
    assert r[0] == raw[0] && r[1] == raw[1] && r[2] == raw[2] && r[3] == raw[3];
    assert forall i :: 4 <= i < |r| ==> r[i] == r[4..][i - 4];
    assert forall i :: 0 <= i < |r| ==> r[i] == raw[i];
  }

  /** Swapping twice restores both ports, and the whole header when its cache agrees with its bytes. */
  lemma SwapInvolution(t: Transport)
    requires IsHeader(t)
    ensures SourcePort(Swap(Swap(t))) == SourcePort(t)
    ensures DestinationPort(Swap(Swap(t))) == DestinationPort(t)
    ensures Consistent(t) ==> Swap(Swap(t)) == t
  {
    SwapExchangesPorts(t);
    SwapExchangesPorts(Swap(t));
    var r := Swap(Swap(t));
    if Consistent(t) {
      match t
      case Udp(h) =>
        RestoredPorts(h.raw, r.udp.raw);
      case Tcp(h) =>
        RestoredPorts(h.raw, r.tcp.raw);
      case Icmp(h) =>
    }
  }

  /** With equal ports a swap changes nothing (for UDP, once the cache agrees with the bytes). */
  lemma SwapEqualPortsIsNoOp(t: Transport)
    requires IsHeader(t) && Consistent(t)
    requires SourcePort(t) == DestinationPort(t)
    ensures Swap(t) == t
  {
    SwapExchangesPorts(t);
    var r := Swap(t);
    match t
    case Udp(h) =>
      RestoredPorts(h.raw, r.udp.raw);
    case Tcp(h) =>
      RestoredPorts(h.raw, r.tcp.raw);
    case Icmp(h) =>
  }
}
