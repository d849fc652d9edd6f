/**
 * Building response packets from a header template (Packetizer.java): the
 * IPv4 and transport headers are copied once to the front of a 65536-byte
 * buffer, and each payload read into the space after them is turned into a
 * packet by fixing the lengths and computing the checksums.
 */
module Packetizers {
  import opened Bytes
  import opened Wrappers
  import Checksum
  import IPv4Headers
  import TransportHeaders
  import IPv4Packets

  /** The exceptions that leave `packetize`. */
  datatype Error = IOException | IllegalArgument

  /** The outcome of `channel.read`: some bytes, the end of stream, or an I/O error. */
  datatype ReadResult = Bytes(data: seq<byte>) | Eof | IOError

  /** The response headers at the front of the buffer. */
  datatype Packetizer = Packetizer(ipv4: seq<byte>, transport: TransportHeaders.Transport)

  /** Headers a packet can be built from: a supported IPv4 header and a transport header of its protocol. */
  predicate IsTemplate(z: Packetizer) {
    IPv4Headers.IsHeader(z.ipv4) && IPv4Headers.IsSupported(z.ipv4)
    && TransportHeaders.IsHeader(z.transport)
    && (z.transport.Udp? <==> IPv4Headers.GetProtocol(z.ipv4) == IPv4Headers.UDP)
    && (z.transport.Tcp? <==> IPv4Headers.GetProtocol(z.ipv4) == IPv4Headers.TCP)
    && (z.transport.Icmp? <==> IPv4Headers.GetProtocol(z.ipv4) == IPv4Headers.ICMP)
  }

  /** Both header lengths: where the payload region begins. */
  function HeadersLength(z: Packetizer): (n: nat)
    requires IsTemplate(z)
    ensures n == IPv4Headers.HeaderLength(z.ipv4) + TransportHeaders.HeaderLength(z.transport)
  {
    IPv4Headers.HEADER_LENGTH + TransportHeaders.HeaderLength(z.transport)
  }

  /**
   * The constructor: copies the IPv4 header and the transport header (a
   * re-read copy of its bytes) to the front of the buffer.
   */
  function Create(p: IPv4Packets.Packet): (z: Packetizer)
    requires IPv4Packets.WellFormed(p)
    ensures IsTemplate(z) && z.ipv4 == p.ipv4
    ensures TransportHeaders.Raw(z.transport) == TransportHeaders.Raw(p.transport)
    ensures TransportHeaders.Consistent(z.transport)
    ensures HeadersLength(z) == IPv4Packets.PayloadOffset(p)
  {
    Packetizer(p.ipv4, TransportHeaders.CopyTo(p.transport))
  }

  /**
   * The payload space: the 65536-byte buffer minus the headers
   * (`payloadBuffer.capacity()`), as written.
   */
  function PayloadCapacityAsWritten(z: Packetizer): (n: int)
    requires IsTemplate(z)
    ensures n == IPv4Packets.MAX_PACKET_LENGTH - HeadersLength(z)
  {
    IPv4Packets.MAX_PACKET_LENGTH - HeadersLength(z)
  }

  /** The largest payload whose total length still fits the 16-bit field. */
  function PayloadCapacity(z: Packetizer): (n: int)
    requires IsTemplate(z)
    ensures n + HeadersLength(z) == 0xffff
    ensures n == PayloadCapacityAsWritten(z) - 1
  {
    0xffff - HeadersLength(z)
  }

  /** The headers with both length fields set for `payload`, followed by the payload. */
  function Staged(z: Packetizer, payload: seq<byte>): IPv4Packets.Packet
    requires IsTemplate(z) && |payload| <= PayloadCapacityAsWritten(z)
  {
    var total := HeadersLength(z) + |payload|;
    IPv4Packets.Valid(IPv4Headers.SetTotalLength(z.ipv4, total),
                      TransportHeaders.SetPayloadLength(z.transport, |payload|), payload)
  }

  /** Within the 16-bit limit, the staged bytes form a well-formed packet with the template's identity. */
  lemma StagedWellFormed(z: Packetizer, payload: seq<byte>)
    requires IsTemplate(z) && |payload| <= PayloadCapacity(z)
    ensures IPv4Packets.WellFormed(Staged(z, payload))
    ensures IPv4Headers.SameIdentity(Staged(z, payload).ipv4, z.ipv4)
    ensures KeepsTemplateBytes(z, Staged(z, payload).transport)
    ensures z.transport.Udp? ==> GetU16(Staged(z, payload).transport.udp.raw, 4) == 8 + |payload|
  {
    var q := Staged(z, payload);
    assert q.ipv4[0] == z.ipv4[0] && q.ipv4[9] == z.ipv4[9];
    assert q.ipv4[12..20] == z.ipv4[12..20];
    assert IPv4Headers.Source(q.ipv4) == IPv4Headers.Source(z.ipv4);
    assert IPv4Headers.Destination(q.ipv4) == IPv4Headers.Destination(z.ipv4);
  }

  /**
   * `inflate`: sets the IPv4 total length to both headers plus the payload
   * and the transport payload length to the payload size, re-reads the
   * buffer as a packet, and computes its checksums. The re-read fails (as
   * `getPayload` throws) when the total length does not fit 16 bits.
   */
  function Inflate(z: Packetizer, payload: seq<byte>): (r: Result<IPv4Packets.Packet, Error>)
    requires IsTemplate(z) && |payload| <= PayloadCapacityAsWritten(z)
  {
    var p := IPv4Packets.Parse(IPv4Packets.Raw(Staged(z, payload)));
    if p.Valid? then Success(IPv4Packets.ComputeChecksums(p)) else Failure(IllegalArgument)
  }

  /** A transport header of the template's kind whose bytes, except length and checksum fields, are the template's. */
  predicate KeepsTemplateBytes(z: Packetizer, t: TransportHeaders.Transport)
    requires IsTemplate(z)
  {
    t.Udp? == z.transport.Udp? && t.Tcp? == z.transport.Tcp? && t.Icmp? == z.transport.Icmp?
    && |TransportHeaders.Raw(t)| == |TransportHeaders.Raw(z.transport)|
    && forall i :: 0 <= i < |TransportHeaders.Raw(t)| && !TransportHeaders.LengthOrChecksumByte(z.transport, i) ==>
         TransportHeaders.Raw(t)[i] == TransportHeaders.Raw(z.transport)[i]
  }

  /**
   * A packet built from at most `PayloadCapacity` bytes: well formed, the
   * payload as given, the total length covering headers and payload, the
   * transport length set, the port caches agreeing with the bytes, the
   * checksums computed, and the template's
   * addresses, protocol and ports.
   */
  predicate Built(z: Packetizer, payload: seq<byte>, p: IPv4Packets.Packet)
    requires IsTemplate(z)
  {
    IPv4Packets.WellFormed(p) && p.payload == payload
    && TransportHeaders.Consistent(p.transport)
    && IPv4Headers.TotalLength(p.ipv4) == HeadersLength(z) + |payload|
    && IPv4Headers.SameIdentity(p.ipv4, z.ipv4)
    && KeepsTemplateBytes(z, p.transport)
    && (p.transport.Udp? ==> GetU16(p.transport.udp.raw, 4) == 8 + |payload|)
    && (p.transport.Icmp? ==> p.transport.icmp.payloadLength == |payload|)
    && Checksum.Fold(Checksum.WordSum(p.ipv4)) == 0xffff
    && TransportHeaders.ChecksumVerifies(p.transport, p.ipv4, payload)
  }

  /** Every payload within the 16-bit limit yields a built packet. */
  lemma InflateBuilds(z: Packetizer, payload: seq<byte>)
    requires IsTemplate(z) && |payload| <= PayloadCapacity(z)
    ensures Inflate(z, payload).Success?
    ensures Built(z, payload, Inflate(z, payload).value)
  {
    var q := Staged(z, payload);
    StagedWellFormed(z, payload);
    IPv4Packets.ParseParts(q);
    var p := IPv4Packets.Parse(IPv4Packets.Raw(q));
    assert p.Valid? && IPv4Packets.WellFormed(p);
    assert Inflate(z, payload) == Success(IPv4Packets.ComputeChecksums(p));
    ChecksumsKeepBuilt(z, payload, p);
  }

  /** `InflateBuilds` for any payload the as-written buffer accepts, conditionally. */
  lemma InflateBuildsWithin(z: Packetizer, payload: seq<byte>)
    requires IsTemplate(z) && |payload| <= PayloadCapacityAsWritten(z)
    ensures |payload| <= PayloadCapacity(z) ==> Inflate(z, payload).Success? && Built(z, payload, Inflate(z, payload).value)
  {
    if |payload| <= PayloadCapacity(z) {
      InflateBuilds(z, payload);
    }
  }

  /** Computing checksums keeps every property of a built packet except the checksums, which it establishes. */
  lemma ChecksumsKeepBuilt(z: Packetizer, payload: seq<byte>, p: IPv4Packets.Packet)
    requires IsTemplate(z) && IPv4Packets.WellFormed(p) && p.payload == payload
    requires TransportHeaders.Consistent(p.transport)
    requires IPv4Headers.TotalLength(p.ipv4) == HeadersLength(z) + |payload|
    requires IPv4Headers.SameIdentity(p.ipv4, z.ipv4)
    requires KeepsTemplateBytes(z, p.transport)
    requires p.transport.Udp? ==> GetU16(p.transport.udp.raw, 4) == 8 + |payload|
    requires p.transport.Icmp? ==> p.transport.icmp.payloadLength == |payload|
    ensures Built(z, payload, IPv4Packets.ComputeChecksums(p))
  {
    var c := IPv4Packets.ComputeChecksums(p);
    assert TransportHeaders.LengthOrChecksumByte(p.transport, 0) == TransportHeaders.LengthOrChecksumByte(z.transport, 0);
  }

  /** As written, a payload filling the whole buffer makes the total length 65536, stored as 0, and the re-read fails. */
  lemma InflateAtFullCapacityFails(z: Packetizer, payload: seq<byte>)
    requires IsTemplate(z) && |payload| == PayloadCapacityAsWritten(z)
    ensures IPv4Headers.TotalLength(Staged(z, payload).ipv4) == 0
    ensures Inflate(z, payload).Failure?
  {
    var q := Staged(z, payload);
    var raw := IPv4Packets.Raw(q);
    assert raw[..20] == q.ipv4;
  }

  /** `packetizeEmptyPayload`: a packet of the two headers only. */
  function PacketizeEmpty(z: Packetizer): (p: IPv4Packets.Packet)
    requires IsTemplate(z)
    ensures Built(z, [], p)
    ensures IPv4Packets.RawLength(p) == HeadersLength(z) && IPv4Packets.PayloadLength(p) == 0
  {
    InflateBuilds(z, []);
    Inflate(z, []).value
  }

  /**
   * `packetize(channel, maxChunkSize)`: reads at most `maxChunkSize` bytes of
   * what the channel offers into the payload space; the end of stream gives
   * no packet (`null`), an I/O error leaves as an exception.
   */
  function Packetize(z: Packetizer, read: ReadResult, maxChunk: int): (r: Result<Option<IPv4Packets.Packet>, Error>)
    requires IsTemplate(z) && 0 <= maxChunk <= PayloadCapacityAsWritten(z)
    ensures read.Eof? <==> r == Success(None)
    ensures read.IOError? <==> r == Failure(IOException)
    ensures read.Bytes? && maxChunk <= PayloadCapacity(z) ==>
              r.Success? && r.value.Some?
              && Built(z, read.data[..Min(|read.data|, maxChunk)], r.value.value)
              && IPv4Packets.PayloadLength(r.value.value) <= maxChunk
  {
    match read
    case IOError => Failure(IOException)
    case Eof => Success(None)
    case Bytes(data) =>
      var chunk := data[..Min(|data|, maxChunk)];
      InflateBuildsWithin(z, chunk);
      match Inflate(z, chunk)
      case Success(p) => Success(Some(p))
      case Failure(e) => Failure(e)
  }

  function Min(a: int, b: int): int {
    if a < b then a else b
  }

  /** `packetize(channel)` as written: the chunk limit is the whole payload space. */
  function PacketizeAllAsWritten(z: Packetizer, read: ReadResult): Result<Option<IPv4Packets.Packet>, Error>
    requires IsTemplate(z)
  {
    Packetize(z, read, PayloadCapacityAsWritten(z))
  }

  /** A read that fills the payload space makes the as-written `packetize(channel)` fail. */
  lemma PacketizeAllAsWrittenFailsOnFullRead(z: Packetizer)
    requires IsTemplate(z)
    ensures PacketizeAllAsWritten(z, Bytes(seq(PayloadCapacityAsWritten(z), _ => 0))).Failure?
  {
    var data: seq<byte> := seq(PayloadCapacityAsWritten(z), _ => 0);
    assert data[..Min(|data|, PayloadCapacityAsWritten(z))] == data;
    InflateAtFullCapacityFails(z, data);
  }

  /** `packetize(channel)` with the chunk limit at the largest payload a 16-bit total length allows. */
  function PacketizeAll(z: Packetizer, read: ReadResult): (r: Result<Option<IPv4Packets.Packet>, Error>)
    requires IsTemplate(z)
    ensures read.Bytes? ==> r.Success? && r.value.Some?
                            && Built(z, read.data[..Min(|read.data|, PayloadCapacity(z))], r.value.value)
    ensures read.Eof? <==> r == Success(None)
    ensures read.IOError? <==> r == Failure(IOException)
  {
    Packetize(z, read, PayloadCapacity(z))
  }
}
