/**
 * Framing IPv4 datagrams out of the byte stream the client sends
 * (IPv4PacketBuffer.java): bytes are appended to a 65536-byte buffer, and a
 * datagram is handed out once the buffer holds as many bytes as its
 * total-length field declares.
 */
module IPv4PacketBuffers {
  import opened Bytes
  import opened Wrappers
  import IPv4Headers
  import IPv4Packets
  import Packetizers

  /** The buffer allocation: `MAX_PACKET_LENGTH`. */
  const CAPACITY := IPv4Packets.MAX_PACKET_LENGTH

  /** The bytes received and not yet handed out. */
  datatype PacketBuffer = PacketBuffer(data: seq<byte>)

  predicate Valid(b: PacketBuffer) {
    |b.data| <= CAPACITY
  }

  /**
   * `readFrom(channel)`: appends what the channel delivers, at most the free
   * space, and returns the count, or -1 at the end of the stream.
   */
  function ReadFrom(b: PacketBuffer, read: Packetizers.ReadResult): (r: Result<(PacketBuffer, int), Packetizers.Error>)
    requires Valid(b)
    ensures read.IOError? <==> r.Failure?
    ensures r.Success? ==> Valid(r.value.0)
    ensures read.Eof? ==> r == Success((b, -1))
    ensures read.Bytes? ==> r.Success? && 0 <= r.value.1 <= CAPACITY - |b.data| && r.value.1 <= |read.data|
                            && r.value.0.data == b.data + read.data[..r.value.1]
                            && (r.value.1 < |read.data| ==> |r.value.0.data| == CAPACITY)
  {
    match read
    case IOError => Failure(Packetizers.IOException)
    case Eof => Success((b, -1))
    case Bytes(d) =>
      var n := Packetizers.Min(|d|, CAPACITY - |b.data|);
      Success((PacketBuffer(b.data + d[..n]), n))
  }

  /**
   * `getAvailablePacketLength`: the declared total length once the first four
   * bytes are in and the whole datagram is buffered, 0 otherwise. The Java
   * `assert` on the version is not enabled at run time and is not modelled.
   */
  function AvailablePacketLength(b: PacketBuffer): (n: nat)
    ensures IPv4Headers.ReadLength(b.data) == -1 ==> n == 0
    ensures IPv4Headers.ReadLength(b.data) > |b.data| ==> n == 0
    ensures n > 0 ==> n <= |b.data| && n == IPv4Headers.ReadLength(b.data)
    ensures 0 < IPv4Headers.ReadLength(b.data) <= |b.data| ==> n == IPv4Headers.ReadLength(b.data)
  {
    var length := IPv4Headers.ReadLength(b.data);
    if length == -1 then 0
    else if length > |b.data| then 0
    else length
  }

  /**
   * `asIPv4Packet`: the first `length` buffered bytes as a packet, or `null`
   * when no whole datagram is buffered.
   */
  function AsIPv4Packet(b: PacketBuffer): (r: Option<IPv4Packets.Packet>)
    ensures r.None? <==> AvailablePacketLength(b) == 0
    ensures r.Some? ==> r.value == IPv4Packets.Parse(b.data[..AvailablePacketLength(b)])
  {
    var length := AvailablePacketLength(b);
    if length == 0 then None
    else Some(IPv4Packets.Parse(b.data[..length]))
  }

  /** `next()`: discards the datagram just handed out and keeps the rest, in order. */
  function Next(b: PacketBuffer): (r: PacketBuffer)
    requires AvailablePacketLength(b) > 0
    ensures b.data == b.data[..AvailablePacketLength(b)] + r.data
    ensures |r.data| < |b.data|
  {
    PacketBuffer(b.data[AvailablePacketLength(b)..])
  }

  /**
   * One turn of the client's loop: `asIPv4Packet`, then `next()` when a
   * datagram came out. With none, the buffered bytes are left as they were
   * (the Java `flip` and `compact` cancel out).
   */
  function Poll(b: PacketBuffer): (r: (Option<seq<byte>>, PacketBuffer))
    ensures r.0.None? ==> r.1 == b && AsIPv4Packet(b).None?
    ensures r.0.Some? ==> AsIPv4Packet(b) == Some(IPv4Packets.Parse(r.0.value))
    ensures r.0.Some? ==> b.data == r.0.value + r.1.data && |r.0.value| > 0
  {
    var length := AvailablePacketLength(b);
    if length == 0 then (None, b)
    else (Some(b.data[..length]), Next(b))
  }

  /** Every complete datagram at the front of the buffer, in order, and the bytes left behind. */
  function Drain(b: PacketBuffer): (r: (seq<seq<byte>>, PacketBuffer))
    ensures AvailablePacketLength(r.1) == 0
    ensures b.data == Concat(r.0) + r.1.data
    decreases |b.data|
  {
    match Poll(b)
    case (None, _) => ([], b)
    case (Some(raw), rest) =>
      var (more, left) := Drain(rest);
      assert ([raw] + more)[1..] == more;
      ([raw] + more, left)
  }

  /** A self-delimiting datagram: its total-length field counts exactly its bytes. */
  predicate IsFrame(f: seq<byte>) {
    |f| >= 4 && IPv4Headers.TotalLength(f) == |f|
  }

  function Concat(fs: seq<seq<byte>>): seq<byte> {
    if |fs| == 0 then [] else fs[0] + Concat(fs[1..])
  }

  /**
   * Framing: datagrams sent back to back, followed by bytes that do not yet
   * hold a whole datagram, come out as exactly those datagrams, in order,
   * and the incomplete bytes stay buffered.
   */
  lemma {:induction false} DrainFrames(fs: seq<seq<byte>>, tail: seq<byte>)
    requires forall i :: 0 <= i < |fs| ==> IsFrame(fs[i])
    requires AvailablePacketLength(PacketBuffer(tail)) == 0
    ensures Drain(PacketBuffer(Concat(fs) + tail)) == (fs, PacketBuffer(tail))
    decreases |fs|
  {
    var b := PacketBuffer(Concat(fs) + tail);
    if |fs| == 0 {
      assert b.data == tail;
    } else {
      var f := fs[0];
      assert b.data == f + (Concat(fs[1..]) + tail);
      assert b.data[..4] == f[..4];
      assert IPv4Headers.ReadLength(b.data) == |f|;
      assert b.data[..|f|] == f;
      DrainFrames(fs[1..], tail);
      assert [f] + fs[1..] == fs;
    }
  }

  /**
   * A buffer whose first datagram declares a total length of 0 never yields
   * a datagram, whatever arrives after it: the stream stalls.
   */
  lemma ZeroLengthStalls(b: PacketBuffer, more: seq<byte>)
    requires |b.data| >= 4 && IPv4Headers.TotalLength(b.data) == 0
    ensures AsIPv4Packet(PacketBuffer(b.data + more)).None?
  {
    assert (b.data + more)[..4] == b.data[..4];
  }
}
