/**
 * The UDP flow (UDPConnection.java): datagrams from the client queue up for
 * a connected datagram socket, and every datagram read from the socket is
 * packetized behind the swapped request headers and pushed to the client.
 *
 * DatagramBuffer.java is not part of this model. Its queue is modelled as a
 * sequence of datagrams: whether `readFrom` accepts one more is a parameter,
 * and a successful `writeTo` sends the oldest one.
 */
module UdpConnections {
  import opened Bytes
  import opened Wrappers
  import IPv4Packets
  import Packetizers
  import ConnectionIds
  import Connections

  /** `IDLE_TIMEOUT`: two minutes, in milliseconds. */
  const IDLE_TIMEOUT := 2 * 60 * 1000

  /**
   * The connection's fields: the response template, the datagrams waiting
   * for the socket, the selection key's interests, the time of the last
   * event, and whether the channel is open and its key valid.
   */
  datatype UdpConnection = UdpConnection(
    id: ConnectionIds.ConnectionId,
    template: Packetizers.Packetizer,
    toNetwork: seq<seq<byte>>,
    interests: Connections.Interests,
    idleSince: int,
    open: bool)

  /** The template is a UDP template. */
  predicate Valid(c: UdpConnection) {
    Packetizers.IsTemplate(c.template) && c.template.transport.Udp?
  }

  type Step = (UdpConnection, seq<Connections.Output>)

  /** The constructor: the swapped request headers as template, `OP_READ` interest, the clock read once. */
  function Create(id: ConnectionIds.ConnectionId, p: IPv4Packets.Packet, now: int): (c: UdpConnection)
    requires IPv4Packets.WellFormed(p) && p.transport.Udp?
    ensures Valid(c) && c.id == id && c.open && c.idleSince == now && |c.toNetwork| == 0
    ensures c.interests == Connections.Interests(true, false, false)
    ensures Connections.Answers(p.ipv4, p.transport, c.template)
  {
    UdpConnection(id, Connections.ResponseTemplate(p.ipv4, p.transport), [],
                  Connections.Interests(true, false, false), now, true)
  }

  predicate MayWrite(c: UdpConnection) {
    |c.toNetwork| > 0
  }

  /** `updateInterests`: nothing once the key is cancelled, otherwise read, plus write when a datagram waits. */
  function UpdateInterests(c: UdpConnection): (r: UdpConnection)
    ensures r.(interests := c.interests) == c
    ensures !c.open ==> r == c
  {
    if !c.open then c else c.(interests := Connections.Interests(true, MayWrite(c), false))
  }

  /** `close()`: the channel is closed and the connection leaves the router. */
  function CloseNow(c: UdpConnection): (r: Step)
    ensures !r.0.open && r.1 == [Connections.Close]
  {
    (c.(open := false), [Connections.Close])
  }

  /**
   * `sendToNetwork`: queues the payload of a client datagram. When the
   * buffer refuses it, the datagram is dropped and the interests are left
   * as they were.
   */
  function SendToNetwork(c: UdpConnection, payload: seq<byte>, accepted: bool): (r: UdpConnection)
    ensures r.id == c.id && r.template == c.template && r.open == c.open && r.idleSince == c.idleSince
  {
    if !accepted then c else UpdateInterests(c.(toNetwork := c.toNetwork + [payload]))
  }

  /**
   * `processReceive`: a datagram read from the socket becomes one packet for
   * the client, built from the template over at most the packet's payload
   * space; the end of stream or an I/O error closes. The connection itself
   * is unchanged whatever the client then does with the packet: a refused
   * push only drops it.
   */
  function ProcessReceive(c: UdpConnection, read: Packetizers.ReadResult): (r: Step)
    requires Valid(c)
    ensures read.Bytes? ==>
      r.0 == c && |r.1| == 1 && r.1[0].ToClient?
      && Packetizers.Built(c.template, read.data[..Packetizers.Min(|read.data|, Packetizers.PayloadCapacity(c.template))], r.1[0].packet)
    ensures !read.Bytes? ==> r == CloseNow(c)
  {
    match Packetizers.PacketizeAll(c.template, read)
    case Success(Some(p)) => (c, [Connections.ToClient(p)])
    case _ => CloseNow(c)
  }

  /** `processSend`: a failed write (false or an I/O error) closes; a successful one sends the oldest datagram. */
  function ProcessSend(c: UdpConnection, ok: bool): (r: Step) {
    if !ok then CloseNow(c)
    else if |c.toNetwork| == 0 then (c, [])
    else (c.(toNetwork := c.toNetwork[1..]), [])
  }

  /** `touch()`. */
  function Touch(c: UdpConnection, now: int): (r: UdpConnection)
    ensures r.(idleSince := c.idleSince) == c && r.idleSince == now
  {
    c.(idleSince := now)
  }

  /** `disconnect()`: cancels the key and closes the channel. */
  function Disconnect(c: UdpConnection): (r: UdpConnection)
    ensures !r.open && r.(open := c.open) == c
  {
    c.(open := false)
  }

  /** `isExpired`: two minutes since the last event. */
  predicate IsExpired(c: UdpConnection, now: int) {
    now >= c.idleSince + IDLE_TIMEOUT
  }

  /**
   * The selection handler: record the time, read if readable, write if
   * writable and still open, then update the interests.
   */
  function HandleEvent(c: UdpConnection, now: int, readable: bool, writable: bool,
                       read: Packetizers.ReadResult, written: bool): (r: Step)
    requires Valid(c)
  {
    var c0 := Touch(c, now);
    var a := if c0.open && readable then ProcessReceive(c0, read) else (c0, []);
    var b := if a.0.open && writable then ProcessSend(a.0, written) else (a.0, []);
    (UpdateInterests(b.0), a.1 + b.1)
  }

  /** The interests of an open connection: always read, and write exactly when a datagram waits. */
  lemma InterestsRules(c: UdpConnection)
    requires c.open
    ensures UpdateInterests(c).interests.read && !UpdateInterests(c).interests.connect
    ensures UpdateInterests(c).interests.write <==> |c.toNetwork| > 0
  {
  }

  /** A refused datagram changes nothing, interests included; an accepted one is queued last and asks for write. */
  lemma SendToNetworkQueues(c: UdpConnection, payload: seq<byte>, accepted: bool)
    ensures !accepted ==> SendToNetwork(c, payload, accepted) == c
    ensures accepted ==> SendToNetwork(c, payload, accepted).toNetwork == c.toNetwork + [payload]
    ensures accepted && c.open ==> SendToNetwork(c, payload, accepted).interests == Connections.Interests(true, true, false)
  {
  }

  /** A failed write closes; a successful one keeps the connection open and drops the oldest datagram. */
  lemma SendOutcome(c: UdpConnection, ok: bool)
    ensures !ok ==> ProcessSend(c, ok) == CloseNow(c)
    ensures ok ==> ProcessSend(c, ok).0.open == c.open && ProcessSend(c, ok).1 == []
    ensures ok && |c.toNetwork| > 0 ==> ProcessSend(c, ok).0.toNetwork == c.toNetwork[1..]
  {
  }

  /** Unlike TCP, activity gives no exemption: expiry depends on the idle time alone. */
  lemma Expiry(c: UdpConnection, now: int)
    ensures IsExpired(c, now) <==> now - c.idleSince >= IDLE_TIMEOUT
    ensures !IsExpired(Touch(c, now), now)
  {
  }

  /** The read half of an event on an open connection: one packet for the client, or a close. */
  lemma ReadStep(c: UdpConnection, read: Packetizers.ReadResult)
    requires Valid(c) && c.open
    ensures var a := ProcessReceive(c, read);
      Valid(a.0) && a.0.id == c.id && a.0.idleSince == c.idleSince
      && (a.1 == [Connections.Close] || (|a.1| == 1 && a.1[0].ToClient?))
      && (!a.0.open <==> a.1 == [Connections.Close])
  {
  }

  /** The write half: nothing for the client, or a close. */
  lemma WriteStep(c: UdpConnection, ok: bool)
    requires Valid(c) && c.open
    ensures var b := ProcessSend(c, ok);
      Valid(b.0) && b.0.id == c.id && b.0.idleSince == c.idleSince
      && (b.1 == [] || b.1 == [Connections.Close])
      && (!b.0.open <==> b.1 == [Connections.Close])
  {
  }

  /** Two calls of at most one output each, the second empty after a close, close at most once and last. */
  lemma ConcatClosesLast(a: seq<Connections.Output>, b: seq<Connections.Output>)
    requires |a| <= 1 && |b| <= 1 && (Connections.Close in a ==> b == [])
    ensures Connections.ClosesLast(a + b)
    ensures Connections.Close in a + b <==> Connections.Close in a || Connections.Close in b
  {
  }

  /**
   * One selection event closes at most once, as its last call, exactly
   * when it closes the channel, and leaves the connection unexpired at `now`.
   */
  lemma HandleEventWellFormed(c: UdpConnection, now: int, readable: bool, writable: bool,
                              read: Packetizers.ReadResult, written: bool)
    requires Valid(c) && c.open
    ensures var (r, outs) := HandleEvent(c, now, readable, writable, read, written);
      Connections.ClosesLast(outs) && (!r.open <==> Connections.Close in outs)
      && Valid(r) && r.id == c.id && !IsExpired(r, now)
  {
    var c0 := Touch(c, now);
    var a := if c0.open && readable then ProcessReceive(c0, read) else (c0, []);
    if readable {
      ReadStep(c0, read);
    }
    var b := if a.0.open && writable then ProcessSend(a.0, written) else (a.0, []);
    if a.0.open && writable {
      WriteStep(a.0, written);
    }
    assert HandleEvent(c, now, readable, writable, read, written) == (UpdateInterests(b.0), a.1 + b.1);
    ConcatClosesLast(a.1, b.1);
  }
}
