/**
 * The client (Client.java): one device's relay session. The bytes the device
 * sends are cut into IPv4 datagrams and handed to the router. Packets for
 * the device go into a bounded stream buffer. A packet source whose packet
 * does not fit waits in a queue until the buffer drains.
 *
 * StreamBuffer.java is not part of this model. Its contents are the bytes
 * not yet written to the device, and `remaining()` is the capacity minus
 * those bytes. A packet source (`PacketSource`, a TCP connection) is named
 * by its flow's identifier.
 */
module Clients {
  import opened Bytes
  import opened Wrappers
  import IPv4Packets
  import IPv4PacketBuffers
  import Packetizers
  import ConnectionIds
  import Connections
  import Routers
  import TcpConnections

  /** `networkToClient`'s capacity: sixteen maximal IPv4 packets. */
  const BUFFER_CAPACITY := 16 * IPv4Packets.MAX_PACKET_LENGTH

  /** A packet source, named by the identifier of its connection. */
  type Source = ConnectionIds.ConnectionId

  /**
   * The client's state: the datagram buffer from the device, the bytes
   * waiting for the device, the sources waiting for room, the router, and
   * whether the device channel is open.
   */
  datatype Client = Client(
    toNetwork: IPv4PacketBuffers.PacketBuffer,
    toClient: seq<byte>,
    pending: seq<Source>,
    router: Routers.Router,
    open: bool)

  /** Both buffers within their capacity, and a valid routing table. */
  predicate Valid(c: Client) {
    IPv4PacketBuffers.Valid(c.toNetwork) && |c.toClient| <= BUFFER_CAPACITY && Routers.Valid(c.router)
  }

  /** No source is queued twice. */
  predicate NoDuplicates(s: seq<Source>) {
    forall i, j :: 0 <= i < j < |s| ==> s[i] != s[j]
  }

  /** The constructor: empty buffers, no pending source, no connection, an open channel. */
  function Create(): (c: Client)
    ensures Valid(c) && c.open && NoDuplicates(c.pending)
    ensures |c.toNetwork.data| == 0 && |c.toClient| == 0 && |c.pending| == 0 && |c.router.connections| == 0
  {
    Client(IPv4PacketBuffers.PacketBuffer([]), [], [], Routers.Router([]), true)
  }

  /** `close()`: closes the device channel. */
  function Close(c: Client): (r: Client)
    ensures !r.open && r.(open := c.open) == c
  {
    c.(open := false)
  }

  /** `sendToClient`: appends the packet's bytes when they fit in the remaining space, and reports whether they did. */
  function SendToClient(c: Client, p: IPv4Packets.Packet): (r: (Client, bool))
  {
    if BUFFER_CAPACITY - |c.toClient| < |IPv4Packets.Raw(p)| then (c, false)
    else (c.(toClient := c.toClient + IPv4Packets.Raw(p)), true)
  }

  /** The bytes of a sequence of packets, one after the other. */
  function RawAll(ps: seq<IPv4Packets.Packet>): seq<byte> {
    if |ps| == 0 then [] else RawAll(ps[..|ps| - 1]) + IPv4Packets.Raw(ps[|ps| - 1])
  }

  /**
   * `consume(source)`: the packet `p` the source's `get()` returned is sent
   * when it fits, and the source is advanced (`next()`) in the router's
   * table; otherwise the source is queued last. Returns whether the source
   * was advanced.
   */
  function Consume(c: Client, s: Source, p: IPv4Packets.Packet): (r: (Client, bool))
    requires Valid(c)
  {
    var sent := SendToClient(c, p);
    if sent.1 then (sent.0.(router := Routers.Advance(c.router, s)), true)
    else (c.(pending := c.pending + [s]), false)
  }

  /**
   * A packet for the device is written whole or not at all: it goes in
   * exactly when it fits, the buffer stays within its capacity, and nothing
   * else changes.
   */
  lemma SendToClientAllOrNothing(c: Client, p: IPv4Packets.Packet)
    ensures SendToClient(c, p).1 <==> |c.toClient| + |IPv4Packets.Raw(p)| <= BUFFER_CAPACITY
    ensures SendToClient(c, p).1 ==> SendToClient(c, p).0 == c.(toClient := c.toClient + IPv4Packets.Raw(p))
    ensures !SendToClient(c, p).1 ==> SendToClient(c, p).0 == c
    ensures Valid(c) ==> Valid(SendToClient(c, p).0)
  {
  }

  /**
   * A consumed source is either advanced, its packet sent, its flow's entry
   * advanced and the queue untouched, or queued last with nothing sent and
   * the router untouched. A source not yet queued is queued at most once.
   */
  lemma ConsumeQueuesOnce(c: Client, s: Source, p: IPv4Packets.Packet)
    requires Valid(c)
    ensures var (r, advanced) := Consume(c, s, p);
      (advanced <==> |c.toClient| + |IPv4Packets.Raw(p)| <= BUFFER_CAPACITY)
      && (advanced ==> r.pending == c.pending && r.toClient == c.toClient + IPv4Packets.Raw(p)
                       && r.router == Routers.Advance(c.router, s))
      && (!advanced ==> r.pending == c.pending + [s] && r.toClient == c.toClient && r.router == c.router)
      && r.toNetwork == c.toNetwork && r.open == c.open
    ensures Valid(Consume(c, s, p).0)
    ensures NoDuplicates(c.pending) && s !in c.pending ==> NoDuplicates(Consume(c, s, p).0.pending)
  {
    var r := Consume(c, s, p).0;
    if NoDuplicates(c.pending) && s !in c.pending && !Consume(c, s, p).1 {
      forall i, j | 0 <= i < j < |r.pending|
        ensures r.pending[i] != r.pending[j]
      {
        assert r.pending[i] == c.pending[i];
        if j == |c.pending| {
          assert c.pending[i] in c.pending;
        }
      }
    }
  }

  /**
   * `consume(this)` from a TCP connection of the table that holds a packet:
   * `get()` stamps the current acknowledgement number, and when the packet
   * fits it is written for the device and `next()` releases it, moving the
   * connection's sequence number past its payload. When it does not fit,
   * the connection keeps its packet and waits in the queue.
   */
  lemma ConsumeHeldPacket(c: Client, k: nat)
    requires Valid(c) && k < |c.router.connections|
    requires c.router.connections[k].Tcp? && c.router.connections[k].tcp.packetForClient.Some?
    ensures c.router.connections[k] in c.router.connections
    ensures var t := c.router.connections[k].tcp; var p := TcpConnections.Get(t);
      var (r, advanced) := Consume(c, t.id, p);
      (advanced <==> |c.toClient| + |IPv4Packets.Raw(p)| <= BUFFER_CAPACITY)
      && (advanced ==>
            r.toClient == c.toClient + IPv4Packets.Raw(p)
            && |r.router.connections| == |c.router.connections|
            && r.router.connections[k] == Routers.Tcp(TcpConnections.Next(t)))
      && (!advanced ==> r.router == c.router && r.pending == c.pending + [t.id])
    ensures var t := c.router.connections[k].tcp; var r := Consume(c, t.id, TcpConnections.Get(t));
      r.1 ==> r.0.router.connections[k].tcp.packetForClient.None?
              && r.0.router.connections[k].tcp.seqNum == Wrap32(t.seqNum + |t.packetForClient.value.payload|)
              && r.0.router.connections[k].tcp.ackNum == t.ackNum
  {
    var cs := c.router.connections;
    assert cs[k] in cs;
    var t := cs[k].tcp;
    var p := TcpConnections.Get(t);
    ConsumeSource(c, k, p);
    TcpConnections.NextAdvances(t);
  }

  /** `consume` of the `k`-th connection's source, for any packet carrying its pending payload. */
  lemma ConsumeSource(c: Client, k: nat, p: IPv4Packets.Packet)
    requires Valid(c) && k < |c.router.connections|
    requires c.router.connections[k].Tcp? && c.router.connections[k].tcp.packetForClient.Some?
    requires TcpConnections.Valid(c.router.connections[k].tcp)
    requires p.Valid? && p.payload == c.router.connections[k].tcp.packetForClient.value.payload
    ensures var t := c.router.connections[k].tcp;
      var (r, advanced) := Consume(c, t.id, p);
      (advanced <==> |c.toClient| + |IPv4Packets.Raw(p)| <= BUFFER_CAPACITY)
      && (advanced ==>
            r.toClient == c.toClient + IPv4Packets.Raw(p)
            && |r.router.connections| == |c.router.connections|
            && r.router.connections[k] == Routers.Tcp(TcpConnections.Next(t)))
      && (!advanced ==> r.router == c.router && r.pending == c.pending + [t.id])
  {
    var t := c.router.connections[k].tcp;
    if |c.toClient| + |IPv4Packets.Raw(p)| <= BUFFER_CAPACITY {
      ConsumeFits(c, t.id, p);
      Routers.AdvanceHeld(c.router, k);
    } else {
      ConsumeQueued(c, t.id, p);
    }
  }

  /** A packet that does not fit leaves the router alone and queues its source. */
  lemma ConsumeQueued(c: Client, s: Source, p: IPv4Packets.Packet)
    requires Valid(c) && |c.toClient| + |IPv4Packets.Raw(p)| > BUFFER_CAPACITY
    ensures Consume(c, s, p) == (c.(pending := c.pending + [s]), false)
  {
  }

  /** A packet that fits is written, and its source advanced. */
  lemma ConsumeFits(c: Client, s: Source, p: IPv4Packets.Packet)
    requires Valid(c) && |c.toClient| + |IPv4Packets.Raw(p)| <= BUFFER_CAPACITY
    ensures Consume(c, s, p) == (c.(toClient := c.toClient + IPv4Packets.Raw(p), router := Routers.Advance(c.router, s)), true)
  {
  }

  /**
   * The loop of `processPending` over the stream buffer's bytes `buffer`:
   * the packets of the queued sources are appended in queue order until
   * one does not fit. `packets[i]` is what the `i`-th queued source's
   * `get()` returns; `sent` counts the packets appended.
   */
  method SendPending(buffer: seq<byte>, packets: seq<IPv4Packets.Packet>) returns (out: seq<byte>, sent: nat)
    ensures sent <= |packets|
    ensures out == buffer + RawAll(packets[..sent])
    ensures sent < |packets| ==> |out| + |IPv4Packets.Raw(packets[sent])| > BUFFER_CAPACITY
    ensures |buffer| <= BUFFER_CAPACITY ==> |out| <= BUFFER_CAPACITY
  {
    out := buffer;
    sent := 0;
    while sent < |packets|
      invariant sent <= |packets|
      invariant out == buffer + RawAll(packets[..sent])
      invariant |buffer| <= BUFFER_CAPACITY ==> |out| <= BUFFER_CAPACITY
      decreases |packets| - sent
    {
      if |out| + |IPv4Packets.Raw(packets[sent])| > BUFFER_CAPACITY {
        break;
      }
      RawAllStep(packets, sent);
      out := out + IPv4Packets.Raw(packets[sent]);
      sent := sent + 1;
    }
  }

  /**
   * `processPending`: sends the packets of the queued sources in queue
   * order and drops each sent source from the queue, until one does not
   * fit. Each sent source is advanced (`next()`): the table entry of its
   * flow releases its packet, and every other entry stays as it was. A
   * source whose connection has left the table still answers `get()`, so
   * `packets[i]` is given for every queued source.
   */
  method ProcessPending(c: Client, packets: seq<IPv4Packets.Packet>) returns (r: Client, sent: nat)
    requires Valid(c) && |packets| == |c.pending|
    ensures sent <= |c.pending| && r.pending == c.pending[sent..]
    ensures r.toClient == c.toClient + RawAll(packets[..sent])
    ensures sent < |c.pending| ==> |r.toClient| + |IPv4Packets.Raw(packets[sent])| > BUFFER_CAPACITY
    ensures |r.router.connections| == |c.router.connections|
    ensures forall k :: 0 <= k < |c.router.connections| ==>
      r.router.connections[k] == if Routers.Named(c.pending[..sent], Routers.IdOf(c.router.connections[k]))
                                 then Routers.NextEntry(c.router.connections[k]) else c.router.connections[k]
    ensures r.toNetwork == c.toNetwork && r.open == c.open
    ensures Valid(r)
  {
    var out;
    out, sent := SendPending(c.toClient, packets);
    r := c.(toClient := out, pending := c.pending[sent..], router := Routers.AdvanceAll(c.router, c.pending[..sent]));
  }

  lemma RawAllStep(ps: seq<IPv4Packets.Packet>, n: nat)
    requires n < |ps|
    ensures RawAll(ps[..n + 1]) == RawAll(ps[..n]) + IPv4Packets.Raw(ps[n])
  {
    assert ps[..n + 1][..n] == ps[..n];
  }

  /**
   * The calls a connection makes into the client while the router hands it
   * a packet: each packet goes to `sendToClient`, whose refusal drops it.
   * A close has already taken the connection out of the router, and a
   * routed packet never produces `consume`.
   */
  function Apply(c: Client, outs: seq<Connections.Output>): (r: Client)
    ensures r.(toClient := c.toClient) == c
    ensures |c.toClient| <= |r.toClient| && r.toClient[..|c.toClient|] == c.toClient
    ensures Valid(c) ==> Valid(r)
    decreases |outs|
  {
    if |outs| == 0 then c
    else
      var c1 := if outs[0].ToClient? then SendToClient(c, outs[0].packet).0 else c;
      Apply(c1, outs[1..])
  }

  /**
   * `router.sendToNetwork` on one datagram, the connection's calls into the
   * client applied as they happen.
   */
  function RouteOne(c: Client, frame: seq<byte>, env: Routers.Env): (r: Client)
    requires Valid(c)
    ensures Valid(r) && r.toNetwork == c.toNetwork && r.pending == c.pending && r.open == c.open
    ensures |c.toClient| <= |r.toClient| && r.toClient[..|c.toClient|] == c.toClient
  {
    var p := IPv4Packets.Parse(frame);
    IPv4Packets.ParseWellFormed(frame);
    Routers.SendToNetworkKeepsValid(c.router, p, env);
    var step := Routers.SendToNetwork(c.router, p, env);
    Apply(c.(router := step.0), step.1)
  }

  /**
   * Routes the datagrams `frames` in order, the `k`-th with what the
   * environment decides then.
   */
  function RouteAll(c: Client, frames: seq<seq<byte>>, env: nat -> Routers.Env, k: nat): (r: Client)
    requires Valid(c)
    ensures Valid(r) && r.toNetwork == c.toNetwork && r.pending == c.pending && r.open == c.open
    ensures |c.toClient| <= |r.toClient| && r.toClient[..|c.toClient|] == c.toClient
    decreases |frames|
  {
    if |frames| == 0 then c
    else RouteAll(RouteOne(c, frames[0], env(k)), frames[1..], env, k + 1)
  }

  /** `pushToNetwork`: every complete datagram in the buffer is handed to the router, in order. */
  function PushToNetwork(c: Client, env: nat -> Routers.Env): (r: Client)
    requires Valid(c)
    ensures Valid(r) && r.pending == c.pending && r.open == c.open
    ensures IPv4PacketBuffers.AvailablePacketLength(r.toNetwork) == 0
  {
    var d := IPv4PacketBuffers.Drain(c.toNetwork);
    RouteAll(c.(toNetwork := d.1), d.0, env, 0)
  }

  /**
   * `processReceive`: reads what the device sent, then routes every complete
   * datagram. The end of the stream or an I/O error closes the channel and
   * changes nothing else.
   */
  function ProcessReceive(c: Client, read: Packetizers.ReadResult, env: nat -> Routers.Env): (r: Client)
    requires Valid(c)
    ensures Valid(r)
    ensures !read.Bytes? ==> r == Close(c)
    ensures read.Bytes? ==> r.open == c.open && r.pending == c.pending
  {
    match IPv4PacketBuffers.ReadFrom(c.toNetwork, read)
    case Failure(_) => Close(c)
    case Success((b, n)) => if n == -1 then Close(c) else PushToNetwork(c.(toNetwork := b), env)
  }

  /**
   * Datagrams the device sent back to back reach the router exactly as
   * sent, in order, and the bytes of an incomplete datagram stay buffered.
   */
  lemma PushRoutesFrames(c: Client, fs: seq<seq<byte>>, tail: seq<byte>, env: nat -> Routers.Env)
    requires Valid(c) && c.toNetwork.data == IPv4PacketBuffers.Concat(fs) + tail
    requires forall i :: 0 <= i < |fs| ==> IPv4PacketBuffers.IsFrame(fs[i])
    requires IPv4PacketBuffers.AvailablePacketLength(IPv4PacketBuffers.PacketBuffer(tail)) == 0
    ensures PushToNetwork(c, env) == RouteAll(c.(toNetwork := IPv4PacketBuffers.PacketBuffer(tail)), fs, env, 0)
    ensures PushToNetwork(c, env).toNetwork.data == tail
  {
    IPv4PacketBuffers.DrainFrames(fs, tail);
  }

  /**
   * `processSend`: writes buffered bytes to the device, then retries the
   * queued sources, advancing each one sent. A write that reports the end of the stream (-1) or
   * fails closes the channel instead. `w` is what `writeTo` returned: the
   * count of bytes written from the front of the buffer.
   */
  method ProcessSend(c: Client, w: Connections.WriteResult, packets: seq<IPv4Packets.Packet>) returns (r: Client, sent: nat)
    requires Valid(c) && |packets| == |c.pending|
    requires w.Written? ==> -1 <= w.n <= |c.toClient|
    ensures Valid(r) && sent <= |c.pending|
    ensures (w.WriteError? || w.n == -1) ==> r == Close(c) && sent == 0
    ensures w.Written? && w.n != -1 ==>
      r.open == c.open && r.pending == c.pending[sent..]
      && r.toClient == c.toClient[w.n..] + RawAll(packets[..sent])
    ensures w.Written? && w.n != -1 ==>
      |r.router.connections| == |c.router.connections|
      && forall k :: 0 <= k < |c.router.connections| ==>
           r.router.connections[k] == if Routers.Named(c.pending[..sent], Routers.IdOf(c.router.connections[k]))
                                      then Routers.NextEntry(c.router.connections[k]) else c.router.connections[k]
  {
    if w.WriteError? || w.n == -1 {
      return Close(c), 0;
    }
    var c1 := c.(toClient := c.toClient[w.n..]);
    r, sent := ProcessPending(c1, packets);
  }
}
