/**
 * The router (Router.java): the client's table of flows. Every valid packet
 * from the client goes to the connection of its flow, which is created on
 * the flow's first packet. A connection leaves the table when it closes
 * itself or when it expires.
 *
 * The selector, the sockets and the clock are parameters of each call (see
 * `Env`). Java removes connections by object identity. Here, at most one
 * connection serves a flow, so a connection is removed by its identifier.
 */
module Routers {
  import opened Bytes
  import opened Wrappers
  import IPv4Headers
  import IPv4Packets
  import ConnectionIds
  import Connections
  import TcpConnections
  import UdpConnections
  import Packetizers

  /** A connection of one of the three kinds the router creates. */
  datatype Connection =
    | Udp(udp: UdpConnections.UdpConnection)
    | Tcp(tcp: TcpConnections.TcpConnection)
    | Icmp(icmp: Connections.IcmpConnection)

  /** `getId`. */
  function IdOf(c: Connection): ConnectionIds.ConnectionId {
    match c
    case Udp(u) => u.id
    case Tcp(t) => t.id
    case Icmp(i) => i.id
  }

  /** The protocol a connection of this kind serves. */
  function KindOf(c: Connection): IPv4Headers.Protocol {
    match c
    case Udp(_) => IPv4Headers.UDP
    case Tcp(_) => IPv4Headers.TCP
    case Icmp(_) => IPv4Headers.ICMP
  }

  /** Whether the connection's channel is open; an ICMP flow has none. */
  predicate IsOpen(c: Connection) {
    match c
    case Udp(u) => u.open
    case Tcp(t) => t.open
    case Icmp(_) => true
  }

  /** A table entry: open, of the kind its identifier names, and valid for its kind. */
  predicate ValidConnection(c: Connection) {
    IsOpen(c) && ConnectionIds.WellFormed(IdOf(c)) && IdOf(c).protocol == KindOf(c)
    && match c
       case Udp(u) => UdpConnections.Valid(u)
       case Tcp(t) => TcpConnections.Valid(t)
       case Icmp(_) => true
  }

  /** No two connections of the table serve the same flow. */
  predicate Distinct(cs: seq<Connection>) {
    forall i, j :: 0 <= i < j < |cs| ==> !ConnectionIds.Equals(IdOf(cs[i]), ConnectionIds.Id(IdOf(cs[j])))
  }

  /** The `connections` list, in insertion order. */
  datatype Router = Router(connections: seq<Connection>)

  /** At most one connection per flow, and every one of them valid and open. */
  predicate Valid(r: Router) {
    Distinct(r.connections) && forall c :: c in r.connections ==> ValidConnection(c)
  }

  /**
   * What the environment decides during one call: the clock, the initial
   * sequence number a new TCP flow picks, whether opening a socket
   * succeeds, and whether a UDP flow's datagram buffer has room.
   */
  datatype Env = Env(now: int, isn: int32, socketOpens: bool, accepted: bool)

  /** `remove` fails with an `AssertionError` for a connection the router does not hold. */
  datatype RouterError = UnknownConnection

  /** `find`: the position of the first connection whose identifier equals `id`. */
  function Find(cs: seq<Connection>, id: ConnectionIds.ConnectionId): (r: Option<nat>)
    ensures r.None? <==> forall i :: 0 <= i < |cs| ==> !ConnectionIds.Equals(id, ConnectionIds.Id(IdOf(cs[i])))
    ensures r.Some? ==> r.value < |cs| && ConnectionIds.Equals(id, ConnectionIds.Id(IdOf(cs[r.value])))
    ensures r.Some? ==> forall i :: 0 <= i < r.value ==> !ConnectionIds.Equals(id, ConnectionIds.Id(IdOf(cs[i])))
  {
    if |cs| == 0 then None
    else if ConnectionIds.Equals(id, ConnectionIds.Id(IdOf(cs[0]))) then Some(0)
    else
      match Find(cs[1..], id)
      case None => None
      case Some(k) => Some(k + 1)
  }

  /** The table without its `i`-th connection, the others in order. */
  function RemoveAt(cs: seq<Connection>, i: nat): (r: seq<Connection>)
    requires i < |cs|
    ensures |r| == |cs| - 1
    ensures forall k :: 0 <= k < i ==> r[k] == cs[k]
    ensures forall k :: i <= k < |r| ==> r[k] == cs[k + 1]
  {
    cs[..i] + cs[i + 1..]
  }

  /**
   * `createConnection`: a flow of the packet's protocol. Opening the UDP or
   * TCP socket may fail with an `IOException` (`socketOpens` is false); an ICMP
   * flow opens nothing. The Java code reads the protocol from the
   * identifier, which for a valid packet agrees with its transport header.
   */
  function CreateConnection(id: ConnectionIds.ConnectionId, p: IPv4Packets.Packet, env: Env): (r: Option<Connection>)
    requires IPv4Packets.WellFormed(p) && id == ConnectionIds.OfPacket(p)
    ensures r.Some? ==> ValidConnection(r.value) && IdOf(r.value) == id
    ensures r.Some? ==> KindOf(r.value) == id.protocol
    ensures r.None? <==> !env.socketOpens && id.protocol != IPv4Headers.ICMP
  {
    match p.transport
    case Udp(_) => if env.socketOpens then Some(Udp(UdpConnections.Create(id, p, env.now))) else None
    case Tcp(_) => if env.socketOpens then Some(Tcp(TcpConnections.Create(id, p, env.now))) else None
    case Icmp(_) => Some(Icmp(Connections.IcmpConnection(id, env.now)))
  }

  /**
   * `connection.sendToNetwork(packet)` on a connection of the packet's kind:
   * the new state of the connection, and the calls it makes into the client.
   * A TCP connection answers with packets built from its template.
   */
  function Dispatch(c: Connection, p: IPv4Packets.Packet, env: Env): (r: (Connection, seq<Connections.Output>))
    requires ValidConnection(c) && IPv4Packets.WellFormed(p) && KindOf(c) == IPv4Headers.GetProtocol(p.ipv4)
  {
    match c
    case Udp(u) => (Udp(UdpConnections.SendToNetwork(u, p.payload, env.accepted)), [])
    case Tcp(t) =>
      var s := TcpConnections.SendToNetwork(t, TcpConnections.SegmentOf(p), env.isn);
      (Tcp(s.0), TcpConnections.Render(t.template, s.1))
    case Icmp(i) => (Icmp(Connections.IcmpSendToNetwork(i, env.now)), [])
  }

  /**
   * Hands the packet to the `i`-th connection. A connection that closes
   * during the call removes itself from the table; otherwise it is
   * replaced by its new state.
   */
  function Deliver(cs: seq<Connection>, i: nat, p: IPv4Packets.Packet, env: Env): (r: (Router, seq<Connections.Output>))
    requires i < |cs| && ValidConnection(cs[i]) && IPv4Packets.WellFormed(p)
    requires KindOf(cs[i]) == IPv4Headers.GetProtocol(p.ipv4)
  {
    var d := Dispatch(cs[i], p, env);
    if Connections.Close in d.1 then (Router(RemoveAt(cs, i)), d.1)
    else (Router(cs[i := d.0]), d.1)
  }

  /**
   * `sendToNetwork`: an invalid packet is dropped; otherwise the packet goes
   * to the connection of its flow, created and appended when there is none.
   * A creation that fails drops the packet and leaves the table as it was.
   * The packet is one the parser built, so a valid one is well formed.
   */
  function SendToNetwork(r: Router, p: IPv4Packets.Packet, env: Env): (res: (Router, seq<Connections.Output>))
    requires Valid(r) && (p.Valid? ==> IPv4Packets.WellFormed(p))
    ensures !p.Valid? ==> res == (r, [])
  {
    if !p.Valid? then (r, [])
    else
      var id := ConnectionIds.OfPacket(p);
      match Find(r.connections, id)
      case Some(i) =>
        assert r.connections[i] in r.connections;
        Deliver(r.connections, i, p, env)
      case None =>
        match CreateConnection(id, p, env)
        case None => (r, [])
        case Some(c) => Deliver(r.connections + [c], |r.connections|, p, env)
  }

  /**
   * `remove`: drops the connection serving `id`. A connection the router
   * does not hold is an `AssertionError`.
   */
  function Remove(r: Router, id: ConnectionIds.ConnectionId): (res: Result<Router, RouterError>)
  {
    match Find(r.connections, id)
    case None => Failure(UnknownConnection)
    case Some(i) => Success(Router(RemoveAt(r.connections, i)))
  }

  /**
   * `next()` on one table entry: a TCP connection holding a packet for the
   * client releases it and moves its sequence number past the payload.
   * Any other entry is not a packet source with a packet and stays as it is.
   */
  function NextEntry(c: Connection): (r: Connection)
    requires ValidConnection(c)
    ensures ValidConnection(r) && IdOf(r) == IdOf(c) && KindOf(r) == KindOf(c)
    ensures c.Tcp? && c.tcp.packetForClient.Some? ==>
      r.Tcp? && r.tcp.packetForClient.None?
      && r.tcp.seqNum == Wrap32(c.tcp.seqNum + |c.tcp.packetForClient.value.payload|)
      && r.tcp.ackNum == c.tcp.ackNum && r.tcp.toNetwork == c.tcp.toNetwork && r.tcp.state == c.tcp.state
    ensures !(c.Tcp? && c.tcp.packetForClient.Some?) ==> r == c
  {
    if c.Tcp? && c.tcp.packetForClient.Some? then
      TcpConnections.NextAdvances(c.tcp);
      Tcp(TcpConnections.Next(c.tcp))
    else c
  }

  /** A source advanced once has no packet left: advancing it again changes nothing. */
  lemma NextEntryIdempotent(c: Connection)
    requires ValidConnection(c)
    ensures NextEntry(NextEntry(c)) == NextEntry(c)
  {
  }

  /**
   * `source.next()` for the packet source of flow `id`: the table entry
   * serving `id` is advanced in place. A flow the table no longer serves
   * keeps the table as it is, and every other flow keeps its entry.
   */
  function Advance(r: Router, id: ConnectionIds.ConnectionId): (res: Router)
    requires Valid(r)
    ensures Valid(res) && |res.connections| == |r.connections|
    ensures forall k :: 0 <= k < |r.connections| ==>
      res.connections[k] == if ConnectionIds.Equals(id, ConnectionIds.Id(IdOf(r.connections[k])))
                            then NextEntry(r.connections[k]) else r.connections[k]
  {
    match Find(r.connections, id)
    case None => r
    case Some(i) =>
      assert r.connections[i] in r.connections;
      var x := NextEntry(r.connections[i]);
      UpdateKeepsValid(r.connections, i, x);
      FindUnique(r.connections, id);
      Router(r.connections[i := x])
  }

  /** Advancing the source of a TCP entry holding a packet releases that packet in place. */
  lemma AdvanceHeld(r: Router, k: nat)
    requires Valid(r) && k < |r.connections|
    requires r.connections[k].Tcp? && r.connections[k].tcp.packetForClient.Some?
    ensures r.connections[k] in r.connections
    ensures var t := r.connections[k].tcp;
      var e := Advance(r, t.id).connections[k];
      e == Tcp(TcpConnections.Next(t)) && e.tcp.packetForClient.None? && e.tcp.id == t.id
      && e.tcp.seqNum == Wrap32(t.seqNum + |t.packetForClient.value.payload|)
      && e.tcp.ackNum == t.ackNum && e.tcp.toNetwork == t.toNetwork && e.tcp.state == t.state
  {
    var c := r.connections[k];
    assert c in r.connections;
    ConnectionIds.EqualsIsEquality(c.tcp.id, c.tcp.id, c.tcp.id);
    assert Advance(r, c.tcp.id).connections[k] == NextEntry(c);
  }

  /** Whether one of the identifiers `ids` equals `id`. */
  predicate Named(ids: seq<ConnectionIds.ConnectionId>, id: ConnectionIds.ConnectionId) {
    exists j :: 0 <= j < |ids| && ConnectionIds.Equals(ids[j], ConnectionIds.Id(id))
  }

  /**
   * `next()` for each of the sources `ids`, in order: every entry whose flow
   * one of them names is advanced once, and every other entry is unchanged.
   */
  function AdvanceAll(r: Router, ids: seq<ConnectionIds.ConnectionId>): (res: Router)
    requires Valid(r)
    ensures Valid(res) && |res.connections| == |r.connections|
    ensures forall k :: 0 <= k < |r.connections| ==>
      res.connections[k] == if Named(ids, IdOf(r.connections[k])) then NextEntry(r.connections[k]) else r.connections[k]
    decreases |ids|
  {
    if |ids| == 0 then r
    else
      var r1 := Advance(r, ids[0]);
      var res := AdvanceAll(r1, ids[1..]);
      forall k | 0 <= k < |r.connections|
        ensures res.connections[k] == if Named(ids, IdOf(r.connections[k])) then NextEntry(r.connections[k]) else r.connections[k]
      {
        var c := r.connections[k];
        assert c in r.connections;
        assert IdOf(r1.connections[k]) == IdOf(c);
        NextEntryIdempotent(c);
        if Named(ids[1..], IdOf(c)) {
          var j :| 0 <= j < |ids[1..]| && ConnectionIds.Equals(ids[1..][j], ConnectionIds.Id(IdOf(c)));
          assert ConnectionIds.Equals(ids[j + 1], ConnectionIds.Id(IdOf(c)));
        } else if ConnectionIds.Equals(ids[0], ConnectionIds.Id(IdOf(c))) {
        } else {
          forall j | 0 <= j < |ids|
            ensures !ConnectionIds.Equals(ids[j], ConnectionIds.Id(IdOf(c)))
          {
            if j > 0 {
              assert ids[j] == ids[1..][j - 1];
            }
          }
        }
      }
      res
  }

  /** `isExpired` of each kind. */
  predicate IsExpired(c: Connection, now: int) {
    match c
    case Udp(u) => UdpConnections.IsExpired(u, now)
    case Tcp(t) => TcpConnections.IsExpired(t, now)
    case Icmp(i) => Connections.IcmpIsExpired(i, now)
  }

  /** `disconnect` of each kind; an ICMP flow has nothing to close. */
  function Disconnect(c: Connection): (r: Connection)
    ensures IdOf(r) == IdOf(c) && KindOf(r) == KindOf(c)
    ensures c.Icmp? ==> r == c
    ensures !c.Icmp? ==> !IsOpen(r)
  {
    match c
    case Udp(u) => Udp(UdpConnections.Disconnect(u))
    case Tcp(t) => Tcp(TcpConnections.Disconnect(t))
    case Icmp(_) => c
  }

  /** The connections that are not expired at `now`, in table order. */
  function Survivors(cs: seq<Connection>, now: int): (r: seq<Connection>)
    ensures |r| <= |cs|
    ensures forall c :: c in r <==> c in cs && !IsExpired(c, now)
  {
    if |cs| == 0 then []
    else if IsExpired(cs[0], now) then Survivors(cs[1..], now)
    else [cs[0]] + Survivors(cs[1..], now)
  }

  /** The expired connections, disconnected, in table order. */
  function Expired(cs: seq<Connection>, now: int): (r: seq<Connection>)
    ensures |r| + |Survivors(cs, now)| == |cs|
  {
    if |cs| == 0 then []
    else if IsExpired(cs[0], now) then [Disconnect(cs[0])] + Expired(cs[1..], now)
    else Expired(cs[1..], now)
  }

  /** One step of the backward walk: the `i`-th connection is dropped when expired, kept otherwise. */
  lemma CleanStep(cs: seq<Connection>, i: nat, now: int, conns: seq<Connection>)
    requires i < |cs| && conns == cs[..i + 1] + Survivors(cs[i + 1..], now)
    ensures i < |conns| && conns[..i] == cs[..i] && conns[i] == cs[i]
    ensures IsExpired(cs[i], now) ==> conns[..i] + conns[i + 1..] == cs[..i] + Survivors(cs[i..], now)
    ensures !IsExpired(cs[i], now) ==> conns == cs[..i] + Survivors(cs[i..], now)
    ensures Expired(cs[i..], now)
            == (if IsExpired(cs[i], now) then [Disconnect(cs[i])] else []) + Expired(cs[i + 1..], now)
  {
    assert cs[i..][1..] == cs[i + 1..];
    assert cs[..i + 1] == cs[..i] + [cs[i]];
    assert conns == cs[..i] + ([cs[i]] + Survivors(cs[i + 1..], now));
  }

  /**
   * `cleanExpiredConnections`: walks the table from the last connection to
   * the first and disconnects and removes every expired one. Returns the
   * new table and the connections it disconnected, in table order.
   */
  method CleanExpired(r: Router, now: int) returns (res: Router, removed: seq<Connection>)
    ensures res.connections == Survivors(r.connections, now)
    ensures removed == Expired(r.connections, now)
    ensures forall c :: c in res.connections ==> !IsExpired(c, now)
    ensures Valid(r) ==> Valid(res)
  {
    var cs := r.connections;
    var conns := cs;
    removed := [];
    var i := |cs|;
    assert cs[..i] + Survivors(cs[i..], now) == cs;
    while i > 0
      invariant 0 <= i <= |cs|
      invariant conns == cs[..i] + Survivors(cs[i..], now)
      invariant removed == Expired(cs[i..], now)
    {
      i := i - 1;
      CleanStep(cs, i, now, conns);
      if IsExpired(conns[i], now) {
        removed := [Disconnect(conns[i])] + removed;
        conns := conns[..i] + conns[i + 1..];
      }
    }
    assert cs[0..] == cs;
    res := Router(conns);
    if Valid(r) {
      SurvivorsKeepDistinct(cs, now);
    }
  }

  /** The connection serving `id`, as `find` returns it. */
  function Lookup(cs: seq<Connection>, id: ConnectionIds.ConnectionId): (r: Option<Connection>)
    ensures r.Some? ==> r.value in cs && ConnectionIds.Equals(id, ConnectionIds.Id(IdOf(r.value)))
    ensures r.None? <==> forall c :: c in cs ==> !ConnectionIds.Equals(id, ConnectionIds.Id(IdOf(c)))
  {
    match Find(cs, id)
    case None => None
    case Some(i) => Some(cs[i])
  }

  /** The connections serving flows other than `id`, in table order. */
  function Others(cs: seq<Connection>, id: ConnectionIds.ConnectionId): (r: seq<Connection>)
    ensures forall c :: c in r <==> c in cs && !ConnectionIds.Equals(id, ConnectionIds.Id(IdOf(c)))
  {
    if |cs| == 0 then []
    else if ConnectionIds.Equals(id, ConnectionIds.Id(IdOf(cs[0]))) then Others(cs[1..], id)
    else [cs[0]] + Others(cs[1..], id)
  }

  lemma {:induction false} OthersConcat(a: seq<Connection>, b: seq<Connection>, id: ConnectionIds.ConnectionId)
    ensures Others(a + b, id) == Others(a, id) + Others(b, id)
    decreases |a|
  {
    if |a| == 0 {
      assert a + b == b;
    } else {
      assert (a + b)[1..] == a[1..] + b;
      OthersConcat(a[1..], b, id);
    }
  }

  /** Putting a connection of the flow `id` in, or taking one out, leaves the other flows as they were. */
  lemma OthersIgnoreFlow(cs: seq<Connection>, i: nat, x: Connection, id: ConnectionIds.ConnectionId)
    requires i < |cs| && ConnectionIds.Equals(id, ConnectionIds.Id(IdOf(cs[i])))
    requires ConnectionIds.Equals(id, ConnectionIds.Id(IdOf(x)))
    ensures Others(cs[i := x], id) == Others(cs, id)
    ensures Others(RemoveAt(cs, i), id) == Others(cs, id)
    ensures Others(cs + [x], id) == Others(cs, id)
  {
    assert cs == cs[..i] + ([cs[i]] + cs[i + 1..]);
    assert cs[i := x] == cs[..i] + ([x] + cs[i + 1..]);
    OthersConcat(cs[..i], [cs[i]] + cs[i + 1..], id);
    OthersConcat(cs[..i], [x] + cs[i + 1..], id);
    OthersConcat(cs[..i], cs[i + 1..], id);
    OthersConcat(cs, [x], id);
    assert Others([x], id) == [];
    assert Others([cs[i]] + cs[i + 1..], id) == Others(cs[i + 1..], id);
    assert Others([x] + cs[i + 1..], id) == Others(cs[i + 1..], id);
  }

  /** In a table without duplicates, the connection `find` returns is the only one serving its flow. */
  lemma FindUnique(cs: seq<Connection>, id: ConnectionIds.ConnectionId)
    requires Distinct(cs) && Find(cs, id).Some?
    ensures forall j :: 0 <= j < |cs| && ConnectionIds.Equals(id, ConnectionIds.Id(IdOf(cs[j]))) ==> j == Find(cs, id).value
  {
  }

  /** Every connection the TCP replies name is rendered in place: a close stays a close, and stays last. */
  lemma RenderCloses(z: Packetizers.Packetizer, acts: seq<TcpConnections.Action>)
    requires Packetizers.IsTemplate(z) && z.transport.Tcp?
    requires TcpConnections.ClosesLast(acts)
    ensures Connections.ClosesLast(TcpConnections.Render(z, acts))
    ensures Connections.Close in TcpConnections.Render(z, acts) <==> TcpConnections.Closes(acts)
  {
    var outs := TcpConnections.Render(z, acts);
    if Connections.Close in outs {
      var k :| 0 <= k < |outs| && outs[k] == Connections.Close;
      assert acts[k].Close?;
    }
    if TcpConnections.Closes(acts) {
      assert outs[|outs| - 1] == Connections.Close;
    }
  }

  /** The calls an open TCP connection makes for a client packet: replies, then at most one close, last, exactly when it closes. */
  lemma TcpPacketOutcome(t: TcpConnections.TcpConnection, s: TcpConnections.Segment, isn: int32)
    requires TcpConnections.Valid(t) && t.open
    ensures var r := TcpConnections.SendToNetwork(t, s, isn);
      var outs := TcpConnections.Render(t.template, r.1);
      TcpConnections.Valid(r.0) && r.0.id == t.id
      && Connections.ClosesLast(outs) && (Connections.Close in outs <==> !r.0.open)
      && Connections.Consume !in outs
  {
    var acts := TcpConnections.SendToNetwork(t, s, isn).1;
    TcpConnections.PacketKeepsValid(t, s, isn);
    TcpConnections.HandlePacketWellClosed(t, s, isn);
    TcpConnections.PacketNeverConsumes(t, s, isn);
    RenderCloses(t.template, acts);
    var outs := TcpConnections.Render(t.template, acts);
    forall k | 0 <= k < |outs|
      ensures !outs[k].Consume?
    {
      assert acts[k] in acts;
    }
  }

  /**
   * A connection handles a packet of its flow without changing identity or
   * kind; it calls `close()` at most once, last, exactly when its channel
   * ends up closed, and stays a valid table entry otherwise.
   */
  lemma DispatchWellFormed(c: Connection, p: IPv4Packets.Packet, env: Env)
    requires ValidConnection(c) && IPv4Packets.WellFormed(p) && KindOf(c) == IPv4Headers.GetProtocol(p.ipv4)
    ensures IdOf(Dispatch(c, p, env).0) == IdOf(c) && KindOf(Dispatch(c, p, env).0) == KindOf(c)
    ensures Connections.ClosesLast(Dispatch(c, p, env).1)
    ensures Connections.Close in Dispatch(c, p, env).1 <==> !IsOpen(Dispatch(c, p, env).0)
    ensures IsOpen(Dispatch(c, p, env).0) ==> ValidConnection(Dispatch(c, p, env).0)
    ensures Connections.Consume !in Dispatch(c, p, env).1
  {
    if c.Tcp? {
      TcpPacketOutcome(c.tcp, TcpConnections.SegmentOf(p), env.isn);
    }
  }

  /** Taking a connection out keeps the flows distinct, and its flow is no longer served. */
  lemma RemoveAtKeepsDistinct(cs: seq<Connection>, i: nat)
    requires Distinct(cs) && i < |cs|
    ensures Distinct(RemoveAt(cs, i))
    ensures Lookup(RemoveAt(cs, i), IdOf(cs[i])).None?
  {
    var out := RemoveAt(cs, i);
    forall k | 0 <= k < |out|
      ensures !ConnectionIds.Equals(IdOf(cs[i]), ConnectionIds.Id(IdOf(out[k])))
    {
      if k < i {
        assert out[k] == cs[k];
      } else {
        assert out[k] == cs[k + 1];
      }
    }
    forall a, b | 0 <= a < b < |out|
      ensures !ConnectionIds.Equals(IdOf(out[a]), ConnectionIds.Id(IdOf(out[b])))
    {
      var a' := if a < i then a else a + 1;
      var b' := if b < i then b else b + 1;
      assert out[a] == cs[a'] && out[b] == cs[b'];
    }
  }

  /** Replacing a connection by one of the same flow keeps the flows distinct, and `find` returns the new one. */
  lemma UpdateKeepsDistinct(cs: seq<Connection>, i: nat, x: Connection)
    requires Distinct(cs) && i < |cs| && IdOf(x) == IdOf(cs[i])
    ensures Distinct(cs[i := x])
    ensures Lookup(cs[i := x], IdOf(cs[i])) == Some(x)
  {
    var out := cs[i := x];
    assert forall k :: 0 <= k < |out| ==> IdOf(out[k]) == IdOf(cs[k]);
    assert Find(out, IdOf(cs[i])) == Some(i);
  }

  /** Appending a connection for a flow the table does not serve keeps the flows distinct. */
  lemma AppendKeepsDistinct(cs: seq<Connection>, c: Connection)
    requires Distinct(cs) && Lookup(cs, IdOf(c)).None?
    ensures Distinct(cs + [c])
  {
    var out := cs + [c];
    forall a, b | 0 <= a < b < |out|
      ensures !ConnectionIds.Equals(IdOf(out[a]), ConnectionIds.Id(IdOf(out[b])))
    {
      assert out[a] == cs[a] && out[a] in cs;
    }
  }

  /**
   * The outcome of handing a packet to the connection of flow `id`, which
   * did `d`: the client sees that connection's calls, the flow's entry is
   * the connection's new state or is gone if it closed, and every other
   * flow keeps its entry, in order.
   */
  predicate Routed(before: seq<Connection>, after: (Router, seq<Connections.Output>),
                   id: ConnectionIds.ConnectionId, d: (Connection, seq<Connections.Output>)) {
    after.1 == d.1
    && Others(after.0.connections, id) == Others(before, id)
    && Lookup(after.0.connections, id) == (if Connections.Close in d.1 then None else Some(d.0))
  }

  /** Handing a packet to a table entry touches that flow only. */
  lemma DeliverRouted(cs: seq<Connection>, i: nat, p: IPv4Packets.Packet, env: Env)
    requires Distinct(cs) && i < |cs| && ValidConnection(cs[i]) && IPv4Packets.WellFormed(p)
    requires KindOf(cs[i]) == IPv4Headers.GetProtocol(p.ipv4)
    ensures Routed(cs, Deliver(cs, i, p, env), IdOf(cs[i]), Dispatch(cs[i], p, env))
  {
    var id := IdOf(cs[i]);
    var d := Dispatch(cs[i], p, env);
    DispatchWellFormed(cs[i], p, env);
    ConnectionIds.EqualsIsEquality(id, id, id);
    OthersIgnoreFlow(cs, i, d.0, id);
    if Connections.Close in d.1 {
      RemoveAtKeepsDistinct(cs, i);
    } else {
      UpdateKeepsDistinct(cs, i, d.0);
    }
  }

  /** Taking a connection out keeps the table valid. */
  lemma RemoveAtKeepsValid(cs: seq<Connection>, i: nat)
    requires Valid(Router(cs)) && i < |cs|
    ensures Valid(Router(RemoveAt(cs, i)))
  {
    RemoveAtKeepsDistinct(cs, i);
    assert forall c :: c in RemoveAt(cs, i) ==> c in cs;
  }

  /** Replacing a connection by a valid one of the same flow keeps the table valid. */
  lemma UpdateKeepsValid(cs: seq<Connection>, i: nat, x: Connection)
    requires Valid(Router(cs)) && i < |cs| && ValidConnection(x) && IdOf(x) == IdOf(cs[i])
    ensures Valid(Router(cs[i := x]))
  {
    UpdateKeepsDistinct(cs, i, x);
    assert forall c :: c in cs[i := x] ==> c in cs || c == x;
  }

  /** Appending a valid connection for a flow the table does not serve keeps the table valid. */
  lemma AppendKeepsValid(cs: seq<Connection>, c: Connection)
    requires Valid(Router(cs)) && ValidConnection(c) && Lookup(cs, IdOf(c)).None?
    ensures Valid(Router(cs + [c])) && (cs + [c])[|cs|] == c
  {
    AppendKeepsDistinct(cs, c);
    assert forall x :: x in cs + [c] ==> x in cs || x == c;
  }

  /** Handing a packet to a table entry keeps the table valid. */
  lemma DeliverKeepsValid(cs: seq<Connection>, i: nat, p: IPv4Packets.Packet, env: Env)
    requires Valid(Router(cs)) && i < |cs| && IPv4Packets.WellFormed(p)
    requires KindOf(cs[i]) == IPv4Headers.GetProtocol(p.ipv4)
    ensures Valid(Deliver(cs, i, p, env).0)
    ensures Connections.ClosesLast(Deliver(cs, i, p, env).1)
  {
    assert cs[i] in cs;
    var d := Dispatch(cs[i], p, env);
    DispatchWellFormed(cs[i], p, env);
    if Connections.Close in d.1 {
      RemoveAtKeepsValid(cs, i);
    } else {
      UpdateKeepsValid(cs, i, d.0);
    }
  }

  /** `sendToNetwork` keeps the table valid, and its connection closes at most once, last. */
  lemma SendToNetworkKeepsValid(r: Router, p: IPv4Packets.Packet, env: Env)
    requires Valid(r) && (p.Valid? ==> IPv4Packets.WellFormed(p))
    ensures Valid(SendToNetwork(r, p, env).0) && Connections.ClosesLast(SendToNetwork(r, p, env).1)
  {
    if p.Valid? {
      var id := ConnectionIds.OfPacket(p);
      var cs := r.connections;
      if Find(cs, id).Some? {
        var i := Find(cs, id).value;
        assert cs[i] in cs;
        assert SendToNetwork(r, p, env) == Deliver(cs, i, p, env);
        DeliverKeepsValid(cs, i, p, env);
      } else if CreateConnection(id, p, env).Some? {
        var c := CreateConnection(id, p, env).value;
        assert SendToNetwork(r, p, env) == Deliver(cs + [c], |cs|, p, env);
        AppendKeepsValid(cs, c);
        DeliverKeepsValid(cs + [c], |cs|, p, env);
      }
    }
  }

  /** A packet of a flow the table serves goes to that flow's connection: it is reused, not created again. */
  lemma ExistingFlowReused(r: Router, p: IPv4Packets.Packet, env: Env)
    requires Valid(r) && IPv4Packets.WellFormed(p)
    requires Lookup(r.connections, ConnectionIds.OfPacket(p)).Some?
    ensures var id := ConnectionIds.OfPacket(p);
      Routed(r.connections, SendToNetwork(r, p, env), id, Dispatch(Lookup(r.connections, id).value, p, env))
  {
    var id := ConnectionIds.OfPacket(p);
    var cs := r.connections;
    var i := Find(cs, id).value;
    assert cs[i] in cs;
    ConnectionIds.EqualsIsEquality(id, IdOf(cs[i]), id);
    DeliverRouted(cs, i, p, env);
  }

  /**
   * A packet of a flow the table does not serve creates the connection of
   * its protocol and goes to it, appended last; when the socket cannot be
   * opened, the packet is dropped and nothing changes.
   */
  lemma NewFlowCreated(r: Router, p: IPv4Packets.Packet, env: Env)
    requires Valid(r) && IPv4Packets.WellFormed(p)
    requires Lookup(r.connections, ConnectionIds.OfPacket(p)).None?
    ensures var id := ConnectionIds.OfPacket(p);
      CreateConnection(id, p, env).None? ==> SendToNetwork(r, p, env) == (r, [])
    ensures var id := ConnectionIds.OfPacket(p);
      CreateConnection(id, p, env).Some? ==>
        Routed(r.connections, SendToNetwork(r, p, env), id, Dispatch(CreateConnection(id, p, env).value, p, env))
  {
    var id := ConnectionIds.OfPacket(p);
    var cs := r.connections;
    match CreateConnection(id, p, env)
    case None =>
    case Some(c) =>
      AppendKeepsDistinct(cs, c);
      OthersConcat(cs, [c], id);
      ConnectionIds.EqualsIsEquality(id, id, id);
      assert Others([c], id) == [];
      assert (cs + [c])[|cs|] == c;
      DeliverRouted(cs + [c], |cs|, p, env);
  }

  /**
   * `remove` fails exactly for a flow the table does not serve; otherwise
   * the table loses that one connection, stays valid, and keeps every
   * other flow in order.
   */
  lemma RemoveForgetsFlow(r: Router, id: ConnectionIds.ConnectionId)
    requires Valid(r)
    ensures Remove(r, id).Failure? <==> Lookup(r.connections, id).None?
    ensures Remove(r, id).Success? ==>
      var cs := Remove(r, id).value.connections;
      Valid(Remove(r, id).value) && |cs| == |r.connections| - 1
      && Lookup(cs, id).None? && Others(cs, id) == Others(r.connections, id)
  {
    match Find(r.connections, id)
    case None =>
    case Some(i) =>
      var cs := r.connections;
      RemoveAtKeepsDistinct(cs, i);
      assert forall c :: c in RemoveAt(cs, i) ==> c in cs;
      OthersIgnoreFlow(cs, i, cs[i], id);
  }

  /** The connections that survive a clean-up still serve distinct flows. */
  lemma {:induction false} SurvivorsKeepDistinct(cs: seq<Connection>, now: int)
    requires Distinct(cs)
    ensures Distinct(Survivors(cs, now))
    decreases |cs|
  {
    if |cs| > 0 {
      var rest := cs[1..];
      assert Distinct(rest) by {
        forall a, b | 0 <= a < b < |rest|
          ensures !ConnectionIds.Equals(IdOf(rest[a]), ConnectionIds.Id(IdOf(rest[b])))
        {
          assert rest[a] == cs[a + 1] && rest[b] == cs[b + 1];
        }
      }
      SurvivorsKeepDistinct(rest, now);
      if !IsExpired(cs[0], now) {
        var t := Survivors(rest, now);
        var out := [cs[0]] + t;
        forall a, b | 0 <= a < b < |out|
          ensures !ConnectionIds.Equals(IdOf(out[a]), ConnectionIds.Id(IdOf(out[b])))
        {
          if a == 0 {
            assert out[b] == t[b - 1] && out[b] in rest;
            var k :| 0 <= k < |rest| && rest[k] == out[b];
            assert rest[k] == cs[k + 1];
          } else {
            assert out[a] == t[a - 1] && out[b] == t[b - 1];
          }
        }
      }
    }
  }

  /** Routing a packet never hands the client a packet source: `consume` only follows a socket read. */
  lemma SendToNetworkNeverConsumes(r: Router, p: IPv4Packets.Packet, env: Env)
    requires Valid(r) && (p.Valid? ==> IPv4Packets.WellFormed(p))
    ensures Connections.Consume !in SendToNetwork(r, p, env).1
  {
    if p.Valid? {
      var id := ConnectionIds.OfPacket(p);
      var cs := r.connections;
      if Lookup(cs, id).Some? {
        ExistingFlowReused(r, p, env);
        var c := Lookup(cs, id).value;
        ConnectionIds.EqualsIsEquality(id, IdOf(c), id);
        DispatchWellFormed(c, p, env);
      } else {
        NewFlowCreated(r, p, env);
        if CreateConnection(id, p, env).Some? {
          DispatchWellFormed(CreateConnection(id, p, env).value, p, env);
        }
      }
    }
  }
}
