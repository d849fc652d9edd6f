/**
 * The TCP flow (TCPConnection.java). The relay terminates the client's TCP
 * connection itself and opens an ordinary socket to the destination; this
 * module is the state machine that keeps sequence numbers, the
 * client-to-network byte stream and the response packets in step.
 *
 * The state names are the code's own, not those of RFC 793: the relay
 * enters SYN_SENT when the client's SYN arrives, SYN_RECEIVED once its own
 * socket has connected, and CLOSE_WAIT is never entered.
 */
module TcpConnections {
  import opened Bytes
  import opened Wrappers
  import IPv4Headers
  import TcpHeaders
  import TransportHeaders
  import IPv4Packets
  import Packetizers
  import ConnectionIds
  import Connections

  /** `IDLE_TIMEOUT`, in milliseconds. */
  const IDLE_TIMEOUT := 30000

  const MTU := 0x4000

  /** The largest payload read from the socket into one packet for the client. */
  const MAX_PAYLOAD_SIZE := MTU - 20 - 20

  /** The size of the client-to-network stream buffer. */
  const BUFFER_CAPACITY := 4 * IPv4Packets.MAX_PACKET_LENGTH

  datatype State = SynSent | SynReceived | Established | CloseWait | LastAck | Closing | FinWait1 | FinWait2

  /** `State.isConnected`. */
  predicate IsConnected(s: State) {
    s != SynSent && s != SynReceived
  }

  /** `State.isClosed`: our side has sent its FIN. */
  predicate IsClosed(s: State) {
    s == FinWait1 || s == FinWait2 || s == Closing || s == LastAck
  }

  /**
   * The connection's fields. `state` is `None` before the first packet and
   * after a reset (`null` in the Java code); `open` is whether the channel is
   * open and its selection key valid; `connected` whether the channel has
   * finished connecting. The template's flags, sequence and acknowledgement
   * numbers are overwritten before every use, so they are passed at each use.
   */
  datatype TcpConnection = TcpConnection(
    id: ConnectionIds.ConnectionId,
    template: Packetizers.Packetizer,
    state: Option<State>,
    synSeqNum: int32,
    seqNum: int32,
    ackNum: int32,
    theirAckNum: int32,
    finSeqNum: Option<int32>,
    finReceived: bool,
    clientWindow: u16,
    toNetwork: seq<byte>,
    packetForClient: Option<IPv4Packets.Packet>,
    interests: Connections.Interests,
    idleSince: int,
    open: bool,
    connected: bool)

  /** The response template is a 40-byte TCP template, the stream buffer within its capacity, a pending packet a TCP packet. */
  predicate Valid(c: TcpConnection) {
    Packetizers.IsTemplate(c.template) && c.template.transport.Tcp?
    && Packetizers.HeadersLength(c.template) == 40
    && |c.toNetwork| <= BUFFER_CAPACITY
    && (c.packetForClient.Some? ==> IPv4Packets.WellFormed(c.packetForClient.value) && c.packetForClient.value.transport.Tcp?)
  }

  /** The fields of a client segment the state machine reads. */
  datatype Segment = Segment(
    seqNumber: int32, ackNumber: int32,
    syn: bool, isAck: bool, fin: bool, rst: bool,
    window: u16, payload: seq<byte>)

  /** Reads a segment from a valid TCP packet. */
  function SegmentOf(p: IPv4Packets.Packet): (s: Segment)
    requires IPv4Packets.WellFormed(p) && p.transport.Tcp?
    ensures s.payload == p.payload && |s.payload| == IPv4Packets.PayloadLength(p)
  {
    var h := p.transport.tcp;
    Segment(TcpHeaders.SequenceNumber(h), TcpHeaders.AcknowledgementNumber(h),
            TcpHeaders.IsSyn(h), TcpHeaders.IsAck(h), TcpHeaders.IsFin(h), TcpHeaders.IsRst(h),
            TcpHeaders.Window(h), p.payload)
  }

  /**
   * What a step asks of the client: an empty response with the given flags
   * and numbers (`sendEmptyPacketToClient`), `consume(this)`, or `close()`.
   */
  datatype Action = Reply(flags: nat, seqNumber: int32, ackNumber: int32) | Consume | Close

  type Step = (TcpConnection, seq<Action>)

  /** Nothing follows a close. */
  predicate ClosesLast(acts: seq<Action>) {
    forall i :: 0 <= i < |acts| && acts[i].Close? ==> i == |acts| - 1
  }

  /** Whether the step ends by closing the connection. */
  predicate Closes(acts: seq<Action>) {
    |acts| > 0 && acts[|acts| - 1].Close?
  }

  /** The template: the request's headers, TCP options dropped, then addresses and ports swapped. */
  function Template(p: IPv4Packets.Packet): (z: Packetizers.Packetizer)
    requires IPv4Packets.WellFormed(p) && p.transport.Tcp?
    ensures Packetizers.IsTemplate(z) && z.transport.Tcp? && Packetizers.HeadersLength(z) == 40
    ensures Connections.Answers(p.ipv4, p.transport, z)
  {
    var t := TransportHeaders.Tcp(TcpHeaders.ShrinkOptions(p.transport.tcp));
    var h := p.transport.tcp.raw;
    var s := TcpHeaders.ShrinkOptions(p.transport.tcp).raw;
    assert s[0] == h[0] && s[1] == h[1] && s[2] == h[2] && s[3] == h[3];
    Connections.ResponseTemplate(p.ipv4, t)
  }

  /** The constructor: the template, `OP_CONNECT` interest, every number 0, the clock read once. */
  function Create(id: ConnectionIds.ConnectionId, p: IPv4Packets.Packet, now: int): (c: TcpConnection)
    requires IPv4Packets.WellFormed(p) && p.transport.Tcp?
    ensures Valid(c) && c.id == id && c.state.None? && c.open && !c.connected
    ensures c.interests == Connections.Interests(false, false, true)
    ensures |c.toNetwork| == 0 && c.packetForClient.None? && c.finSeqNum.None?
  {
    TcpConnection(id, Template(p), None, 0, 0, 0, 0, None, false, 0, [], None,
                  Connections.Interests(false, false, true), now, true, false)
  }

  /** The next client sequence number expected: everything acknowledged plus everything buffered. */
  function Expected(c: TcpConnection): int32 {
    Wrap32(c.ackNum + |c.toNetwork|)
  }

  /** `close()`: the channel is closed and the connection leaves the router. */
  function CloseNow(c: TcpConnection): (r: Step) {
    (c.(open := false), [Close])
  }

  /** `resetConnection`: forget the state, send RST with the current numbers, close. */
  function Reset(c: TcpConnection): (r: Step) {
    (c.(state := None, open := false), [Reply(TcpHeaders.FLAG_RST, c.seqNum, c.ackNum), Close])
  }

  /** `handleFirstPacket`. */
  function HandleFirstPacket(c: TcpConnection, s: Segment, isn: int32): (r: Step) {
    if !s.syn then Reset(c.(seqNum := s.ackNumber))
    else
      (c.(ackNum := Wrap32(s.seqNumber + 1), synSeqNum := s.seqNumber, seqNum := isn,
          clientWindow := s.window, state := Some(SynSent)), [])
  }

  /** `handleDuplicateSyn`. */
  function HandleDuplicateSyn(c: TcpConnection, s: Segment): (r: Step) {
    if c.state == Some(SynSent) then (c.(synSeqNum := s.seqNumber, ackNum := Wrap32(s.seqNumber + 1)), [])
    else if s.seqNumber != c.synSeqNum then Reset(c)
    else (c, [])
  }

  /** `handleAck`: completes the handshake, or buffers the payload when it fits. */
  function HandleAck(c: TcpConnection, s: Segment): (r: TcpConnection) {
    if c.state == Some(SynReceived) then c.(state := Some(Established))
    else if |s.payload| == 0 then c
    else if BUFFER_CAPACITY - |c.toNetwork| < |s.payload| then c
    else c.(toNetwork := c.toNetwork + s.payload)
  }

  /** `doHandleFin`: acknowledges the client's FIN and advances the closing states. */
  function DoHandleFin(c: TcpConnection): (r: Step) {
    var c1 := c.(ackNum := Wrap32(c.ackNum + 1));
    if c1.state == Some(Established) then
      (c1.(finSeqNum := Some(c1.seqNum), seqNum := Wrap32(c1.seqNum + 1), state := Some(LastAck)),
       [Reply(TcpHeaders.FLAG_FIN + TcpHeaders.FLAG_ACK, c1.seqNum, c1.ackNum)])
    else if c1.state == Some(FinWait1) then
      (c1.(state := Some(Closing)), [Reply(TcpHeaders.FLAG_ACK, c1.seqNum, c1.ackNum)])
    else if c1.state == Some(FinWait2) then
      (c1.(open := false), [Reply(TcpHeaders.FLAG_ACK, c1.seqNum, c1.ackNum), Close])
    else (c1, [])
  }

  /** `handleFin`: records the FIN, and processes it at once only when nothing is left to write. */
  function HandleFin(c: TcpConnection): (r: Step) {
    var c1 := c.(finReceived := true);
    if |c1.toNetwork| == 0 then DoHandleFin(c1) else (c1, [])
  }

  /** `handleFinAck`: the client acknowledged our FIN. */
  function HandleFinAck(c: TcpConnection): (r: Step) {
    if c.state == Some(LastAck) || c.state == Some(Closing) then CloseNow(c)
    else if c.state == Some(FinWait1) then (c.(state := Some(FinWait2)), [])
    else (c, [])
  }

  /** Whether the segment acknowledges our FIN: `ack == finSequenceNumber + 1` in Java `int` arithmetic. */
  predicate AcksFin(c: TcpConnection, s: Segment) {
    c.finSeqNum.Some? && s.ackNumber == Wrap32(c.finSeqNum.value + 1)
  }

  /** `handlePacket`. */
  function HandlePacket(c: TcpConnection, s: Segment, isn: int32): (r: Step) {
    if c.state.None? then HandleFirstPacket(c, s, isn)
    else if s.syn then HandleDuplicateSyn(c, s)
    else if s.seqNumber != Expected(c) then (c, [])
    else
      var c1 := c.(clientWindow := s.window, theirAckNum := s.ackNumber);
      if s.rst then CloseNow(c1) else HandleInOrder(c1, s)
  }

  /** The FIN flag of an in-order segment. */
  function FinStep(c: TcpConnection, s: Segment): (r: Step) {
    if s.fin then HandleFin(c) else (c, [])
  }

  /** The acknowledgement of our FIN carried by an in-order segment. */
  function FinAckStep(c: TcpConnection, s: Segment): (r: Step) {
    if AcksFin(c, s) then HandleFinAck(c) else (c, [])
  }

  /** An in-order segment without RST: its ACK, then its FIN, then whether it acknowledges our FIN. */
  function HandleInOrder(c: TcpConnection, s: Segment): (r: Step) {
    var c2 := if s.isAck then HandleAck(c, s) else c;
    var f := FinStep(c2, s);
    var g := FinAckStep(f.0, s);
    (g.0, f.1 + g.1)
  }

  /** The room left in the client's receive window, forced into [0, clientWindow]. */
  function RemainingClientWindow(c: TcpConnection): (w: int)
    ensures 0 <= w <= c.clientWindow
    ensures w > 0 ==> (w - (c.theirAckNum + c.clientWindow - c.seqNum)) % 0x1_0000_0000 == 0
  {
    var remaining := Wrap32(c.theirAckNum + c.clientWindow - c.seqNum);
    if remaining < 0 || remaining > c.clientWindow then 0 else remaining
  }

  /**
   * `mayRead`: connected, not closing, no packet waiting for the client, and
   * room in its window. The Java code would dereference a `null` state here;
   * it never does, because a connection without a state has its key cancelled.
   */
  predicate MayRead(c: TcpConnection) {
    match c.state
    case None => false
    case Some(st) => IsConnected(st) && !IsClosed(st) && c.packetForClient.None? && RemainingClientWindow(c) > 0
  }

  predicate MayWrite(c: TcpConnection) {
    |c.toNetwork| > 0
  }

  predicate MayConnect(c: TcpConnection) {
    c.state == Some(SynSent)
  }

  /** `updateInterests`: nothing once the key is cancelled. */
  function UpdateInterests(c: TcpConnection): (r: TcpConnection)
    ensures r.(interests := c.interests) == c
    ensures c.open ==> r.interests == Connections.Interests(MayRead(c), MayWrite(c), MayConnect(c))
    ensures !c.open ==> r == c
  {
    if !c.open then c
    else c.(interests := Connections.Interests(MayRead(c), MayWrite(c), MayConnect(c)))
  }

  /** `sendToNetwork`: handles the client's packet, then updates the interests. */
  function SendToNetwork(c: TcpConnection, s: Segment, isn: int32): (r: Step) {
    var (c1, acts) := HandlePacket(c, s, isn);
    (UpdateInterests(c1), acts)
  }

  /** `processConnect`: the socket to the destination finished connecting, or failed. */
  function ProcessConnect(c: TcpConnection, connected: bool): (r: Step) {
    if !connected then CloseNow(c)
    else
      (c.(state := Some(SynReceived), seqNum := Wrap32(c.seqNum + 1), connected := true),
       [Reply(TcpHeaders.FLAG_SYN + TcpHeaders.FLAG_ACK, c.seqNum, c.ackNum)])
  }

  /** `eof`: the destination closed its side; send FIN and wait for its acknowledgement. */
  function Eof(c: TcpConnection): (r: Step) {
    (c.(finSeqNum := Some(c.seqNum), seqNum := Wrap32(c.seqNum + 1),
        state := Some(if c.state == Some(CloseWait) then LastAck else FinWait1)),
     [Reply(TcpHeaders.FLAG_FIN + TcpHeaders.FLAG_ACK, c.seqNum, c.ackNum)])
  }

  /** `updateHeaders`: flags, sequence and acknowledgement numbers written into the template. */
  function WithHeaders(z: Packetizers.Packetizer, flags: nat, seqNumber: int32, ackNumber: int32): (r: Packetizers.Packetizer)
    requires Packetizers.IsTemplate(z) && z.transport.Tcp?
    ensures Packetizers.IsTemplate(r) && r.transport.Tcp? && r.ipv4 == z.ipv4
    ensures Packetizers.HeadersLength(r) == Packetizers.HeadersLength(z)
    ensures TcpHeaders.Flags(r.transport.tcp) == flags % 0x100
    ensures TcpHeaders.SequenceNumber(r.transport.tcp) == seqNumber
    ensures TcpHeaders.AcknowledgementNumber(r.transport.tcp) == ackNumber
    ensures forall i :: 0 <= i < 4 ==> r.transport.tcp.raw[i] == z.transport.tcp.raw[i]
  {
    var h := TcpHeaders.SetFlags(z.transport.tcp, flags);
    var h := TcpHeaders.SetSequenceNumber(h, seqNumber);
    var h := TcpHeaders.SetAcknowledgementNumber(h, ackNumber);
    z.(transport := TransportHeaders.Tcp(h))
  }

  /** A well-formed TCP packet carrying the given flags, sequence and acknowledgement numbers. */
  predicate Carries(p: IPv4Packets.Packet, flags: nat, seqNumber: int32, ackNumber: int32) {
    IPv4Packets.WellFormed(p) && p.transport.Tcp?
    && TcpHeaders.Flags(p.transport.tcp) == flags % 0x100
    && TcpHeaders.SequenceNumber(p.transport.tcp) == seqNumber
    && TcpHeaders.AcknowledgementNumber(p.transport.tcp) == ackNumber
  }

  /** A packet built from a TCP template keeps the template's flags and numbers. */
  lemma BuiltKeepsNumbers(z: Packetizers.Packetizer, payload: seq<byte>, p: IPv4Packets.Packet)
    requires Packetizers.IsTemplate(z) && z.transport.Tcp? && Packetizers.Built(z, payload, p)
    ensures Carries(p, TcpHeaders.Flags(z.transport.tcp), TcpHeaders.SequenceNumber(z.transport.tcp),
                    TcpHeaders.AcknowledgementNumber(z.transport.tcp))
  {
    assert Packetizers.KeepsTemplateBytes(z, p.transport);
    assert forall i :: 4 <= i < 14 ==> !TransportHeaders.LengthOrChecksumByte(z.transport, i);
    TcpHeaders.SameNumbers(p.transport.tcp, z.transport.tcp);
  }

  /** How many bytes one read may take: the room in the client's window, and at most `MAX_PAYLOAD_SIZE`. */
  function ReadLimit(c: TcpConnection): (n: int)
    ensures 0 <= n <= MAX_PAYLOAD_SIZE && n <= RemainingClientWindow(c)
    ensures n == RemainingClientWindow(c) || n == MAX_PAYLOAD_SIZE
  {
    Packetizers.Min(RemainingClientWindow(c), MAX_PAYLOAD_SIZE)
  }

  /**
   * `processReceive`: reads at most `ReadLimit` bytes from the socket into a
   * packet with ACK and PSH set, our sequence number and our acknowledgement
   * number, and offers it to the client; the end of stream sends FIN, an I/O
   * error resets.
   */
  function ProcessReceive(c: TcpConnection, read: Packetizers.ReadResult): (r: Step)
    requires Valid(c)
    ensures read.IOError? ==> r == Reset(c)
    ensures read.Eof? ==> r == Eof(c)
    ensures read.Bytes? ==>
      r.1 == [Consume] && r.0.packetForClient.Some? && r.0 == c.(packetForClient := r.0.packetForClient)
      && Carries(r.0.packetForClient.value, TcpHeaders.FLAG_ACK + TcpHeaders.FLAG_PSH, c.seqNum, c.ackNum)
      && r.0.packetForClient.value.payload == read.data[..Packetizers.Min(|read.data|, ReadLimit(c))]
  {
    match read
    case IOError => Reset(c)
    case Eof => Eof(c)
    case Bytes(data) =>
      var z := WithHeaders(c.template, TcpHeaders.FLAG_ACK + TcpHeaders.FLAG_PSH, c.seqNum, c.ackNum);
      (c.(packetForClient := Some(ReadPacket(z, data, ReadLimit(c)))), [Consume])
  }

  /**
   * The packet `packetize` builds from the bytes read. The packetizer's
   * error and end-of-stream answers mirror the read's, and with at most
   * `MAX_PAYLOAD_SIZE` bytes inflating never fails.
   */
  function ReadPacket(z: Packetizers.Packetizer, data: seq<byte>, max: int): (p: IPv4Packets.Packet)
    requires Packetizers.IsTemplate(z) && z.transport.Tcp? && Packetizers.HeadersLength(z) == 40
    requires 0 <= max <= MAX_PAYLOAD_SIZE
    ensures Packetizers.Packetize(z, Packetizers.Bytes(data), max) == Success(Some(p))
    ensures Carries(p, TcpHeaders.Flags(z.transport.tcp), TcpHeaders.SequenceNumber(z.transport.tcp),
                    TcpHeaders.AcknowledgementNumber(z.transport.tcp))
    ensures p.payload == data[..Packetizers.Min(|data|, max)]
  {
    var p := Packetizers.Packetize(z, Packetizers.Bytes(data), max).value.value;
    BuiltKeepsNumbers(z, data[..Packetizers.Min(|data|, max)], p);
    p
  }

  /** Recomputing the checksums of a TCP packet keeps its flags, sequence and acknowledgement numbers. */
  lemma ChecksumsKeepNumbers(q: IPv4Packets.Packet)
    requires IPv4Packets.WellFormed(q) && q.transport.Tcp?
    ensures IPv4Packets.ComputeChecksums(q).transport.Tcp?
    ensures TcpHeaders.AcknowledgementNumber(IPv4Packets.ComputeChecksums(q).transport.tcp) == TcpHeaders.AcknowledgementNumber(q.transport.tcp)
    ensures TcpHeaders.SequenceNumber(IPv4Packets.ComputeChecksums(q).transport.tcp) == TcpHeaders.SequenceNumber(q.transport.tcp)
    ensures TcpHeaders.Flags(IPv4Packets.ComputeChecksums(q).transport.tcp) == TcpHeaders.Flags(q.transport.tcp)
  {
    var r := IPv4Packets.ComputeChecksums(q);
    assert r.transport.Tcp?;
    assert forall i :: 4 <= i < 14 ==> !TransportHeaders.LengthOrChecksumByte(q.transport, i);
    TcpHeaders.SameNumbers(r.transport.tcp, q.transport.tcp);
  }

  /** `get()`: the pending packet with the current acknowledgement number and its checksums recomputed. */
  function Get(c: TcpConnection): (p: IPv4Packets.Packet)
    requires Valid(c) && c.packetForClient.Some?
    ensures IPv4Packets.WellFormed(p) && p.transport.Tcp?
    ensures TcpHeaders.AcknowledgementNumber(p.transport.tcp) == c.ackNum
    ensures p.payload == c.packetForClient.value.payload
    ensures TransportHeaders.ChecksumVerifies(p.transport, p.ipv4, p.payload)
  {
    var q := c.packetForClient.value;
    var h := TcpHeaders.SetAcknowledgementNumber(q.transport.tcp, c.ackNum);
    var q1 := q.(transport := TransportHeaders.Tcp(h));
    ChecksumsKeepNumbers(q1);
    IPv4Packets.ComputeChecksums(q1)
  }

  /** `next()`: the client took the pending packet; our sequence number moves past its payload. */
  function Next(c: TcpConnection): (r: TcpConnection)
    requires Valid(c) && c.packetForClient.Some?
    ensures Valid(r) && r.packetForClient.None?
    ensures r.id == c.id && r.template == c.template && r.open == c.open
  {
    UpdateInterests(c.(seqNum := Wrap32(c.seqNum + IPv4Packets.PayloadLength(c.packetForClient.value)), packetForClient := None))
  }

  /**
   * `processSend`: writes buffered client bytes to the socket. Written bytes
   * are acknowledged; once the buffer empties a deferred FIN is processed.
   * A write of nothing closes, an I/O error resets.
   */
  function ProcessSend(c: TcpConnection, w: Connections.WriteResult): (r: Step)
    requires w.Written? ==> w.n <= |c.toNetwork|
  {
    match w
    case WriteError => Reset(c)
    case Written(n) =>
      if n > 0 then
        var c1 := c.(ackNum := Wrap32(c.ackNum + n), toNetwork := c.toNetwork[n..]);
        if c1.finReceived && |c1.toNetwork| == 0 then DoHandleFin(c1)
        else (c1, [Reply(TcpHeaders.FLAG_ACK, c1.seqNum, c1.ackNum)])
      else CloseNow(c)
  }

  /** `touch()`: the selection handler records the time of every event. */
  function Touch(c: TcpConnection, now: int): (r: TcpConnection)
    ensures r.(idleSince := c.idleSince) == c && r.idleSince == now
  {
    c.(idleSince := now)
  }

  /** `disconnect()`: cancels the key and closes the channel. */
  function Disconnect(c: TcpConnection): (r: TcpConnection)
    ensures !r.open && r.(open := c.open) == c
  {
    c.(open := false)
  }

  /** `isExpired`: idle for `IDLE_TIMEOUT` and not an open, connected, established connection. */
  predicate IsExpired(c: TcpConnection, now: int) {
    now >= c.idleSince + IDLE_TIMEOUT && !(c.open && c.connected && c.state == Some(Established))
  }

  /** `createEmptyResponsePacket`: the template with the given flags and numbers, and no payload. */
  function EmptyResponse(z: Packetizers.Packetizer, flags: nat, seqNumber: int32, ackNumber: int32): (p: IPv4Packets.Packet)
    requires Packetizers.IsTemplate(z) && z.transport.Tcp?
    ensures IPv4Packets.WellFormed(p) && p.transport.Tcp? && |p.payload| == 0
    ensures Packetizers.Built(WithHeaders(z, flags, seqNumber, ackNumber), [], p)
  {
    Packetizers.PacketizeEmpty(WithHeaders(z, flags, seqNumber, ackNumber))
  }

  /** The call one action makes into the client, a reply built from the template `z`. */
  function RenderAction(z: Packetizers.Packetizer, a: Action): (out: Connections.Output)
    requires Packetizers.IsTemplate(z) && z.transport.Tcp?
    ensures out.Close? <==> a.Close?
    ensures out.Consume? <==> a.Consume?
    ensures a.Reply? ==> out == Connections.ToClient(EmptyResponse(z, a.flags, a.seqNumber, a.ackNumber))
  {
    match a
    case Reply(f, n, m) => Connections.ToClient(EmptyResponse(z, f, n, m))
    case Consume => Connections.Consume
    case Close => Connections.Close
  }

  /** The calls a step makes into the client, in order. */
  function Render(z: Packetizers.Packetizer, acts: seq<Action>): (outs: seq<Connections.Output>)
    requires Packetizers.IsTemplate(z) && z.transport.Tcp?
    ensures |outs| == |acts|
    ensures forall i :: 0 <= i < |acts| ==> outs[i] == RenderAction(z, acts[i])
  {
    if |acts| == 0 then [] else [RenderAction(z, acts[0])] + Render(z, acts[1..])
  }

  /** A step keeps the channel contract: nothing follows a close, and the channel is closed exactly when the step closed it. */
  predicate WellClosed(r: Step) {
    ClosesLast(r.1) && (Closes(r.1) <==> !r.0.open)
  }

  /**
   * The first packet of a flow: a SYN starts the handshake, acknowledging
   * the client's number plus one and choosing `isn` for our side; anything
   * else is answered with RST at the number it acknowledged, and closes.
   */
  lemma FirstPacket(c: TcpConnection, s: Segment, isn: int32)
    requires c.state.None? && c.open
    ensures s.syn ==>
      var (r, acts) := HandlePacket(c, s, isn);
      r.state == Some(SynSent) && r.synSeqNum == s.seqNumber && r.seqNum == isn
      && (r.ackNum - (s.seqNumber + 1)) % 0x1_0000_0000 == 0
      && r.clientWindow == s.window && r.toNetwork == c.toNetwork && r.open && acts == []
    ensures !s.syn ==>
      var (r, acts) := HandlePacket(c, s, isn);
      r.state.None? && !r.open && acts == [Reply(TcpHeaders.FLAG_RST, s.ackNumber, c.ackNum), Close]
  {
  }

  /**
   * A SYN on a known flow: while the handshake is still waiting for our
   * socket it replaces the client's initial number; afterwards a
   * retransmission of the same SYN is ignored and a different one resets.
   */
  lemma DuplicateSyn(c: TcpConnection, s: Segment, isn: int32)
    requires c.state.Some? && s.syn
    ensures c.state == Some(SynSent) ==>
      HandlePacket(c, s, isn).0.synSeqNum == s.seqNumber
      && (HandlePacket(c, s, isn).0.ackNum - (s.seqNumber + 1)) % 0x1_0000_0000 == 0
      && HandlePacket(c, s, isn).0.state == c.state && HandlePacket(c, s, isn).1 == []
    ensures c.state != Some(SynSent) && s.seqNumber == c.synSeqNum ==> HandlePacket(c, s, isn) == (c, [])
    ensures c.state != Some(SynSent) && s.seqNumber != c.synSeqNum ==>
      HandlePacket(c, s, isn).0.state.None? && !HandlePacket(c, s, isn).0.open
      && HandlePacket(c, s, isn).1 == [Reply(TcpHeaders.FLAG_RST, c.seqNum, c.ackNum), Close]
  {
  }

  /** A segment that does not start at the next expected number is ignored entirely. */
  lemma OutOfOrderIgnored(c: TcpConnection, s: Segment, isn: int32)
    requires c.state.Some? && !s.syn && s.seqNumber != Expected(c)
    ensures HandlePacket(c, s, isn) == (c, [])
  {
  }

  /** An in-order RST closes the connection without a reply. */
  lemma InOrderReset(c: TcpConnection, s: Segment, isn: int32)
    requires c.state.Some? && !s.syn && s.seqNumber == Expected(c) && s.rst
    ensures var (r, acts) := HandlePacket(c, s, isn);
      !r.open && acts == [Close] && r.state == c.state && r.clientWindow == s.window && r.theirAckNum == s.ackNumber
  {
  }

  /**
   * The ACK of our SYN+ACK completes the handshake; its payload, if any, is
   * dropped (the code returns before buffering it).
   */
  lemma HandshakeCompleted(c: TcpConnection, s: Segment, isn: int32)
    requires c.state == Some(SynReceived) && c.finSeqNum.None?
    requires !s.syn && s.seqNumber == Expected(c) && !s.rst && s.isAck && !s.fin
    ensures var (r, acts) := HandlePacket(c, s, isn);
      r.state == Some(Established) && r.toNetwork == c.toNetwork && r.open == c.open && acts == []
  {
  }

  /**
   * Data from the client: an in-order ACK segment is appended to the stream
   * buffer exactly when it is non-empty and fits the room left, and then the
   * next expected number moves past it.
   */
  lemma DataBuffered(c: TcpConnection, s: Segment, isn: int32)
    requires c.state.Some? && c.state != Some(SynReceived)
    requires !s.syn && s.seqNumber == Expected(c) && !s.rst && s.isAck && !s.fin
    ensures var r := HandlePacket(c, s, isn).0;
      (0 < |s.payload| <= BUFFER_CAPACITY - |c.toNetwork| ==> r.toNetwork == c.toNetwork + s.payload)
      && (!(0 < |s.payload| <= BUFFER_CAPACITY - |c.toNetwork|) ==> r.toNetwork == c.toNetwork)
      && r.ackNum == c.ackNum
    ensures 0 < |s.payload| <= BUFFER_CAPACITY - |c.toNetwork| ==>
      Expected(HandlePacket(c, s, isn).0) == Wrap32(s.seqNumber + |s.payload|)
  {
    var r := HandlePacket(c, s, isn).0;
    if 0 < |s.payload| <= BUFFER_CAPACITY - |c.toNetwork| {
      assert r.toNetwork == c.toNetwork + s.payload;
      Wrap32Add(c.ackNum + |c.toNetwork|, |s.payload|);
    }
  }

  /**
   * A FIN from the client is acknowledged only once everything it sent
   * before has been written to the socket: with bytes still buffered it is
   * only recorded; otherwise the acknowledgement number moves past it and
   * the closing state advances.
   */
  lemma {:induction false} ClientFin(c: TcpConnection)
    ensures HandleFin(c).0.finReceived
    ensures |c.toNetwork| > 0 ==> HandleFin(c) == (c.(finReceived := true), [])
    ensures |c.toNetwork| == 0 ==>
      var (r, acts) := HandleFin(c);
      (r.ackNum - (c.ackNum + 1)) % 0x1_0000_0000 == 0
      && (c.state == Some(Established) ==>
            r.state == Some(LastAck) && r.finSeqNum == Some(c.seqNum)
            && (r.seqNum - (c.seqNum + 1)) % 0x1_0000_0000 == 0 && r.open == c.open
            && acts == [Reply(TcpHeaders.FLAG_FIN + TcpHeaders.FLAG_ACK, c.seqNum, r.ackNum)])
      && (c.state == Some(FinWait1) ==>
            r.state == Some(Closing) && r.seqNum == c.seqNum && acts == [Reply(TcpHeaders.FLAG_ACK, c.seqNum, r.ackNum)])
      && (c.state == Some(FinWait2) ==>
            !r.open && acts == [Reply(TcpHeaders.FLAG_ACK, c.seqNum, r.ackNum), Close])
      && (c.state != Some(Established) && c.state != Some(FinWait1) && c.state != Some(FinWait2) ==>
            r.state == c.state && r.seqNum == c.seqNum && acts == [])
  {
  }

  /**
   * The client acknowledged our FIN: in LAST_ACK or CLOSING the connection
   * closes, FIN_WAIT_1 moves to FIN_WAIT_2, and any other state is kept.
   */
  lemma FinAcknowledged(c: TcpConnection)
    ensures c.state == Some(LastAck) || c.state == Some(Closing) ==> HandleFinAck(c) == (c.(open := false), [Close])
    ensures c.state == Some(FinWait1) ==> HandleFinAck(c) == (c.(state := Some(FinWait2)), [])
    ensures c.state != Some(LastAck) && c.state != Some(Closing) && c.state != Some(FinWait1) ==> HandleFinAck(c) == (c, [])
  {
  }

  /**
   * Our own close completes: after `eof` from ESTABLISHED, a segment that
   * acknowledges the FIN moves to FIN_WAIT_2, and after the client's FIN
   * (LAST_ACK) the acknowledging segment closes the connection.
   */
  lemma FinAckClosesLastAck(c: TcpConnection, s: Segment, isn: int32)
    requires c.state == Some(LastAck) && c.finSeqNum.Some?
    requires !s.syn && s.seqNumber == Expected(c) && !s.rst && !s.fin && AcksFin(c, s)
    ensures var (r, acts) := HandlePacket(c, s, isn);
      !r.open && acts == [Close]
  {
  }

  /**
   * The socket to the destination connected: SYN+ACK goes out with the
   * initial number, which the SYN then consumes; a failed connect closes.
   */
  lemma Connect(c: TcpConnection, ok: bool)
    ensures ok ==>
      var (r, acts) := ProcessConnect(c, ok);
      r.state == Some(SynReceived) && r.connected && r.open == c.open
      && (r.seqNum - (c.seqNum + 1)) % 0x1_0000_0000 == 0
      && acts == [Reply(TcpHeaders.FLAG_SYN + TcpHeaders.FLAG_ACK, c.seqNum, c.ackNum)]
    ensures !ok ==> ProcessConnect(c, ok) == (c.(open := false), [Close])
  {
  }

  /**
   * The destination closed its side: FIN+ACK goes out with the current
   * number, which is remembered as the FIN's and then consumed.
   */
  lemma EndOfStream(c: TcpConnection)
    ensures var (r, acts) := Eof(c);
      r.finSeqNum == Some(c.seqNum) && (r.seqNum - (c.seqNum + 1)) % 0x1_0000_0000 == 0
      && r.open == c.open && r.ackNum == c.ackNum && r.toNetwork == c.toNetwork
      && acts == [Reply(TcpHeaders.FLAG_FIN + TcpHeaders.FLAG_ACK, c.seqNum, c.ackNum)]
      && r.state.Some? && IsClosed(r.state.value)
    ensures c.state != Some(CloseWait) ==> Eof(c).0.state == Some(FinWait1)
  {
  }

  /**
   * The remaining window is the exact room `theirAck + window - seq` whenever
   * that difference (taken in Java `int` arithmetic) lies in [0, window].
   */
  lemma WindowExact(c: TcpConnection)
    requires 0 <= c.theirAckNum + c.clientWindow - c.seqNum <= c.clientWindow
    ensures RemainingClientWindow(c) == c.theirAckNum + c.clientWindow - c.seqNum
  {
  }

  /** Everything our side sent has been acknowledged: the whole window is available. */
  lemma WindowAllAcknowledged(c: TcpConnection)
    requires c.theirAckNum == c.seqNum
    ensures RemainingClientWindow(c) == c.clientWindow
  {
  }

  /**
   * The interests of an open connection: reading the socket only when the
   * handshake is complete, our FIN not yet sent, no packet waiting for the
   * client and room in its window; writing exactly when client bytes are
   * buffered; connecting exactly in SYN_SENT.
   */
  lemma InterestsRules(c: TcpConnection)
    requires c.open
    ensures var i := UpdateInterests(c).interests;
      (i.read ==> c.state.Some? && IsConnected(c.state.value) && !IsClosed(c.state.value)
                  && c.packetForClient.None? && RemainingClientWindow(c) > 0)
      && (i.write <==> |c.toNetwork| > 0)
      && (i.connect <==> c.state == Some(SynSent))
    ensures c.state == Some(Established) && c.packetForClient.None? && RemainingClientWindow(c) > 0 ==> UpdateInterests(c).interests.read
  {
  }

  /** Closing or resetting is for good: no client packet reopens the channel. */
  lemma PacketKeepsClosed(c: TcpConnection, s: Segment, isn: int32)
    requires !c.open
    ensures !HandlePacket(c, s, isn).0.open && !SendToNetwork(c, s, isn).0.open
  {
    if c.state.Some? && !s.syn && s.seqNumber == Expected(c) && !s.rst {
      var c1 := c.(clientWindow := s.window, theirAckNum := s.ackNumber);
      var c2 := if s.isAck then HandleAck(c1, s) else c1;
      assert !FinStep(c2, s).0.open;
      assert !HandleInOrder(c1, s).0.open;
    }
  }

  /** Nor does any socket event. */
  lemma SocketKeepsClosed(c: TcpConnection, ok: bool, w: Connections.WriteResult)
    requires !c.open
    requires w.Written? ==> w.n <= |c.toNetwork|
    ensures !ProcessConnect(c, ok).0.open && !ProcessSend(c, w).0.open && !Eof(c).0.open
  {
  }

  /** The client's FIN processing closes at most once, last, exactly when it closes the channel. */
  lemma DoHandleFinWellClosed(c: TcpConnection)
    requires c.open
    ensures WellClosed(DoHandleFin(c)) && WellClosed(HandleFin(c))
    ensures !DoHandleFin(c).0.open ==> DoHandleFin(c).0.state == c.state == Some(FinWait2)
  {
  }

  /** An in-order segment handled by an open connection closes at most once, last, exactly when it closes the channel. */
  lemma InOrderWellClosed(c: TcpConnection, s: Segment)
    requires c.open
    ensures WellClosed(HandleInOrder(c, s))
  {
    var c2 := if s.isAck then HandleAck(c, s) else c;
    var f := FinStep(c2, s);
    var g := FinAckStep(f.0, s);
    DoHandleFinWellClosed(c2);
    assert WellClosed(f);
    if !f.0.open {
      assert f.0.state == Some(FinWait2);
      assert g.1 == [];
      assert f.1 + g.1 == f.1;
    } else if !g.0.open {
      assert g.1 == [Close];
      assert forall i :: 0 <= i < |f.1| ==> !f.1[i].Close?;
    } else {
      assert g.1 == [];
      assert f.1 + g.1 == f.1;
    }
  }

  /** Every client packet handled by an open connection closes at most once, last, and exactly when it closes the channel. */
  lemma HandlePacketWellClosed(c: TcpConnection, s: Segment, isn: int32)
    requires c.open
    ensures WellClosed(HandlePacket(c, s, isn)) && WellClosed(SendToNetwork(c, s, isn))
  {
    if c.state.Some? && !s.syn && s.seqNumber == Expected(c) && !s.rst {
      InOrderWellClosed(c.(clientWindow := s.window, theirAckNum := s.ackNumber), s);
    }
  }

  /** A client packet is answered with replies and closes only: only a socket read hands a packet source to the client. */
  lemma PacketNeverConsumes(c: TcpConnection, s: Segment, isn: int32)
    ensures forall a :: a in SendToNetwork(c, s, isn).1 ==> !a.Consume?
  {
    if c.state.Some? && !s.syn && s.seqNumber == Expected(c) && !s.rst {
      var c1 := c.(clientWindow := s.window, theirAckNum := s.ackNumber);
      var c2 := if s.isAck then HandleAck(c1, s) else c1;
      var f := FinStep(c2, s);
      assert forall a :: a in f.1 ==> !a.Consume?;
      assert forall a :: a in FinAckStep(f.0, s).1 ==> !a.Consume?;
    }
  }

  /** The socket-side transitions of an open connection keep the same channel contract. */
  lemma SocketStepsWellClosed(c: TcpConnection, ok: bool, w: Connections.WriteResult)
    requires c.open
    requires w.Written? ==> w.n <= |c.toNetwork|
    ensures WellClosed(ProcessConnect(c, ok)) && WellClosed(ProcessSend(c, w)) && WellClosed(Eof(c))
  {
    if w.Written? && w.n > 0 {
      var c1 := c.(ackNum := Wrap32(c.ackNum + w.n), toNetwork := c.toNetwork[w.n..]);
      DoHandleFinWellClosed(c1);
    }
  }

  /** Reading from the socket keeps the channel contract too. */
  lemma ReceiveWellClosed(c: TcpConnection, read: Packetizers.ReadResult)
    requires Valid(c) && c.open
    ensures WellClosed(ProcessReceive(c, read))
  {
    if read.IOError? {
      assert ProcessReceive(c, read).1[1].Close?;
    }
  }

  /** No in-order segment leads into CLOSE_WAIT. */
  lemma InOrderAvoidsCloseWait(c: TcpConnection, s: Segment)
    requires c.state != Some(CloseWait)
    ensures HandleInOrder(c, s).0.state != Some(CloseWait)
  {
    var c2 := if s.isAck then HandleAck(c, s) else c;
    assert c2.state != Some(CloseWait);
    var f := FinStep(c2, s);
    assert f.0.state != Some(CloseWait);
  }

  /** No client packet leads into CLOSE_WAIT. */
  lemma PacketAvoidsCloseWait(c: TcpConnection, s: Segment, isn: int32)
    requires c.state != Some(CloseWait)
    ensures HandlePacket(c, s, isn).0.state != Some(CloseWait)
    ensures SendToNetwork(c, s, isn).0.state != Some(CloseWait)
  {
    if c.state.Some? && !s.syn && s.seqNumber == Expected(c) && !s.rst {
      InOrderAvoidsCloseWait(c.(clientWindow := s.window, theirAckNum := s.ackNumber), s);
    }
  }

  /**
   * Nor does any socket event, so CLOSE_WAIT is never entered, and the
   * `eof` branch that would move from CLOSE_WAIT to LAST_ACK is dead.
   */
  lemma SocketAvoidsCloseWait(c: TcpConnection, ok: bool, w: Connections.WriteResult, now: int)
    requires c.state != Some(CloseWait)
    requires w.Written? ==> w.n <= |c.toNetwork|
    ensures ProcessConnect(c, ok).0.state != Some(CloseWait)
    ensures ProcessSend(c, w).0.state != Some(CloseWait)
    ensures Eof(c).0.state == Some(FinWait1)
    ensures UpdateInterests(c).state != Some(CloseWait) && Touch(c, now).state != Some(CloseWait)
  {
  }

  /** Reading from the socket does not enter CLOSE_WAIT either, and handing a packet over keeps the state (see `NextAdvances`). */
  lemma ReceiveAvoidsCloseWait(c: TcpConnection, read: Packetizers.ReadResult)
    requires Valid(c) && c.state != Some(CloseWait)
    ensures ProcessReceive(c, read).0.state != Some(CloseWait)
  {
  }

  /**
   * Writing `n` buffered bytes moves them from the buffer into the
   * acknowledgement number: the next expected client number is unchanged,
   * and the client is told the new acknowledgement number.
   */
  lemma SendKeepsExpected(c: TcpConnection, n: int)
    requires 0 < n <= |c.toNetwork|
    requires !(c.finReceived && n == |c.toNetwork|)
    ensures var (r, acts) := ProcessSend(c, Connections.Written(n));
      Expected(r) == Expected(c) && r.toNetwork == c.toNetwork[n..]
      && (r.ackNum - (c.ackNum + n)) % 0x1_0000_0000 == 0
      && acts == [Reply(TcpHeaders.FLAG_ACK, c.seqNum, r.ackNum)]
  {
    var r := ProcessSend(c, Connections.Written(n)).0;
    Wrap32Add(c.ackNum + n, |c.toNetwork| - n);
  }

  /**
   * A FIN deferred behind buffered bytes is processed by the write that
   * empties the buffer: the acknowledgement number then covers the written
   * bytes and the FIN.
   */
  lemma DeferredFinProcessed(c: TcpConnection)
    requires c.finReceived && |c.toNetwork| > 0
    ensures var r := ProcessSend(c, Connections.Written(|c.toNetwork|)).0;
      |r.toNetwork| == 0 && (r.ackNum - (c.ackNum + |c.toNetwork| + 1)) % 0x1_0000_0000 == 0
    ensures c.state == Some(Established) ==>
      ProcessSend(c, Connections.Written(|c.toNetwork|)).0.state == Some(LastAck)
  {
    var n := |c.toNetwork|;
    var c1 := c.(ackNum := Wrap32(c.ackNum + n), toNetwork := c.toNetwork[n..]);
    assert ProcessSend(c, Connections.Written(n)) == DoHandleFin(c1);
    Wrap32Add(c.ackNum + n, 1);
  }

  /** Handing the pending packet to the client moves our sequence number past its payload. */
  lemma NextAdvances(c: TcpConnection)
    requires Valid(c) && c.packetForClient.Some?
    ensures (Next(c).seqNum - (c.seqNum + |c.packetForClient.value.payload|)) % 0x1_0000_0000 == 0
    ensures Next(c).seqNum == Wrap32(c.seqNum + |c.packetForClient.value.payload|)
    ensures Next(c).ackNum == c.ackNum && Next(c).toNetwork == c.toNetwork && Next(c).state == c.state
  {
    IPv4Packets.ParseParts(c.packetForClient.value);
  }

  /** Validity depends only on the template, the buffer's size and the pending packet. */
  lemma ValidFrame(c: TcpConnection, d: TcpConnection)
    requires Valid(c) && d.template == c.template && d.packetForClient == c.packetForClient
    requires |d.toNetwork| <= BUFFER_CAPACITY
    ensures Valid(d)
  {
  }

  /** The fields a client packet never touches: id, template and pending packet; the buffer stays within its capacity. */
  predicate PacketFrame(c: TcpConnection, d: TcpConnection) {
    d.id == c.id && d.template == c.template && d.packetForClient == c.packetForClient
    && (|c.toNetwork| <= BUFFER_CAPACITY ==> |d.toNetwork| <= BUFFER_CAPACITY)
  }

  /** An in-order segment keeps the id, the template and the pending packet, and the buffer within its capacity. */
  lemma InOrderFrame(c: TcpConnection, s: Segment)
    ensures PacketFrame(c, HandleInOrder(c, s).0)
  {
    var c2 := if s.isAck then HandleAck(c, s) else c;
    assert PacketFrame(c, c2);
    FinStepsFrame(c2, s);
  }

  /** The FIN steps keep the id, the template, the pending packet and the buffer's bound. */
  lemma FinStepsFrame(c: TcpConnection, s: Segment)
    ensures PacketFrame(c, FinStep(c, s).0) && PacketFrame(FinStep(c, s).0, FinAckStep(FinStep(c, s).0, s).0)
  {
  }

  /** Client packets keep a valid connection valid, with its id and template. */
  lemma PacketKeepsValid(c: TcpConnection, s: Segment, isn: int32)
    requires Valid(c)
    ensures Valid(SendToNetwork(c, s, isn).0)
    ensures SendToNetwork(c, s, isn).0.id == c.id && SendToNetwork(c, s, isn).0.template == c.template
  {
    if c.state.Some? && !s.syn && s.seqNumber == Expected(c) && !s.rst {
      InOrderFrame(c.(clientWindow := s.window, theirAckNum := s.ackNumber), s);
    }
    var d := HandlePacket(c, s, isn).0;
    assert PacketFrame(c, d);
    ValidFrame(c, d);
    ValidFrame(c, SendToNetwork(c, s, isn).0);
  }

  /** So do socket events. */
  lemma SocketKeepsValid(c: TcpConnection, ok: bool)
    requires Valid(c)
    ensures Valid(ProcessConnect(c, ok).0) && Valid(Eof(c).0)
  {
    ValidFrame(c, ProcessConnect(c, ok).0);
    ValidFrame(c, Eof(c).0);
  }

  /** Writing to the socket keeps the id, the template and the pending packet, and only shrinks the buffer. */
  lemma SendFrame(c: TcpConnection, w: Connections.WriteResult)
    requires w.Written? ==> w.n <= |c.toNetwork|
    ensures PacketFrame(c, ProcessSend(c, w).0)
  {
    if w.Written? && w.n > 0 {
      var c1 := c.(ackNum := Wrap32(c.ackNum + w.n), toNetwork := c.toNetwork[w.n..]);
      assert PacketFrame(c, c1);
      assert PacketFrame(c1, DoHandleFin(c1).0);
    }
  }

  /** Writing to the socket keeps a valid connection valid. */
  lemma SendKeepsValid(c: TcpConnection, w: Connections.WriteResult)
    requires Valid(c)
    requires w.Written? ==> w.n <= |c.toNetwork|
    ensures Valid(ProcessSend(c, w).0)
    ensures ProcessSend(c, w).0.id == c.id && ProcessSend(c, w).0.template == c.template
  {
    SendFrame(c, w);
    ValidFrame(c, ProcessSend(c, w).0);
  }

  /** A read into a connection with no pending packet leaves it valid, holding at most one packet. */
  lemma ReceiveKeepsValid(c: TcpConnection, read: Packetizers.ReadResult)
    requires Valid(c) && c.packetForClient.None?
    ensures Valid(ProcessReceive(c, read).0)
    ensures ProcessReceive(c, read).0.id == c.id && ProcessReceive(c, read).0.template == c.template
  {
    if !read.Bytes? {
      ValidFrame(c, ProcessReceive(c, read).0);
    }
  }

  /** An open, connected, established connection never expires; any other one does after `IDLE_TIMEOUT` idle milliseconds. */
  lemma Expiry(c: TcpConnection, now: int)
    ensures c.open && c.connected && c.state == Some(Established) ==> !IsExpired(c, now)
    ensures !(c.open && c.connected && c.state == Some(Established)) ==> (IsExpired(c, now) <==> now - c.idleSince >= IDLE_TIMEOUT)
  {
  }
}
