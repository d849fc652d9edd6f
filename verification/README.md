# revtet relay core in Dafny

This project models the userspace IPv4 relay of revtet (package
`tech.flightdeck.android.revtet.relay`). An Android device tunnels raw IPv4
datagrams to the host over USB. The relay keeps one *client* per device. The
client frames the datagrams out of the byte stream and hands them to a
*router*. The router keeps one *connection* per flow (a UDP, TCP or ICMP
5-tuple). Each connection opens a real socket to the destination and sends the
answers back to the device as datagrams built from a *packetizer* template.

The model is functional throughout:

- Buffers are sequences of byte values (`Bytes.byte`).
- Java `int` and `short` wrap-around is written out (`Bytes.Wrap32`, `Bytes.ToShort`).
- Headers are records over their bytes, together with the port fields the Java classes cache.
- Every operation is a pure function or a short method over sequences.

Sockets, the selector, the clock and the random initial sequence number are
parameters:

- a read is a `Packetizers.ReadResult`: bytes, end of stream, or an I/O error;
- a write is a `Connections.WriteResult`: a count or an I/O error;
- the clock is `now`;
- `Routers.Env` carries the clock, the initial sequence number, whether a socket opens, and whether a UDP buffer accepts a datagram.

A connection step returns its new state together with the calls it makes into
its client, in order: a packet for the device, `consume(this)`, or `close()`.
The router and the client apply those calls.

Modules, in dependency order:

| file | module | models |
|---|---|---|
| wrappers.dfy | `Wrappers` | `Option` and `Result` |
| bytes.dfy | `Bytes` | bytes, Java `int`/`short` wrap-around, big-endian `ByteBuffer` accessors |
| checksum.dfy | `Checksum` | the RFC 1071 one's-complement sum, as used by RFC 791, 792 and 793 |
| net.dfy | `Net` | `Net.java` |
| ipv4_header.dfy | `IPv4Headers` | the IPv4 header fields the relay reads and writes (RFC 791, section 3.1) |
| icmp_header.dfy | `IcmpHeaders` | `ICMPHeader.java` |
| udp_header.dfy | `UdpHeaders` | `UDPHeader.java` |
| tcp_header.dfy | `TcpHeaders` | the TCP header fields the relay uses (RFC 793, section 3.1) |
| transport_header.dfy | `TransportHeaders` | `TransportHeader.java`, dispatching to the three kinds |
| connection_id.dfy | `ConnectionIds` | `ConnectionId.java` |
| ipv4_packet.dfy | `IPv4Packets` | `IPv4Packet.java` |
| packetizer.dfy | `Packetizers` | `Packetizer.java` |
| packet_buffer.dfy | `IPv4PacketBuffers` | `IPv4PacketBuffer.java` |
| connection.dfy | `Connections` | `AbstractConnection.java`, response templates, the ICMP flow's expiry |
| tcp_connection.dfy | `TcpConnections` | `TCPConnection.java` |
| udp_connection.dfy | `UdpConnections` | `UDPConnection.java` |
| router.dfy | `Routers` | `Router.java` |
| client.dfy | `Clients` | `Client.java` |

IPv4Header.java, TCPHeader.java, StreamBuffer.java, DatagramBuffer.java,
Binary.java and PacketSource.java are not part of this model. Only the
operations the modelled code calls are defined for them:

- IPv4 and TCP header fields are read at the fixed offsets of RFC 791 and RFC 793.
- A header is supported when it has version 4, a 20-byte header and protocol 1, 6 or 17.
- The TCP checksum is the one's-complement sum over the TCP header and the payload only. TCPHeader.java is not modelled, and this model assumes the checksum leaves out the RFC 793 pseudo-header.
- A stream buffer is a byte sequence with a capacity, and a write takes bytes from its front.
- Whether a datagram buffer accepts one more datagram is a parameter.
- A packet source is named by its connection's identifier, and the packet it offers is given with it.

Sequence and acknowledgement numbers are Java `int`s, and every update wraps
through `Wrap32`. The TCP state names are the code's own. The relay is the
passive side, yet it enters `SYN_SENT` when the client's SYN arrives.
`CLOSE_WAIT` is tested by `eof` but never assigned, and
`TcpConnections.SocketAvoidsCloseWait` proves that branch dead.

## Model

Source paths are relative to the repository root.

| member | source | states |
|---|---|---|
| Bytes.ShortUnsignedRoundTrip | src/main/java/tech/flightdeck/android/revtet/relay/network/ConnectionId.java:30-32 | a port stored as a `short` and read back with `Short.toUnsignedInt` keeps the same low 16 bits, in both directions |
| Bytes.Wrap32Add | src/main/java/tech/flightdeck/android/revtet/relay/network/TCPConnection.java:136 | Java `int` additions may wrap at each step or once at the end with the same result, so chained sequence-number updates compose |
| Bytes.GetIntPutU32 | src/main/java/tech/flightdeck/android/revtet/relay/network/TCPConnection.java:372-373 | a sequence or acknowledgement number written big-endian into a header reads back as the same Java `int` |
| Bytes.Wrap32 | src/main/java/tech/flightdeck/android/revtet/relay/network/TCPConnection.java:429 | Java `int` addition: the result is a 32-bit signed value congruent to the exact sum modulo 2^32 |
| Bytes.ToShort | src/main/java/tech/flightdeck/android/revtet/relay/network/ConnectionId.java:78 | Java `(short)` cast: a 16-bit signed value congruent to the input modulo 2^16 |
| Bytes.ToUnsigned16 | src/main/java/tech/flightdeck/android/revtet/relay/network/UDPHeader.java:15 | `Short.toUnsignedInt`: a value in 0..65535 congruent to the input modulo 2^16 |
| Checksum.Fold | src/main/java/tech/flightdeck/android/revtet/relay/network/ICMPHeader.java:115-117 | folding the carries yields a 16-bit value congruent to the sum modulo 0xffff, and zero only for a zero sum |
| Checksum.WordSumOddTail | src/main/java/tech/flightdeck/android/revtet/relay/network/ICMPHeader.java:111-113 | an odd trailing byte counts as the high byte of one last word |
| Checksum.StoredChecksumVerifies | src/main/java/tech/flightdeck/android/revtet/relay/network/ICMPHeader.java:95-118 | with the field zeroed before summing, re-summing the words including the stored checksum folds to 0xffff, which is how a receiver verifies it |
| Checksum.FoldComplement | src/main/java/tech/flightdeck/android/revtet/relay/network/ICMPHeader.java:115-118 | adding to a sum the complement of its fold gives a sum that folds to 0xffff, the one's complement identity behind receiver verification |
| Checksum.Checksum | src/main/java/tech/flightdeck/android/revtet/relay/network/ICMPHeader.java:118 | the stored value `(short) ~sum` read unsigned is the 16-bit complement of the folded word sum |
| Checksum.SingleByteCorruptionDetected | src/main/java/tech/flightdeck/android/revtet/relay/network/ICMPHeader.java:98-118 | changing any single byte changes the checksum |
| Checksum.StoreChecksum | src/main/java/tech/flightdeck/android/revtet/relay/network/ICMPHeader.java:95-118 | storing the checksum changes only the two field bytes and makes the whole verify |
| Checksum.StoreChecksumIgnoresOldField | src/main/java/tech/flightdeck/android/revtet/relay/network/ICMPHeader.java:95-96 | because the field is reset first, its old content does not influence the result |
| Checksum.StoreChecksumIdempotent | src/main/java/tech/flightdeck/android/revtet/relay/network/ICMPHeader.java:95-118 | recomputing a checksum over unchanged data stores the same bytes |
| Net.AddressRoundTrip | src/main/java/tech/flightdeck/android/revtet/relay/network/Net.java:38-43 | recombining the four bytes big-endian gives back the 32-bit address |
| Net.AddressInjective | src/main/java/tech/flightdeck/android/revtet/relay/network/Net.java:37-45 | distinct addresses have distinct byte forms |
| Net.AddressBytesAreShifts | src/main/java/tech/flightdeck/android/revtet/relay/network/Net.java:39-42 | byte `i` is `(ip >> (24 - 8i)) & 0xff` of the address's unsigned pattern, most significant first |
| Net.DecimalRoundTrip | src/main/java/tech/flightdeck/android/revtet/relay/network/Net.java:51-53 | the decimal port text reads back as the port number |
| Net.EndpointRoundTrip | src/main/java/tech/flightdeck/android/revtet/relay/network/Net.java:51-53 | the text `host:port` splits back into the dotted address and the port read as unsigned, which lies in [0, 65535] |
| Net.ToInetAddress | src/main/java/tech/flightdeck/android/revtet/relay/network/Net.java:37-45 | four bytes, most significant first, of the unsigned 32-bit pattern; `AddressRoundTrip`, `AddressInjective` and `AddressBytesAreShifts` state that they are exactly the address's bytes |
| Net.FromAddressBytes | src/main/java/tech/flightdeck/android/revtet/relay/network/Net.java:37-45 | the big-endian reading of four bytes as a Java `int`, the inverse against which `AddressRoundTrip` states `toInetAddress` |
| Net.ToString | src/main/java/tech/flightdeck/android/revtet/relay/network/Net.java:51-53 | the dotted address, a colon and the unsigned decimal port; `EndpointRoundTrip` states that it parses back |
| Net.ParseEndpoint | src/main/java/tech/flightdeck/android/revtet/relay/network/Net.java:51-53 | the reading of `host:port` text at its last colon, the inverse against which `EndpointRoundTrip` states `toString` |
| IPv4Headers.ReadLength | src/main/java/tech/flightdeck/android/revtet/relay/network/IPv4PacketBuffer.java:16 | the length reads as -1 exactly while fewer than four bytes are buffered, and as the total-length field otherwise |
| IPv4Headers.SetTotalLength | src/main/java/tech/flightdeck/android/revtet/relay/network/Packetizer.java:55 | the total-length field holds the value truncated to 16 bits, and no other byte changes |
| IPv4Headers.SwapSourceAndDestination | src/main/java/tech/flightdeck/android/revtet/relay/network/IPv4Packet.java:64 | the two addresses are exchanged and the first 12 bytes are kept |
| IPv4Headers.SwapInvolution | src/main/java/tech/flightdeck/android/revtet/relay/network/IPv4Packet.java:64 | swapping twice restores the header byte for byte |
| IPv4Headers.ComputeChecksum | src/main/java/tech/flightdeck/android/revtet/relay/network/IPv4Packet.java:88 | the header verifies (its words fold to 0xffff), only bytes 10-11 change, and identity and total length stay |
| IPv4Headers.ComputeChecksumIdempotent | src/main/java/tech/flightdeck/android/revtet/relay/network/IPv4Packet.java:88 | the result ignores the old checksum field, and recomputing changes nothing |
| IcmpHeaders.Parse | src/main/java/tech/flightdeck/android/revtet/relay/network/ICMPHeader.java:14-19 | the header is the first 8 bytes, the payload length is the region's length minus 8, and the source-port cache holds the signed identifier at bytes 4-5 |
| IcmpHeaders.SetPong | src/main/java/tech/flightdeck/android/revtet/relay/network/ICMPHeader.java:21-24 | bytes 0 and 1 become 0 and every other byte and cache is unchanged |
| IcmpHeaders.PongIsNotPing | src/main/java/tech/flightdeck/android/revtet/relay/network/ICMPHeader.java:21-28 | a header is a ping exactly when byte 0 is 8, and a pong never is |
| IcmpHeaders.SetSeq | src/main/java/tech/flightdeck/android/revtet/relay/network/ICMPHeader.java:30-36 | `getSeq` then returns the value set; only bytes 6-7 change |
| IcmpHeaders.SetSourcePort | src/main/java/tech/flightdeck/android/revtet/relay/network/ICMPHeader.java:48-51 | only the cached port changes; the bytes are untouched |
| IcmpHeaders.SetDestinationPort | src/main/java/tech/flightdeck/android/revtet/relay/network/ICMPHeader.java:53-56 | only the cached port changes; the bytes are untouched |
| IcmpHeaders.SetPayloadLength | src/main/java/tech/flightdeck/android/revtet/relay/network/ICMPHeader.java:63-66 | only the cached length changes; the bytes are untouched |
| IcmpHeaders.CopyTo | src/main/java/tech/flightdeck/android/revtet/relay/network/ICMPHeader.java:77-83 | the copy has the same 8 bytes and re-reads its caches from them, with a zero payload length because the copy's region is exactly 8 bytes |
| IcmpHeaders.ComputeChecksum | src/main/java/tech/flightdeck/android/revtet/relay/network/ICMPHeader.java:85-119 | header and payload verify after the call, and only bytes 2-3 change |
| IcmpHeaders.ComputeChecksumIdempotent | src/main/java/tech/flightdeck/android/revtet/relay/network/ICMPHeader.java:95-96 | the result ignores the old checksum field, and recomputing changes nothing |
| IcmpHeaders.SumHeaderWords | src/main/java/tech/flightdeck/android/revtet/relay/network/ICMPHeader.java:98-103 | the first loop computes the word sum of the header, with no `int` overflow |
| IcmpHeaders.AddPayloadWords | src/main/java/tech/flightdeck/android/revtet/relay/network/ICMPHeader.java:105-113 | the payload loop and the odd-byte step add the payload's word sum, with no `int` overflow |
| IcmpHeaders.FoldCarries | src/main/java/tech/flightdeck/android/revtet/relay/network/ICMPHeader.java:115-117 | the `while` loop computes the folded sum |
| IcmpHeaders.ComputeChecksumLoop | src/main/java/tech/flightdeck/android/revtet/relay/network/ICMPHeader.java:85-119 | the loop-based computation stores exactly the checksum of the functional definition |
| UdpHeaders.Parse | src/main/java/tech/flightdeck/android/revtet/relay/network/UDPHeader.java:12-17 | the header is the first 8 bytes, and both ports are read big-endian as unsigned values in [0, 65535] |
| UdpHeaders.SetSourcePort | src/main/java/tech/flightdeck/android/revtet/relay/network/UDPHeader.java:29-33 | the cache holds the port, bytes 0-1 hold its low 16 bits, and bytes 2-7 are unchanged |
| UdpHeaders.SetDestinationPort | src/main/java/tech/flightdeck/android/revtet/relay/network/UDPHeader.java:35-39 | the cache holds the port, bytes 2-3 hold its low 16 bits, and every other byte is unchanged |
| UdpHeaders.SetPayloadLength | src/main/java/tech/flightdeck/android/revtet/relay/network/UDPHeader.java:46-50 | bytes 4-5 hold 8 plus the length, truncated to 16 bits; only they change |
| UdpHeaders.ComputeChecksum | src/main/java/tech/flightdeck/android/revtet/relay/network/UDPHeader.java:66-70 | bytes 6-7 become 0 whatever the payload ("no checksum" in RFC 768), and nothing else changes |
| UdpHeaders.CopyTo | src/main/java/tech/flightdeck/android/revtet/relay/network/UDPHeader.java:58-64 | the copy has the same 8 bytes and ports re-read from them |
| UdpHeaders.CopyAfterSetSourcePort | src/main/java/tech/flightdeck/android/revtet/relay/network/UDPHeader.java:58-64 | a copy sees only the 16 bits written, not the whole cached port |
| UdpHeaders.CopyToExact | src/main/java/tech/flightdeck/android/revtet/relay/network/UDPHeader.java:58-64 | a header whose cache agrees with its bytes is copied exactly |
| UdpHeaders.SettersKeepConsistent | src/main/java/tech/flightdeck/android/revtet/relay/network/UDPHeader.java:29-50 | ports within 16 bits keep the cache and the bytes in agreement |
| TransportHeaders.HeaderLength | src/main/java/tech/flightdeck/android/revtet/relay/network/TransportHeader.java:14 | the header length is the length of the header's bytes: 8 for UDP and ICMP, at least 8 for TCP |
| TransportHeaders.SetSourcePort | src/main/java/tech/flightdeck/android/revtet/relay/network/TransportHeader.java:10 | the source port becomes the value (16-bit for TCP), and the destination port and header length are kept |
| TransportHeaders.SetDestinationPort | src/main/java/tech/flightdeck/android/revtet/relay/network/TransportHeader.java:12 | the destination port becomes the value (16-bit for TCP), and the source port and header length are kept |
| TransportHeaders.SetPayloadLength | src/main/java/tech/flightdeck/android/revtet/relay/network/TransportHeader.java:16 | UDP writes its length field, ICMP caches the length, TCP is unchanged; no byte outside a length field changes |
| TransportHeaders.CopyTo | src/main/java/tech/flightdeck/android/revtet/relay/network/TransportHeader.java:20 | the copy is of the same kind over the same bytes, with caches that agree with the bytes |
| TransportHeaders.ComputeChecksum | src/main/java/tech/flightdeck/android/revtet/relay/network/TransportHeader.java:22 | the stored checksum verifies for each kind (for UDP, "none computed"), ports and length are kept, and only checksum or length bytes change |
| TransportHeaders.ComputeChecksumIdempotent | src/main/java/tech/flightdeck/android/revtet/relay/network/TransportHeader.java:22 | recomputing the checksum changes nothing |
| TransportHeaders.SwapUdp | src/main/java/tech/flightdeck/android/revtet/relay/network/TransportHeader.java:24-28 | the UDP swap exchanges the cached ports and rewrites bytes 0-3 only |
| TransportHeaders.SwapUdpIs | src/main/java/tech/flightdeck/android/revtet/relay/network/TransportHeader.java:24-28 | the swap is exactly the two setters applied to the cached ports, in that order |
| TransportHeaders.SwapTcp | src/main/java/tech/flightdeck/android/revtet/relay/network/TransportHeader.java:24-28 | the TCP swap exchanges the ports and rewrites bytes 0-3 only |
| TransportHeaders.SwapExchangesPorts | src/main/java/tech/flightdeck/android/revtet/relay/network/TransportHeader.java:24-28 | after a swap the source port is the old destination port and the other way round; header length, ICMP payload length and every byte after the ports are unchanged |
| TransportHeaders.SwapInvolution | src/main/java/tech/flightdeck/android/revtet/relay/network/TransportHeader.java:24-28 | swapping twice restores both ports, and the whole header when its cache agrees with its bytes |
| TransportHeaders.SwapEqualPortsIsNoOp | src/main/java/tech/flightdeck/android/revtet/relay/network/TransportHeader.java:24-28 | with equal ports a swap changes nothing |
| TcpHeaders.Parse | src/main/java/tech/flightdeck/android/revtet/relay/network/IPv4Packet.java:41-42 | the TCP header is read up to its data offset, options included |
| TcpHeaders.SetSourcePort | src/main/java/tech/flightdeck/android/revtet/relay/network/TCPConnection.java:67 | bytes 0-1 hold the port's low 16 bits and nothing else changes |
| TcpHeaders.SetDestinationPort | src/main/java/tech/flightdeck/android/revtet/relay/network/TCPConnection.java:67 | bytes 2-3 hold the port's low 16 bits and nothing else changes |
| TcpHeaders.SetSequenceNumber | src/main/java/tech/flightdeck/android/revtet/relay/network/TCPConnection.java:372 | the sequence number reads back as set, and only bytes 4-7 change |
| TcpHeaders.SetAcknowledgementNumber | src/main/java/tech/flightdeck/android/revtet/relay/network/TCPConnection.java:373 | the acknowledgement number reads back as set, and only bytes 8-11 change |
| TcpHeaders.SetFlags | src/main/java/tech/flightdeck/android/revtet/relay/network/TCPConnection.java:371 | the flag byte holds the flags truncated to 8 bits, the data offset is kept, and no byte outside 12-13 changes |
| TcpHeaders.SetFlagsReadBack | src/main/java/tech/flightdeck/android/revtet/relay/network/TCPConnection.java:369-374 | the three header updates read back independently of each other |
| TcpHeaders.ShrinkOptions | src/main/java/tech/flightdeck/android/revtet/relay/network/TCPConnection.java:62-63 | the copy is a 20-byte header: ports, numbers and the rest of the first 20 bytes are kept, and only the data offset changes |
| TcpHeaders.ComputeChecksum | src/main/java/tech/flightdeck/android/revtet/relay/network/IPv4Packet.java:87-90 | header and payload re-sum to 0xffff after the call, no pseudo-header is summed, and only bytes 16-17 change |
| TcpHeaders.ChecksumIgnoresIPv4 | src/main/java/tech/flightdeck/android/revtet/relay/network/IPv4Packet.java:87-90 | documents the signature under the no-pseudo-header assumption: the IPv4 header passed in is unused, so the stored checksum is the same whatever it holds; it holds by construction |
| TcpHeaders.ComputeChecksumIdempotent | src/main/java/tech/flightdeck/android/revtet/relay/network/IPv4Packet.java:89 | recomputing the checksum changes nothing |
| ConnectionIds.Create | src/main/java/tech/flightdeck/android/revtet/relay/network/ConnectionId.java:11-20 | the five fields are stored and the text is computed from them once |
| ConnectionIds.SourcePort | src/main/java/tech/flightdeck/android/revtet/relay/network/ConnectionId.java:30-32 | the port is in [0, 65535] and carries the stored short's 16 bits |
| ConnectionIds.DestinationPort | src/main/java/tech/flightdeck/android/revtet/relay/network/ConnectionId.java:38-40 | the port is in [0, 65535] and carries the stored short's 16 bits |
| ConnectionIds.ToString | src/main/java/tech/flightdeck/android/revtet/relay/network/ConnectionId.java:70-73 | `toString` returns the text the constructor computed |
| ConnectionIds.EqualsIsEquality | src/main/java/tech/flightdeck/android/revtet/relay/network/ConnectionId.java:43-58 | `equals` is reflexive, symmetric and transitive, false for `null` and other classes, and for identifiers it is equality of the five fields |
| ConnectionIds.EqualsImpliesSameHash | src/main/java/tech/flightdeck/android/revtet/relay/network/ConnectionId.java:60-68 | equal identifiers have equal hash codes |
| ConnectionIds.Equals | src/main/java/tech/flightdeck/android/revtet/relay/network/ConnectionId.java:43-58 | `equals` compares the five fields; `EqualsIsEquality` states it is an equivalence, false for `null` and other classes, and value equality on identifiers |
| ConnectionIds.HashCode | src/main/java/tech/flightdeck/android/revtet/relay/network/ConnectionId.java:61-68 | `31 * result + field` over the five fields in Java `int` arithmetic; `EqualsImpliesSameHash` states that it agrees with `equals` |
| ConnectionIds.From | src/main/java/tech/flightdeck/android/revtet/relay/network/ConnectionId.java:75-82 | protocol and addresses come from the IPv4 header, and the ports come from the transport header truncated to 16 bits |
| ConnectionIds.SwapReversesId | src/main/java/tech/flightdeck/android/revtet/relay/network/IPv4Packet.java:63-66 | a swapped packet belongs to the reversed flow |
| IPv4Packets.CreateTransport | src/main/java/tech/flightdeck/android/revtet/relay/network/IPv4Packet.java:36-48 | the transport header is the kind named by the protocol, read from the bytes after the IPv4 header |
| IPv4Packets.ParseWellFormed | src/main/java/tech/flightdeck/android/revtet/relay/network/IPv4Packet.java:18-34 | a packet is invalid exactly when its header is unsupported; a valid one is cut at the total length and is well formed |
| IPv4Packets.ParseParts | src/main/java/tech/flightdeck/android/revtet/relay/network/IPv4Packet.java:18-30 | re-reading a well-formed packet's bytes gives the same IPv4 header, transport bytes and payload |
| IPv4Packets.ParseRaw | src/main/java/tech/flightdeck/android/revtet/relay/network/IPv4Packet.java:18-30 | parsing the bytes of a packet the constructor could build gives the packet back |
| IPv4Packets.RawLength | src/main/java/tech/flightdeck/android/revtet/relay/network/IPv4Packet.java:73-75 | the raw length of a valid packet is its total length |
| IPv4Packets.TransportOffset | src/main/java/tech/flightdeck/android/revtet/relay/network/IPv4Packet.java:50-53 | the transport header sits at the IPv4 header length |
| IPv4Packets.PayloadOffset | src/main/java/tech/flightdeck/android/revtet/relay/network/IPv4Packet.java:77-81 | the payload starts after both headers and runs to the end of the packet |
| IPv4Packets.PayloadLength | src/main/java/tech/flightdeck/android/revtet/relay/network/IPv4Packet.java:83-85 | the payload length is the total length minus both header lengths |
| IPv4Packets.Swap | src/main/java/tech/flightdeck/android/revtet/relay/network/IPv4Packet.java:63-66 | both addresses and both ports are exchanged; lengths and payload stay |
| IPv4Packets.SwapInvolution | src/main/java/tech/flightdeck/android/revtet/relay/network/IPv4Packet.java:63-66 | swapping twice gives the packet back |
| IPv4Packets.ComputeChecksums | src/main/java/tech/flightdeck/android/revtet/relay/network/IPv4Packet.java:87-90 | the IPv4 header and then the transport header verify, over the current payload; ports, identity and lengths stay |
| IPv4Packets.ComputeChecksumsIdempotent | src/main/java/tech/flightdeck/android/revtet/relay/network/IPv4Packet.java:87-90 | checksums computed once are final |
| IPv4Packets.Parse | src/main/java/tech/flightdeck/android/revtet/relay/network/IPv4Packet.java:18-30 | the constructor: `ParseWellFormed`, `ParseParts` and `ParseRaw` state that a packet is invalid exactly when its header is unsupported, that a valid one is cut at its total length, and that parsing a built packet's bytes gives it back |
| IPv4Packets.Raw | src/main/java/tech/flightdeck/android/revtet/relay/network/IPv4Packet.java:68-71 | `getRaw`: the packet's bytes, IPv4 header, transport header and payload in that order; `ParseRaw` states that they parse back to the packet, and `RawLength` that they span the total length |
| Packetizers.Create | src/main/java/tech/flightdeck/android/revtet/relay/network/Packetizer.java:14-18 | the template holds both headers, and the payload region starts where the packet's payload did |
| Packetizers.PayloadCapacityAsWritten | src/main/java/tech/flightdeck/android/revtet/relay/network/Packetizer.java:43-45 | the written payload space is 65536 minus both headers |
| Packetizers.PayloadCapacity | src/main/java/tech/flightdeck/android/revtet/relay/network/Packetizer.java:43-45 | the corrected payload space is the largest that keeps the total length within 16 bits |
| Packetizers.StagedWellFormed | src/main/java/tech/flightdeck/android/revtet/relay/network/Packetizer.java:47-56 | setting total length and payload length gives a well-formed packet with the template's identity and the UDP length 8 plus the payload |
| Packetizers.InflateBuilds | src/main/java/tech/flightdeck/android/revtet/relay/network/Packetizer.java:47-63 | any payload within the capacity gives a built packet: total length covers headers and payload, the transport length is set, checksums are computed, and addresses and ports are the template's |
| Packetizers.InflateBuildsWithin | src/main/java/tech/flightdeck/android/revtet/relay/network/Packetizer.java:47-63 | the same holds for any payload the buffer accepts that fits 16 bits |
| Packetizers.Inflate | src/main/java/tech/flightdeck/android/revtet/relay/network/Packetizer.java:47-63 | `inflate`: total length, transport length and checksums set over the template; `InflateBuilds` states that every payload within the corrected capacity gives a built packet, and `InflateAtFullCapacityFails` that a full as-written buffer does not |
| Packetizers.ChecksumsKeepBuilt | src/main/java/tech/flightdeck/android/revtet/relay/network/Packetizer.java:60-61 | computing the checksums keeps every other property of a built packet |
| Packetizers.InflateAtFullCapacityFails | src/main/java/tech/flightdeck/android/revtet/relay/network/Packetizer.java:47-63 | a payload filling the whole buffer makes the total length 65536, stored as 0, and no packet results |
| Packetizers.PacketizeEmpty | src/main/java/tech/flightdeck/android/revtet/relay/network/Packetizer.java:28-31 | the packet consists of the two headers only, with payload length 0 |
| Packetizers.Packetize | src/main/java/tech/flightdeck/android/revtet/relay/network/Packetizer.java:33-41 | end of stream gives no packet, an I/O error is raised, and bytes give a packet over at most `max` of them |
| Packetizers.PacketizeAllAsWrittenFailsOnFullRead | src/main/java/tech/flightdeck/android/revtet/relay/network/Packetizer.java:43-45 | as written, a read that fills the payload space makes `packetize(channel)` fail |
| Packetizers.PacketizeAllAsWritten | src/main/java/tech/flightdeck/android/revtet/relay/network/Packetizer.java:43-45 | `packetize(channel)` as written, with 65536 minus both headers as its bound; `PacketizeAllAsWrittenFailsOnFullRead` exhibits the read it fails on |
| Packetizers.PacketizeAll | src/main/java/tech/flightdeck/android/revtet/relay/network/Packetizer.java:43-45 | with the corrected capacity every read of bytes gives a packet; end of stream and errors are as in `packetize` |
| IPv4PacketBuffers.ReadFrom | src/main/java/tech/flightdeck/android/revtet/relay/network/IPv4PacketBuffer.java:10-12 | a read appends at most the free space and returns the count, -1 at end of stream; an I/O error propagates |
| IPv4PacketBuffers.AvailablePacketLength | src/main/java/tech/flightdeck/android/revtet/relay/network/IPv4PacketBuffer.java:15-27 | no packet while the length is unreadable or larger than the buffered bytes; otherwise the declared length |
| IPv4PacketBuffers.AsIPv4Packet | src/main/java/tech/flightdeck/android/revtet/relay/network/IPv4PacketBuffer.java:29-43 | no packet exactly when none is available; otherwise the packet over the first `length` bytes |
| IPv4PacketBuffers.Next | src/main/java/tech/flightdeck/android/revtet/relay/network/IPv4PacketBuffer.java:45-47 | exactly the handed-out packet is discarded and the rest kept in order |
| IPv4PacketBuffers.Poll | src/main/java/tech/flightdeck/android/revtet/relay/network/IPv4PacketBuffer.java:29-47 | with no packet the bytes are unchanged; otherwise the buffer is the packet followed by what stays |
| IPv4PacketBuffers.Drain | src/main/java/tech/flightdeck/android/revtet/relay/entity/Client.java:83-89 | the loop leaves no complete packet, and the packets handed out followed by what stays are the buffered bytes |
| IPv4PacketBuffers.DrainFrames | src/main/java/tech/flightdeck/android/revtet/relay/network/IPv4PacketBuffer.java:29-47 | datagrams sent back to back come out exactly, in order, and an incomplete tail stays buffered |
| IPv4PacketBuffers.ZeroLengthStalls | src/main/java/tech/flightdeck/android/revtet/relay/network/IPv4PacketBuffer.java:15-27 | a datagram that declares total length 0 blocks the buffer whatever follows |
| Connections.RewrittenAddress | src/main/java/tech/flightdeck/android/revtet/relay/network/AbstractConnection.java:39-41 | 10.0.2.2 becomes the loopback address; every other address is kept, as its four bytes |
| Connections.RewrittenDestination | src/main/java/tech/flightdeck/android/revtet/relay/network/AbstractConnection.java:48-52 | the destination is rewritten the same way, with the identifier's unsigned destination port |
| Connections.RewrittenDestinationInjective | src/main/java/tech/flightdeck/android/revtet/relay/network/AbstractConnection.java:39-52 | two destinations other than 10.0.2.2 that rewrite to the same socket address are the same destination |
| Connections.ResponseTemplate | src/main/java/tech/flightdeck/android/revtet/relay/network/UDPConnection.java:27-29 | the template has swapped addresses, exchanged port bytes and the request's header length |
| Connections.ExchangedEndpoints | src/main/java/tech/flightdeck/android/revtet/relay/network/ConnectionId.java:75-82 | a packet with exchanged addresses and ports belongs to the reversed flow |
| Connections.ResponseReversesFlow | src/main/java/tech/flightdeck/android/revtet/relay/network/TCPConnection.java:65-67 | every packet built from a connection's template travels the reverse flow of the request |
| Connections.IcmpSendToNetwork | src/main/java/tech/flightdeck/android/revtet/relay/network/ICMPConnection.java:35-38 | an ICMP flow records the time of the packet and is then not expired |
| TcpConnections.SegmentOf | src/main/java/tech/flightdeck/android/revtet/relay/network/TCPConnection.java:175-183 | the segment carries the packet's payload and its length |
| TcpConnections.Template | src/main/java/tech/flightdeck/android/revtet/relay/network/TCPConnection.java:62-67 | the template is a 40-byte TCP template that answers the request |
| TcpConnections.Create | src/main/java/tech/flightdeck/android/revtet/relay/network/TCPConnection.java:59-87 | a new connection has no state, an open unconnected channel, `OP_CONNECT` interest, an empty buffer and no pending packet |
| TcpConnections.HandlePacket | src/main/java/tech/flightdeck/android/revtet/relay/network/TCPConnection.java:163-206 | `handlePacket`: the first packet, a duplicate SYN, an out-of-order segment and an in-order one are told apart; `FirstPacket`, `DuplicateSyn`, `OutOfOrderIgnored` and `InOrderReset` state each branch, and `HandlePacketWellClosed`, `PacketKeepsValid` and `PacketAvoidsCloseWait` hold across all of them |
| TcpConnections.HandleFirstPacket | src/main/java/tech/flightdeck/android/revtet/relay/network/TCPConnection.java:208-227 | `handleFirstPacket`; `FirstPacket` states that a SYN enters `SYN_SENT` with ack = seq + 1, and anything else resets |
| TcpConnections.HandleDuplicateSyn | src/main/java/tech/flightdeck/android/revtet/relay/network/TCPConnection.java:229-238 | `handleDuplicateSyn`; `DuplicateSyn` states that only in `SYN_SENT` it re-captures the numbers, and otherwise a different SYN resets |
| TcpConnections.HandleInOrder | src/main/java/tech/flightdeck/android/revtet/relay/network/TCPConnection.java:187-205 | the in-order part of `handlePacket` (RST, ACK, FIN, FIN-ACK); `InOrderWellClosed` and `InOrderAvoidsCloseWait` state how it closes and that it never enters `CLOSE_WAIT` |
| TcpConnections.HandleAck | src/main/java/tech/flightdeck/android/revtet/relay/network/TCPConnection.java:240-259 | `handleAck`; `HandshakeCompleted` and `DataBuffered` state the handshake completion and the payload buffering rule |
| TcpConnections.HandleFin | src/main/java/tech/flightdeck/android/revtet/relay/network/TCPConnection.java:261-268 | `handleFin`; `ClientFin` states that the FIN is recorded and processed only on an empty buffer |
| TcpConnections.HandleFinAck | src/main/java/tech/flightdeck/android/revtet/relay/network/TCPConnection.java:270-285 | `handleFinAck`; `FinAcknowledged` states the state each acknowledged FIN leads to |
| TcpConnections.DoHandleFin | src/main/java/tech/flightdeck/android/revtet/relay/network/TCPConnection.java:287-311 | `doHandleFin`; `ClientFin` states each state's transition, and `DoHandleFinWellClosed` that it closes at most once, last |
| TcpConnections.SendToNetwork | src/main/java/tech/flightdeck/android/revtet/relay/network/TCPConnection.java:157-161 | `sendToNetwork`: `handlePacket` then `updateInterests`; `PacketKeepsValid`, `PacketKeepsClosed` and `PacketNeverConsumes` hold of it |
| TcpConnections.ProcessConnect | src/main/java/tech/flightdeck/android/revtet/relay/network/TCPConnection.java:313-324 | `processConnect`; `Connect` states that success sends SYN+ACK and enters `SYN_RECEIVED`, and failure closes |
| TcpConnections.Eof | src/main/java/tech/flightdeck/android/revtet/relay/network/TCPConnection.java:335-346 | `eof`; `EndOfStream` states the FIN+ACK and the move to `FIN_WAIT_1`, and `SocketAvoidsCloseWait` that its `LAST_ACK` branch is dead |
| TcpConnections.Reset | src/main/java/tech/flightdeck/android/revtet/relay/network/TCPConnection.java:348-353 | `resetConnection`: RST at our numbers, then close; `SocketStepsWellClosed` and `ReceiveWellClosed` hold of it |
| TcpConnections.CloseNow | src/main/java/tech/flightdeck/android/revtet/relay/network/AbstractConnection.java:26-29 | `close()`: disconnect, and the `close` call that takes the connection out of the router |
| TcpConnections.MayRead | src/main/java/tech/flightdeck/android/revtet/relay/network/TCPConnection.java:396-404 | `mayRead`; `InterestsRules` states when it holds |
| TcpConnections.MayWrite | src/main/java/tech/flightdeck/android/revtet/relay/network/TCPConnection.java:406-408 | `mayWrite`; `InterestsRules` states that it holds exactly on a non-empty buffer |
| TcpConnections.MayConnect | src/main/java/tech/flightdeck/android/revtet/relay/network/TCPConnection.java:410-412 | `mayConnect`; `InterestsRules` states that it holds exactly in `SYN_SENT` |
| TcpConnections.FirstPacket | src/main/java/tech/flightdeck/android/revtet/relay/network/TCPConnection.java:208-227 | a SYN sets ack = seq + 1, synSeq, the window and our ISN, and enters `SYN_SENT`; anything else sends RST at the acked number and closes |
| TcpConnections.DuplicateSyn | src/main/java/tech/flightdeck/android/revtet/relay/network/TCPConnection.java:229-238 | in `SYN_SENT` a SYN re-captures synSeq and ack; otherwise the same SYN changes nothing and a different one resets |
| TcpConnections.OutOfOrderIgnored | src/main/java/tech/flightdeck/android/revtet/relay/network/TCPConnection.java:175-180 | a segment not at ack + buffered size changes nothing |
| TcpConnections.InOrderReset | src/main/java/tech/flightdeck/android/revtet/relay/network/TCPConnection.java:187-191 | an in-order RST closes without a reply |
| TcpConnections.HandshakeCompleted | src/main/java/tech/flightdeck/android/revtet/relay/network/TCPConnection.java:240-246 | an ACK in `SYN_RECEIVED` enters `ESTABLISHED` and buffers nothing |
| TcpConnections.DataBuffered | src/main/java/tech/flightdeck/android/revtet/relay/network/TCPConnection.java:248-259 | a payload is appended exactly when it is non-empty and fits the remaining space, and is dropped otherwise |
| TcpConnections.ClientFin | src/main/java/tech/flightdeck/android/revtet/relay/network/TCPConnection.java:261-311 | a FIN is recorded; it is processed only on an empty buffer, where ack advances by one and `ESTABLISHED`, `FIN_WAIT_1` and `FIN_WAIT_2` move to `LAST_ACK` (FIN+ACK, finSeq = seq, seq + 1), `CLOSING` and closed |
| TcpConnections.FinAcknowledged | src/main/java/tech/flightdeck/android/revtet/relay/network/TCPConnection.java:270-285 | the ACK of our FIN closes from `LAST_ACK` and `CLOSING`, moves `FIN_WAIT_1` to `FIN_WAIT_2`, and keeps every other state |
| TcpConnections.FinAckClosesLastAck | src/main/java/tech/flightdeck/android/revtet/relay/network/TCPConnection.java:202-205 | in `LAST_ACK`, an in-order segment with ack = finSeq + 1 closes the connection |
| TcpConnections.Connect | src/main/java/tech/flightdeck/android/revtet/relay/network/TCPConnection.java:313-324 | a connect sends SYN+ACK, enters `SYN_RECEIVED` and increments seq; a failed one closes |
| TcpConnections.EndOfStream | src/main/java/tech/flightdeck/android/revtet/relay/network/TCPConnection.java:335-346 | end of stream sends FIN+ACK, sets finSeq = seq, increments seq, keeps ack and the buffer, and enters a state where our FIN is sent: `FIN_WAIT_1` from every state but `CLOSE_WAIT` |
| TcpConnections.RemainingClientWindow | src/main/java/tech/flightdeck/android/revtet/relay/network/TCPConnection.java:434-440 | the remaining window lies in [0, clientWindow] and, when positive, is `theirAck + window - seq` in Java `int` arithmetic |
| TcpConnections.WindowExact | src/main/java/tech/flightdeck/android/revtet/relay/network/TCPConnection.java:434-440 | the window is exactly that room whenever the room lies in [0, clientWindow] |
| TcpConnections.WindowAllAcknowledged | src/main/java/tech/flightdeck/android/revtet/relay/network/TCPConnection.java:434-440 | with everything acknowledged the whole window is available |
| TcpConnections.UpdateInterests | src/main/java/tech/flightdeck/android/revtet/relay/network/TCPConnection.java:376-394 | a cancelled key keeps everything; otherwise the interests are exactly `mayRead`, `mayWrite`, `mayConnect`, and nothing else changes |
| TcpConnections.InterestsRules | src/main/java/tech/flightdeck/android/revtet/relay/network/TCPConnection.java:396-412 | read only when connected, not closing, nothing pending and window > 0; write exactly on a non-empty buffer; connect exactly in `SYN_SENT` |
| TcpConnections.WithHeaders | src/main/java/tech/flightdeck/android/revtet/relay/network/TCPConnection.java:369-374 | the template carries the flags and the two numbers, and keeps its ports and lengths |
| TcpConnections.BuiltKeepsNumbers | src/main/java/tech/flightdeck/android/revtet/relay/network/TCPConnection.java:359-367 | a packet built from the template carries the template's flags and numbers |
| TcpConnections.EmptyResponse | src/main/java/tech/flightdeck/android/revtet/relay/network/TCPConnection.java:359-367 | an empty response is a built packet with no payload and the given flags and numbers |
| TcpConnections.RenderAction | src/main/java/tech/flightdeck/android/revtet/relay/network/TCPConnection.java:355-357 | a reply becomes the empty response packet for the client; consume and close are passed on |
| TcpConnections.Render | src/main/java/tech/flightdeck/android/revtet/relay/network/TCPConnection.java:355-357 | the calls are rendered one for one, in order |
| TcpConnections.ReadLimit | src/main/java/tech/flightdeck/android/revtet/relay/network/TCPConnection.java:116-118 | a read takes at most the remaining window and at most `MAX_PAYLOAD_SIZE` |
| TcpConnections.ReadPacket | src/main/java/tech/flightdeck/android/revtet/relay/network/TCPConnection.java:118-120 | the packet read carries the template's numbers and at most the limit of the bytes offered |
| TcpConnections.ProcessReceive | src/main/java/tech/flightdeck/android/revtet/relay/network/TCPConnection.java:113-130 | bytes become the pending packet (ACK+PSH, our numbers) offered with `consume`; end of stream runs `eof`; an I/O error resets |
| TcpConnections.ChecksumsKeepNumbers | src/main/java/tech/flightdeck/android/revtet/relay/network/TCPConnection.java:420-424 | recomputing checksums keeps flags and numbers |
| TcpConnections.Get | src/main/java/tech/flightdeck/android/revtet/relay/network/TCPConnection.java:415-424 | the pending packet goes out with the current ack number and valid checksums, payload unchanged |
| TcpConnections.Next | src/main/java/tech/flightdeck/android/revtet/relay/network/TCPConnection.java:427-432 | the pending packet is released and the connection stays valid |
| TcpConnections.NextAdvances | src/main/java/tech/flightdeck/android/revtet/relay/network/TCPConnection.java:427-432 | seq moves past the packet's payload, wrapping; ack, buffer and state stay |
| TcpConnections.ProcessSend | src/main/java/tech/flightdeck/android/revtet/relay/network/TCPConnection.java:132-154 | `processSend`; `SendKeepsExpected`, `DeferredFinProcessed` and `SendKeepsValid` state the acknowledgement, the deferred FIN and validity |
| TcpConnections.SendKeepsExpected | src/main/java/tech/flightdeck/android/revtet/relay/network/TCPConnection.java:132-146 | written bytes move from the buffer into ack; the next expected number is unchanged and an ACK tells the client |
| TcpConnections.DeferredFinProcessed | src/main/java/tech/flightdeck/android/revtet/relay/network/TCPConnection.java:140-142 | the write that empties the buffer processes a deferred FIN, so ack covers the bytes and the FIN |
| TcpConnections.Touch | src/main/java/tech/flightdeck/android/revtet/relay/network/TCPConnection.java:89-91 | only the idle time changes |
| TcpConnections.Disconnect | src/main/java/tech/flightdeck/android/revtet/relay/network/TCPConnection.java:101-111 | only the channel closes |
| TcpConnections.Expiry | src/main/java/tech/flightdeck/android/revtet/relay/network/TCPConnection.java:442-449 | an open, connected, established connection never expires; any other expires after 30 s idle |
| TcpConnections.IsExpired | src/main/java/tech/flightdeck/android/revtet/relay/network/TCPConnection.java:443-449 | `isExpired`; `Expiry` states that an open, connected, established connection never expires and any other one does after 30 s idle |
| TcpConnections.PacketKeepsClosed | src/main/java/tech/flightdeck/android/revtet/relay/network/TCPConnection.java:157-206 | no client packet reopens a closed channel |
| TcpConnections.SocketKeepsClosed | src/main/java/tech/flightdeck/android/revtet/relay/network/TCPConnection.java:132-154 | no socket event reopens a closed channel |
| TcpConnections.DoHandleFinWellClosed | src/main/java/tech/flightdeck/android/revtet/relay/network/TCPConnection.java:287-311 | FIN processing closes at most once, last, exactly when the channel closes, and only from `FIN_WAIT_2` |
| TcpConnections.InOrderWellClosed | src/main/java/tech/flightdeck/android/revtet/relay/network/TCPConnection.java:182-205 | an in-order segment closes at most once, last, exactly when the channel closes |
| TcpConnections.HandlePacketWellClosed | src/main/java/tech/flightdeck/android/revtet/relay/network/TCPConnection.java:157-206 | every client packet closes at most once, last, exactly when the channel closes |
| TcpConnections.PacketNeverConsumes | src/main/java/tech/flightdeck/android/revtet/relay/network/TCPConnection.java:157-161 | handling a client packet never calls `consume` |
| TcpConnections.SocketStepsWellClosed | src/main/java/tech/flightdeck/android/revtet/relay/network/TCPConnection.java:132-154 | connect, write and end of stream close at most once, last, exactly when the channel closes |
| TcpConnections.ReceiveWellClosed | src/main/java/tech/flightdeck/android/revtet/relay/network/TCPConnection.java:113-130 | a socket read closes at most once, last, exactly when the channel closes |
| TcpConnections.InOrderAvoidsCloseWait | src/main/java/tech/flightdeck/android/revtet/relay/network/TCPConnection.java:240-311 | no in-order segment enters `CLOSE_WAIT` |
| TcpConnections.PacketAvoidsCloseWait | src/main/java/tech/flightdeck/android/revtet/relay/network/TCPConnection.java:163-238 | no client packet enters `CLOSE_WAIT` |
| TcpConnections.SocketAvoidsCloseWait | src/main/java/tech/flightdeck/android/revtet/relay/network/TCPConnection.java:335-346 | no socket event enters `CLOSE_WAIT`, so `eof` always enters `FIN_WAIT_1` and its `LAST_ACK` branch is dead |
| TcpConnections.ReceiveAvoidsCloseWait | src/main/java/tech/flightdeck/android/revtet/relay/network/TCPConnection.java:113-130 | a socket read does not enter `CLOSE_WAIT` |
| TcpConnections.PacketKeepsValid | src/main/java/tech/flightdeck/android/revtet/relay/network/TCPConnection.java:157-161 | a client packet keeps the connection valid, with its id and template |
| TcpConnections.SocketKeepsValid | src/main/java/tech/flightdeck/android/revtet/relay/network/TCPConnection.java:313-346 | connect and end of stream keep the connection valid |
| TcpConnections.SendKeepsValid | src/main/java/tech/flightdeck/android/revtet/relay/network/TCPConnection.java:132-154 | a write keeps the connection valid, with its id and template |
| TcpConnections.ReceiveKeepsValid | src/main/java/tech/flightdeck/android/revtet/relay/network/TCPConnection.java:113-130 | a read with no pending packet keeps the connection valid, with its id and template |
| UdpConnections.Create | src/main/java/tech/flightdeck/android/revtet/relay/network/UDPConnection.java:24-46 | a new connection answers the request, is open with `OP_READ` interest, and has nothing queued |
| UdpConnections.UpdateInterests | src/main/java/tech/flightdeck/android/revtet/relay/network/UDPConnection.java:101-117 | a cancelled key keeps everything; only the interests change |
| UdpConnections.InterestsRules | src/main/java/tech/flightdeck/android/revtet/relay/network/UDPConnection.java:101-117 | read interest always; write interest exactly when a datagram waits; never connect |
| UdpConnections.SendToNetwork | src/main/java/tech/flightdeck/android/revtet/relay/network/UDPConnection.java:119-126 | only the queue and the interests can change |
| UdpConnections.SendToNetworkQueues | src/main/java/tech/flightdeck/android/revtet/relay/network/UDPConnection.java:119-126 | a refused datagram changes nothing, interests included; an accepted one is queued last and asks for write |
| UdpConnections.ProcessReceive | src/main/java/tech/flightdeck/android/revtet/relay/network/UDPConnection.java:60-82 | a datagram read becomes one packet built from the template and offered to the client, whose refusal changes nothing; end of stream or an error closes |
| UdpConnections.SendOutcome | src/main/java/tech/flightdeck/android/revtet/relay/network/UDPConnection.java:69-91 | a failed write closes; a successful one sends the oldest datagram and stays open |
| UdpConnections.CloseNow | src/main/java/tech/flightdeck/android/revtet/relay/network/AbstractConnection.java:26-29 | `close()` marks the channel closed and asks the router to remove the connection |
| UdpConnections.ProcessSend | src/main/java/tech/flightdeck/android/revtet/relay/network/UDPConnection.java:69-73 | `processSend`; `SendOutcome` states that a failed write closes and a successful one sends the oldest datagram |
| UdpConnections.ReadStep | src/main/java/tech/flightdeck/android/revtet/relay/network/UDPConnection.java:60-67 | a read gives one packet for the client or a close, and closes the channel exactly when it calls `close` |
| UdpConnections.WriteStep | src/main/java/tech/flightdeck/android/revtet/relay/network/UDPConnection.java:69-73 | a write gives nothing or a close, and closes the channel exactly when it calls `close` |
| UdpConnections.HandleEventWellFormed | src/main/java/tech/flightdeck/android/revtet/relay/network/UDPConnection.java:33-42 | a selection event closes at most once, last, exactly when the channel closes, keeps the connection valid and leaves it unexpired |
| UdpConnections.HandleEvent | src/main/java/tech/flightdeck/android/revtet/relay/network/UDPConnection.java:33-42 | the selection handler the constructor registers; `HandleEventWellFormed` states that it closes at most once, last, keeps the connection valid and leaves it unexpired |
| UdpConnections.Touch | src/main/java/tech/flightdeck/android/revtet/relay/network/UDPConnection.java:48-50 | only the idle time changes |
| UdpConnections.Disconnect | src/main/java/tech/flightdeck/android/revtet/relay/network/UDPConnection.java:128-137 | only the channel closes |
| UdpConnections.Expiry | src/main/java/tech/flightdeck/android/revtet/relay/network/UDPConnection.java:139-142 | expired exactly when two minutes have passed since the last event, with no exemption for activity |
| UdpConnections.IsExpired | src/main/java/tech/flightdeck/android/revtet/relay/network/UDPConnection.java:140-142 | `isExpired`; `Expiry` states that it holds exactly two minutes after the last event |
| UdpConnections.MayWrite | src/main/java/tech/flightdeck/android/revtet/relay/network/UDPConnection.java:115-117 | `mayWrite`; `InterestsRules` states that it holds exactly when a datagram waits |
| Routers.Find | src/main/java/tech/flightdeck/android/revtet/relay/network/Router.java:46-53 | the first connection whose id equals the flow, and no result exactly when none does |
| Routers.FindUnique | src/main/java/tech/flightdeck/android/revtet/relay/network/Router.java:46-53 | in a table without duplicates the connection found is the only one of its flow |
| Routers.Lookup | src/main/java/tech/flightdeck/android/revtet/relay/network/Router.java:46-53 | the connection found is in the table and serves the flow; none is found exactly when no connection serves it |
| Routers.CreateConnection | src/main/java/tech/flightdeck/android/revtet/relay/network/Router.java:55-67 | the connection's kind is the id's protocol; it fails exactly when a UDP or TCP socket cannot be opened |
| Routers.SendToNetwork | src/main/java/tech/flightdeck/android/revtet/relay/network/Router.java:23-27 | an invalid packet is dropped and the table is unchanged |
| Routers.ExistingFlowReused | src/main/java/tech/flightdeck/android/revtet/relay/network/Router.java:36-44 | a packet of a served flow goes to that flow's connection, and every other flow is unchanged |
| Routers.NewFlowCreated | src/main/java/tech/flightdeck/android/revtet/relay/network/Router.java:28-42 | a new flow gets a connection of its protocol, appended last; a failed creation drops the packet and leaves the table unchanged |
| Routers.Dispatch | src/main/java/tech/flightdeck/android/revtet/relay/network/Router.java:23-34 | `connection.sendToNetwork(packet)` of each kind; `DispatchWellFormed` states that it keeps id and kind, closes at most once, last, and never consumes |
| Routers.Deliver | src/main/java/tech/flightdeck/android/revtet/relay/network/Router.java:23-34 | the packet handed to a table entry, which is replaced by its new state or removed when it closed; `DeliverRouted` and `DeliverKeepsValid` state that only that flow changes and the table stays valid |
| Routers.DispatchWellFormed | src/main/java/tech/flightdeck/android/revtet/relay/network/Router.java:29-30 | a connection keeps its id and kind, closes at most once, last, exactly when it ends closed, and never calls `consume` |
| Routers.TcpPacketOutcome | src/main/java/tech/flightdeck/android/revtet/relay/network/TCPConnection.java:157-161 | a TCP connection's rendered calls close last, exactly when it closes, and never consume |
| Routers.DeliverRouted | src/main/java/tech/flightdeck/android/revtet/relay/network/AbstractConnection.java:26-29 | a connection that closes leaves the table, otherwise its entry is updated, and every other flow keeps its entry, in order |
| Routers.RemoveAtKeepsDistinct | src/main/java/tech/flightdeck/android/revtet/relay/network/Router.java:69-73 | removing keeps at most one connection per flow, and the removed flow is no longer served |
| Routers.UpdateKeepsDistinct | src/main/java/tech/flightdeck/android/revtet/relay/network/Router.java:36-44 | replacing an entry by its new state keeps flows distinct and `find` returns the new state |
| Routers.AppendKeepsDistinct | src/main/java/tech/flightdeck/android/revtet/relay/network/Router.java:39-42 | appending a connection for an unserved flow keeps at most one connection per flow |
| Routers.RemoveAtKeepsValid | src/main/java/tech/flightdeck/android/revtet/relay/network/Router.java:69-73 | removing keeps the table valid |
| Routers.UpdateKeepsValid | src/main/java/tech/flightdeck/android/revtet/relay/network/Router.java:29-30 | a valid new state of the same flow keeps the table valid |
| Routers.AppendKeepsValid | src/main/java/tech/flightdeck/android/revtet/relay/network/Router.java:39-42 | appending a valid connection for an unserved flow keeps the table valid |
| Routers.DeliverKeepsValid | src/main/java/tech/flightdeck/android/revtet/relay/network/Router.java:29-30 | handing a packet to an entry keeps the table valid, and any close comes last |
| Routers.SendToNetworkKeepsValid | src/main/java/tech/flightdeck/android/revtet/relay/network/Router.java:23-34 | routing any packet keeps at most one valid connection per flow, and any close comes last |
| Routers.SendToNetworkNeverConsumes | src/main/java/tech/flightdeck/android/revtet/relay/network/Router.java:23-34 | routing a packet never hands the client a packet source |
| Routers.RemoveForgetsFlow | src/main/java/tech/flightdeck/android/revtet/relay/network/Router.java:69-73 | removal fails exactly for an unserved flow; otherwise one connection goes, the flow is no longer served, and others are unchanged |
| Routers.Remove | src/main/java/tech/flightdeck/android/revtet/relay/network/Router.java:69-73 | `remove`; `RemoveForgetsFlow` states that it fails exactly for an unserved flow and otherwise removes only that flow |
| Routers.Disconnect | src/main/java/tech/flightdeck/android/revtet/relay/network/Router.java:80 | disconnecting keeps id and kind and closes a UDP or TCP channel; an ICMP flow is unchanged |
| Routers.Survivors | src/main/java/tech/flightdeck/android/revtet/relay/network/Router.java:75-84 | the survivors are exactly the connections not expired |
| Routers.IsExpired | src/main/java/tech/flightdeck/android/revtet/relay/network/Router.java:75-84 | `isExpired` of each kind; `TcpConnections.Expiry`, `UdpConnections.Expiry` and `Connections.IcmpSendToNetwork` state each |
| Routers.Expired | src/main/java/tech/flightdeck/android/revtet/relay/network/Router.java:75-84 | every connection is counted once, as expired or as a survivor |
| Routers.CleanStep | src/main/java/tech/flightdeck/android/revtet/relay/network/Router.java:76-83 | one backward step removes the `i`-th connection exactly when it is expired, without moving those before it |
| Routers.CleanExpired | src/main/java/tech/flightdeck/android/revtet/relay/network/Router.java:75-84 | the backward in-place sweep leaves exactly the unexpired connections in their order, disconnects the expired ones, and keeps the table valid |
| Routers.SurvivorsKeepDistinct | src/main/java/tech/flightdeck/android/revtet/relay/network/Router.java:75-84 | the survivors still serve distinct flows |
| Routers.NextEntry | src/main/java/tech/flightdeck/android/revtet/relay/network/TCPConnection.java:427-432 | `next()` on a table entry: a TCP connection holding a packet releases it, seq moves past its payload (wrapping) and ack, buffer and state stay; any other entry is unchanged |
| Routers.AdvanceHeld | src/main/java/tech/flightdeck/android/revtet/relay/network/TCPConnection.java:427-432 | advancing the source of a TCP entry that holds a packet replaces that entry in place by `next()` of the connection: its packet is released, seq moves past the payload (Java int wrap-around), and ack, buffer and state stay |
| Routers.NextEntryIdempotent | src/main/java/tech/flightdeck/android/revtet/relay/network/TCPConnection.java:427-432 | an entry advanced once holds no packet, so advancing it again changes nothing |
| Routers.Advance | src/main/java/tech/flightdeck/android/revtet/relay/entity/Client.java:132 | `source.next()` reaches the table: the entry of the source's flow is advanced, every other entry keeps its place and value, and the table stays valid |
| Routers.AdvanceAll | src/main/java/tech/flightdeck/android/revtet/relay/entity/Client.java:67-81 | advancing the sent sources in order advances each named entry once and leaves every other entry unchanged |
| Clients.Create | src/main/java/tech/flightdeck/android/revtet/relay/entity/Client.java:30-37 | a new client has empty buffers, no pending source, no connection and an open channel |
| Clients.Close | src/main/java/tech/flightdeck/android/revtet/relay/entity/Client.java:109-115 | only the channel closes |
| Clients.SendToClientAllOrNothing | src/main/java/tech/flightdeck/android/revtet/relay/entity/Client.java:117-127 | the packet's bytes are appended whole exactly when they fit, otherwise nothing changes |
| Clients.SendToClient | src/main/java/tech/flightdeck/android/revtet/relay/entity/Client.java:117-127 | `sendToClient`; `SendToClientAllOrNothing` states that the bytes go in whole exactly when they fit |
| Clients.Consume | src/main/java/tech/flightdeck/android/revtet/relay/entity/Client.java:129-137 | `consume(source)`; `ConsumeQueuesOnce` and `ConsumeHeldPacket` state what it sends, advances and queues |
| Clients.ConsumeQueuesOnce | src/main/java/tech/flightdeck/android/revtet/relay/entity/Client.java:129-137 | a source is advanced exactly when its packet fits: the packet is appended, the router advances the source's entry (`next()`) and the queue is untouched; otherwise the source is queued last, once, and the router is untouched |
| Clients.ConsumeHeldPacket | src/main/java/tech/flightdeck/android/revtet/relay/entity/Client.java:129-137 | for a TCP connection of the table that holds a packet, `consume` of what `get()` returns: when it fits the packet is written, the connection's packet is released and seq moves past the payload (wrapping) with ack kept; otherwise the connection keeps its packet and is queued |
| Clients.ConsumeSource | src/main/java/tech/flightdeck/android/revtet/relay/entity/Client.java:129-137 | `consume` of any packet carrying the connection's pending payload: sent exactly when it fits, the entry then becoming `next()` of the connection; otherwise the router is untouched and the source queued last |
| Clients.SendPending | src/main/java/tech/flightdeck/android/revtet/relay/entity/Client.java:67-81 | queued packets are appended in order until the first that does not fit |
| Clients.ProcessPending | src/main/java/tech/flightdeck/android/revtet/relay/entity/Client.java:67-81 | sent sources leave the queue front in FIFO order and the sweep stops at the first that does not fit; each sent source's table entry is advanced once (`next()`) and every other entry is unchanged |
| Clients.Apply | src/main/java/tech/flightdeck/android/revtet/relay/network/AbstractConnection.java:31-37 | a connection's calls only append to the bytes for the device and keep the client valid |
| Clients.RouteOne | src/main/java/tech/flightdeck/android/revtet/relay/entity/Client.java:83-89 | routing one datagram keeps the client valid and only appends to the bytes for the device |
| Clients.RouteAll | src/main/java/tech/flightdeck/android/revtet/relay/entity/Client.java:83-89 | routing datagrams in order keeps the client valid and only appends to the bytes for the device |
| Clients.PushToNetwork | src/main/java/tech/flightdeck/android/revtet/relay/entity/Client.java:83-89 | routing runs until no complete datagram remains |
| Clients.PushRoutesFrames | src/main/java/tech/flightdeck/android/revtet/relay/entity/Client.java:83-89 | back-to-back datagrams reach the router exactly as sent, in order, and an incomplete tail stays |
| Clients.ProcessReceive | src/main/java/tech/flightdeck/android/revtet/relay/entity/Client.java:51-57 | end of stream or an error closes the channel and changes nothing else; a read of bytes keeps the channel and the pending sources |
| Clients.ProcessSend | src/main/java/tech/flightdeck/android/revtet/relay/entity/Client.java:59-65 | a failed write or -1 closes; otherwise written bytes leave the front, pending sources are retried, and each one sent is advanced in the table |

## Left out

- Selectors, selection keys, channels and sockets are left out, and so is `channel.read`/`write`. Their outcomes are the parameters described above, and a cancelled key is the connection's `open` flag.
- `System.currentTimeMillis` and `Random.nextInt` are left out; they are the parameters `now` and `isn`.
- Concurrency is left out: the `synchronized` block of `sendToClient` and the ICMP thread pool.
- Logging and `numbers()` are left out.
- The ICMP echo itself is left out: `isReachable`, and the reply built on the pool. It calls a `packetize` overload that `Packetizer.java` does not have. An ICMP flow is modelled only by its identifier, its idle time and its 10-second expiry.
- The TCP selection handler is left out. `TcpConnections.ProcessReceive` ends with the `Consume` call, and `Clients.Consume` answers it with the packet `TcpConnections.Get` returns, advancing the connection through `Routers.Advance` (`Clients.ConsumeHeldPacket`). No single step runs the socket read and the client's answer together.
- The global `nextId` counter and `pendingIdBuffer` are left out.
- `Net.toInetAddress(String)`, `toInetAddresses` and `toString(InetSocketAddress)` are left out. They resolve host names.
- Connection.java has no behaviour. Only the shape of `Routers.Connection` follows it.
- `Client.cleanExpiredConnections` is left out. It only delegates to `Routers.CleanExpired`.
- The `IOException` of `clientChannel.close()` is left out. It is caught and logged.
- Java `assert`s are not modelled, because they are disabled at run time. This covers the version check of `getAvailablePacketLength` and `!pendingPacketSources.contains(source)`. `Clients.ConsumeQueuesOnce` proves that queueing keeps the queue free of duplicates when the source is not already queued.
- The `UnsupportedOperationException` of `createConnection` is left out. A valid packet always has protocol TCP, UDP or ICMP.
- A `null` state reaching `mayRead` is left out. The Java code would throw there, but that cannot happen: a connection without a state has already closed its key.
- Routers.SendToNetwork: its own ensures covers only the invalid packet. Routing a valid packet is stated by `Routers.ExistingFlowReused` and `Routers.NewFlowCreated`.
- Routers.Remove: removal is by flow identifier, not by object identity. The table never holds two connections of the same flow, so the two coincide.
- Routers.CleanExpired: it returns the disconnected connections in table order. The Java loop disconnects them from last to first.
- IPv4Packets.Parse: bytes too short for the lengths they declare make a `Malformed` packet. The Java constructors or `getPayload` would throw on them. The router drops such a packet like an invalid one.
- TcpConnections.ProcessSend: the write count is at most the buffered byte count. A stream buffer cannot write more than it holds.
- Clients.ProcessSend: the write count is between -1 and the buffered byte count, for the same reason.
- Clients.ProcessPending: a queued source is matched to its table entry by flow identifier, not by object identity, and `packets[i]` is what the `i`-th source's `get()` returns. A source whose connection left the table advances nothing there. If a new connection of the same flow has taken the entry, the model advances the new connection, while Java advances the detached object.
- UdpConnections.ProcessReceive: it reads through the corrected `Packetizers.PacketizeAll`, whose bound is 65535 minus the headers. `UDPConnection.read` calls `packetize(channel)` as written, which throws an uncaught `IllegalArgumentException` on a 65508-byte read (see Findings). IPv4 cannot carry such a datagram.
- TcpHeaders.ComputeChecksum: TCPHeader.java is not modelled. This model assumes the checksum covers the TCP header and payload only, without the RFC 793 pseudo-header, so the `ipv4` parameter goes unused; `TcpHeaders.ChecksumIgnoresIPv4` records that signature and holds by construction. If the code summed the pseudo-header, only the stored checksum bytes would differ.
- TcpConnections.Get: the pending packet is a value of its own. In Java it shares the packetizer's buffer (Packetizer.java:58-60 and IPv4Packet.java:18-19). `processSend` can build an empty ACK while the packet waits in the client's queue, and that ACK overwrites it. The later `get()` then returns the 40-byte ACK, and `next()` moves the sequence number by 0. The model keeps the queued packet intact and moves the sequence number past its payload.
- IcmpHeaders.ComputeChecksum: it requires the payload to have the length the IPv4 header implies. This is the condition the Java code asserts before summing.

## Findings

| source | as written | input that shows it | evidently intended | confidence | as-written member | corrected member |
|---|---|---|---|---|---|---|
| src/main/java/tech/flightdeck/android/revtet/relay/network/Packetizer.java:43-45 | `packetize(channel)` reads up to `payloadBuffer.capacity()`, which is 65536 minus both headers. A read that fills it makes the total length 65536, and the 16-bit field stores that as 0. The re-read packet then fails on `getPayload`. | A UDP template (28 header bytes) and a read of 65508 bytes. This is one more byte than the largest UDP payload IPv4 can carry, so it needs a datagram socket that returns more than that. | The payload space ends where the total length still fits 16 bits: 65535 minus both headers. | low: IPv4 UDP payloads cannot reach the size; not executed | Packetizers.PayloadCapacityAsWritten, Packetizers.PacketizeAllAsWrittenFailsOnFullRead, Packetizers.InflateAtFullCapacityFails | Packetizers.PayloadCapacity, Packetizers.PacketizeAll, Packetizers.InflateBuilds |
