# ipop-tap forwarding loops, modelled in Dafny

ipop-tap joins a local tap device to a set of remote peers. Two threads move
traffic:

- the outbound loop (`ipop_send_thread`) reads one Ethernet frame at a time
  from the tap. An ARP request is answered locally. A frame whose IP version
  is unknown is dropped. An IPv4 or IPv6 frame is encapsulated and sent to
  every peer that the peer directory matches for its destination address;
- the inbound loop (`ipop_recv_thread`) receives one encapsulated datagram
  at a time. It decodes the header region, translates the IPv4 addresses
  when that is on and the sender is known, rewrites the MAC address and
  writes the frame to the tap.

Each loop iteration is a pure function. It takes the loop options, the
collaborators and what the world supplied for that iteration: the bytes
read, the answers of the peer directory and the statuses the I/O calls
return. It returns a `Step`: an ordered trace of effects and a decision to
continue or stop. The effects are tap writes, sends, directory lookups and
resets, calls of the translators and of the MAC rewriter, drops, failure
reports and handle releases. A whole loop concatenates its iterations'
traces up to the first one that stops, then releases both sockets and the
tap.

Modules:

- `Seqs`: bytes, buffers and the repetition and counting helpers.
- `Frame`: the outbound classifier, with reference definitions of the
  fields it reads. These follow the Ethernet II header, the ARP packet
  layout of RFC 826, section 3.1 of RFC 791 and section 3 of RFC 8200.
- `Peers`: peer records, the encapsulation header, and the answers of the
  multi-match directory protocol. Code -1 means no further match, code 0
  means last match, and any other code means a match with more to come.
- `Effects`: the effect trace, the whole-loop trace and the teardown.
- `Config`: the loop options, the abstract `BUF_OFFSET`, the C integer
  limits and the `size_t` conversion, and the collaborators whose code is
  not part of this model.
- `Outbound`: the outbound iteration, the fan-out as a recursive function
  and as the source's `while` loop, and their properties.
- `Inbound`: the inbound iteration and its properties.

The model keeps what the code does as written:

- No frame length is checked before the classifier reads bytes 12 to 53.
  The model requires the buffer to hold them; bytes past the count read
  are whatever the buffer held.
- Only the low byte of the ARP opcode is compared.
- The outbound translation runs in place once per matched peer. The k-th
  copy therefore carries a payload translated k + 1 times.
- The inbound write length `count - BUF_OFFSET` is not checked. For a
  datagram shorter than the header region it is a negative `int`, which
  `write` receives as a `size_t` above `SSIZE_MAX`. `write` rejects such a
  count, so the frame is not delivered and the inbound loop ends.
- The decoded receiver id is never consulted.
- `BUF_OFFSET` is a link-wide constant defined in a header that is not part
  of this model. The model leaves its value open.

## Model

| member | source | states |
|---|---|---|
| Seqs.HighNibble | src/packetio.c:96 | `buf[14] >> 4` on an unsigned byte is the value n in 0..15 with 16n <= b < 16n + 16 |
| Frame.IsArpRequest | src/packetio.c:85 | the request test holds exactly when the EtherType is 0x0806 and the low byte of the ARP operation is 1 |
| Frame.Classify | src/packetio.c:85-105 | an IPv4 key is 4 bytes, an IPv6 key 16 bytes, and an unknown type carries a nibble in 0..15 other than 4 and 6 |
| Frame.ClassifyMatchesProtocolFields | src/packetio.c:85-105 | a frame is an ARP request exactly when its EtherType is 0x0806 and its ARP operation is 1 modulo 256. Otherwise the IP Version field decides: 4 gives the IPv4 Destination Address as key, 6 gives the IPv6 Destination Address, and any other value is an unknown type |
| Frame.ClassifyReadsOnlyFixedOffsets | src/packetio.c:85-101 | two frames that agree on bytes 12, 13 and 21, on the high nibble of byte 14 and on the two key ranges are classified alike, whatever their length and other bytes |
| Frame.EtherTypeNotConsultedForFamily | src/packetio.c:96-98 | a frame with EtherType 0x86DD and version nibble 4 is forwarded as IPv4 |
| Frame.ArpReplyIsUnknownType | src/packetio.c:85-104 | an ARP reply with the Ethernet hardware type fails the request test and is dropped as version nibble 0 |
| Frame.OpcodeHighByteIgnored | src/packetio.c:85 | an ARP opcode of 0x0101 is taken for a request |
| Peers.FirstStop | src/packetio.c:108-141 | the lookup that ends the fan-out is the first one answering -1 or 0; no earlier lookup does |
| Peers.MatchCount | src/packetio.c:108-141 | the number of sends is `FirstStop` (the lookups before the one that ends the fan-out) plus one when that lookup answered 0; it is 0 when the first answer is -1, and no counted lookup answered -1 |
| Effects.RunLoop | src/packetio.c:75-148 | a loop's trace starts with its first iteration's effects, and a loop none of whose iterations stops performs them all and no teardown |
| Config.ToSizeT | src/packetio.c:214 | an `int` count passed as `size_t` keeps a value in range and gains 2^64 when negative |
| Effects.RunLoopIsPrefixThenTeardown | src/packetio.c:75-148 | a loop performs every iteration up to and including the first that stops, in order, then the teardown; if none stops it performs them all |
| Effects.TeardownOnceOnStop | src/packetio.c:223-226 | each handle is closed exactly once if some iteration stops and never otherwise, and the three closes end the trace |
| Effects.CloseCount | src/packetio.c:145-148 | the close count of each handle is 1 if some iteration stops and 0 otherwise |
| Effects.TeardownLast | src/packetio.c:145-148 | when some iteration stops, the last three effects are the closes of both sockets and the tap |
| Outbound.SendToMatchParts | src/packetio.c:118-140 | each match gives one send of the frame, translated in place without addresses exactly when the key is IPv4 and translation is on, to the peer's route with header (local id, peer id) and length `count + BUF_OFFSET`; no lookup or reset |
| Outbound.RunOutbound | src/packetio.c:75-143 | while every read succeeds, the loop performs every iteration in order and no teardown |
| Outbound.RouteTo | src/packetio.c:122-140 | the send override is used exactly when one is set; otherwise the datagram goes to the peer's destination address and port |
| Outbound.FanOut | src/packetio.c:107-142 | the fan-out always starts with a lookup of the frame's own key |
| Outbound.FanOutOnlyForwards | src/packetio.c:108-142 | the fan-out never writes to the tap and never releases a handle |
| Outbound.OutboundStep | src/packetio.c:75-143 | an iteration never releases a handle, and it stops exactly when the tap read fails |
| Outbound.FanOutSends | src/packetio.c:106-142 | the number of sends is the number of lookups before the first -1, counting up to and including the first 0; the k-th copy is `CopyFor` the k-th matched peer |
| Outbound.FanOutSendCount | src/packetio.c:107-141 | the number of sends equals `MatchCount` of the directory answers |
| Outbound.FanOutCopies | src/packetio.c:106-140 | the k-th send goes to the k-th matched peer, with header (local id, peer id), the route `RouteTo` chooses for that peer, the payload after k + 1 in-place translations (or the frame as read), and length `count + BUF_OFFSET` |
| Outbound.FanOutSendsShape | src/packetio.c:108-141 | the fan-out sends nothing when the first lookup answers -1, only the first match's copy when it answers 0, and otherwise that copy followed by the sends of the remaining lookups from the buffer the first translation left |
| Outbound.CopyForShift | src/packetio.c:119-121 | the copies after the first are the copies of the remaining lookups, sent from the buffer the first translation left |
| Outbound.FanOutTranslations | src/packetio.c:119-121 | the fan-out translates exactly once per matched peer, with no addresses, when the key is IPv4 and translation is on, and never otherwise |
| Outbound.FanOutLookups | src/packetio.c:108-117 | the directory is asked once per lookup round up to and including the one that ends the fan-out, always for the frame's key, and the iterators are not reset inside the fan-out |
| Outbound.FanOutResolvesOnlyKey | src/packetio.c:108-117 | every directory lookup of the fan-out is for the frame's own key |
| Outbound.SendFailuresIgnored | src/packetio.c:122-140 | two directories that agree on codes and peers give the same copies, whatever the transport returned for each send |
| Outbound.FanOutLoop | src/packetio.c:108-142 | the source's `while` loop (lookup, break on -1, translate, send, break after 0) performs exactly the effects of `FanOut`, with `MatchCount` sends |
| Outbound.ArpRequestAnsweredLocally | src/packetio.c:85-94 | an ARP request is never sent to a peer and never resets the directory. It is written back to the tap with the length read when `create_arp_response` returns 0, and otherwise not written. The loop goes on |
| Outbound.UnknownVersionDropped | src/packetio.c:102-105 | a non-ARP frame with a version nibble other than 4 or 6 is dropped with a report of that nibble; nothing is written or sent and the loop goes on |
| Outbound.KeyOf | src/packetio.c:96-101 | the lookup key is an IPv4 key exactly when the frame is classified IPv4; an IPv4 key is the 4-byte IPv4 Destination Address and an IPv6 key the 16-byte IPv6 Destination Address |
| Outbound.IpStepIsFanOut | src/packetio.c:96-107 | an IP frame's iteration is one directory reset followed by the fan-out for its key, and the loop goes on |
| Outbound.IpFrameStartsWithLookup | src/packetio.c:107-117 | an IP frame resets the directory iterators exactly once, first, and its first lookup is for its own key |
| Outbound.IpFrameNeverWritten | src/packetio.c:106-142 | an IP frame is never written back to the tap |
| Outbound.IpFrameSends | src/packetio.c:106-142 | an IP frame's sends are `MatchCount` copies, the k-th being `CopyFor` the k-th match |
| Outbound.IpFrameTranslations | src/packetio.c:119-121 | an IP frame is translated `MatchCount` times when it is IPv4 and translation is on, and never otherwise; IPv6 frames are never translated |
| Outbound.SinglePeerUntranslated | src/packetio.c:108-141 | an IPv4 frame with exactly one match (a first answer of 0, or a match followed by -1), no override and no translation leaves as one datagram to that peer's address and port, carrying the frame as read |
| Outbound.OutboundTeardown | src/packetio.c:75-148 | the outbound loop ends only on a failed tap read; then, and only then, both sockets and the tap are closed once each, as the last effects |
| Outbound.OutboundRunsUntilReadFailure | src/packetio.c:75-148 | frames are handled in order up to and including the first failed read, then the loop tears down |
| Inbound.InboundStep | src/packetio.c:183-221 | an iteration never releases a handle, and it stops exactly when the receive or the tap write fails |
| Inbound.OneWritePerDatagram | src/packetio.c:198-214 | each datagram gives exactly one tap write, of length `count - BUF_OFFSET` converted to `size_t`, carrying the payload region as translated (if at all) and then MAC-rewritten |
| Inbound.MacRewrittenJustBeforeWrite | src/packetio.c:212-214 | the MAC rewrite is the effect just before the tap write, which is the last effect, or the last but one when the write fails |
| Inbound.NoTranslationAfterMac | src/packetio.c:200-214 | no translation runs once the MAC has been rewritten |
| Inbound.TranslationGate | src/packetio.c:199-210 | `translate_packet` and `translate_headers` each run once, with the sender's and this node's local addresses, exactly when the nibble is 4, translation is on and the sender id is known; otherwise neither runs. The sender is looked up exactly when the nibble is 4 and translation is on |
| Inbound.UntranslatedUnlessGated | src/packetio.c:200-214 | without all three gate conditions, the frame written is the payload region with only its MAC rewritten |
| Inbound.DestinationIdIgnored | src/packetio.c:199-201 | replacing the header decoder with one that agrees on the sender id changes nothing |
| Inbound.FullDatagramWriteLength | src/packetio.c:198-214 | a datagram of at least `BUF_OFFSET` bytes is written with length `count - BUF_OFFSET` |
| Inbound.ShortDatagramEndsLoop | src/packetio.c:198-220 | a datagram shorter than `BUF_OFFSET` is still handed to `write`, with `count - BUF_OFFSET + 2^64` as count. That count exceeds `SSIZE_MAX`, so the write fails with a report and the loop stops |
| Inbound.TranslatedWhenGated | src/packetio.c:200-214 | with all three gate conditions, the frame written is the payload region translated by `translate_packet` and then `translate_headers`, both from the sender's local address to this node's, and then MAC-rewritten |
| Inbound.DeliveryParts | src/packetio.c:212-220 | the delivery is the MAC rewrite, then one write with the `size_t` length, then a report exactly when the write fails; it calls no translator and looks nothing up |
| Inbound.RunInbound | src/packetio.c:183-221 | while no datagram is fatal, the loop performs every iteration in order and no teardown |
| Inbound.InboundTeardown | src/packetio.c:183-226 | the inbound loop ends only on a failed receive or a failed tap write; then, and only then, both sockets and the tap are closed once each, as the last effects |
| Inbound.InboundRunsUntilFatal | src/packetio.c:183-226 | datagrams are handled in order up to and including the first fatal one, then the loop tears down |

## Left out

- System calls (`read`, `write`, `sendto`, `recvfrom`, `close`, `tap_close`)
  become effects or input statuses. The `sockaddr_in` construction is
  reduced to the (address, port) of the route.
- The Windows branches (`read_tap`, `write_tap`, `WSACleanup`). The missing
  tap close on Windows is not modelled.
- Threads and concurrent access to the peer directory. The directory is a
  given sequence of answers per frame.
- `pthread_exit` and the diagnostic texts. A diagnostic appears only as the
  `Report` of which failure it was.
- The internals of `create_arp_response`, `set_headers`, `get_headers`,
  `translate_packet`, `translate_headers`, `update_mac` and the `peerlist_*`
  storage. They are not part of this model and are uninterpreted functions.
  For that reason:
  - the header encode/decode round trip is not stated;
  - no inverse or idempotence of translation is stated;
  - no checksum arithmetic is modelled.
- `set_headers` writes the header region in place. The model carries the
  header as the (local id, peer id) pair of each send, not as bytes.
- The status of the ARP reply's tap write: the source ignores it.
- A directory that never answers -1 or 0. The source would ask it forever;
  the model requires it to end.
- The width of `size_t` and the rule for oversized counts. The model takes
  `size_t` as 64 bits and a `write` count above `SSIZE_MAX` as failing, as
  Linux does. Received counts are C `int`s, and `BUF_OFFSET` is
  taken to be below 2^16.
- `BUFLEN` and the buffer capacities. The model only requires the buffers to
  hold the bytes the loops read, and the counts to fit in them.
