# mini-router in Dafny

A model of the core of mini-router, a software IPv4 router and learning
Ethernet switch written in C, with proofs of what it does to every frame.

- The router (src/router.c over src/ether_layer.c) validates IPv4
  datagrams. It answers ICMP echo requests to its own addresses and forwards
  other datagrams by longest-prefix match. A datagram with no route gets an
  ICMP "network unreachable" error; one whose TTL would run out gets "time
  exceeded". The router speaks RIPv2 (RFC 2453): it takes whole-table
  requests and responses, and it advertises its table every 5 seconds with
  split horizon and poisoned reverse. Its link layer keeps an ARP cache,
  answers ARP requests for its addresses, and filters frames by destination
  MAC.
- The switch (src/switch.c) learns which interface each source MAC lives on.
  It sends a frame for a known MAC to that interface. It floods broadcast
  frames, and frames for unknown MACs, to every other interface.

The model keeps the shape of the C:

- **Fixed-size globals.** The route table (65536 entries), the ARP cache
  (1024) and the MAC table (1024) are classes. Each holds a fixed-capacity
  `array` and a `size` field, which the methods update in place.
- **Packet buffers.** Each buffer is an `array<byte>` of `BUFSIZ` (8192)
  bytes. The TTL decrement, the in-place ICMP error and echo reply, and the
  checksum stores are methods on that array.
- **Sends.** Every call of `send_packet` appends a `Transmit(interface,
  frame)` to a `sent` log, so output is a sequence that can be stated
  exactly.
- **The endless loops.** The bodies of the `run_router` and `run_switch`
  loops are single steps:
  - `Router.Router.Tick` handles the timer. The clock reading is a
    parameter.
  - `Router.Router.ReceiveStep` handles one received frame.
  - `Switch.LearningSwitch.HandleFrame` handles one switch frame.
  - The values `rand()` would give are a function parameter `ids`.

Every operation is specified on values:

- **Specification functions.**
  - `IpStep` gives the route table, buffer and frames that one datagram
    yields.
  - `RipResponses` gives the frames of `send_rip_response`.
  - `RelaxAll` gives the result of a RIP response on the table.
  - `Best` is the `get_route` lookup.
  - `SwitchStep` gives the result of one switch frame.
- **Methods.** Each method is proved to equal its function.
- **Lemmas.** The lemmas say what those functions promise:
  - round trips of every wire encoding;
  - the longest-prefix choice;
  - the three outcomes of every table upsert;
  - the exact field layout of every datagram the router builds;
  - which datagrams can change the route table;
  - that every frame leaves on an existing interface.

Modules, one per file: `Net` (shared types and big-endian fields),
`Checksum`, `RouteTable`, `EtherLayer`, `RipPacket`, `Rip`, `IpPath` (the
in-place datagram rewrites), `Router` and `Switch`.

## Behaviour of the source kept as written

- **Odd-length checksum.** `get_cksum16` on an odd length reads one byte
  past the range (router.c:100-101). Its branch for a trailing byte never runs. The
  model includes that extra byte, which is whatever the buffer holds.
- **RIP request test.** A RIP request is honoured when its single record has
  *tag* 0 and metric 16 (router.c:272-273). RFC 2453 section 3.9.1 names the
  address family instead.
- **Stored addresses are not masked on lookup.** `insert_route` stores the
  destination masked (router.c:59). The exact-match search compares against
  the address as received (router.c:294). So a RIP record with host bits set
  is never found again, and each copy of it appends one more route
  (`Rip.RelaxHostBitsAppendAgain`).
- **Metric wrap-around.** Metrics are `uint32_t`. A record with metric
  2^32-1 for a known prefix becomes metric 0 (`Rip.RelaxMetricWraps`).
- **ICMP error protocol byte.** The ICMP error rewrites the received header
  in place. It never sets the protocol field, so the error carries the
  offending datagram's protocol byte (router.c:163-168,
  `IpPath.IcmpErrorIpHeader`).
- **Short switch frames.** The switch processes frames shorter than an
  Ethernet header (switch.c:85-87). Their addresses come from buffer bytes
  the frame did not overwrite.
- **Frames back to the sender.** A frame addressed to its own sender, or to
  any MAC learned on the ingress interface, is sent back out of that
  interface (`Switch.SwitchStepToSender`).

## Model

| member | source | states |
|---|---|---|
| Checksum.GetCksum16 | src/router.c:97-109 | The result is the RFC 1071 checksum of the range; for an odd length the range is extended by the byte after it, as the 16-bit loads read it. |
| Checksum.Ihl4 | src/router.c:114 | `ihl * 4` is a multiple of 4 and at most 60. |
| Checksum.WithIpChecksum | src/router.c:112-117 | Storing the IP checksum changes only bytes 10-11 and keeps the header length. |
| Checksum.SetIpChecksum | src/router.c:112-117 | The buffer afterwards is `WithIpChecksum` of the buffer before. |
| Checksum.WithIcmpChecksum | src/router.c:139-143 | Storing the ICMP checksum changes only the two checksum bytes of the message. |
| Checksum.SetIcmpChecksum | src/router.c:139-143 | The buffer afterwards is `WithIcmpChecksum` of the buffer before. |
| Checksum.IpChecksumIdempotent | src/router.c:112-117 | Storing the IP checksum twice is the same as storing it once. |
| Checksum.IpChecksumOkIff | src/router.c:369-375 | The validation passes exactly when re-storing the checksum leaves the buffer unchanged. |
| Checksum.FreshIpChecksumOk | src/router.c:112-117 | A freshly checksummed header always passes the validation. |
| Checksum.IcmpChecksumIdempotent | src/router.c:139-143 | Storing the ICMP checksum twice is the same as storing it once. |
| Checksum.FreshIcmpChecksumOk | src/router.c:139-143 | A freshly stored ICMP checksum passes the ICMP checksum test. |
| Checksum.IpChecksumOkLocal | src/router.c:97-117 | The IP checksum test depends only on the `ihl*4` header bytes. |
| Checksum.IcmpChecksumOkLocal | src/router.c:97-109 | The ICMP checksum test depends only on the message bytes (and, for odd lengths, the byte after them). |
| Checksum.WithIpChecksumPayload | src/router.c:112-117 | The checksum covers the header only: the payload is unchanged and the result passes the validation. |
| Checksum.WithIpChecksumPrefix | src/router.c:112-117 | The checksum can be computed on any prefix that holds the header. |
| RouteTable.ClearLowestSetBit | src/router.c:32 | `x & (x - 1)` clears exactly one set bit. |
| RouteTable.CountOnes | src/router.c:28-35 | `count_ones` returns the number of set bits of the mask. |
| RouteTable.PrefixMaskCount | src/router.c:43-44 | For a contiguous mask of length n, `count_ones` is n, so "most ones" means "longest prefix". |
| RouteTable.LongestUpToIsFirstMax | src/router.c:39-48 | The scan's choice matches, has a maximal key and is the first entry with that key; there is no choice exactly when nothing matches. |
| RouteTable.LongestUpToPrefix | src/router.c:40-48 | The scan of a prefix of the table does not look past it. |
| RouteTable.Best | src/router.c:37-50 | The lookup result, when present, is an index into the table. |
| RouteTable.BestIsFirstLongest | src/router.c:37-50 | `get_route` finds nothing exactly when no entry matches; otherwise its entry matches, no matching entry has more ones, and every earlier match has strictly fewer. |
| RouteTable.BestAppend | src/router.c:37-50 | Appending a matching route with strictly more ones than the current choice makes the lookup choose it; any other append leaves the choice unchanged. |
| RouteTable.FindExact | src/router.c:290-297 | The exact-match search returns the first entry with the same destination and mask, or the table size. |
| RouteTable.FindExactAbsent | src/router.c:290-298 | The search reports no match exactly when no entry holds the prefix. |
| RouteTable.FindExactFirst | src/router.c:290-297 | Any index that is a match with no earlier match is the search result. |
| RouteTable.RouteInsertOutcome | src/router.c:52-66 | A full table gives OVERFLOW_ERROR and is unchanged. Otherwise one entry is appended, with its destination masked, and every address of the prefix matches it. |
| RouteTable.InsertedRouteMatches | src/router.c:58-64 | Every address of an inserted prefix matches the inserted entry. |
| RouteTable.RouteEraseOutcome | src/router.c:68-77 | An out-of-range position gives OUT_OF_RANGE_ERROR and no change. Otherwise exactly that entry is removed; the entries before it keep their index and the later ones move down by one. |
| RouteTable.Table.constructor | src/router.c:22-26 | The global table starts empty. |
| RouteTable.Table.GetRoute | src/router.c:37-50 | The loop over the array returns the `Best` index. |
| RouteTable.Table.InsertRoute | src/router.c:52-66 | The new table and return code are `RouteInsert` of the old table. |
| RouteTable.Table.EraseRoute | src/router.c:68-77 | The `memmove` shifts the entries down, with the result and return code of `RouteErase`. |
| RouteTable.Table.FindExactRoute | src/router.c:290-297 | The loop returns the `FindExact` index. |
| RouteTable.Table.SetRoute | src/router.c:307-309 | Only the entry at `pos` changes. |
| EtherLayer.EncodeArp | src/ether_layer.c:8-14 | The packed ARP payload is 28 bytes. |
| EtherLayer.ArpHeadFields | src/ether_layer.c:86-92 | A receiver reads back the hardware type, protocol type, both lengths and the operation. |
| EtherLayer.ArpAddressFields | src/ether_layer.c:93-96 | A receiver reads back the sender and target MAC and IP. |
| EtherLayer.DecodeEncodeArp | src/ether_layer.c:194-200 | Decoding an encoded ARP packet gives it back. |
| EtherLayer.EncodeDecodeArp | src/ether_layer.c:194-200 | Encoding a decoded 28-byte payload gives back the same bytes. |
| EtherLayer.EtherFrame | src/ether_layer.c:71-81 | The frame is 14 header bytes plus the payload. |
| EtherLayer.EtherFrameFields | src/ether_layer.c:74-79 | Parsing a built frame gives back its destination, source, EtherType and payload. |
| EtherLayer.IsBroadcastMac | src/ether_layer.c:133-135 | True exactly when all six bytes are 0xff. |
| EtherLayer.IsMulticastMac | src/ether_layer.c:127-131 | True exactly for the prefix 01:00:5e with the top bit of byte 3 clear, including under the signed-char shift. |
| EtherLayer.MulticastMacBytes | src/ether_layer.c:138-143 | The MAC of group b0.b1.b2.b3 is 01:00:5e:(b1&0x7f):b2:b3, and it passes the multicast test. |
| EtherLayer.MulticastMacCollision | src/ether_layer.c:138-143 | Two group addresses share a MAC exactly when their low 23 bits agree. |
| EtherLayer.ArpFind | src/ether_layer.c:30-38 | The search returns the first entry for the (IP, interface) pair, or the table size. |
| EtherLayer.ArpInsertOutcome | src/ether_layer.c:40-55 | An existing pair only gets the new MAC. A new pair is appended if there is room; otherwise the result is OVERFLOW_ERROR with no change. No other entry changes. |
| EtherLayer.ArpInsertKeepsUnique | src/ether_layer.c:40-55 | Upserting keeps the (IP, interface) pairs unique. |
| EtherLayer.ArpInsertThenFind | src/ether_layer.c:40-55 | After a successful upsert, a lookup of the pair gives the new MAC. |
| EtherLayer.SelfEntries | src/ether_layer.c:118-125 | `ether_init` stores one self entry per interface. |
| EtherLayer.ArpRequestLayout | src/ether_layer.c:101-116 | The request is broadcast from the interface MAC. Its payload parses as (Ethernet, IPv4, 6, 4, request, own MAC, own IP, zero MAC, queried IP). |
| EtherLayer.ArpReplyLayout | src/ether_layer.c:83-99 | The reply goes to the requester. Its payload parses as (Ethernet, IPv4, 6, 4, reply, answer MAC, queried IP, requester MAC, requester IP). |
| EtherLayer.ArpReceiveOutcome | src/ether_layer.c:187-225 | A reply teaches the cache (sender IP, ingress) to sender MAC and sends nothing. A request for a local address j gets a reply with j's addresses on the ingress interface, and the cache is unchanged. Anything else changes nothing. |
| EtherLayer.Link.constructor | src/ether_layer.c:25-28 | The ARP cache starts empty and nothing has been sent. |
| EtherLayer.Link.FindEntry | src/ether_layer.c:30-38 | The loop returns the first matching index, equal to `ArpFind`. |
| EtherLayer.Link.InsertEntry | src/ether_layer.c:40-55 | The new cache and return code are `ArpInsert` of the old cache. |
| EtherLayer.Link.EtherInit | src/ether_layer.c:118-125 | The cache ends up holding exactly the self entries, and the return code is 0. |
| EtherLayer.Link.SendL3Packet | src/ether_layer.c:71-81 | Exactly one frame is sent on the interface: the destination MAC, the interface MAC, the EtherType and the payload. |
| EtherLayer.Link.SendIpPacket | src/ether_layer.c:235-237 | Exactly one IPv4 frame is sent. |
| EtherLayer.Link.SendArpRequest | src/ether_layer.c:101-116 | Exactly one ARP request frame is sent. |
| EtherLayer.Link.SendArpReply | src/ether_layer.c:83-99 | Exactly one ARP reply frame is sent. |
| EtherLayer.Link.GetMac | src/ether_layer.c:137-155 | A multicast IP maps to its group MAC and a cache hit gives the stored MAC, both with return code 0. A miss sends one ARP request and returns UNKNOWN_MAC_ADDR. The cache never changes. |
| EtherLayer.Link.LocalIf | src/ether_layer.c:209-214 | Returns the first interface holding the IP, or the interface count. |
| EtherLayer.Link.ReceiveFrame | src/ether_layer.c:157-233 | An IPv4 frame passes exactly when it is at least 14 bytes, addressed to this interface's MAC, multicast or broadcast; its payload lands at the start of the buffer and the rest of the buffer is kept. An ARP frame of exactly 28 payload bytes acts as `ArpReceive`. Every other frame changes nothing. |
| Net.LocalIfIndex | src/router.c:377-382 | Returns the first interface whose address is the IP, or the interface count. |
| RipPacket.EncodeEntry | src/rip.h:32-39 | A record is 20 bytes. |
| RipPacket.DecodeEncodeEntryAt0 | src/rip.h:32-39 | An encoded record reads back as itself. |
| RipPacket.DecodeEncodeEntry | src/rip.h:32-39 | A record reads back from wherever its encoding sits. |
| RipPacket.DecodeEncodeEntries | src/router.c:262 | A run of encoded records reads back as the same records, in order. |
| RipPacket.RipHeaderIpFields | src/router.c:226-239 | The IP header of a RIP datagram: version 4, ihl 5, TOS 0xc0, total length 32 + 20n, the given id, no fragmentation, TTL 1, UDP, checksum 0, and the given addresses. |
| RipPacket.RipHeaderUdpFields | src/router.c:188-224 | The UDP header carries ports 520 to 520, length 12 + 20n and checksum 0; the RIP header carries the command and version 2. |
| RipPacket.RipMessage | src/router.c:215-240 | The datagram is 32 + 20n bytes. |
| RipPacket.RipMessageHeader | src/router.c:215-240 | The datagram carries its header (apart from the stored checksum) and then the records, with a 20-byte IP header that passes validation. |
| RipPacket.RipMessageUdpFields | src/router.c:215-240 | A receiver reads back the UDP and RIP header fields. |
| RipPacket.RipMessageIpFields | src/router.c:215-240 | A receiver reads back the IP header fields. |
| RipPacket.ShortUdpIsBroken | src/router.c:261-267 | A UDP length below 12 wraps the `size_t` record length, and the result is never a multiple of 20. |
| RipPacket.RecordCount | src/router.c:261-268 | A record count exists only when the UDP length is 12 plus 20 per record. |
| RipPacket.RecordBytesNeedHeaders | src/router.c:261-268 | Record bytes that are a multiple of 20 imply a UDP length holding both headers, so the `% 20` test alone rejects short datagrams. |
| RipPacket.RecordCountExact | src/router.c:261-268 | The count exists exactly when the UDP length is at least 12 and 12 less than it is a multiple of 20. |
| RipPacket.ClassifyRipAccepts | src/router.c:253-268 | Nothing is acted on unless both ports are 520 and the UDP length is the received length less the header, equal to 12 plus 20 per record. |
| RipPacket.ClassifyRipSendTable | src/router.c:269-276 | The only request answered is a single record with tag 0 and metric 16. |
| RipPacket.ClassifyRipUpdate | src/router.c:280-284 | A response is read as its records, in order, from offset `ihl*4 + 12`. |
| RipPacket.ResponseLayout | src/router.c:249-284 | A response with a 20-byte IP header and n announced records is read as those n records. |
| RipPacket.RequestLayout | src/router.c:269-279 | A request with a 20-byte IP header is honoured only when it is one record with tag 0 and metric 16. |
| RipPacket.RecordCountOf | src/router.c:254-268 | A UDP length of 12 + 20n for at most 25 records is its own `htons` and yields the count n. |
| RipPacket.RipMessageInBuffer | src/router.c:242 | A datagram built by `RipMessage` at the start of a buffer is read with the header it was built with. |
| RipPacket.ClassifyResponse | src/router.c:249-284 | A response built as `send_rip_response` builds it is read back as exactly its records. |
| RipPacket.ClassifyRequest | src/router.c:272-273 | A one-record request is honoured exactly when its tag is 0 and its metric 16, whatever its address family; otherwise it is ignored. |
| Rip.Advertise | src/router.c:195-212 | The advertisement has one record per route. |
| Rip.AdvertisePrefix | src/router.c:195-212 | The records of the first n routes are the first n records. |
| Rip.AdvertisedMetric | src/router.c:198-211 | Record k carries route k's prefix, next hop 0 and family IP. Its metric is 16 exactly when the route leaves through the advertising interface or already has metric 16; otherwise it is the route's metric. |
| Rip.Chunks | src/router.c:212-245 | Every batch holds between 1 and 25 records. |
| Rip.ChunksShape | src/router.c:212-245 | Every record lands in exactly one batch, in order. There are ceil(n/25) batches, and all but the last are full. |
| Rip.ChunksSnoc | src/router.c:212-244 | The batches of a prefix that ends a batch are the earlier batches plus that one. |
| Rip.RipResponse | src/router.c:213-242 | A response frame leaves on the advertising interface. |
| Rip.ResponseFramesFields | src/router.c:213-242 | Response k is an IPv4 frame on the advertising interface from its MAC to the RIP multicast MAC. Its datagram has a valid header checksum, IP id `ids(k)`, source the interface address and destination 224.0.0.9; it is a RIP response whose records read back as batch k. |
| Rip.ResponseFramesSnoc | src/router.c:213-245 | One more batch appends its response, numbered after the others. |
| Rip.RipResponsesShape | src/router.c:180-247 | There are ceil(n/25) responses, none for an empty table. Read in order, their batches are the whole advertisement exactly once, 25 per datagram except the last. |
| Rip.RipResponsesCount | src/router.c:180-247 | There are ceil(n/25) responses. |
| Rip.RipResponsesOnIface | src/router.c:180-247 | Every response leaves on the advertising interface. |
| Rip.RelaxUnknownPrefix | src/router.c:285-317 | A record with a next hop changes nothing. A record for an unknown prefix is appended with metric m+1, from the sender on the ingress interface, only when m < 16 and there is room. |
| Rip.RelaxNewInsert | src/router.c:311-317 | A usable record for an unknown prefix is appended when there is room. |
| Rip.RelaxNewKeep | src/router.c:311-317 | Any other record for an unknown prefix changes nothing. |
| Rip.RelaxWithdraw | src/router.c:298-304 | A metric-16 record erases the first exact match only when that route was learned from the sender. |
| Rip.RelaxImprove | src/router.c:298-310 | Any other metric m redirects the first exact match, and only it, through the sender with metric m+1, exactly when m+1 (as uint32) is below its metric; otherwise nothing changes. |
| Rip.RelaxFoundWithdraw | src/router.c:300-304 | A withdrawal, once the match at j is known. |
| Rip.RelaxFoundImprove | src/router.c:305-310 | A better metric, once the match at j is known, redirects route j. |
| Rip.RelaxFoundKeep | src/router.c:305-310 | A metric that is no better leaves the table unchanged. |
| Rip.RelaxKeepsIfs | src/router.c:285-317 | One record keeps every route on an existing interface. |
| Rip.RelaxAllKeepsIfs | src/router.c:283-318 | A whole response keeps every route on an existing interface. |
| Rip.RelaxMetricWraps | src/router.c:305-309 | Metric 2^32-1 for a known prefix wraps to 0 and redirects the route with metric 0. |
| Rip.RelaxHostBitsAppendAgain | src/router.c:294-315 | A record whose address has host bits set is never found again, so two copies append two routes. |
| IpPath.ForwardedFields | src/router.c:130-131 | A forwarded datagram differs only in its TTL, which is one less, and its checksum, which passes again. |
| IpPath.DecrementTtl | src/router.c:130-131 | The buffer afterwards is `Forwarded` of the buffer before. |
| IpPath.ReissuedFields | src/router.c:167-168 | TTL 64, a valid checksum, and no other byte but the checksum changes. |
| IpPath.IcmpErrorLen | src/router.c:160-163 | The error datagram is at most 136 bytes. |
| IpPath.ErrorMessageHead | src/router.c:156-159 | The ICMP header holds the type, the code and four zero bytes. |
| IpPath.ErrorMessageQuote | src/router.c:150-155 | The quote is the first `ihl*4 + 8` bytes of the offending datagram. |
| IpPath.ErrorMessageChecksum | src/router.c:160-161 | The ICMP checksum of the error message passes. |
| IpPath.ErrorMessageFrame | src/router.c:150-161 | The message leaves the IP header and everything after the quote unchanged. |
| IpPath.ErrorHeaderFields | src/router.c:163-167 | Total length `2*hl + 16`. The destination is the old source, the source is the interface address, and the TTL is 64. |
| IpPath.ErrorHeaderFrame | src/router.c:163-168 | Only the length, TTL, checksum and address bytes change. |
| IpPath.ErrorHeaderChecksum | src/router.c:168 | The rewritten header passes the validation. |
| IpPath.IcmpErrorIpHeader | src/router.c:145-168 | The error's IP header has the right length and addresses, TTL 64, a valid checksum, and the received protocol byte. |
| IpPath.IcmpErrorIcmpPart | src/router.c:150-161 | The error's ICMP part has the type, the code, zeros, the quoted datagram start and a valid ICMP checksum. |
| IpPath.BuildIcmpError | src/router.c:150-168 | The in-place rewrite yields `IcmpErrorBuf` of the buffer before. |
| IpPath.CopyQuote | src/router.c:155 | The `memcpy` yields `QuoteDatagram` of the buffer before. |
| IpPath.WriteIcmpHead | src/router.c:156-159 | The stores yield `ErrorIcmpHead` of the buffer before. |
| IpPath.WriteErrorHeader | src/router.c:163-168 | The stores yield `ErrorHeader` of the buffer before. |
| IpPath.EchoMessageFrame | src/router.c:405-406 | Only the ICMP type and checksum bytes change. |
| IpPath.EchoMessageFields | src/router.c:405-406 | The type is echo reply and the ICMP checksum passes. |
| IpPath.ReplyHeaderFrame | src/router.c:408-410 | Only the TTL, checksum and address bytes change. |
| IpPath.ReplyHeaderFields | src/router.c:408-409 | The addresses trade places and the TTL is 64. |
| IpPath.ReplyHeaderChecksum | src/router.c:410 | The reply header passes the validation. |
| IpPath.EchoReplyIpHeader | src/router.c:402-410 | The reply's IP header has the addresses swapped, TTL 64, a valid checksum and the other fields as received. |
| IpPath.EchoReplyIcmpPart | src/router.c:402-406 | The reply's ICMP part has type 0 and the request's code, identifier, sequence number and data, with a valid checksum. |
| IpPath.BuildEchoReply | src/router.c:405-410 | The in-place rewrite yields `EchoReplyBuf` of the buffer before. |
| IpPath.WriteReplyHeader | src/router.c:408-410 | The stores yield `ReplyHeader` of the buffer before. |
| Router.ConnectedRoutes | src/router.c:330-332 | `router_init` inserts one connected route per interface. |
| Router.ConnectedRouteMatches | src/router.c:331 | Connected route k matches every address of interface k's subnet ... |
| Router.ConnectedRouteMatchesOnly | src/router.c:331 | ... and only those. |
| Router.ConnectedRoutesOnIfs | src/router.c:330-332 | Every connected route leaves through its own interface. |
| Router.ConnectedRoutesReach | src/router.c:37-50 | After start-up every address of an interface's subnet has a route. The chosen route is connected, through an interface whose subnet holds the address, and at least as specific as that subnet. |
| Router.TimerDueIff | src/router.c:346-347 | With the clock not going backwards, the timer fires exactly when 5000 ms have passed. A clock reading below the last one wraps as uint64. |
| Router.AdvertisementsCount | src/router.c:347-351 | A firing sends ceil(n/25) responses per interface. |
| Router.AdvertisementsOnIfaces | src/router.c:347-351 | Every frame of a firing leaves on an existing interface. |
| Router.SendingAdd | src/router.c:204-212 | A record added to the batch keeps the invariant of the send loop. |
| Router.SendingFlush | src/router.c:213-245 | A flushed batch goes out as the next response, and the invariant is restored with an empty batch. |
| Router.TransitStep | src/router.c:418-434 | Transit never changes the route table. |
| Router.RipStepRoutes | src/router.c:249-325 | RIP changes the table only on a response, and the table keeps every route on an existing interface. |
| Router.RipStepOnIface | src/router.c:249-325 | Everything RIP sends leaves on the ingress interface. |
| Router.TransitStepOnIfaces | src/router.c:418-434 | A forwarded datagram, or its ARP request, leaves on the chosen route's interface. An ICMP error goes back on the ingress interface. |
| Router.IpStepRejects | src/router.c:364-375 | A datagram that fails the checks sends nothing and leaves the table unchanged. |
| Router.LocalStepRoutes | src/router.c:393-417 | For a local destination, only a UDP RIP response changes the table. |
| Router.MulticastStepRoutes | src/router.c:384-392 | For a multicast destination, only a UDP RIP response to 224.0.0.9 changes the table. |
| Router.IpStepRoutes | src/router.c:364-434 | Only a checked UDP RIP response, to the RIP group or a local address, changes the table, and the table keeps every route on an existing interface. |
| Router.LocalStepOnIface | src/router.c:393-417 | Everything a local destination causes leaves on the ingress interface. |
| Router.IpStepOnIfaces | src/router.c:364-434 | Every frame any datagram causes leaves on an existing interface. |
| Router.ForwardStepFrame | src/router.c:119-136 | If the next hop (the destination itself on a connected route) is cached, exactly one frame goes to its MAC: the datagram with TTL one less, a valid checksum and every other byte as received. Otherwise only the ARP request goes out and the buffer is unchanged. |
| Router.BounceStepFrame | src/router.c:145-172 | A datagram shorter than its header plus 8 bytes causes nothing. Otherwise one ICMP error goes back to the sender's MAC on the ingress interface, with the field layout above. |
| Router.EchoStepFrame | src/router.c:402-411 | One frame goes back to the sender's MAC on the ingress interface, with the addresses swapped, TTL 64 and a valid checksum ... |
| Router.EchoStepMessage | src/router.c:402-406 | ... carrying type 0 and the request's identifier, sequence number and data, with a valid ICMP checksum. |
| Router.Router.constructor | src/router.c:23-26 | The route table starts empty over an initialised link layer. |
| Router.Router.RouterInit | src/router.c:327-340 | The table is the connected routes, the RIP MAC is the group MAC of 224.0.0.9, nothing is sent, and the return code is 0. |
| Router.Router.InsertConnectedRoutes | src/router.c:330-332 | The loop leaves exactly the connected routes. |
| Router.Router.SendRipResponse | src/router.c:180-247 | Exactly the frames `RipResponses` are sent, and the table is untouched. |
| Router.Router.SendRipRecord | src/router.c:196-245 | One pass of the send loop keeps its invariant. |
| Router.Router.FlushBatch | src/router.c:213-244 | The completed batch is sent as the next response. |
| Router.Router.SendResponse | src/router.c:215-242 | Exactly one response frame is sent. |
| Router.Router.ApplyResponse | src/router.c:283-318 | The table becomes `RelaxAll` of the records. |
| Router.Router.ApplyEntry | src/router.c:284-317 | One record acts as `Relax`. |
| Router.Router.ApplyFound | src/router.c:298-310 | The found branch acts as `RelaxFound`. |
| Router.Router.HandleUdpPacket | src/router.c:249-325 | The table and the frames sent are those of `RipStep`. |
| Router.Router.IpForward | src/router.c:119-136 | The buffer and the frames sent are those of `ForwardStep`. |
| Router.Router.SendIcmpMsg | src/router.c:145-172 | The buffer and the frames sent are those of `BounceStep`. |
| Router.Router.SendEchoReply | src/router.c:402-411 | The buffer and the frames sent are those of `EchoStep`. |
| Router.Router.HandleIp | src/router.c:364-434 | The table, the buffer and the frames sent are those of `IpStep`. |
| Router.Router.Deliver | src/router.c:377-434 | The destination dispatch acts as `DeliverStep`. |
| Router.Router.DeliverLocalIcmp | src/router.c:397-417 | The echo path acts as `LocalIcmpStep`. |
| Router.Router.DeliverTransit | src/router.c:418-434 | The transit path acts as `TransitStep`. |
| Router.Router.ReceiveStep | src/router.c:356-434 | An IPv4 frame acts as `IpStep` on its payload. An ARP frame acts as `ArpReceive`. Anything else changes nothing. |
| Router.Router.Tick | src/router.c:346-355 | When the timer is due, the advertisements of every interface are sent in order and the time is recorded. Otherwise nothing changes. |
| Router.Router.SendAdvertisements | src/router.c:349-351 | The advertisements of every interface are sent, in order. |
| Switch.MacFind | src/switch.c:17-25 | The search returns the first entry for the MAC, or the table size. |
| Switch.MacFindFirst | src/switch.c:17-25 | Any index that is a match with no earlier match, or the table size when nothing matches, is the search result. |
| Switch.MacInsertOutcome | src/switch.c:27-44 | A known MAC only moves to the new interface. An unknown MAC is appended if there is room; otherwise the result is OVERFLOW_ERROR with no change. No other entry changes. |
| Switch.MacInsertKeepsUnique | src/switch.c:27-44 | Upserting keeps the MACs unique. |
| Switch.MacInsertKeepsIfs | src/switch.c:27-44 | Upserting an existing interface keeps every entry on an existing interface. |
| Switch.MacInsertThenLookup | src/switch.c:27-44 | After success the MAC looks up to the new interface. On OVERFLOW_ERROR it stays unknown. |
| Switch.MacInsertOtherLookup | src/switch.c:27-44 | Learning one MAC never changes where any other MAC is sent. |
| Switch.FloodShape | src/switch.c:59-65 | The flood is interfaces 0..n-1 in order, with the ingress one left out. |
| Switch.FloodCovers | src/switch.c:59-65 | Every other interface gets a copy of the frame, and the ingress one gets none. |
| Switch.SwitchStepLearns | src/switch.c:80-90 | A timeout learns nothing. A frame teaches the table where its sender is, unless the sender is new and the table is full. MACs stay unique and all entries stay on existing interfaces. |
| Switch.SwitchStepUnicast | src/switch.c:92-105 | A unicast frame for another MAC goes where the old table said: to exactly that interface if known, otherwise to every other interface. |
| Switch.SwitchStepToSender | src/switch.c:88-100 | A frame addressed to its own sender goes straight back out of the ingress interface. |
| Switch.SwitchStepOut | src/switch.c:92-105 | Every copy is the received frame and leaves on an existing interface. A copy leaves on the ingress interface only when the destination is a unicast MAC the table puts there. |
| Switch.LearningSwitch.constructor | src/switch.c:12-15 | The MAC table starts empty and nothing has been sent. |
| Switch.LearningSwitch.GetMacEntry | src/switch.c:17-25 | The loop returns the first matching index, equal to `MacFind`. |
| Switch.LearningSwitch.InsertMacEntry | src/switch.c:27-44 | The new table and return code are `MacInsert` of the old table. |
| Switch.LearningSwitch.BroadcastPacket | src/switch.c:59-65 | Exactly the flood frames are sent, in order. |
| Switch.LearningSwitch.HandleFrame | src/switch.c:78-106 | The frame overwrites the start of the buffer, and the new table and frames sent are those of `SwitchStep`. |

The specification functions that the methods above are proved equal to, and
that the lemmas are about, model these lines:

- `Checksum.WordSum`, `Checksum.Checksum`: the word sum and fold of `get_cksum16` (src/router.c:97-109).
- `Checksum.IpChecksumOk`: the header check of src/router.c:369-375. `Checksum.IcmpChecksumOk` is the same test on an ICMP message (src/router.c:139-143).
- `RouteTable.PopCount`, `RouteTable.Matches`: what `count_ones` counts and the match test of `get_route` (src/router.c:28-50).
- `RouteTable.RouteInsert`: `insert_route` (src/router.c:52-66).
- `RouteTable.RouteErase`: `erase_route` (src/router.c:68-77).
- `EtherLayer.DecodeArp`: the read of `arp_packet_t` (src/ether_layer.c:8-14, 194-200).
- `EtherLayer.ArpInsert`: `arp_insert_entry` (src/ether_layer.c:40-55).
- `EtherLayer.IpFrame`, `EtherLayer.ArpRequestFrame`, `EtherLayer.ArpReplyFrame`: the frames of `send_ip_packet`, `send_arp_request` and `send_arp_reply` (src/ether_layer.c:71-116, 235-237).
- `EtherLayer.Resolve`: `get_mac` (src/ether_layer.c:137-155).
- `EtherLayer.IsIpFrame`: the frame filter of `recv_ip_packet` (src/ether_layer.c:157-185).
- `EtherLayer.ArpReceive`: its ARP branch (src/ether_layer.c:187-225).
- `RipPacket.DecodeEntry`: the read of `rip_entry_t` (src/rip.h:32-39).
- `RipPacket.RipHeader`: the headers `send_rip_response` fills in (src/router.c:215-240).
- `RipPacket.ClassifyRip`: the checks and the request/response split of `handle_udp_packet` (src/router.c:253-284).
- `Rip.Advertise`, `Rip.Chunks`, `Rip.RipResponses`: `send_rip_response` (src/router.c:180-247).
- `Rip.Relax`, `Rip.RelaxFound`, `Rip.RelaxNew`, `Rip.Redirect`, `Rip.RelaxAll`: the record loop of `handle_udp_packet` (src/router.c:283-318).
- `IpPath.Forwarded`: the TTL decrement and checksum of `ip_forward` (src/router.c:130-131).
- `IpPath.ErrorMessage`, `IpPath.ErrorHeader`, `IpPath.IcmpErrorBuf`: `send_icmp_msg` (src/router.c:145-168).
- `IpPath.EchoMessage`, `IpPath.ReplyHeader`, `IpPath.EchoReplyBuf`: the echo reply (src/router.c:402-410).
- `IpPath.Reissued`: the TTL and checksum stores that both of those end with (src/router.c:167-168, 409-410).
- `Router.TimerDue`, `Router.Advertisements`: the timer branch of `run_router` (src/router.c:345-351).
- `Router.WellFormed`: the datagram checks (src/router.c:364-368).
- `Router.IpStep`: one datagram (src/router.c:356-434), dispatched by `Router.DeliverStep` (src/router.c:377-434).
- `Router.MulticastStep`: a multicast destination (src/router.c:384-392).
- `Router.LocalStep`, `Router.LocalIcmpStep`, `Router.EchoStep`: a local destination (src/router.c:393-417).
- `Router.RipStep`: `handle_udp_packet` (src/router.c:249-325).
- `Router.TransitStep`, `Router.NextHop`, `Router.ForwardStep`: forwarding (src/router.c:119-136, 418-434).
- `Router.BounceStep`: `send_icmp_msg` (src/router.c:145-172).
- `Switch.Lookup`: `get_mac_entry` (src/switch.c:17-25).
- `Switch.MacInsert`: `insert_mac_entry` (src/switch.c:27-44).
- `Switch.Flood`: `broadcast_packet` (src/switch.c:59-65).
- `Switch.Forward`, `Switch.SwitchStep`: the body of `run_switch` (src/switch.c:78-106).

## Left out

- Packet I/O through libpcap (src/physical_layer.c) is not modelled. A received frame is a parameter, the empty frame is the receive timeout, and every `send_packet` is an entry of the `sent` log.
- Configuration parsing (src/config.c), interface names and the two `main` functions are not modelled. The interfaces are given as `ifs` (router) or `numIf` (switch).
- Logging and the table printers (`print_route_table`, `print_arp_table`, `print_mac_table`, every `printf`/`fprintf`) produce only text and are left out. So is the switch's 5-second print timer (switch.c:70-77), which only prints.
- The endless `run_router` / `run_switch` loops are left out as loops. Their bodies are the steps `Tick`, `ReceiveStep` and `HandleFrame`, so no statement is made about sequences of steps.
- `get_clock_ms` is not modelled: the clock reading is a parameter.
- `rand()` is not modelled. IP ids are a parameter function: datagram k of `send_rip_response(i)` uses `ids(i)(k)`, or `ids(k)` for a single call.
- `inet_aton("224.0.0.9")` is replaced by the constant 224.0.0.9.
- Struct memory layout is modelled only through the wire encodings. Addresses, masks and metrics are kept in host value (`ntohl` of the wire field).
- `get_cksum16` sums 16-bit words in host order. The model sums big-endian words. RFC 1071 section 2(B) says the stored bytes are the same either way; that is not proved here.
- `send_rip_response` builds each datagram in a stack buffer. The model gathers the records of a batch as a sequence and builds the whole datagram with `RipMessage`. Stack bytes past the datagram are not modelled.
- The receive buffers of `run_router` and `run_switch` are locals, declared again on each pass. They are modelled as one array kept across steps. The bytes a frame does not overwrite are those of earlier frames; in C they are indeterminate.
- Router.BounceStepFrame: stated only for a received header of at least 20 bytes (`ihl >= 5`). A datagram with `ihl < 5` passes the checks of router.c:364-368 and is still modelled by `BounceStep`, but its result is not described.
- Router.EchoStepFrame: likewise stated only for a header of at least 20 bytes.
- Router.EchoStepMessage: stated only for a header of at least 20 bytes and at least 4 ICMP bytes.
- IpPath.IcmpErrorIpHeader: stated only for a header of at least 20 bytes.
- IpPath.IcmpErrorIcmpPart: stated only for a header of at least 20 bytes.
- IpPath.EchoReplyIpHeader: stated only for a header of at least 20 bytes.
- IpPath.EchoReplyIcmpPart: stated only for a header of at least 20 bytes and at least 4 ICMP bytes.
- Concurrency and signals: the C has none.
