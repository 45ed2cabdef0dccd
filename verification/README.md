# A verified model of the FogROS2-SGC router

The router joins local ROS endpoints and remote routers. A connection turns packets into a byte
stream (a JSON header, a NUL byte, the payload) and puts packets together again from reads of any
size; a connection RIB forwards packets by name; a flush tells a peer which names are known. This
project models that logic and proves what it promises, over all inputs, all ways in which the
network cuts a stream, and all runs of a network of routers.

## How the model is built

| files | subject |
|---|---|
| `structs.dfy`, `header_text.dfy`, `json_codec.dfy` | records; the JSON text of a header and a strict parser for it; UTF-8 |
| `framing.dfy` | the batch parser, on encoded frames and on arbitrary bytes |
| `reassembly.dfy` | runs of reads over one stream; the round trip |
| `tcp_stream.dfy`, `tcp_sender.dfy`, `tcp_link.dfy` | the TCP session: receiver, sender with partial writes, both together |
| `dtls_stream.dfy` | the DTLS session with its reset counter |
| `pipeline.dfy` | packets made from frames, and their dispatch |
| `connection_rib.dfy`, `ros.dfy` | the routing table, forwarding, flushing; ROS publishers; lookup against flooding |
| `forest.dfy`, `network.dfy`, `network_invariant.dfy`, `network_runs.dfy` | routers joined by byte streams as a step system, its invariant, and what holds at every reachable state |
| `disturbed_links.dfy`, `link_fifo.dfy`, `queue_fifo.dfy` | what holds even if links carry anything at all; one link that is spared; the queues inside a router |
| `route_sync.dfy`, `quiescence.dfy` | a flush synchronises routes; forwarding comes to an end |
| `udp_stream.dfy`, `sequences.dfy` | the UDP listener that splits one socket into streams |

Tasks that update their variables in place are classes (`TcpStream.Receiver`, `DtlsStream.Session`,
`ConnectionRib.Router`, `UdpStream.Listener`, `UdpStream.Stream`); their methods follow the branches
of the original and are proved against functions, and the theorems are about those functions. A
panic of the original is an explicit outcome. `Framing.Codec` is the textual form of headers that a
connection is built on. Everything about framing is proved for every lawful one: what is shown reads
back, holds no NUL and has no proper prefix that reads. Such a codec may read other forms as well, as
serde_json does with white space and other field orders. `JsonCodec.JsonIsLawful` proves that the
JSON text of the program is lawful, with a parser that is strict besides.

The step system in `Network` uses the same functions as the classes: reading is `Feed`, as for
`Receiver.Read`; routing makes `CopyCount` copies, as `Router.Forward` does; a flush queues the
advertisements of `Router.Flush`. Its steps come in any order and its reads end anywhere. The trail
of a packet and the packets under way on a link exist only for the proofs. In `DisturbedLinks`, runs mix
these steps with moves that put anything at all on a link and into its receiver: what a payload write
that fails half way leaves behind, what a DTLS session does after a reset, lost bytes, other peers.

## Main results

- **Round trip.** Whatever frames are sent and however their bytes are cut, the receiver hands on
  exactly these frames, each read from its own bytes, and ends with nothing pending *if and only if*
  no read ends between a header and its NUL byte, or inside a non-empty packet whose action is Noop
  (`Reassembly.RoundTripIff`). Without Noop packets the only way to fail is a panic at the first kind
  of cut (`PanicsIff`, `TcpLink.PacketsArriveIff`).
- **Arbitrary bytes.** For any bytes, cuts and lawful codec: the received bytes behind the emitted frames
  and those behind the kept state are exactly the bytes received if and only if the parser drops nothing
  at any cut (`RunKeepsEverythingIff`); then the cuts do not matter at all (`ChunksDoNotMatter`).
- **Sender and link.** For any answers of the kernel and any way of cutting what was written, the packets
  whose headers were not refused are handed on and the part of the next one is held *if and only if* no
  header was taken in part, no payload write failed hard, and no read ended at a bad cut; payloads may
  be taken in parts of any size (`TcpLink.SendAcross`, from `TcpSender.SendQueue` and
  `SentIsReceivedIff`).
- **DTLS.** The same as TCP up to five reads that go on with a header, counted over the whole life of
  the connection; the sixth throws away what is pending. So the round trip needs one condition
  more, again exactly (`DtlsRoundTripIff`).
- **No loops, no hop limit.** In a forest of routers with one connection per link, every packet in any
  reachable state has been at no router twice (`NetworkRuns.NoLoops`), and no run consists of
  forwarding steps for ever (`Quiescence.ForwardingComesToAnEnd`).
- **Whatever is on the links,** queues hold only packets that may be sent, never a Noop
  (`DisturbedLinks.QueuesHoldOnlySendable`), and no packet goes back on the connection that it came in
  on, with any topology and any thread names (`NeverBackWhereItCameFrom`).
- **Links.** A link that is spared by all that hands on what its writer has written, exactly once and in
  order, whatever happens on the others (`LinkFifo.LinksAreFifo`).
- **Routes.** After a flush has gone through, every name of the flusher's table is a route at the
  other end and is used (`RouteSync.FlushSynchronisesRoutes`); and it can go through after every run that
  spares the link and leaves its receiver alive (`FlushCanGoThrough`).
- **Queues.** Over every run, everything that goes into a router's queues, said packet by packet for every
  step, has come out in order or waits there (`QueueFifo.QueuesAreFifo`); on a link that is spared, what
  one end queued is what the other hands on (`QueuedIsHandedOn`); and what a subscriber sends is what
  publishers of its topic are delivered (`SentIsDelivered`).
- **Lookup and flooding.** In every run, a local publisher gets the payloads that it would have got had
  its RIB sent every packet to every entry, in the same order (`DisturbedLinks.LookupServesPublishers`),
  because endpoints are registered under their topic only. For one table,
  `Ros.LookupServesAsFloodingIff` gives the exact condition.

Where the design notes and the code differ, the model follows the code: `docs/routing.md` has packets
for unknown names dropped or buffered while a query is sent, the code broadcasts them
(core/src/connection_rib.rs:91-96); names are 4 bytes, not 256 bits.

## Model

| member | source | states |
|---|---|---|
| HeaderText.ParseIffPrinted | core/src/structs.rs:90-95 | for every byte string and every header: the text reads as that header exactly when it is its printed form |
| HeaderText.HeaderTextBytes | core/src/network/tcp.rs:248-254 | the whole text of every header, byte by byte: keys, punctuation and the order of the fields |
| HeaderText.ActionNames | core/src/structs.rs:9-17 | each action is written as the name of its variant |
| HeaderText.PrintedIsBraced | core/src/network/tcp.rs:248-254 | the printed header is ASCII without NUL, and its only closing brace is its last byte |
| HeaderText.ProperPrefixDoesNotParse | core/src/network/tcp.rs:53-61 | no proper prefix of a printed header reads as a header, so "parse failed" means "incomplete" on a well-formed stream |
| JsonCodec.JsonIsLawful | core/src/network/tcp.rs:49-53 | printing, UTF-8 checking and reading back together satisfy all that framing needs |
| JsonCodec.IsUtf8Iff | core/src/network/tcp.rs:51 | exactly the encodings of texts pass the check that panics on all other bytes |
| JsonCodec.ReadHeaderIff | core/src/network/tcp.rs:51-62 | for every byte string, exactly when reading a header panics, yields a header, or fails |
| Framing.Codec.ParseHeaderPayloadPairs | core/src/network/tcp.rs:29-78 | the loop terminates and computes the parse of its input, including both panics |
| Framing.Codec.TurnKeeps | core/src/network/tcp.rs:45-77 | one turn on arbitrary bytes: it splits off header text, NUL and payload and loses nothing, or stops with a state made from the whole buffer except in two named cases |
| Framing.Codec.ParseAtText | core/src/network/tcp.rs:62-76 | what a header that reads, in any form, makes the parser do with the bytes after its NUL |
| Framing.Codec.ParseAtOther | core/src/network/tcp.rs:49-63 | what bytes that are not a header, not UTF-8, or a header without its NUL make it do |
| Framing.Codec.ParseAccounts | core/src/network/tcp.rs:45-77 | on arbitrary bytes, those of the frames and of the remainder are exactly the input or fewer, and a payload that waits is shorter than its header says |
| Framing.Codec.ParseSplits | core/src/network/tcp.rs:45-77 | on arbitrary bytes, the consumed ones are the raw frames, and the state does whatever the remaining ones would do |
| Framing.Codec.ParseKeepsEverythingIff | core/src/network/tcp.rs:54-67 | exactly when nothing is dropped: no NUL-terminated header that does not read, no incomplete Noop packet |
| Framing.Codec.ParseFramesThen | core/src/network/tcp.rs:70-76 | complete frames come out as they went in, whatever follows them |
| Framing.Codec.ParseWithinHeader | core/src/network/tcp.rs:49-63 | a header cut short is kept as raw bytes; the whole text without its NUL panics |
| Framing.Codec.ParseResumesPayload | core/src/network/tcp.rs:162-188 | a payload cut short goes on in one of three ways: still short, exact, overflowing |
| Framing.Codec.ParsePrefix | core/src/network/tcp.rs:29-78 | the first n bytes of a stream are all kept exactly when n is not a bad cut; the complete frames come out, and the parser waits for a header exactly when n is inside one |
| Framing.Codec.ParsePanics | core/src/network/tcp.rs:49-63 | without Noop packets, a bad cut is an index out of range |
| Framing.Codec.AwaitingIsBounded | core/src/network/dtls.rs:60-67 | an unfinished header holds at most the input, and something unless bytes were dropped |
| Reassembly.FeedResumes | core/src/network/tcp.rs:161-191 | resuming where nothing was dropped is parsing from the start |
| Reassembly.FeedAccounts | core/src/network/tcp.rs:158-229 | one read, from any state and for any bytes: nothing is made up, and nothing lost exactly when the parser keeps it |
| Reassembly.RunKeepsEverythingIff | core/src/network/tcp.rs:94-229 | decoder abstraction: for any bytes and cuts, the raw frames emitted and the bytes that the state stands for are those received exactly when every cut is lossless |
| Reassembly.RunIsParse | core/src/network/tcp.rs:94-229 | a run with lossless cuts is the parse of the whole stream at once |
| Reassembly.ChunksDoNotMatter | core/src/network/tcp.rs:94-229 | two lossless ways of cutting the same bytes give the same frames and state |
| Reassembly.GoodCutsAreLossless | core/src/network/tcp.rs:161-189 | on a stream of frames, lossless cuts are the good cuts, which a sender could check |
| Reassembly.ReceivedSoFar | core/src/network/tcp.rs:158-229 | part way through a stream, nothing was lost exactly for good cuts; then the complete frames were handed on and the rest is held |
| Reassembly.RoundTrip | core/src/network/tcp.rs:94-229 | the round trip, for every list of frames and every way of cutting without bad cuts |
| Reassembly.RoundTripIff | core/src/network/tcp.rs:94-229 | the converse too: only good cuts let exactly these frames arrive from their own bytes |
| Reassembly.PanicsIff | core/src/network/tcp.rs:49-63 | without Noop packets the receiver panics exactly when a read ends between a header and its NUL |
| Reassembly.SpoiltIff | core/src/network/tcp.rs:94-229 | if a wire lacks bytes of a stream, the receiver is never as if it did not: it has all of a part of the stream exactly when the wire does and the cuts are good |
| Reassembly.ReadTakesFrames | core/src/network/tcp.rs:117-229 | one read in mid-stream takes the complete frames off the front, and the remaining bytes are the encoding of the remaining frames |
| TcpStream.Receiver.Resume | core/src/network/tcp.rs:161-189 | the four branches amount to parsing held and new bytes together; the subtraction does not underflow |
| TcpStream.Receiver.Read | core/src/network/tcp.rs:115-231 | one readable event, for every state with a short payload: frames, state, and what goes to the RIB |
| TcpSender.WritePayload | core/src/network/tcp.rs:270-288 | for any answers, the wire gets the first bytes of the payload in order, as many as were taken |
| TcpSender.PayloadAnswersAre | core/src/network/tcp.rs:270-288 | the payload loop asks until it has been offered enough or a hard error comes, and not once more |
| TcpSender.WireOfPacketIs | core/src/network/tcp.rs:258-288 | as much of a header as its answer offers, and right behind it, even if that is not all, as much of the payload as its answers offer |
| TcpSender.BegunAre | core/src/network/tcp.rs:243-290 | which answers belong to which packet |
| TcpSender.SendPacket | core/src/network/tcp.rs:243-288 | for any answers, what one packet puts on the wire, how many answers it takes, and exactly when it is lost, unfinished or cut short: by a header taken in part or a hard error, never by short payload writes |
| TcpSender.SendQueue | core/src/network/tcp.rs:243-290 | for any answers, the whole wire; it is the encoding of the packets whose headers were not refused plus a part of the next exactly if no header is taken in part and no payload write fails hard, and too short otherwise |
| TcpSender.SentIsReceivedIff | core/src/network/tcp.rs:94-290 | what SendQueue leaves arrives as the packets sent with the unfinished one held, exactly if the wire is intact and the cuts are good |
| TcpLink.PacketsArriveIff | core/src/network/tcp.rs:94-290 | packets arrive in order, names and payloads unchanged and the source replaced, or the receiver panics |
| TcpLink.JsonPacketsArriveIff | core/src/network/tcp.rs:94-290 | the same with the JSON text of headers |
| TcpLink.SendAcross | core/src/network/tcp.rs:94-290 | one direction of a link as a whole, for any answers and any cuts: exactly when what was accepted arrives |
| DtlsStream.Session.Resume | core/src/network/dtls.rs:146-182 | the branches with the counter and the reset |
| DtlsStream.Session.Read | core/src/network/dtls.rs:139-222 | one read, and what goes to the RIB |
| DtlsStream.Session.Send | core/src/network/dtls.rs:225-242 | the wire grows by exactly the encoding of the packet |
| DtlsStream.RefinesTcp | core/src/network/dtls.rs:147-182 | up to five continuation reads, cumulatively, DTLS does what TCP does on arbitrary bytes |
| DtlsStream.ContinuationsAreCounted | core/src/network/dtls.rs:147-154 | what is counted: the reads before which an unfinished header is held |
| DtlsStream.SixthContinuationResets | core/src/network/dtls.rs:154-160 | the sixth discards what is pending and leaves a connection that behaves as a new one for ever |
| DtlsStream.HeaderBufferIsBounded | core/src/network/dtls.rs:149-160 | for every input, an unfinished header holds at most (counter + 1) reads and the counter at most 5 |
| DtlsStream.DtlsKeepsEverythingIff | core/src/network/dtls.rs:118-223 | for any bytes, nothing is dropped exactly when cuts are lossless and at most five reads go on with a header |
| DtlsStream.ContinuationsAreHeaderCuts | core/src/network/dtls.rs:147-161 | with good cuts, those reads are the ones that start inside a header |
| DtlsStream.DtlsRoundTripIff | core/src/network/dtls.rs:118-223 | the round trip over DTLS, in both directions |
| Pipeline.HandOn | core/src/network/tcp.rs:193-217 | the frames of one read go to the RIB or its registry, in order |
| Pipeline.ForRibByPosition | core/src/network/tcp.rs:198-205 | exactly the Forward frames bring packets, one each, in order, with their destination and payload and the connection's name |
| Pipeline.ForRegistryByPosition | core/src/network/tcp.rs:206-213 | exactly the Advertise frames bring registrations, of their destination, with the connection's queue and name |
| Pipeline.FramesBringPackets | core/src/pipeline.rs:6-28 | the frames of queued packets bring about these packets again but for the source, and each advertisement one registration |
| ConnectionRib.Router.SendToDestination | core/src/connection_rib.rs:8-26 | each channel gets one copy per destination that the source did not advertise |
| ConnectionRib.Router.Broadcast | core/src/connection_rib.rs:91-96 | whatever the order of the table, each channel gets one copy per registration in the log |
| ConnectionRib.Router.Forward | core/src/connection_rib.rs:74-98 | a known name goes to its own registrations, an unknown one to all |
| ConnectionRib.Router.Register | core/src/connection_rib.rs:101-124 | the table stays the log of registrations grouped by name |
| ConnectionRib.Router.Flush | core/src/connection_rib.rs:126-140 | the sink gets exactly one advertisement for each registered name, under that name and as its own source; others nothing |
| ConnectionRib.OneAdvertisementEach | core/src/connection_rib.rs:129-131 | in whatever order the table is gone through, each name is advertised once |
| ConnectionRib.ListedIffRegistered | core/src/connection_rib.rs:110-122 | a name has a list exactly when it was registered |
| ConnectionRib.ListsOnlyGrow | core/src/connection_rib.rs:110-122 | lists only grow, at their end |
| ConnectionRib.OneCopyPerEligibleEntry | core/src/connection_rib.rs:74-98 | the number of copies is the number of eligible registrations |
| ConnectionRib.SplitHorizon | core/src/connection_rib.rs:14-17 | nothing goes out on a channel whose registrations all carry the packet's source |
| ConnectionRib.RouteIsUsed | core/src/connection_rib.rs:80-82 | a registered route is used by packets from any other source |
| ConnectionRib.RouteNeedsEntry | core/src/connection_rib.rs:8-26 | a copy needs a registration with another source |
| Ros.Publish | core/src/network/ros.rs:58-74 | the publisher's loop: one message for each forwarded packet for its topic, in order, up to the first whose payload is missing or does not decode; it panics exactly there |
| Ros.DeliveredByPosition | core/src/network/ros.rs:58-64 | what is delivered: the payload of each forwarded packet for the topic, once and in order |
| Ros.FloodReachesEveryEntry | core/src/connection_rib.rs:83-89 | flooding makes one copy for each registration that the source did not advertise |
| Ros.LookupServesAsFloodingIff | core/src/connection_rib.rs:80-96 | at one table, exactly when lookup and flooding give a channel the same copies |
| Ros.ForeignEntryIsMissed | core/src/connection_rib.rs:80-90 | a registration under another name is served by flooding only |
| Ros.PacketReachesInbox | core/src/connection_rib.rs:74-97 | what a packet adds to an inbox under lookup and under flooding, counted by registrations |
| Ros.NameIndexRefinesFlooding | core/src/connection_rib.rs:74-97 | over any events, a channel registered under one topic delivers the same payloads in the same order under both |
| NetworkInvariant.OnwardIsOutItem | core/src/connection_rib.rs:14-17 | a routed packet's trail goes on without turning back |
| NetworkInvariant.ReadKeepsInv | core/src/network/tcp.rs:117-229 | decoding a chunk keeps the invariant |
| NetworkInvariant.WriteKeepsInv | core/src/network/tcp.rs:243-288 | draining the outgoing queue keeps the invariant |
| NetworkInvariant.StepKeepsInv | core/src/connection_rib.rs:70-142 | every step of every task keeps the invariant |
| DisturbedLinks.MoveKeepsQueues | core/src/connection_rib.rs:59-144 | every step of every task, and anything that happens on a link, keeps what holds of queues and tables |
| DisturbedLinks.QueuesHoldOnlySendable | core/src/pipeline.rs:82-130 | at every state of every run, whatever is on the links, the queues hold only Forward packets with a payload, and towards connections also Advertise packets without one: never Noop |
| DisturbedLinks.NeverBackWhereItCameFrom | core/src/connection_rib.rs:14-17 | at every such state, the RIB makes no copy for the connection a packet came in on |
| NetworkRuns.NoLoops | core/src/connection_rib.rs:74-98 | in every reachable state of a forest, every packet's trail is simple and no longer than there are routers |
| LinkFifo.ReadHandsOnWhatWasWritten | core/src/network/tcp.rs:193-217 | at every state of a run that spares a link, a read panics exactly at a NUL, and otherwise hands on the next packets written |
| LinkFifo.LinksAreFifo | core/src/network/tcp.rs:94-290 | over every run that spares a link, frames handed on are the packets written, once and in order, but for those under way |
| QueueFifo.QueuesAreFifo | core/src/connection_rib.rs:59-144 | over every run, what goes into a RIB's queue, its registry and a connection's queue, said packet by packet for every step, comes out in order or waits |
| QueueFifo.QueuedIsHandedOn | core/src/network/tcp.rs:94-290 | from the queue of one end to the hands of the other, in order, but for what is under way or queued |
| QueueFifo.SentIsDelivered | core/src/network/ros.rs:118-132 | what a subscriber sends, under its topic and from its node, is what every endpoint and connection gets, and as often as there are eligible registrations |
| DisturbedLinks.PublishersGetPayloads | core/src/network/ros.rs:61-64 | over every run, each packet delivered to a publisher has a payload to unwrap |
| DisturbedLinks.LookupServesPublishers | core/src/connection_rib.rs:80-96 | over every run, an inbox is what its RIB sent by lookup, and flooding would have delivered the same payloads in the same order |
| RouteSync.ReadKeepsOnItsWay | core/src/network/tcp.rs:206-213 | a read leaves an advertisement under way or registers it |
| RouteSync.MoveKeepsOnItsWay | core/src/connection_rib.rs:101-140 | nothing that spares the link, but a refused header, loses a flushed advertisement |
| RouteSync.FlushSynchronisesRoutes | core/src/connection_rib.rs:126-140 | once the link is quiet, every name flushed is registered at the peer over this link, and used |
| RouteSync.ReadAllEmptiesLink | core/src/network/tcp.rs:117-229 | a read of all there is does not panic and hands on all that is under way |
| RouteSync.QuietIsReachable | core/src/network/tcp.rs:94-290 | with a receiver that has not panicked, ordinary steps lead to a quiet link |
| RouteSync.FlushCanGoThrough | core/src/connection_rib.rs:126-140 | so after any run that spares the link, a flush can always synchronise the routes |
| Quiescence.RouteLosesWork | core/src/connection_rib.rs:74-98 | a packet weighs more than all its copies |
| Quiescence.ForwardingStepDescends | core/src/connection_rib.rs:74-98 | every forwarding step lowers a well-founded measure |
| Quiescence.ForwardingComesToAnEnd | core/src/connection_rib.rs:74-98 | with fixed tables no run forwards for ever |
| UdpStream.Listener.ShutDown | core/src/network/udpstream.rs:239-243 | raising a flag at any time keeps every promise about every address |
| UdpStream.Listener.CloseDropped | core/src/network/udpstream.rs:171-180 | so does closing a receiver, which a drop does only after raising the flag, any datagrams in between |
| UdpStream.Listener.Sweep | core/src/network/udpstream.rs:85-92 | exactly the lockable streams marked dropped are forgotten |
| UdpStream.Listener.Enqueue | core/src/network/udpstream.rs:93-95 | a datagram goes to the current stream of its address and to no other |
| UdpStream.Listener.Forget | core/src/network/udpstream.rs:95-99 | a failed send loses its datagram and the stream |
| UdpStream.Listener.Open | core/src/network/udpstream.rs:101-126 | a new stream starts with the datagram that caused it |
| UdpStream.Listener.Receive | core/src/network/udpstream.rs:84-127 | per address, the streams in creation order were given what arrived less failed sends, and at most one is not marked dropped; which address has a current stream afterwards, and which |
| UdpStream.Listener.FlagsOnlyRise | core/src/network/udpstream.rs:171-180 | users dropping streams in between keep this |
| UdpStream.TakenByPosition | core/src/network/udpstream.rs:84-127 | what is sent on: one datagram for each arrival whose send did not fail, in order |
| UdpStream.TakenIsSubsequence | core/src/network/udpstream.rs:84-127 | what is sent on is a subsequence of the arrivals, and all of them if no send failed |

## Left out

- TLS and DTLS set-up, certificates, SHA-256 naming and random thread names: names are opaque values.
- HeaderText.ParseIffPrinted: the parser reads the layout that the program prints and no other, where serde_json also reads other white space, field orders and forms; the framing theorems need no more than that what is printed reads back.
- JsonCodec.JsonIsLawful: the same restriction; only converses that do not speak of raw bytes (the second clauses of `RoundTripIff`, `DtlsRoundTripIff`, `SpoiltIff` and `SentIsReceivedIff`, and `SendAcross`) use that the parser is strict.
- tokio, sockets and timing: unbounded first-in first-out queues and an arbitrary order of steps stand for them; bounded channels and their back-pressure are not modelled.
- NetworkInvariant.WriteKeepsInv: in `Network` a step writes a payload whole; a hard error in the middle of one is a disturbance of the link in `DisturbedLinks`.
- NetworkRuns.NoLoops: as well as `Quiescence`, is about links that carry what was written; packets made up from corrupt bytes have no trail.
- LinkFifo.LinksAreFifo: says nothing about a link after a hard payload error, a header taken in part or a DTLS reset; `TcpLink.SendAcross` and `dtls_stream.dfy` say that packets are then lost or spoilt.
- DtlsStream.DtlsRoundTripIff: takes the decrypted records as one byte stream; DTLS over UDP may lose, duplicate or reorder them, and the program does nothing about it.
- Network: the set of connections and endpoints is fixed during a run, with unused ones idle; a panicked connection stops reading, and its packets stay under way.
- Network: a flush request is taken at any time for any connection; the status queue itself is not a part of the state.
- Topology: routers that are joined by parallel links, as the direct peering functions create them, are not a forest; everything but loops and quiescence is proved for them all the same.
- Ros.Publish: decoding a payload into a ROS message is a parameter; a publisher that has panicked takes nothing more from its inbox, which in `Network` goes on filling.
- ConnectionRib.Router.Send: a send to a closed channel, which the original only logs, counts as a send.
- ROS nodes, message conversion and the `ros2` command: only registration, sending and the name filter are kept.
- Configuration, command line, topic manager, gRPC, libpnet, the `rib.rs` map and the test placeholder for parsing packets.
