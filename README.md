# computer-networks-ma3105 in Dafny

A Dafny model of the core programs of a networking course's assignments, with proofs of
what they promise:

- **Name-and-number exchange over TCP** (assignment 1). A client sends a frame holding
  its name and a number between 1 and 100. The frame is a big-endian 16-bit name length,
  the name bytes, then a big-endian 32-bit number. The server answers with its own frame,
  and each side computes the sum. A number out of range shuts the server down.
- **Session cookies over HTTP** (assignment 3). The header parser, and the two responses:
  a new session announced in `Set-Cookie`, or a returning user whose id is echoed.
- **UDP video streaming** (assignment 4). The server cuts each encoded frame into
  datagrams of at most 65500 bytes behind a one-byte marker, which is 1 on the last
  datagram. The client reassembles the frames.
- **ARQ and congestion control** (assignment 5). The Go-Back-N sender simulation and the
  round-based TCP congestion-window simulation.
- **Data plane** (assignment 8). Dotted-quad and CIDR parsing, the longest-prefix-match
  router, and the FIFO and strict-priority packet schedulers.

Each source file is one module:
`name_number.dfy`, `http_cookies.dfy`, `video_streaming.dfy`, `go_back_n.dfy`,
`congestion_control.dfy`, `ip_utils.dfy`, `router.dfy` (with its unit tests in
`router_tests.dfy`) and `scheduler.dfy`.

Three shared modules model the Python built-ins these programs rely on:

- `Text` (`text.dfy`): `str.split`, `str.find`, `in` on strings, `int()` on digit
  strings, `format(n, '08b')`, `str.lower`.
- `Wire` (`wire.dfy`): `struct` formats `!B`, `!H` and `!I`, and `recv(n)` on a stream.
- `Wrappers` (`wrappers.dfy`): `Option` and `Result`.

Exceptions become `Result` values or outcome datatypes. Console input, randomness and
generated ids are parameters.

Code that updates state in loops is modelled as Dafny methods with loops. Each such
method is proved equal to a recursive specification function, and the properties are
proved as lemmas about that function.

Objects whose fields change are classes:

- `Router`, built once;
- `FifoScheduler` and `PriorityScheduler`, driven by `Admit`, `Finish` and `Deliver`;
- `Server`, whose `running` flag the handler clears;
- `Client`.

## Model

| member | source | states |
|---|---|---|
| `IpUtils.FormatParts` | assignment-8-data-plane/ip_utils.py:13-18 | the `'08b'` join succeeds exactly when every part is a digit string, and yields a bit string of at least 8 bits per part |
| `IpUtils.IpToBinary` | assignment-8-data-plane/ip_utils.py:8-18 | succeeds exactly on four dot-separated digit strings, yielding at least 32 bits; every failure is the invalid-address error naming the input |
| `IpUtils.IpToBinaryOctets` | assignment-8-data-plane/ip_utils.py:13-16 | on a dotted quad the result is the four octets' 8-bit forms, in order |
| `IpUtils.IpToBinaryOfDottedQuad` | assignment-8-data-plane/ip_utils.py:8-16 | the dotted quad written from four numbers parses, and converts to the concatenation of their 8-bit forms |
| `IpUtils.IpToBinaryWrongPartCount` | assignment-8-data-plane/ip_utils.py:9-11 | an address that does not split into exactly four parts is rejected as invalid |
| `IpUtils.GetNetworkPrefix` | assignment-8-data-plane/ip_utils.py:24-41 | fails with the missing-slash error exactly when there is no `/`; on success the prefix is a bit string whose length is the prefix length, at most 32 |
| `IpUtils.GetNetworkPrefixSuccess` | assignment-8-data-plane/ip_utils.py:24-42 | every success, whatever the length field's spelling (`/023` included), is the decimal length after the first `/` and that many leading bits of the address before it, which converts |
| `IpUtils.GetNetworkPrefixBits` | assignment-8-data-plane/ip_utils.py:24-42 | the default call returns just the prefix bits, and fails exactly when the full call does, with the same error |
| `IpUtils.GetNetworkPrefixOfWellFormed` | assignment-8-data-plane/ip_utils.py:28-41 | `address/length` with length at most 32 gives the first `length` bits of the address, or the address's own error |
| `IpUtils.GetNetworkPrefixBadLength` | assignment-8-data-plane/ip_utils.py:29-34 | a non-numeric length is an invalid-length error; a length above 32 is an out-of-range error |
| `IpUtils.IpToBinaryExample` | assignment-8-data-plane/ip_utils.py:47-48 | `192.168.1.1` is `11000000101010000000000100000001` |
| `IpUtils.GetNetworkPrefixExample` | assignment-8-data-plane/ip_utils.py:50-51 | the prefix of `200.23.16.0/23` is `11001000000101110001000` |
| `Routing.Normalize` | assignment-8-data-plane/router.py:11-14 | a `Route` is kept; a `(cidr, link)` tuple becomes the `Route` of its two fields |
| `Routing.NormalizeAll` | assignment-8-data-plane/router.py:10-16 | one route per argument, in order, each normalised |
| `Routing.ParseRoutes` | assignment-8-data-plane/router.py:22-28 | succeeds exactly when every route's CIDR parses, pairing each parsed prefix with its link in input order |
| `Routing.ParseRoutesFirstError` | assignment-8-data-plane/router.py:22-28 | the error reported is the error of the first route whose CIDR does not parse |
| `Routing.Insert` | assignment-8-data-plane/router.py:21-31 | inserting adds exactly the new entry to the table's multiset |
| `Routing.InsertKeepsOrder` | assignment-8-data-plane/router.py:29-30 | insertion keeps a longest-first table longest-first |
| `Routing.SortLongestFirst` | assignment-8-data-plane/router.py:21-31 | the sorted table is a permutation of the entries, ordered by prefix length, longest first |
| `Routing.SortIsStable` | assignment-8-data-plane/router.py:21-31 | for each prefix length, the entries of that length keep their input order (Python's `sorted` is stable) |
| `Routing.SortOfSorted` | assignment-8-data-plane/router.py:21-31 | a table already longest-first is left unchanged |
| `Routing.BuildForwardingTable` | assignment-8-data-plane/router.py:19-31 | fails exactly when parsing fails, with its error; otherwise a longest-first, stable permutation of the parsed routes, one entry per route |
| `Routing.ParseRoutesCons` | assignment-8-data-plane/router.py:22-28 | parsing a route in front of parsed routes puts its entry in front |
| `Routing.BuildOfSorted` | assignment-8-data-plane/router.py:19-31 | routes already given longest-first are the table as they are |
| `Routing.FirstMatch` | assignment-8-data-plane/router.py:35-37 | the index found matches the address and no earlier entry does; no index means no entry matches |
| `Routing.Lookup` | assignment-8-data-plane/router.py:33-38 | an address that does not convert is that conversion's error; a convertible one always gets a link |
| `Routing.FirstMatchIsLongest` | assignment-8-data-plane/router.py:29-37 | the first match in a longest-first table is at least as long as every matching route |
| `Routing.SortedFirstMatchIsBest` | assignment-8-data-plane/router.py:21-37 | the first match in the built table is a longest match, and the earliest listed of that length |
| `Routing.LookupIsLongestMatch` | assignment-8-data-plane/router.py:33-38 | the link returned is that of the earliest of the longest matching routes, or the default gateway when none matches |
| `Routing.Router.constructor` | assignment-8-data-plane/router.py:9-17 | the router holds the routes and the table built from them |
| `Routing.Router.RoutePacket` | assignment-8-data-plane/router.py:33-38 | fails exactly when the address is invalid; otherwise answers the longest-prefix-match link |
| `Routing.NewRouter` | assignment-8-data-plane/router.py:9-17 | construction fails exactly when building the table from the normalised routes fails, with that error; otherwise a fresh router over those routes |
| `RouterTests.TestForwardingTable` | assignment-8-data-plane/router.py:45-50 | the test's four routes build the table with the three /24 routes first, then the /16 |
| `RouterTests.RouterTestVectors` | assignment-8-data-plane/router.py:51-56 | the four test addresses route to Link 0, Link 1, Link 4 (ISP) and the default gateway |
| `Scheduling.Rank` | assignment-8-data-plane/scheduler.py:6-9 | HIGH ranks 0, LOW ranks 2, and only those |
| `Scheduling.PacketLeTransitive` | assignment-8-data-plane/scheduler.py:11-15 | the tuple order on packets that `heapq` uses is transitive |
| `Scheduling.PacketLeTotal` | assignment-8-data-plane/scheduler.py:11-15 | any two packets are comparable |
| `Scheduling.PacketLeAntisymmetric` | assignment-8-data-plane/scheduler.py:11-15 | packets each at most the other are equal |
| `Scheduling.MinimumExists` | assignment-8-data-plane/scheduler.py:56 | a non-empty heap has a least packet for `heappop` to return |
| `Scheduling.MinimumUnique` | assignment-8-data-plane/scheduler.py:56 | that least packet is unique |
| `Scheduling.SortedUnique` | assignment-8-data-plane/scheduler.py:53-57 | two sorted sequences of the same packets are equal, so the priority order is fully determined |
| `Scheduling.FifoScheduler.constructor` | assignment-8-data-plane/scheduler.py:19 | an empty, open queue of the given capacity |
| `Scheduling.FifoScheduler.Admit` | assignment-8-data-plane/scheduler.py:24-27 | a packet is appended exactly when the queue has room; otherwise it is dropped and the queue is unchanged |
| `Scheduling.FifoScheduler.Finish` | assignment-8-data-plane/scheduler.py:22-23 | the end marker closes the queue without touching its packets |
| `Scheduling.FifoScheduler.Deliver` | assignment-8-data-plane/scheduler.py:29-31 | the head packet is handed over and removed; on the marker, nothing |
| `Scheduling.FifoFillFirst` | assignment-8-data-plane/scheduler.py:65-77 | the result is the first `maxsize` packets in arrival order, so all of them when they fit |
| `Scheduling.PriorityScheduler.constructor` | assignment-8-data-plane/scheduler.py:40-41 | an empty heap and signal queue of the given capacity |
| `Scheduling.PriorityScheduler.Admit` | assignment-8-data-plane/scheduler.py:46-50 | a packet joins the heap exactly when the signal queue has room; otherwise it is dropped |
| `Scheduling.PriorityScheduler.Finish` | assignment-8-data-plane/scheduler.py:44-45 | the end marker closes the scheduler without touching the heap |
| `Scheduling.PriorityScheduler.Deliver` | assignment-8-data-plane/scheduler.py:53-57 | a signal hands over the least packet of the heap and removes it; the marker ends delivery |
| `Scheduling.PriorityFillFirst` | assignment-8-data-plane/scheduler.py:65-77 | the result is sorted and is a permutation of the admitted packets |
| `Scheduling.AdmitAll` | assignment-8-data-plane/scheduler.py:43-51 | offering the batch leaves exactly the first `maxsize` packets on the heap |
| `Scheduling.DrainAll` | assignment-8-data-plane/scheduler.py:53-57 | the consumer hands over every stored packet, least first, and empties the heap |
| `Scheduling.FifoTestVector` | assignment-8-data-plane/scheduler.py:114-122 | the FIFO test's payloads come out in input order |
| `Scheduling.PriorityTestVector` | assignment-8-data-plane/scheduler.py:124-135 | the priority test's payloads come out VOIP 1, VOIP 2, Video 1, Data 1, Data 2, as the stable sort by priority gives |
| `CongestionControl.Initial` | assignment-5-arq-and-congestion-control/congestion_control.py:6-7 | the window starts at 1 MSS and the threshold at the given value |
| `CongestionControl.Update` | assignment-5-arq-and-congestion-control/congestion_control.py:17-33 | a loss gives window 1 and threshold `max(cwnd // 2, 2)`; otherwise the threshold stays and the window doubles below it and grows by one at or above it; a window of at least 1 therefore grows and at most doubles |
| `CongestionControl.Simulate` | assignment-5-arq-and-congestion-control/congestion_control.py:3-33 | one history entry per round, the window each round starts with, and the final state, as the round-by-round specification gives |
| `CongestionControl.CwndAtLeastOne` | assignment-5-arq-and-congestion-control/congestion_control.py:6-33 | the window is never below 1 MSS |
| `CongestionControl.HistoryEntry` | assignment-5-arq-and-congestion-control/congestion_control.py:11-12 | history entry `i` is the window at the start of round `i` |
| `CongestionControl.LossResets` | assignment-5-arq-and-congestion-control/congestion_control.py:17-23 | after a loss round the window is 1 and the threshold is the recorded window halved, but at least 2 |
| `CongestionControl.SsthreshKept` | assignment-5-arq-and-congestion-control/congestion_control.py:25-33 | between losses the threshold does not change |
| `CongestionControl.SsthreshAfterLoss` | assignment-5-arq-and-congestion-control/congestion_control.py:20 | after any loss the threshold stays at least 2 |
| `CongestionControl.LossFreeGrowth` | assignment-5-arq-and-congestion-control/congestion_control.py:25-33 | between losses the window grows by at least one MSS per round |
| `CongestionControl.ScriptRun` | assignment-5-arq-and-congestion-control/congestion_control.py:56-61 | the script's run (25 rounds, threshold 16, losses in rounds 8 and 17) records 1 2 4 8 16 17 18 19, then 1 2 4 8 16 17 18 19 20, then 1 2 4 8 16 17 18 19 |
| `GoBackN.Range` | assignment-5-arq-and-congestion-control/go_back_n.py:11-14 | the numbers from `lo` below `hi`, in order |
| `GoBackN.FirstLoss` | assignment-5-arq-and-congestion-control/go_back_n.py:21-26 | the frame found is the first whose draw reports a loss; none means no frame scanned is lost |
| `GoBackN.WindowEnd` | assignment-5-arq-and-congestion-control/go_back_n.py:11 | the send loop stops at the end of the window or at the last frame |
| `GoBackN.Round` | assignment-5-arq-and-congestion-control/go_back_n.py:9-37 | one pass keeps `base <= next <= total` and `next <= base + window` and never moves `base` back; with a loss in the window it keeps `base`, goes back to the first lost frame and uses one draw per frame up to it, and without one it slides `base` and `next` to the window end, one draw per frame scanned |
| `GoBackN.RoundProgress` | assignment-5-arq-and-congestion-control/go_back_n.py:9-37 | a pass with frames outstanding slides the window or consumes a draw that reported a loss |
| `GoBackN.Run` | assignment-5-arq-and-congestion-control/go_back_n.py:9-37 | the run ends with `base` and `next_seq_num` both equal to the number of frames |
| `GoBackN.Simulate` | assignment-5-arq-and-congestion-control/go_back_n.py:4-41 | the frames sent, in order, are those of the specification run, and the run ends with `base == next_seq_num ==` the frame count |
| `GoBackN.Transmit` | assignment-5-arq-and-congestion-control/go_back_n.py:11-37 | one pass of the source's loop body sends the rest of the window and moves to the state `Round` gives |
| `GoBackN.SendWindow` | assignment-5-arq-and-congestion-control/go_back_n.py:11-14 | the send loop sends every frame from `next_seq_num` to the end of the window |
| `GoBackN.ScanForLoss` | assignment-5-arq-and-congestion-control/go_back_n.py:21-26 | the scan reports `-1` exactly when no frame is lost, otherwise the first lost frame, using one draw per frame looked at |
| `GoBackN.EveryFrameSent` | assignment-5-arq-and-congestion-control/go_back_n.py:9-37 | every frame is transmitted at least once |
| `GoBackN.LossFreeRun` | assignment-5-arq-and-congestion-control/go_back_n.py:9-37 | with no loss, every frame is sent exactly once, in order |
| `GoBackN.ScriptRunWithoutLoss` | assignment-5-arq-and-congestion-control/go_back_n.py:44-49 | the script's ten frames with window 4 and no loss are sent as 0 to 9 |
| `GoBackN.GoesBackToLostFrame` | assignment-5-arq-and-congestion-control/go_back_n.py:28-32 | a loss of frame 1 in the first window ends the scan after two draws and goes back to frame 1 with `base` unchanged |
| `GoBackN.LostFrameResent` | assignment-5-arq-and-congestion-control/go_back_n.py:9-32 | with that loss, the run sends frames 0 to 3 and then 1 to 3 again |
| `GoBackN.ResendsFromLostFrame` | assignment-5-arq-and-congestion-control/go_back_n.py:9-32 | whenever a pass finds frame `i` lost, the run sends the window from `next_seq_num` and then the same window again from frame `i` |
| `HttpCookies.ParseHeadersLoop` | assignment-3-http-cookies-and-caching/http_cookies.py:9-17 | the loop with its `break` computes the header map of the specification fold |
| `HttpCookies.RequestLineIgnored` | assignment-3-http-cookies-and-caching/http_cookies.py:11-12 | the request line plays no part in the headers |
| `HttpCookies.StopsAtBlankLine` | assignment-3-http-cookies-and-caching/http_cookies.py:13-14 | nothing after the first empty line is parsed |
| `HttpCookies.ParseFailsOnMalformedLine` | assignment-3-http-cookies-and-caching/http_cookies.py:12-15 | parsing fails exactly when some line before the blank line has no `": "`, and the error names the first such line |
| `HttpCookies.KeysLowerCase` | assignment-3-http-cookies-and-caching/http_cookies.py:16 | every stored header name is lower case |
| `HttpCookies.LaterLineWins` | assignment-3-http-cookies-and-caching/http_cookies.py:15-16 | a later line with the same name replaces the earlier value |
| `HttpCookies.HeaderSplitsAtFirstSeparator` | assignment-3-http-cookies-and-caching/http_cookies.py:15 | the name ends at the first `": "`, and the value keeps any later one |
| `HttpCookies.NewSession` | assignment-3-http-cookies-and-caching/http_cookies.py:25-36 | a new session sets the cookie `session_id=<id>`, states the body's length, and names the id in the body |
| `HttpCookies.ReturningSession` | assignment-3-http-cookies-and-caching/http_cookies.py:37-47 | a returning user gets no `Set-Cookie` line, the body's length, and the id in the body |
| `HttpCookies.Respond` | assignment-3-http-cookies-and-caching/http_cookies.py:23-47 | no `session_id` in the cookie header means a new session; otherwise the text between the first and second `=` is the id, and without an `=` the request fails |
| `HttpCookies.HandleRequest` | assignment-3-http-cookies-and-caching/http_cookies.py:19-49 | with the corrected rendering (see ## Findings): a header parse error is the request's error, unchanged; once the headers parse, the request succeeds exactly when the cookie branch does, and fails with its error |
| `HttpCookies.HandleRequestFrames` | assignment-3-http-cookies-and-caching/http_cookies.py:19-49 | with the corrected rendering (see ## Findings): a parsed request succeeds or fails as its cookie branch does; on success (id without carriage return) the client reads exactly the prepared body, whose length the Content-Length line states |
| `HttpCookies.RenderFrames` | assignment-3-http-cookies-and-caching/http_cookies.py:49 | with header lines that are non-empty and have no carriage return, a client splitting at the first empty line finds exactly the header block and the body |
| `HttpCookies.RenderAsWrittenShiftsBody` | assignment-3-http-cookies-and-caching/http_cookies.py:35-49 | as written, the response is the framed one with an extra line break in front of the body |
| `HttpCookies.HandleRequestAsWritten` | assignment-3-http-cookies-and-caching/http_cookies.py:19-49 | the source's own rendering fails on the same requests, with the same errors; once the headers parse, it succeeds exactly when the cookie branch does |
| `HttpCookies.HandleRequestAsWrittenFrames` | assignment-3-http-cookies-and-caching/http_cookies.py:19-49 | as written, a parsed request succeeds or fails as its cookie branch does; on success (id without carriage return) the client reads `"\r\n"` followed by the prepared body |
| `HttpCookies.SessionLinesFramable` | assignment-3-http-cookies-and-caching/http_cookies.py:29-47 | both branches produce header lines that frame when the id has no carriage return |
| `HttpCookies.ClientSeesBody` | assignment-3-http-cookies-and-caching/http_cookies.py:25-49 | the corrected response gives the client exactly the body, whose length the Content-Length line states; as written the client sees `"\r\n"` plus the body |
| `Wire.PackUnpackU16` | assignment-1-tcp-name-number-exchange/server.py:41 | every two bytes are the `!H` encoding of their value |
| `Wire.UnpackPackU32` | assignment-1-tcp-name-number-exchange/server.py:43 | `!I` decoding undoes encoding |
| `Wire.PackUnpackU32` | assignment-1-tcp-name-number-exchange/server.py:62 | every four bytes are the `!I` encoding of their value |
| `Wire.PackU32Injective` | assignment-1-tcp-name-number-exchange/client.py:36 | distinct numbers have distinct `!I` encodings |
| `Wire.Recv` | assignment-1-tcp-name-number-exchange/server.py:37 | `recv(n)` takes at most `n` bytes, fewer only at the end of the stream, and leaves the rest in order |
| `NameNumber.EncodeMessage` | assignment-1-tcp-name-number-exchange/server.py:59-62 | the frame is 2 length bytes, the name and 4 number bytes |
| `NameNumber.DecodeMessage` | assignment-1-tcp-name-number-exchange/server.py:37-43 | a decoded frame's number fits 32 bits and its name fits the 16-bit length; the read is empty (no data) exactly when the connection sent nothing |
| `NameNumber.DecodeEncode` | assignment-1-tcp-name-number-exchange/server.py:37-43 | round trip: a frame followed by anything decodes to the name and number encoded |
| `NameNumber.EncodeDecode` | assignment-1-tcp-name-number-exchange/server.py:37-43 | every stream that decodes starts with the encoding of what it decodes to |
| `NameNumber.ShortStreamTruncated` | assignment-1-tcp-name-number-exchange/server.py:41-43 | a non-empty stream too short for the frame it announces fails to unpack |
| `NameNumber.Handle` | assignment-1-tcp-name-number-exchange/server.py:33-62 | a reply is sent exactly when the client was answered; an empty connection is exactly the silent case; the client is rejected exactly when its frame decodes with a number outside 1..100; an answered client's frame is what was decoded, its number is in range, the sum adds the server's number, and the reply is exactly the server's frame (its 16-bit name length, name and 32-bit number), which decodes to the server's name and number |
| `NameNumber.HandleClientRequest` | assignment-1-tcp-name-number-exchange/server.py:47-62 | an in-range client gets the server's own name and number and the server keeps the sum; an out-of-range one gets no reply and is rejected |
| `NameNumber.Server.constructor` | assignment-1-tcp-name-number-exchange/server.py:22-32 | a running server with the given name and an in-range number |
| `NameNumber.Server.ClientHandler` | assignment-1-tcp-name-number-exchange/server.py:33-69 | the handler's reply and outcome are those of `Handle`; a rejection stops the server and closes its socket, and nothing else changes either flag |
| `NameNumber.Server.Serve` | assignment-1-tcp-name-number-exchange/server.py:81-99 | the replies are those of the specification run, and the server still runs afterwards exactly when every connection was served and none was rejected; a server still running keeps its listening socket as it was, and a stopped one has closed it |
| `NameNumber.ServeAll` | assignment-1-tcp-name-number-exchange/server.py:81-99 | there is at most one reply per connection |
| `NameNumber.StopsAfterRejection` | assignment-1-tcp-name-number-exchange/server.py:47-51 | the first rejected connection is the last one served |
| `NameNumber.NewServer` | assignment-1-tcp-name-number-exchange/server.py:27-30 | construction succeeds exactly for numbers 1 to 100; otherwise it fails with the number |
| `NameNumber.Client.constructor` | assignment-1-tcp-name-number-exchange/client.py:11-20 | the client keeps its name |
| `NameNumber.Client.Run` | assignment-1-tcp-name-number-exchange/client.py:22-60 | what is sent before packing fails; the whole frame sent for an encodable input; an out-of-range number exits after sending; otherwise the outcome follows the decoded reply, and the sum is the client's number plus the server's |
| `NameNumber.ExchangeAgreesOnSum` | assignment-1-tcp-name-number-exchange/client.py:47-55 | when both numbers are in range, the server records the sum of the two numbers and replies with its own frame, which decodes to its name and number |
| `VideoStreaming.NumChunks` | assignment-4-udp-video-streaming/server.py:51 | the chunk count `k` is at least 1, `k - 1` full chunks fit in the frame, and `k` full chunks exceed it |
| `VideoStreaming.ChunkOf` | assignment-4-udp-video-streaming/server.py:54-56 | a chunk holds at most 65500 bytes |
| `VideoStreaming.Marker` | assignment-4-udp-video-streaming/server.py:57-58 | the marker is 1 exactly on the last chunk, and 0 otherwise |
| `VideoStreaming.Chunks` | assignment-4-udp-video-streaming/server.py:53-59 | one datagram per chunk, each the marker followed by the chunk |
| `VideoStreaming.SendFrame` | assignment-4-udp-video-streaming/server.py:49-61 | the send loop sends exactly the frame's datagrams, in order |
| `VideoStreaming.MessagesFit` | assignment-4-udp-video-streaming/client.py:9 | every datagram fits the client's 65536-byte receive |
| `VideoStreaming.MarkersMarkLast` | assignment-4-udp-video-streaming/server.py:57 | only the last datagram of a frame is marked |
| `VideoStreaming.ExactMultipleEndsWithBareMarker` | assignment-4-udp-video-streaming/server.py:51-57 | a frame whose size is a multiple of 65500 ends with a datagram that holds only the marker |
| `VideoStreaming.FullChunksBeforeLast` | assignment-4-udp-video-streaming/server.py:54-56 | every chunk but the last is full |
| `VideoStreaming.ChunksCoverFrame` | assignment-4-udp-video-streaming/server.py:53-56 | the chunks, concatenated, are the frame |
| `VideoStreaming.Receive` | assignment-4-udp-video-streaming/client.py:19-41 | an empty datagram changes nothing; marker 1 completes the buffered frame and empties the buffer; any other marker only buffers the body |
| `VideoStreaming.Reassemble` | assignment-4-udp-video-streaming/client.py:16-44 | the client's loop ends in the state of the specification fold |
| `VideoStreaming.FrameRoundTrip` | assignment-4-udp-video-streaming/client.py:23-41 | one frame's datagrams, received in order, complete exactly that frame and leave the buffer empty |
| `VideoStreaming.StreamRoundTrip` | assignment-4-udp-video-streaming/client.py:16-41 | a stream of frames received in order and without loss yields exactly the frames sent |
| `Text.JoinSplit` | assignment-3-http-cookies-and-caching/http_cookies.py:11 | `str.split` loses nothing: joining the parts with the separator gives back the string |
| `Text.SplitJoin` | assignment-8-data-plane/ip_utils.py:9 | splitting parts joined by a separator that none of them holds gives back the parts |
| `Text.IndexOf` | assignment-8-data-plane/ip_utils.py:25 | `find` gives `-1` exactly when the character is absent, otherwise its first position |
| `Text.Contains` | assignment-3-http-cookies-and-caching/http_cookies.py:25 | substring `in` holds exactly when the pattern occurs at some position |
| `Text.SplitOnce` | assignment-3-http-cookies-and-caching/http_cookies.py:15 | `split(sep, 1)` gives two parts exactly when the separator occurs, splitting at its first occurrence |
| `Text.ParseDecimal` | assignment-8-data-plane/ip_utils.py:30 | `int()` accepts exactly the non-empty digit strings, with their decimal value |
| `Text.NatToDecimal` | assignment-3-http-cookies-and-caching/http_cookies.py:34 | a number's decimal form is a non-empty digit string of that value, with no leading zero |
| `Text.ParseDecimalOfNatToDecimal` | assignment-8-data-plane/ip_utils.py:30 | parsing a number's decimal form gives the number back |
| `Text.Format08b` | assignment-8-data-plane/ip_utils.py:14 | `format(n, '08b')` is a bit string of value `n`, exactly 8 bits when `n < 256` |
| `Text.Format08bOfOctet` | assignment-8-data-plane/ip_utils.py:14 | for an octet it is the 8 bits of the octet, most significant first |
| `Text.Take` | assignment-8-data-plane/ip_utils.py:39 | a slice `s[:n]` is a prefix of `s` of length `n`, or all of `s` if shorter |
| `Text.Lower` | assignment-3-http-cookies-and-caching/http_cookies.py:16 | lower-casing keeps the length and maps each character on its own |
| `Text.LowerIsLowerCase` | assignment-3-http-cookies-and-caching/http_cookies.py:16 | the lower-cased name has no upper-case letter, and lower-casing is idempotent |

## Left out

- Sockets, threads, `asyncio`, `time.sleep`, logging and printing are not modelled.
  A connection is the bytes that arrive on it; a datagram stream is a sequence of
  datagrams received in order.
- Console input (`input()`) is left out: the numbers typed are parameters.
  `secrets.token_hex` is left out: the new session id is a parameter.
  `random.random()` is left out: Go-Back-N takes a loss oracle, `seq<bool>`, with one
  draw per frame scanned. Draws past its end report no loss. So a run always ends,
  whereas the source ends only with probability 1.
- `int()` leniency is not modelled. Only non-empty ASCII digit strings parse; Python also
  accepts signs, surrounding spaces and underscores. `"-1"` as a prefix length is
  therefore an invalid-length error here, while Python reports it as out of range. Both
  are a `ValueError`.
- `str.lower` is modelled on ASCII `A`–`Z` only: no Unicode case mapping.
- Text encodings are left out. Names in the name-and-number exchange are byte sequences,
  and the UTF-8 encoding and decoding (with its decode errors) is not modelled. The HTTP
  request is the already decoded text of the first `recv(1024)`; a request longer than
  1024 bytes being cut short is not modelled.
- TCP delivers in arbitrary pieces, and that blocking is not modelled. `recv(n)`
  returns `min(n, available)` of the bytes that have all arrived.
- The name-and-number server is modelled without the following:
  - **Threads.** Connections are handled one after another, so `Serve` is the accept
    loop with each handler run to completion.
  - **The joins at shutdown.** They are not modelled.
  - **`get_local_ip`.** It is not modelled.
  - **Reply failures.** A server name too long to pack ends the handler without a
    reply (`ReplyFailed`), and other send errors are not modelled.
- Video capture, JPEG encoding and decoding, display, the frame rate and the `q` key are
  left out: a frame is its encoded bytes. A failed `sendto` is a datagram that is not
  sent. Loss, reordering and duplication of datagrams on the network are not modelled;
  the round-trip lemmas assume in-order delivery.
- Scheduling.FifoScheduler.constructor: `maxsize` must be at least 1, because a
  `maxsize` of 0 or less means an unbounded `asyncio.Queue`, which is not modelled. The
  same holds for `Scheduling.PriorityScheduler.constructor`, `Scheduling.FifoFillFirst`
  and `Scheduling.PriorityFillFirst`.
- The schedulers' interleaving is not modelled. The fill-first harness is modelled as
  admit the whole batch, close, then drain, which is the order `fill_event` enforces.
  The producer's blocking `put(None)` on a full queue is the `Finish` step.
- The layout of `heapq`'s list is not modelled. The heap is a multiset, and `heappop`
  returns its least element under the packets' tuple order.
- Packets' string fields compare by code point, as Python's `str` comparison does.
- HttpCookies.HandleRequestAsWritten: the body the client reads is stated only for a
  session id without a carriage return. An id containing `\r` can end the header block
  early, and that framing is not modelled. The same holds for
  `HttpCookies.HandleRequestFrames` and `HttpCookies.HandleRequestAsWrittenFrames`.
- GoBackN.Simulate: the window size must be at least 1. With a window of 0 or less and
  frames to send, the source loops forever without sending.
- The plot in the congestion simulation is not modelled, nor is the history's use as
  its data.
- `generate_session_id` and `mainloop` of the HTTP server are left out: the id is a
  parameter and the accept loop is I/O.
- Other files are not part of this model: `http_caching.py`, the application-layer
  clients of assignment 2, and `stop_and_wait.py`.

## Findings

| source | as written | input that shows it | evidently intended | confidence | as-written member | corrected member |
|---|---|---|---|---|---|---|
| assignment-3-http-cookies-and-caching/http_cookies.py:29-49 | `response_headers` ends with the element `"\r\n"`, and the join is followed by another `"\r\n"`, so the head ends with `"\r\n\r\n\r\n"` | any request, e.g. one without a `Cookie` header: the client finds `"\r\n"` plus the body after the empty line, two characters more than `Content-Length` states | the header lines, one empty line, then exactly the body that `Content-Length` measures | not executed | `HttpCookies.RenderAsWrittenShiftsBody` | `HttpCookies.RenderFrames` |
