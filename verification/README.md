# dsvpn-re: frames, streams, socket selection, tunnel

A Dafny model of dsvpn-re, a point-to-point VPN that seals IP packets into an authenticated frame with a
52-byte header and carries the frames over UDP or TCP, with proofs of what the code promises.
Run `dafny verify dfyconfig.toml` to verify it.

## How the model is built

| module | models |
|---|---|
| `ByteStrings` | bytes, little-endian uint32 fields, memcpy into an array |
| `Aead` | the detached AES-256-GCM interface (sections 7.1 and 7.2 of NIST SP 800-38D, section 5.2 of RFC 5116) as a pair of functions with laws; the key derivation; class `AES256GCM` |
| `ProtocolHeader` | the 52-byte layout, as a view of a buffer |
| `Frames` | the frame as a byte string: what is put on the wire, what is accepted from it |
| `Protocols` | class `Protocol`: the in-place codec over a 2000-byte array and two 1500-byte scratch arrays |
| `Streams` | the header/body reader of a byte stream that comes in pieces |
| `Resync` | what a header that does not open costs on such a stream |
| `TcpDataPath` | class `TCPConnection` on one connected socket: `Send`, `Receive`, the loop of `ReceiveFrom` |
| `Selection` | `tryReceive`, `ReceiveFrom`, `SendTo` and `Close` as a state machine: one step is one stretch between two yields |
| `Parsing` | what the read loop makes of a peer's bytes, on values alone |
| `HandOver`, `Delivery`, `Writes`, `Sockets`, `Provenance`, `Faults` | what holds in runs of that machine: who is read, what is delivered, what is written, what becomes of the sockets |
| `Progress` | runs in which everything arrives |
| `FailedWrites`, `Closing`, `Losses` | where its runs go wrong: an input for each case, and the exact condition over all runs |
| `TcpServer` | class `ServerConnection`: the fields, the codec and its buffers, the code of each stretch, and a driver for whole runs |
| `Udp` | class `UDPConnection` |
| `Tunnel` | the packet filters and what two ends do to packets end to end |
| `Forwarding` | classes `Client` and `Server`: the two loops of each end over UDP, interleaved in any order |
| `TcpTunnel` | what the server hands to its tun device over a whole run of the selection machine |

A class method is proved against a function of the old state; the lemmas are about those functions.

Parameters stand for what the program does not decide: random nonces and padding (`Draw`), datagrams and
their source, what a tun read brings, how many bytes of a read came in, and which yield point resumes next.

Assumptions, each a `requires` where it is used:

- `Lawful`: Open inverts Seal and accepts nothing that Seal does not produce. `StandInIsLawful` gives an
  instance. `AllOpen` and `Opens` ask for the first half only.
- `OnlySealed`: the ideal cipher, under which exactly the texts sealed so far open. `OnlySealedIsRealizable`
  gives an instance for any frames sealed.
- `Separable`: no nonce twice, and no payload of exactly 8 bytes. Lengths and payload are sealed under one
  key and one nonce with no associated data, and nothing but their size tells them apart;
  `EightBytesOpenAsLengths` shows what happens at 8. IP packets have at least 20.
- The state machine gives arbitrary values to all bytes of the shared connection buffer that the read in
  question has not filled. What a read has delivered is used before another coroutine overwrites it: that is
  the one assumption about the sharing of `conn_recv_buffer` (connection/IConnection.h:65). The class
  `ServerConnection` gives tryReceive and ReceiveFrom a buffer each.
- `Clean`, in the delivery theorems: no SendTo write failed, and no body read was cancelled on a socket that
  lives on. Close at any time and connections that end in mid-body are not excluded.
- `AllSane`, in the delivery theorems: behind its first frame, no peer's stream holds a header that opens and
  announces a payload longer than payload and padding together, which takes a sum beyond 32 bits. It holds of
  every peer under the ideal cipher (`Delivery.AnybodySane`), whoever replays what, and of every client whose
  frames open (`Delivery.ClientSegment`). The theorems of `Selection`, `Provenance`, `Faults`, `FailedWrites`,
  `Closing` and `Losses` do without it.
- A pending socket read or write may fail at any time: that covers cancel, peers that go away, and sockets
  closed under a pending operation.

## Where the code differs from what one would expect

- tryReceive chooses a socket once its *header* authenticates: the result of DecryptPayload is ignored
  (connection/TCPConnection.h:79), against the comment at line 78. `Provenance.TakenIffHeaderAuthenticates`
  says exactly when, and `Losses.ReplayedHeaderIsChosen` gives the run with a replayed header and any bytes
  behind it. The first frame of every connection is used up and never delivered.
- A failed SendTo write clears `selected` but keeps `conn_socket` (connection/TCPConnection.h:154-159), even
  when it was pending on a socket that has been replaced since. `FailedWrites.DanglesExactly` says exactly when
  a socket is held without being selected; `FailedWriteDangles` and `LateFailureHitsReplacement` give the runs.
  The hand-over and delivery theorems are about runs without a failed write; the safety theorems are about all.
- Line 156 also cancels the header read pending on the failed socket, and when ReceiveFrom sees that read fail,
  it closes whatever `conn_socket` then is. `FailedWrites.ClosesAnotherIff` says exactly when that is another
  socket, and `SecondClientClosedUnread` is the run in which the client that had just taken the failed one's
  place is closed before a byte is read from it.
- A header read that completes before line 156 can cancel it has its body read from whatever `conn_socket` is by
  then (connection/TCPConnection.h:209): `FailedWrites.BodyFromAnotherIff` says exactly when that is another
  socket than the header came from, and `BodyFromTheSecond` gives the run.
- Close closes the current socket only. One that is held in reserve stays so, neither read nor closed, whatever
  follows: `Sockets.CloseClosesIff` and `Sockets.StopSettles`.
- An exception leaves tryReceive when its second read fails, which has no error code
  (connection/TCPConnection.h:75), or when line 80 asks for the endpoint of a peer or an acceptor that is
  gone: the runs `Losses.LostClientThrows` and `CloseThenCandidateThrows`.
- `conn_socket` can be null at lines 156 and 209: `NullDereferencesExactly` says exactly when, and
  `WriteFaultHappens` and `ReadFaultHappens` give runs. The other dereferences (lines 96, 147, 182, 192 and
  223) are safe in every run.
- When a body read is cut short and the bytes that are in decrypt, ReceiveFrom returns the packet with the
  error code still set, and the server's loop returns on the error code before it writes (Server.cpp:97-101).
  `Losses.ReturnedExactly` lists the only ways out of that loop, `CutPacketEndsDelivery` says that nothing is
  delivered afterwards, and `CutPaddingEndsLoop` is the run in which a second client that gets through cancels
  a read in the padding. The delivery theorems count such a packet as not delivered. A cancel that lands in
  the middle of a payload instead leaves the old client's stream out of step: `Losses.CutPayloadLosesStep`.
- A header that does not open costs 52 bytes of the stream, with no attempt to find the next frame. The
  reader is back in step only if a later frame starts a multiple of 52 bytes behind the damage:
  `Resync.OutOfStepCosts` is the exact loss as long as no block between opens by chance, with the inputs
  `RecoveringInput` and `LosingInput`. Damage to payloads alone never loses framing.
- Close is there to make ReceiveFrom return -1 (connection/TCPConnection.h:165, 216-230). It does so only if it
  finds a header read pending while a socket is selected: `Closing.CloseIsHeardIff`, over all runs. Otherwise
  the receive loop is not told. Between two calls it parks for good (`CloseBetweenCallsHangs`), and so it does
  if it was parked already (`CloseWhileParkedHangs`), since nobody can wake it once the acceptor is closed
  (`ParkedResumesIff`).
- The server answers over UDP to the source of the last datagram, authentic or not:
  `Forwarding.AnswersLastSource`, and `ForgedDatagramRedirects` for what one forged datagram does.
- The server's filter for packets from the client compares the IPv6 *destination* (Server.cpp:126), as its
  filter for packets to the client does (Server.cpp:173). An IPv6 packet from the client gets through only if
  it is addressed to the client itself: `Tunnel.NothingLostIff`, and `Ipv6Input` for a packet that is lost.
- Both ends seal under one key, and nothing in a frame tells its direction. A frame the server sealed, sent
  back to it, is written to the server's own tun device if its packet passes: `ReflectedFrameIsWritten`, and
  `WritesOnlyClientsIff` for the exact condition under which that cannot matter.
- The key keeps 30 bytes of the configured string, so its last two bytes are zero, not just the last one as
  the comment at connection/AES-256-GCM.h:13 has it.

## Model

| member | source | states |
|---|---|---|
| Aead.StandInIsLawful | connection/AES-256-GCM.h:23-57 | the laws assumed of the cipher do not contradict each other |
| Aead.IdealIsRealizable | connection/AES-256-GCM.h:41-57 | for every functional log of sealed texts there is a cipher with the same Seal that opens exactly the log |
| Aead.KeyBytesAre | connection/AES-256-GCM.h:12-16 | byte i of the key is byte i of the string for i < 30, zero beyond its end, and zero for the last two |
| Aead.SameKeyIff | connection/AES-256-GCM.h:12-16 | two configured strings derive one key iff their first 30 bytes, zero-extended, agree |
| Aead.AES256GCM.constructor | connection/AES-256-GCM.h:12-16 | the key array holds the derived key |
| Aead.AES256GCM.EncryptData | connection/AES-256-GCM.h:23-33 | the cipher text goes to the front of the output array, nothing else in it changes, the tag is returned |
| Aead.AES256GCM.DecryptData | connection/AES-256-GCM.h:41-57 | true iff the cipher opens, and then the front of the output array is the text |
| ByteStrings.LowByteFirst | connection/ProtocolHeader.h:12-13 | the first byte of a uint32 field is the number modulo 256, and the others are the field of the number divided by 256 |
| ByteStrings.FromLe32OfLe32 | connection/ProtocolHeader.h:12-13 | a uint32 field reads back as written |
| ByteStrings.Le32OfFromLe32 | connection/ProtocolHeader.h:12-13 | every four bytes are the encoding of what they decode to |
| ByteStrings.Write | connection/Protocol.cpp:38 | memcpy: the range is overwritten, all else stays |
| ProtocolHeader.HeadOfEncode | connection/ProtocolHeader.h:7-22 | a header laid out at the front of a buffer reads back field by field, and the payload starts at 52 |
| ProtocolHeader.EncodeOfHead | connection/ProtocolHeader.h:7-22 | every buffer is its header followed by its payload area |
| ProtocolHeader.DecodeOfEncodeLengths | connection/ProtocolHeader.h:12-13 | the two length fields round-trip through their 8 bytes |
| ProtocolHeader.EncodeOfDecodeLengths | connection/Protocol.cpp:63-77 | any 8 bytes, read as two lengths and written back, are unchanged |
| Frames.SizeWindow | connection/Protocol.cpp:9-22 | for payloads of 0..1500 bytes and every draw: payload plus padding lies in [250, 1500], so the sum does not wrap and is never the 0 of failure; it is the body's exact size; with payloads up to 1448 the frame is at most 1500 |
| Frames.PaddedIff | connection/Protocol.cpp:85-98 | a frame has padding iff its payload is at most 250 bytes, and then between 250 and 700 bytes of it |
| Frames.FrameLayout | connection/ProtocolHeader.h:7-22 | where nonce, the two tags, sealed lengths, sealed payload and padding lie in a frame, byte for byte |
| Frames.LengthsAreLittleEndian | connection/Protocol.cpp:16-19 | the sealed text of the lengths: payload, then padding, least significant byte first; a payload under 256 bytes starts it with its length and three zeros |
| Frames.HundredBytes | connection/Protocol.cpp:16-19 | an input: a payload of 100 bytes under a cipher that hides nothing has 100, 0, 0, 0 at bytes 44 to 48 of its frame |
| Frames.EightBytesOpenAsLengths | connection/Protocol.cpp:16-17 | the sealed text of an 8-byte payload, put where the lengths go, opens as lengths |
| Frames.OnlySealedIsRealizable | connection/AES-256-GCM.h:41-57 | separable frames always have a cipher under which only they open |
| Frames.HeaderIsGenuine | connection/Protocol.cpp:61-81 | a header that opens has a sealed frame's nonce, length tag and lengths, never a payload in their place |
| Frames.PayloadIsGenuine | connection/Protocol.cpp:43-59 | under a sealed frame's header, DecryptPayload accepts iff tag and cipher text are that frame's, and gives its payload |
| Frames.AcceptsExactlyGenuine | connection/Protocol.cpp:43-81 | for any buffer at all, the decrypt pair accepts payload p iff the buffer starts with header and cipher text of a sealed frame with payload p; padding does not matter |
| Frames.GenuineIsUnique | connection/Protocol.cpp:30-31 | only one sealed frame can be behind a buffer |
| Frames.OpensGenuine | connection/Protocol.cpp:43-81 | a frame opens to its lengths and payload, whatever follows its cipher text |
| Protocols.CodecRoundTrip | connection/Protocol.cpp:9-98 | whatever the buffer held, the encrypt pair then the decrypt pair restore payload and both lengths, announce the same total, and change no byte past payload plus padding |
| Protocols.EncryptsToFrame | connection/Protocol.cpp:9-41 | the encrypt pair lays out exactly the payload's frame and leaves the rest of the buffer |
| Protocols.DecryptsFrame | connection/Protocol.cpp:43-81 | the decrypt pair on a buffer that starts with a frame: same total, lengths and payload restored, nothing else changed |
| Protocols.DecryptPairIsOpenBuffer | connection/Protocol.cpp:43-81 | decrypting in place accepts what the value-level rule accepts |
| Protocols.Protocol.constructor | connection/Protocol.cpp:7 | a codec with its own key and scratch arrays |
| Protocols.Protocol.EncryptPayload | connection/Protocol.cpp:25-41 | the buffer after it: nonce, payload tag, cipher text, padding and padding length in place, all else as before |
| Protocols.Protocol.AddObfuscation | connection/Protocol.cpp:85-98 | padding behind a payload of at most 250 bytes, none behind a longer one, and its length recorded |
| Protocols.Protocol.EncryptHeader | connection/Protocol.cpp:9-22 | lengths sealed in place under the buffer's nonce; returns their uint32 sum |
| Protocols.Protocol.SealFrame | connection/UDPConnection.cpp:37-42 | what both transports do to send: the buffer then starts with the payload's frame, and the bytes behind it are untouched |
| Protocols.Protocol.DecryptHeader | connection/Protocol.cpp:61-81 | lengths opened in place and their sum returned, or 0 and nothing changed |
| Protocols.Protocol.DecryptPayload | connection/Protocol.cpp:43-59 | true iff the payload opens, and then it is in place; false and nothing changed otherwise, lengths over 1500 included |
| Streams.FeedAppend | connection/TCPConnection.h:182-212 | reading x then y is reading x followed by y |
| Streams.ChunkIndependence | connection/TCPConnection.h:168-214 | any way of cutting a byte stream gives the packets, buffer and residual state of the stream in one piece |
| Streams.RoundsConsume | connection/TCPConnection.h:182-212 | packets already returned stay; each packet costs at least 53 bytes and each completed round at least 52 |
| Streams.ReadsArrival | connection/TCPConnection.h:204-212 | a frame with intact header is one round, whatever became of its payload |
| Streams.DamagedPayloadsKeepFraming | connection/TCPConnection.h:204-212 | with headers intact and any payload bytes or payload tags altered, exactly the unaltered frames' payloads are returned, in order |
| Streams.TcpRoundTrip | connection/TCPConnection.h:168-214 | frames of any payloads under any draws, cut up in any way: tryReceive takes the first frame, ReceiveFrom returns every later payload once, in order |
| Streams.TakesFirstFrame | connection/TCPConnection.h:66-79 | tryReceive uses up exactly the first frame |
| Streams.ReadsCutBody | connection/TCPConnection.h:209-212 | a body read cut short gives that frame's payload or nothing, and the payload for sure once its bytes are in |
| Streams.EndOfStream | connection/TCPConnection.h:182-212 | cut at any byte, a stream delivers a prefix of the payloads, which holds every frame whose payload is complete |
| Resync.SkipsBlocks | connection/TCPConnection.h:204-208 | 52-byte blocks that do not open leave nothing but stale bytes behind |
| Resync.OutOfStepCosts | connection/TCPConnection.h:182-212 | behind any bytes that are out of step, a damaged header with its body or the rest of a cut one, and if nothing opens between: all is lost up to the first frame that starts a multiple of 52 bytes away, and all from there on is returned |
| Resync.NoLaterFrameLost | connection/TCPConnection.h:182-212 | no frame behind them is lost iff 52 divides their number |
| Resync.DamagedHeaderInStream | connection/TCPConnection.h:182-212 | a damaged header in mid-stream: the frames before it are returned, and only its own is lost iff 52 divides its body's size |
| Resync.RecoveringInput | connection/TCPConnection.h:207-208 | a stream with a damaged header whose next frame is returned |
| Resync.LosingInput | connection/TCPConnection.h:207-208 | one byte more of payload, and the next frame is lost too |
| TcpDataPath.TCPConnection.constructor | connection/TCPConnection.h:12-14 | zeroed buffers, the derived key |
| TcpDataPath.TCPConnection.AsyncRead | connection/TCPConnection.h:182-183 | a read in full, or what is left of the stream |
| TcpDataPath.TCPConnection.Send | connection/TCPConnection.h:102-112 | appends exactly the payload's frame to the socket's output |
| TcpDataPath.TCPConnection.ReceiveFrom | connection/TCPConnection.h:168-214 | returns the stream reader's next packet and leaves the rest of the stream, or uses it up and closes |
| TcpDataPath.TCPConnection.ReadBody | connection/TCPConnection.h:209-212 | the second half of a round agrees with the stream reader |
| TcpDataPath.TCPConnection.Receive | connection/TCPConnection.h:115-134 | the client's single round: the stream reader's packet, or 0; with an error code, what the end of the stream comes to |
| Selection.StepKeepsSafe | connection/TCPConnection.h:59-230 | every step of every coroutine keeps the ledger, `selected` implies a socket, no lost wake-up, and no null dereference but those of lines 156 and 209 |
| Selection.AlwaysSafe | connection/TCPConnection.h:59-230 | that holds after every interleaving, failed writes and Close included |
| Selection.CandidateBodyKeepsSafe | connection/TCPConnection.h:88-97 | choosing or reserving a verified candidate keeps it |
| Selection.HeaderFailsKeepsSafe | connection/TCPConnection.h:186-202 | closing and promoting keeps it |
| HandOver.StepHandsOver | connection/TCPConnection.h:88-202 | every step without a failed write and before `stopped` keeps the hand-over invariant |
| HandOver.AlwaysHandsOver | connection/TCPConnection.h:88-202 | in all such runs: `selected` iff a socket is held, a replacement only while selected, reads only on the current socket, parked unwoken only with nothing held, the replacement is the candidate verified last, no socket chosen twice |
| HandOver.PromotesTheLatest | connection/TCPConnection.h:186-202 | a failed header read with a replacement held closes the current socket and reads next from the candidate verified last |
| Parsing.ReaderParses | connection/TCPConnection.h:182-212 | on a sane stream the reader returns exactly the packets parsed from the bytes, over any buffer |
| Parsing.IdealIsSane | connection/Protocol.cpp:61-81 | under the ideal cipher every stream of bytes is sane |
| Parsing.StreamParses | connection/TCPConnection.h:102-112 | a client's frames are sane and parse to their payloads |
| Delivery.StepDelivers | connection/TCPConnection.h:59-230 | every step of a clean run keeps the delivered log in segments, each continued by what is left to parse on its socket |
| Delivery.AlwaysDelivers | connection/TCPConnection.h:59-230 | that holds after every interleaving without a failed write or a body read cancelled on a living socket, Close included |
| Delivery.NeverChosenTwice | connection/TCPConnection.h:88-199 | in every run, failed writes, cut reads and Close included, no socket becomes current twice |
| Delivery.WholeRunDelivery | connection/TCPConnection.h:59-230 | in all clean runs: the delivered log is one segment per chosen socket, in the order of choosing, each a prefix of what the reader returns on that peer's bytes after its first frame, whatever buffer it starts with; and all of that, once the bytes are used up and no body read on the socket ended early |
| Delivery.NothingLostYet | connection/TCPConnection.h:168-214 | in all clean runs, between two rounds: what was delivered from the current socket and what is still to be parsed on it are together exactly what its peer's bytes parse to, unless a body read on it ended early |
| Delivery.AnybodySane | connection/TCPConnection.h:59-98 | under the ideal cipher that needs no condition on who connects |
| Delivery.ClientSegment | connection/TCPConnection.h:102-112 | a client's segment is a prefix of the payloads it sent minus the first, and all of them when it is complete |
| Progress.ReadsAll | connection/TCPConnection.h:168-214 | from any state of any run in which ReceiveFrom waits for a header, for every list of frames on the socket: a run that returns exactly their payloads, in order, and uses up exactly their bytes |
| Progress.EveryClientIsServed | connection/TCPConnection.h:59-214 | for any number of clients and any frames of theirs, from a parked receive loop on: a run in which each is chosen in its turn, all its payloads but the first are delivered, in order, and its socket is closed when the next takes over |
| Writes.AlwaysBooks | connection/TCPConnection.h:139-162 | in every run: writes are started for exactly the packets sent while a socket is selected, on that socket, one at a time; exactly those that ended well are on record, in order; nothing is written to a socket after a write to it failed |
| Writes.ReadyAgain | connection/TCPConnection.h:147-161 | in every run, at the end of a write that does not fault, SendTo is ready for the next packet; one that went through has changed nothing else, a failed one has cleared `selected` |
| Writes.SocketGetsAll | connection/TCPConnection.h:139-162 | in every run, socket by socket: what went through is what was sent while the socket was current and selected, in order, but for the last packet at most; all of it iff no write to it failed or is pending |
| Writes.ClientReads | connection/TCPConnection.h:114-162 | from SendTo to the client's Receive, in every run and wherever the stream is cut: the client gets the first of those packets, in order, nothing else, and all that went through once their frames are in |
| Writes.WritesAll | connection/TCPConnection.h:139-162 | while a socket is selected, a run in which any number of packets is sent to it, one after the other |
| Writes.WritesHappen | connection/TCPConnection.h:139-162 | a run: a client connects, and every packet of any list is written to it, in order |
| Sockets.CloseClosesIff | connection/TCPConnection.h:216-230 | in every run, Close takes effect iff the receive loop has not returned and a socket is selected; it then closes exactly that socket and lets go of it, and otherwise closes the acceptor only |
| Sockets.StopSettles | connection/TCPConnection.h:186-230 | once Close has taken effect, whatever follows: nobody is chosen, and no socket that was taken changes its place |
| Sockets.ChosenAreClosed | connection/TCPConnection.h:88-230 | in every run without a failed write, before Close and after, the sockets that are current or closed are exactly those ever chosen: none is dropped unclosed |
| Sockets.ClosedWereChosen | connection/TCPConnection.h:186-230 | in every run, a socket that is closed was chosen before |
| Provenance.AlwaysTraced | connection/TCPConnection.h:59-214 | in every run, what is left to read on a socket that is not taken yet is what its peer sent, and a socket was taken iff tryReceive finished with it |
| Provenance.HeldSocketsAuthenticate | connection/TCPConnection.h:71-97 | in every run, whoever connects: a held socket's own first 52 bytes open as a header, and as many bytes as it announces follow |
| Provenance.TakenIffHeaderAuthenticates | connection/TCPConnection.h:66-97 | from any state of any run, an accepted socket can be taken iff the acceptor is open, its first 52 bytes open and the announced bytes follow, whatever DecryptPayload says |
| Provenance.NoFabricationTcp | connection/TCPConnection.h:168-214 | in every run, failed writes, cut reads, Close and any peers included, every packet delivered was sealed |
| Losses.StepReturnsExactly | Server.cpp:97-105 | a step takes the receive loop out iff its tun write failed, ReceiveFrom found `stopped`, or a body read cut short decrypts |
| Losses.ReturnedExactly | Server.cpp:95-147 | over all runs the loop has returned iff one of these happened |
| Losses.CutPacketEndsDelivery | Server.cpp:97-101 | a cut packet is not delivered, and nothing after it is, whoever connects |
| Losses.CutPaddingEndsLoop | connection/TCPConnection.h:93-97 | the run in which a second client's arrival cancels a read in the padding: loop over, packet lost, a verified client waiting |
| Losses.CutPayloadLosesStep | connection/TCPConnection.h:93-97 | the run in which it cancels a read in mid-payload on a socket that lives on: the old stream is out of step, at the exact cost of `Resync` |
| FailedWrites.DanglesExactly | connection/TCPConnection.h:154-159 | in every run a socket is held without being selected iff Close has not taken effect, a write failed, and since then no header read failed and no candidate got through |
| FailedWrites.FailedWriteDangles | connection/TCPConnection.h:154-159 | a run that ends so |
| FailedWrites.LateFailureHitsReplacement | connection/TCPConnection.h:147-159 | a run in which a write pending on the old socket fails after hand-over and unselects the new one |
| Losses.ReplayedHeaderIsChosen | connection/TCPConnection.h:71-92 | one genuine header with any bytes of the announced number behind it becomes the server's socket |
| Losses.LostClientThrows | connection/TCPConnection.h:75 | a run: the client goes away after its first header |
| Losses.CloseThenCandidateThrows | connection/TCPConnection.h:80 | a run: a first body arrives after Close |
| Closing.CloseIsHeardIff | connection/TCPConnection.h:186-230 | from any state of any run, and without a second Close: ReceiveFrom can still return -1 iff a header read is pending at the time of Close and the server is selected or was stopped before |
| Closing.CloseBetweenCallsHangs | connection/TCPConnection.h:172-230 | a run: Close between two calls with a client selected, and the receive loop parks for good |
| Closing.ParkedResumesIff | connection/TCPConnection.h:172-175 | from any state of any run, a parked ReceiveFrom that nobody has woken can go on iff the acceptor is open |
| Closing.CloseWhileParkedHangs | connection/TCPConnection.h:216-230 | Close before any client has connected: the receive loop never returns, whatever follows |
| Faults.NullDereferencesExactly | connection/TCPConnection.h:139-230 | in every run a step dereferences null iff it is the error path of a failed write with no socket held (line 156), or an authenticated header with no socket held, which needs `stopped` (line 209) |
| Faults.StepFaultsExactly | connection/TCPConnection.h:139-230 | the same of a step from any safe state |
| Faults.WriteFaultHappens | connection/TCPConnection.h:154-156 | a run that ends at line 156 |
| Faults.ReadFaultHappens | connection/TCPConnection.h:206-209 | a run that ends at line 209 |
| Faults.GenuineTotalsFit | connection/Protocol.cpp:61-81 | a header that authenticates announces between 250 and 1500 bytes |
| Faults.NeverTooLong | connection/TCPConnection.h:66-76 | whoever connects and whatever they send, no read is issued beyond the 2000-byte buffer |
| FailedWrites.FailedWriteMakesRoom | connection/TCPConnection.h:88-202 | after a failed write packets are dropped without an error, and the next candidate that gets through takes the failed socket's place, unless line 80 throws; but a header read pending on the failed socket closes it |
| FailedWrites.ClosesAnotherIff | connection/TCPConnection.h:154-202 | in every run a failed header read closes a socket it was not on iff the server is not stopped and, since ReceiveFrom moved last, a write failed and then a candidate got through |
| FailedWrites.SecondClientClosedUnread | connection/TCPConnection.h:154-202 | a run in which the client that took the failed one's place is closed unread |
| FailedWrites.BodyFromAnotherIff | connection/TCPConnection.h:204-210 | in every run, a header that opens and announces at most what fits is followed by a body read on what `conn_socket` then holds; that is another socket than the header came from iff, since ReceiveFrom moved last, a write failed and then a candidate got through |
| FailedWrites.BodyFromTheSecond | connection/TCPConnection.h:204-210 | a run in which the header comes from the first client and the body is read from the second |
| Closing.ExitIsFinal | Server.cpp:95-105 | once the receive loop has returned, no continuation of the run delivers anything |
| TcpServer.ServerConnection.constructor | connection/TCPConnection.h:233-243 | the initial state of the machine |
| TcpServer.ServerConnection.OnAccepted | connection/TCPConnection.h:43-57 | the accepting step |
| TcpServer.ServerConnection.OnCandidateHeader | connection/TCPConnection.h:66-76 | tryReceive from its first read to its second, DecryptHeader in place on the buffer: the machine's step with the buffer's own stale bytes |
| TcpServer.ServerConnection.OnCandidateBody | connection/TCPConnection.h:75-97 | tryReceive after its second read: the body lands and is decrypted to no effect; throw, choose, or hold as replacement |
| TcpServer.ServerConnection.ReceiveFrom | connection/TCPConnection.h:168-183 | the call up to its first yield |
| TcpServer.ServerConnection.OnWake | connection/TCPConnection.h:172-183 | the timer wakes: `selected` is looked at again |
| TcpServer.ServerConnection.OnHeaderRead | connection/TCPConnection.h:204-210 | header in and decrypted in place: skip, or read the body from the socket now current |
| TcpServer.ServerConnection.OnHeaderFails | connection/TCPConnection.h:186-202 | header read failed: -1 if stopped, else close, promote, go on |
| TcpServer.ServerConnection.OnBodyRead | connection/TCPConnection.h:211-213 | body in and decrypted in place over the buffer's own stale bytes: the packet handed on is what the delivered log gains |
| TcpServer.ServerConnection.OnBodyEnds | connection/TCPConnection.h:209-213 | the same when the peer is gone before the body is complete |
| TcpServer.ServerConnection.OnLoopEnds | Server.cpp:142-146 | the receive loop returns when the tun write fails |
| TcpServer.ServerConnection.SendTo | connection/TCPConnection.h:139-147 | dropped while nothing is selected, else the frame of the tun buffer's payload, written on the current socket |
| TcpServer.ServerConnection.OnWritten | connection/TCPConnection.h:148-161 | -1 if stopped, 0 after a failed write, which clears `selected`, else the bytes sent |
| TcpServer.ServerConnection.Close | connection/TCPConnection.h:216-230 | closes the acceptor, and the socket if selected while the receive loop runs |
| TcpServer.ServerConnection.Run | connection/TCPConnection.h:43-230 | any sequence of inputs drives the object through a run of the machine; the packets handed on are the delivered log, all sealed under an ideal cipher, and in clean runs, Close and strangers included, one segment per chosen socket, in order, each complete once its socket has been read to the end |
| Udp.LandsUpToRoom | connection/UDPConnection.cpp:45-75 | byte for byte, a datagram lands at the front of the buffer as far as the read has room, and the stale bytes behind stay |
| Udp.GenuineDatagramOpens | connection/UDPConnection.cpp:45-75 | a frame cut anywhere behind its cipher text opens to its payload, whatever the buffer held |
| Udp.NoFabrication | connection/UDPConnection.cpp:45-75 | whatever datagram comes in over whatever stale bytes, an accepted payload is that of exactly one sealed frame |
| Udp.UDPConnection.constructor | connection/UDPConnection.cpp:7-9 | zeroed buffers, the derived key |
| Udp.UDPConnection.Connect | connection/UDPConnection.cpp:11-22 | remembers the server's endpoint |
| Udp.UDPConnection.Send | connection/UDPConnection.cpp:36-43 | the payload's frame, to the server connected to |
| Udp.UDPConnection.SendTo | connection/UDPConnection.cpp:59-66 | the payload's frame, to the source of the last datagram |
| Udp.UDPConnection.Open | connection/UDPConnection.cpp:70-74 | the length of the accepted payload, now at offset 52, or 0 |
| Udp.UDPConnection.Receive | connection/UDPConnection.cpp:45-55 | -1 and nothing decrypted for a datagram from anyone but the server, else as the decrypt pair says |
| Udp.UDPConnection.ReceiveFrom | connection/UDPConnection.cpp:68-75 | the same from anyone, whose endpoint is kept |
| Tunnel.FiltersSeeThePacket | misc/ip.h:14-27 | a filter reads the packet's own header only, whatever lies behind the packet in the buffer |
| Tunnel.ClientTakes | Client.cpp:80-94 | on the packet's own bytes: the client takes IPv4 with its tun address at 12..16, and IPv6 iff that is on |
| Tunnel.ServerTakes | Server.cpp:161-176 | on the packet's own bytes: the server takes IPv4 with the client's address at 16..20, and IPv6 with the client's address at 24..40 |
| Tunnel.ServerPasses | Server.cpp:112-130 | on the packet's own bytes: the server writes IPv4 with the client's address at 12..16, and IPv6 with the client's address at 24..40 |
| Tunnel.TakenPass | Client.cpp:83-94 | with IPv6 off, what the client's filter takes is IPv4 and the server's filter passes it |
| Tunnel.ReadsThePacket | Client.cpp:74-97 | one tun read seals that packet if the filter takes it, and nothing otherwise |
| Tunnel.ServerSeals | Server.cpp:153-176 | one tun read at the server, on the packet's own bytes: sealed iff addressed to the client, else nothing |
| Tunnel.ClientSeals | Client.cpp:72-97 | one tun read at the client, on the packet's own bytes behind the device's prefix: sealed iff IPv4 from its tun address, or IPv6 with that on |
| Tunnel.TakenAndNot | Server.cpp:161-176 | inputs: at each end an IPv4 packet that is sealed and one that is not, one that passes and one that does not |
| Tunnel.TunReadLength | Client.cpp:72-78 | a tun read brings what there is, up to that end's MTU and its device's prefix |
| Tunnel.FilterAppend | Client.cpp:80-94 | a filter acts on each packet by itself and keeps the order |
| Tunnel.TunneledPayloads | Client.cpp:71-103 | the frames sealed carry exactly the packets that the filter takes, in order, whatever the buffer held |
| Tunnel.AcceptsFrame | Server.cpp:97-142 | over any stale bytes, a frame's packet is written iff the server's filter passes it |
| Tunnel.ServerWrites | Server.cpp:97-142 | one frame at the server, on its packet's own bytes: written iff IPv4 from the client's address or IPv6 to it |
| Tunnel.ForeignSourceNotWritten | Server.cpp:112-130 | an input: a frame with a packet of a foreign source opens and is not written |
| Tunnel.AllPassIff | Server.cpp:112-130 | the server's filter loses nothing iff every packet passes |
| Tunnel.WritesPassing | Server.cpp:94-147 | frames in any order and number: exactly their packets are written, as far as they pass, in order |
| Tunnel.EndToEndUdp | Server.cpp:94-147 | lossless, in order: the server's tun is written exactly the client's tun packets that its filter takes and the server's passes, in order |
| Tunnel.NothingLostIff | Server.cpp:124-130 | nothing taken is lost iff every IPv6 packet taken passes; with IPv6 off all taken are IPv4 |
| Tunnel.Ipv6PacketIsLost | Server.cpp:124-130 | an IPv6 packet the client sends to anybody but itself is taken and sealed, opens, and is not written |
| Tunnel.Ipv6Input | Server.cpp:124-130 | such a packet, of 40 bytes |
| Tunnel.LossyChannel | Server.cpp:94-147 | whichever of the client's frames arrive, in whatever order and however often: exactly their packets are written, as far as they pass, and with IPv6 off all |
| Tunnel.OnlySealedIsWritten | Server.cpp:94-147 | under loss, duplication, reordering and forgery every packet written was sealed by a sender |
| Tunnel.WrittenPasses | Server.cpp:94-147 | whatever arrives, a packet written is one that was sealed, and it passes |
| Tunnel.ReflectedFrameIsWritten | Server.cpp:124-130 | the server's own frame, sent back to it, is written iff its packet passes; for IPv6 whatever the server took for the client passes |
| Tunnel.WritesOnlyClientsIff | Server.cpp:94-147 | with both ends' frames sealed under the key: whatever arrives, only the client's packets are written iff every server packet that passes is also one of the client's |
| Tunnel.HostileChannelIsSafe | Server.cpp:94-147 | if no tun packet the server takes passes, then, whatever arrives, every packet written is one the client tunneled; with IPv6 off it is IPv4 with the client's tun IP as source |
| Tunnel.EndToEndTcp | connection/TCPConnection.h:168-214 | over TCP, cut up in any way: the packets the client's filter takes minus the first, all of which pass with IPv6 off |
| Tunnel.FramedBytes | Client.cpp:129-136 | the client's tun device gets the packet as it is, or with 0, 0, 0, 2 before IPv4 and 0, 0, 0, 30 before IPv6 where it wants a prefix |
| Tunnel.ForeignersIgnored | connection/UDPConnection.cpp:45-49 | datagrams from other endpoints, anywhere in between, do not change what the client writes |
| Tunnel.ReversePath | Client.cpp:107-141 | the client's tun is written exactly the server's tun packets addressed to the client, in order, with the address family before each where the platform wants it |
| Forwarding.WireCarriesTunneled | Client.cpp:71-104 | however the two loops of one end interleave, its datagrams are what its tun reads alone would give |
| Forwarding.AnswersLastSource | connection/UDPConnection.cpp:59-66 | what is sent next goes to the source of the last datagram that came in, whatever it was |
| Forwarding.ForgedDatagramRedirects | connection/UDPConnection.cpp:65-69 | after one datagram from anywhere, the server's next packet goes there |
| Forwarding.AllToPeer | connection/UDPConnection.cpp:59-66 | a client sends to its server only; a server that has heard from one endpoint only answers that one only |
| Forwarding.FullDuplex | Client.cpp:71-142 | both directions at once, all four loops interleaved in any way: the client's tun device is written exactly what the server's filter takes, the server's what the client's takes and the server's passes, in order |
| Forwarding.Server.constructor | Server.cpp:70-73 | a server over UDP |
| Forwarding.Server.OnTunRead | Server.cpp:153-185 | one turn from the tun device: filtered on destination, sealed, sent to the last source |
| Forwarding.Server.OnDatagram | Server.cpp:95-147 | one turn from the network: opened, filtered, written |
| Forwarding.Server.Run | Server.cpp:94-186 | the two loops, interleaved in any order, meet their specifications |
| Forwarding.Client.constructor | Client.cpp:55-58 | a client connected to its server over UDP |
| Forwarding.Client.OnTunRead | Client.cpp:72-103 | one turn from the tun device: filtered on source, sealed, sent |
| Forwarding.Client.OnDatagram | Client.cpp:108-141 | one turn from the network: only from the server, opened, framed for the tun device, written |
| Forwarding.Client.Run | Client.cpp:71-142 | the two loops, interleaved in any order, meet their specifications |
| TcpTunnel.ForwardsWholeRun | Server.cpp:94-147 | over all clean runs, what the receive loop hands to the tun device is, socket by socket, what passes of that socket's segment; with IPv6 off a filtering client's segment passes as it is, and is all it sent but the first once its socket has been read to the end |

## Left out

- AES-GCM, libsodium and the random generator: an abstract cipher and free draws; no claim about cryptographic strength.
- Boost.Asio scheduling, timers and socket calls: a step runs to its next yield on one thread, a read completes in full or fails with a partial count.
- Liveness: `Progress` and `Writes` give the runs in which everything arrives; nothing is claimed about a read or write completing in the end.
- Overwriting of delivered but not yet used bytes in the shared connection buffer by another coroutine; a named assumption in its place.
- `cancel()` at connection/TCPConnection.h:96 throwing: the socket it is called on is open.
- Failing Connect, Bind and Accept calls, and anything before a socket is connected.
- Forwarding.Server.Run: without the ends of the loops on read, write and send errors (Server.cpp:98-105, 143-145, 156-159, 179-184); a run is one up to there.
- Forwarding.Client.Run: without the ends of the loops on read, write and send errors (Client.cpp:75-78, 98-102, 111-117, 137-140); a run is one up to there.
- TcpDataPath.TCPConnection.ReceiveFrom: one socket only; the close, promotion and retry of connection/TCPConnection.h:186-202 are in `Selection`.
- The forwarding loops over TCP as methods: `Tunnel.EndToEndTcp` and `TcpTunnel.ForwardsWholeRun` state what they write.
- Client reconnect, Stop, network probing and sleeps (Client.cpp:27-68, 144-159): real time and I/O.
- CreateServer and DestroyServer and their two maps (Server.cpp:209-239): destruction uses the context after Stop has reset it, so there is no agreement to state.
- Routes, iptables, tun ioctls, shell, resolver, YAML and the other helpers: plumbing.
- Outer IP and UDP overhead: the 1500-byte bound is for the frame alone.
- Aead.AES256GCM.DecryptData: says nothing of the output array when the tag is wrong, which no caller reads.
