/**
 The server's connection object: the fields of connection/TCPConnection.h, the codec and its buffers, and
 for each stretch of the coroutines between two yields a method that does what the code does there, on the
 buffers. Every method is proved to take a step of the state machine in `Selection`, and `Run` to take a
 run of it. What the environment decides (who connects, how many bytes a read brings) is passed in.

 tryReceive and ReceiveFrom work on a buffer each: what one of them has read is not overwritten by the
 other before it is used.
 */
module TcpServer {
  import opened ByteStrings
  import opened Aead
  import opened ProtocolHeader
  import opened Frames
  import opened Protocols
  import opened Streams
  import opened Selection
  import opened Parsing
  import opened Delivery
  import opened Provenance

  /** What resumes a coroutine, or starts one. */
  datatype Input =
    | Accepts(peer: Peer)
    | FirstHeader(s: nat, n: nat)
    | FirstBody(s: nat, ok: bool)
    | Receives
    | LoopReturns
    | Wakes
    | HeaderIn
    | HeaderStops(n: nat)
    | BodyIn(n: nat)
    | BodyStops(n: nat)
    | Packet(len: nat, draw: Draw)
    | WriteDone(ok: bool)
    | Closes

  /** The step an input asks for, given the bytes that lie where a read may not have filled the buffers, and
      the tun buffer. */
  function EventOf(input: Input, stale: Bytes, tun: Buffer): Event
    requires input.Packet? ==> input.len <= MAX_BUFFSIZE
  {
    match input
    case Accepts(peer) => Accept(peer)
    case FirstHeader(s, n) => CandidateHeader(s, n, stale)
    case FirstBody(s, ok) => CandidateBody(s, ok)
    case Receives => Call
    case LoopReturns => LoopEnds
    case Wakes => Wake
    case HeaderIn => HeaderRead
    case HeaderStops(n) => HeaderFails(n)
    case BodyIn(n) => BodyRead(n, stale)
    case BodyStops(n) => BodyEnds(n, stale)
    case Packet(len, draw) => Send(Outgoing(tun, len, draw))
    case WriteDone(ok) => Written(ok)
    case Closes => Event.Close
  }

  /** Any bytes of the right number in their place. */
  function Blank(input: Input): Bytes {
    match input
    case FirstHeader(_, n) => if n <= SIZE then Zeros(SIZE - n) else []
    case BodyIn(_) => Zeros(MAX_BUFFSIZE)
    case BodyStops(_) => Zeros(MAX_BUFFSIZE)
    case _ => []
  }

  function StaleOf(ev: Event): Bytes {
    match ev
    case CandidateHeader(_, _, stale) => stale
    case BodyRead(_, stale) => stale
    case BodyEnds(_, stale) => stale
    case _ => []
  }

  /** A state without its history. */
  function Forgetting(st: State): State {
    st.(delivered := [], chosen := [], verifiedLog := [], writeFailed := false, bodyCut := false, ended := {},
        wire := [])
  }

  /** Whether a step can be taken does not depend on the values of stale bytes, nor on history. */
  lemma StaleDoesNotMatter(st: State, now: State, input: Input, stale: Bytes, tun: Buffer)
    requires input.Packet? ==> input.len <= MAX_BUFFSIZE
    requires Bounded(st) && |stale| == |Blank(input)|
    requires now == Forgetting(st)
    ensures Bounded(now)
    ensures Enabled(now, EventOf(input, Blank(input), tun)) == Enabled(st, EventOf(input, stale, tun))
  {
  }

  lemma HeldLength(b: Buffer, h: Header, plain: nat, len: nat)
    requires len == FromLe32(b[44..48])
    ensures Holds(b, h, plain) ==> len == plain
  {
    PayloadLengthField(b);
  }

  /** A header that did not open has no length to speak of. */
  lemma HeaderReadLength(st: State, h: Header, len: nat, plain: nat, total: nat)
    requires Bounded(st) && st.rx.ReadingHeader? && SIZE <= |st.sockets[st.rx.sock].inbox|
    requires |h.lengths| == LENGTHS_BYTES
    requires total != 0 ==> len == plain
    ensures Selection.OnHeaderRead(st, h, len, total) == Selection.OnHeaderRead(st, h, plain, total)
  {
    hide Consume, Later;
  }

  /** A body read that brings nothing is not decrypted. */
  lemma NoBytesNoPacket(st: State, n: nat, packet: Option<Bytes>, got: Option<Bytes>)
    requires Bounded(st) && st.rx.ReadingBody? && n <= |st.sockets[st.rx.sock].inbox| && (n > 0 ==> packet == got)
    ensures Selection.OnBodyRead(st, n, packet) == Selection.OnBodyRead(st, n, got)
    ensures Selection.OnBodyEnds(st, n, packet) == Selection.OnBodyEnds(st, n, got)
  {
    hide Consume, Later, LoopTop;
  }

  lemma EnabledIsBounded(st: State)
    requires Safe(st)
    ensures Bounded(st) && (st.selected ==> st.conn.Some?)
  {
  }

  /** Only a body read delivers. */
  lemma StepIsQuiet(f: Cipher, k: Key, st: State, ev: Event)
    requires Bounded(st) && Enabled(st, ev) && !ev.BodyRead?
    ensures Step(f, k, st, ev).delivered == st.delivered
  {
    hide OnHeaderRead, Head, HeaderTotal, PlainLength;
    if ev.HeaderRead? {
      var h := Head(st.sockets[st.rx.sock].inbox);
      HeaderReadOutcome(st, h, PlainLength(f, k, h), HeaderTotal(f, k, h));
    } else {
      StepQuiet(f, k, st, ev);
    }
  }

  lemma RunDelivers(f: Cipher, k: Key, evs: seq<Event>, st: State, all: seq<Sent>) returns (segments: seq<seq<Bytes>>)
    requires Selection.Run(f, k, evs) == Some(st)
    ensures Separable(all) && OnlySealed(f, k, all) ==> forall p | p in st.delivered :: WasSealed(all, p)
    ensures Clean(st) && (AllSane(f, k, st) || (Separable(all) && OnlySealed(f, k, all))) ==>
              InSegments(f, k, st, segments)
  {
    hide OnlySealed, WasSealed, Selection.Run, AllSane, Clean, InSegments;
    segments := [];
    if Separable(all) && OnlySealed(f, k, all) {
      AlwaysSealed(f, k, all, evs);
      AnybodySane(f, k, all, evs);
    }
    if Clean(st) && AllSane(f, k, st) {
      segments := WholeRunDelivery(f, k, evs, st);
    }
  }

  class ServerConnection {
    const protocol: Protocol
    const tunBuffer: array<byte>
    const connBuffer: array<byte>         // what ReceiveFrom reads into
    const candidateBuffer: array<byte>    // what tryReceive reads into
    var sockets: seq<Socket>
    var selected: bool
    var stopped: bool
    var connSocket: Option<nat>
    var replaceSocket: Option<nat>
    var receiver: Receiver
    var sender: Sender
    var accepting: bool
    var fault: Fault
    ghost var delivered: seq<Bytes>
    ghost var chosen: seq<nat>
    ghost var verifiedLog: seq<nat>
    ghost var writeFailed: bool
    ghost var bodyCut: bool
    ghost var ended: set<nat>
    ghost var wire: seq<Put>

    ghost function Abs(): State
      reads this
    {
      State(sockets, selected, stopped, connSocket, replaceSocket, receiver, sender, accepting, fault,
            delivered, chosen, verifiedLog, writeFailed, bodyCut, ended, wire)
    }

    lemma TunLength()
      requires Buffers()
      ensures tunBuffer.Length == BUFFER_SIZE
    {
    }

    lemma ValidIsBounded()
      requires Valid()
      ensures Buffers() && Bounded(Abs()) && Bounded(Forgetting(Abs()))
    {
    }

    lemma Fields()
      ensures Abs().sockets == sockets && Abs().rx == receiver && Abs().fault == fault
      ensures Abs().selected == selected && Abs().conn == connSocket
      ensures Abs().delivered == delivered && Abs().chosen == chosen && Now() == Forgetting(Abs())
    {
    }

    /** The buffers and the codec, apart from the state. */
    ghost predicate Buffers()
    {
      && protocol.Accepts(tunBuffer) && protocol.Accepts(connBuffer) && protocol.Accepts(candidateBuffer)
      && tunBuffer != connBuffer && tunBuffer != candidateBuffer && connBuffer != candidateBuffer
    }

    /** Between the two reads of a round, the buffer holds the header that was read. */
    ghost predicate MidRound()
      requires connBuffer.Length == BUFFER_SIZE
      reads this, connBuffer
    {
      receiver.ReadingBody? ==> receiver.total <= BODY_ROOM && Holds(connBuffer[..], receiver.header, receiver.len)
    }

    ghost predicate Valid()
      reads this, connBuffer
    {
      Buffers() && Safe(Abs()) && MidRound()
    }

    ghost predicate Can(ev: Event)
      reads this, connBuffer
    {
      Valid() && Enabled(Abs(), ev)
    }

    function Ops(): Cipher { protocol.Ops() }

    function Key(): Aead.Key
      requires Buffers()
      reads protocol.aes.key
    {
      protocol.Key()
    }

    constructor (ops: Cipher, connKey: Bytes)
      ensures Valid() && Abs() == INIT && Ops() == ops && Key() == KeyOf(connKey)
      ensures fresh(protocol) && fresh(tunBuffer) && fresh(connBuffer) && fresh(candidateBuffer)
    {
      protocol := new Protocol(ops, connKey);
      tunBuffer := new byte[BUFFER_SIZE](i => 0);
      connBuffer := new byte[BUFFER_SIZE](i => 0);
      candidateBuffer := new byte[BUFFER_SIZE](i => 0);
      sockets, selected, stopped, connSocket, replaceSocket := [], false, false, None, None;
      receiver, sender, accepting, fault := Calling, Idle, true, NoFault;
      delivered, chosen, verifiedLog, writeFailed, bodyCut, ended, wire := [], [], [], false, false, {}, [];
    }

    /** Accept: async_accept completes, and tryReceive starts on the new socket. */
    method OnAccepted(peer: Peer)
      requires Can(Accept(peer))
      modifies this
      ensures Valid() && Abs() == Step(Ops(), Key(), old(Abs()), Accept(peer))
    {
      ghost var f, k := Ops(), Key();
      StepKeepsSafe(f, k, Abs(), Accept(peer));
      hide Safe, BytesOf, Holds;
      sockets := sockets + [Socket(peer, AwaitingHeader, BytesOf(protocol.Ops(), protocol.Key(), peer))];
    }

    /** The bytes of tryReceive's first read land in its buffer, and unless there are none, DecryptHeader acts
        on them. */
    method DecryptCandidate(inbox: Bytes, bytesRead: nat) returns (payloadLen: nat, ghost stale: Bytes)
      requires Buffers() && bytesRead <= SIZE && bytesRead <= |inbox|
      modifies candidateBuffer
      ensures stale == old(candidateBuffer[bytesRead..SIZE])
      ensures payloadLen == CandidateTotal(Ops(), Key(), inbox, bytesRead, stale)
    {
      hide Head, HeaderTotal, HeaderDecrypted;
      stale := candidateBuffer[bytesRead..SIZE];
      Write(candidateBuffer, 0, inbox[..bytesRead]);
      assert candidateBuffer[..][..SIZE] == inbox[..bytesRead] + stale;
      SameHead(candidateBuffer[..]);
      payloadLen := 0;
      if bytesRead > 0 {
        payloadLen := protocol.DecryptHeader(candidateBuffer);
      }
    }

    /** tryReceive after its first read. */
    method OnCandidateHeader(s: nat, bytesRead: nat) returns (ghost stale: Bytes)
      requires bytesRead <= SIZE && Can(CandidateHeader(s, bytesRead, Zeros(SIZE - bytesRead)))
      modifies this, candidateBuffer
      ensures Valid() && stale == old(candidateBuffer[bytesRead..SIZE]) && |stale| == SIZE - bytesRead
      ensures Abs() == Step(Ops(), Key(), old(Abs()), CandidateHeader(s, bytesRead, stale))
    {
      hide Safe, CandidateTotal, Selection.OnCandidateHeader, Holds, Abs;
      ghost var st := Abs();
      Fields();
      EnabledIsBounded(st);
      var payloadLen;
      payloadLen, stale := DecryptCandidate(sockets[s].inbox, bytesRead);
      StepKeepsSafe(Ops(), Key(), st, CandidateHeader(s, bytesRead, stale));
      HandleCandidateHeader(s, bytesRead, payloadLen);
    }

    /** Lines 71 to 76. */
    method HandleCandidateHeader(s: nat, bytesRead: nat, payloadLen: nat)
      requires Bounded(Abs()) && s < |sockets| && bytesRead <= |sockets[s].inbox|
      modifies this
      ensures Abs() == Selection.OnCandidateHeader(old(Abs()), s, bytesRead, payloadLen) && receiver == old(receiver)
    {
      hide Bounded, Later;
      var socket := sockets[s];
      var left := if bytesRead < SIZE then [] else socket.inbox[bytesRead..];
      if payloadLen == 0 {
        sockets := sockets[s := socket.(inbox := left, status := Rejected)];
      } else if payloadLen > BODY_ROOM {
        fault := TooLong;
      } else {
        sockets := sockets[s := socket.(inbox := left, status := AwaitingBody(payloadLen))];
      }
    }

    /** The bytes of tryReceive's second read land in its buffer. What DecryptPayload makes of them is ignored. */
    method DecryptIgnored(body: Bytes)
      requires Buffers() && |body| <= BODY_ROOM
      modifies candidateBuffer, protocol.decryptedData
    {
      Write(candidateBuffer, SIZE, body);
      var ok := protocol.DecryptPayload(candidateBuffer);
    }

    /** tryReceive after its second read. */
    method OnCandidateBody(s: nat, ok: bool)
      requires Can(CandidateBody(s, ok))
      modifies this, candidateBuffer, protocol.decryptedData
      ensures Valid() && Abs() == Step(Ops(), Key(), old(Abs()), CandidateBody(s, ok))
    {
      StepKeepsSafe(Ops(), Key(), Abs(), CandidateBody(s, ok));
      assert Entered(sockets[s], s, connSocket, replaceSocket);
      hide Safe, Choose, Reserve, Later, Holds;
      if !ok {
        fault := Uncaught;
        return;
      }
      var socket := sockets[s];
      DecryptIgnored(socket.inbox[..socket.status.total]);
      if !accepting {
        fault := Uncaught;
        return;
      }
      var read := socket.(inbox := socket.inbox[socket.status.total..]);
      if !selected {
        ChooseSocket(s, read);
      } else {
        ReserveSocket(s, read);
      }
    }

    method ChooseSocket(s: nat, read: Socket)
      requires Bounded(Abs()) && s < |sockets|
      modifies this
      ensures Abs() == Choose(old(Abs()), s, read)
    {
      hide SetStatus, Later, Apart;
      if receiver.Parked? {
        receiver := Parked(true);
      }
      var released := SetStatus(sockets, connSocket, Superseded);
      sockets, connSocket, selected := released[s := read.(status := Current)], Some(s), true;
      chosen, verifiedLog := chosen + [s], verifiedLog + [s];
    }

    method ReserveSocket(s: nat, read: Socket)
      requires Bounded(Abs()) && s < |sockets|
      modifies this
      ensures Abs() == Reserve(old(Abs()), s, read)
    {
      hide SetStatus;
      if connSocket.None? {
        fault := NullDeref(96);
        return;
      }
      sockets := SetStatus(sockets, replaceSocket, Superseded);
      sockets := sockets[s := read.(status := Replacement)];
      replaceSocket := Some(s);
      verifiedLog := verifiedLog + [s];
    }

    /** The top of ReceiveFrom's loop, up to its next yield. */
    method ReceiveLoop()
      requires Bounded(Abs())
      modifies this`receiver, this`fault
      ensures Abs() == LoopTop(old(Abs()))
    {
      if !selected {
        receiver := Parked(false);
      } else if connSocket.None? {
        fault := NullDeref(182);
      } else {
        receiver := ReadingHeader(connSocket.value);
      }
    }

    /** The server's loop calls ReceiveFrom. */
    method ReceiveFrom()
      requires Can(Call)
      modifies this
      ensures Valid() && Abs() == Step(Ops(), Key(), old(Abs()), Call)
    {
      StepKeepsSafe(Ops(), Key(), Abs(), Call);
      hide Ledger, Holds;
      ReceiveLoop();
    }

    /** The timer's wait ends: `selected` is looked at again. */
    method OnWake()
      requires Can(Wake)
      modifies this
      ensures Valid() && Abs() == Step(Ops(), Key(), old(Abs()), Wake)
    {
      StepKeepsSafe(Ops(), Key(), Abs(), Wake);
      hide Ledger, Holds;
      ReceiveLoop();
    }

    /** The server's loop ends because its write to the tun device failed. */
    method OnLoopEnds()
      requires Can(LoopEnds)
      modifies this
      ensures Valid() && Abs() == Step(Ops(), Key(), old(Abs()), LoopEnds)
    {
      receiver := Exited;
    }

    /** The header bytes land in the buffer, and DecryptHeader acts on them. */
    method DecryptHeaderOf(inbox: Bytes) returns (payloadLen: nat, len: nat)
      requires Buffers() && SIZE <= |inbox|
      modifies connBuffer
      ensures payloadLen == HeaderTotal(Ops(), Key(), Head(inbox))
      ensures payloadLen != 0 ==>
                len == PlainLength(Ops(), Key(), Head(inbox)) && Holds(connBuffer[..], Head(inbox), len)
    {
      hide Head, HeaderTotal, PlainLength, Holds, HeaderDecrypted;
      HeaderInPlace(Ops(), Key(), connBuffer[..], inbox);
      Write(connBuffer, 0, inbox[..SIZE]);
      payloadLen := protocol.DecryptHeader(connBuffer);
      len := FromLe32(connBuffer[44..48]);
      HeldLength(connBuffer[..], Head(inbox), PlainLength(Ops(), Key(), Head(inbox)), len);
    }

    /** ReceiveFrom's header read completes. */
    method OnHeaderRead()
      requires Can(HeaderRead)
      modifies this, connBuffer
      ensures Valid() && Abs() == Step(Ops(), Key(), old(Abs()), HeaderRead)
    {
      ghost var f, k, st := Ops(), Key(), Abs();
      Fields();
      EnabledIsBounded(st);
      StepKeepsSafe(f, k, st, HeaderRead);
      hide Safe, Head, HeaderTotal, PlainLength, Selection.OnHeaderRead, Holds, Abs;
      var inbox := sockets[receiver.sock].inbox;
      var payloadLen, len := DecryptHeaderOf(inbox);
      HeaderReadLength(st, Head(inbox), len, PlainLength(f, k, Head(inbox)), payloadLen);
      HandleHeader(Head(inbox), len, payloadLen);
    }

    /** Lines 207 to 210. */
    method HandleHeader(header: Header, len: nat, payloadLen: nat)
      requires Bounded(Abs()) && receiver.ReadingHeader? && SIZE <= |sockets[receiver.sock].inbox|
      requires |header.lengths| == LENGTHS_BYTES
      modifies this
      ensures Abs() == Selection.OnHeaderRead(old(Abs()), header, len, payloadLen)
      ensures receiver.ReadingBody? ==>
                payloadLen != 0 && receiver.total <= BODY_ROOM && receiver.header == header && receiver.len == len
    {
      hide Consume, Later;
      if payloadLen == 0 {
        sockets := Consume(sockets, receiver.sock, SIZE);
        ReceiveLoop();
      } else if connSocket.None? {
        fault := NullDeref(209);
      } else if payloadLen > BODY_ROOM {
        fault := TooLong;
      } else {
        sockets := Consume(sockets, receiver.sock, SIZE);
        receiver := ReadingBody(connSocket.value, header, len, payloadLen);
      }
    }

    /** ReceiveFrom's header read fails: return -1 when stopped, else close and hand over. */
    method OnHeaderFails(bytesRead: nat)
      requires Can(HeaderFails(bytesRead))
      modifies this
      ensures Valid() && Abs() == Step(Ops(), Key(), old(Abs()), HeaderFails(bytesRead))
    {
      StepKeepsSafe(Ops(), Key(), Abs(), HeaderFails(bytesRead));
      hide Safe, Selection.OnHeaderFails, Holds;
      HandleFailedHeader(bytesRead);
    }

    /** Lines 186 to 202. */
    method HandleFailedHeader(bytesRead: nat)
      requires Bounded(Abs()) && receiver.ReadingHeader? && bytesRead <= |sockets[receiver.sock].inbox|
      modifies this
      ensures Abs() == Selection.OnHeaderFails(old(Abs()), bytesRead) && !receiver.ReadingBody?
    {
      hide SetStatus, Consume, Later;
      if stopped {
        sockets := Consume(sockets, receiver.sock, bytesRead);
        receiver := Exited;
        return;
      }
      if connSocket.None? {
        fault := NullDeref(192);
        return;
      }
      sockets := SetStatus(Consume(sockets, receiver.sock, bytesRead), connSocket, Closed);
      connSocket := None;
      selected := false;
      PromoteReplacement();
      ReceiveLoop();
    }

    /** Lines 196 to 199. */
    method PromoteReplacement()
      requires Bounded(Abs()) && connSocket.None?
      modifies this
      ensures Bounded(Abs())
      ensures Abs() == match old(replaceSocket)
                       case None => old(Abs())
                       case Some(r) =>
                         old(Abs()).(sockets := SetStatus(old(sockets), Some(r), Current),
                                     conn := Some(r), replace := None, selected := true, chosen := old(chosen) + [r])
    {
      hide SetStatus;
      if replaceSocket.Some? {
        connSocket, replaceSocket := replaceSocket, connSocket;
        sockets := SetStatus(sockets, connSocket, Current);
        chosen := chosen + [connSocket.value];
        selected := true;
      }
    }

    /** The body bytes land in the buffer, and unless there are none, DecryptPayload acts on it. */
    method DecryptBody(bytesRead: nat) returns (packet: Option<Bytes>, ghost stale: Bytes)
      requires Valid() && receiver.ReadingBody?
      requires bytesRead <= receiver.total && bytesRead <= |sockets[receiver.sock].inbox|
      modifies connBuffer, protocol.decryptedData
      ensures |stale| == MAX_BUFFSIZE && stale == Behind(old(connBuffer[..]), bytesRead)
      ensures bytesRead > 0 ==> packet == Decrypted(Ops(), Key(), receiver.header, receiver.len,
                                                     sockets[receiver.sock].inbox, bytesRead, stale)
    {
      hide Ledger, Holds, Decrypted, PayloadDecrypted, PayloadIn;
      var inbox := sockets[receiver.sock].inbox;
      stale := Behind(connBuffer[..], bytesRead);
      DecryptsInPlace(Ops(), Key(), connBuffer[..], receiver.header, receiver.len, inbox, bytesRead);
      Write(connBuffer, SIZE, inbox[..bytesRead]);
      packet := None;
      if bytesRead > 0 {
        ghost var body: Buffer := connBuffer[..];
        var ok := protocol.DecryptPayload(connBuffer);
        if ok {
          DecryptedPacket(Ops(), Key(), body);
          var len := FromLe32(connBuffer[44..48]);
          PayloadLengthField(connBuffer[..]);
          assert connBuffer[44..48] == connBuffer[..][44..48];
          packet := Some(connBuffer[SIZE..SIZE + len]);
          assert packet.value == connBuffer[..][SIZE..SIZE + len];
        }
      }
    }

    /** ReceiveFrom's body read brings `bytesRead` bytes: all, or fewer when it was cancelled. `got` is the
        packet that the server's loop goes on with, if there is one. */
    method OnBodyRead(bytesRead: nat) returns (got: Option<Bytes>, ghost stale: Bytes)
      requires Can(BodyRead(bytesRead, Zeros(MAX_BUFFSIZE)))
      modifies this, connBuffer, protocol.decryptedData
      ensures Valid() && |stale| == MAX_BUFFSIZE
      ensures Abs() == Step(Ops(), Key(), old(Abs()), BodyRead(bytesRead, stale))
      ensures delivered == old(delivered) + if got.Some? then [got.value] else []
    {
      hide Safe, Decrypted, Selection.OnBodyRead, Holds, Behind, Abs, Later;
      ghost var f, k, st := Ops(), Key(), Abs();
      Fields();
      EnabledIsBounded(st);
      var packet;
      packet, stale := DecryptBody(bytesRead);
      StepKeepsSafe(f, k, st, BodyRead(bytesRead, stale));
      NoBytesNoPacket(st, bytesRead, packet, Decrypted(f, k, st.rx.header, st.rx.len, st.sockets[st.rx.sock].inbox,
                                                       bytesRead, stale));
      got := HandleBody(bytesRead, packet);
    }

    /** Lines 211 to 213, and the error check of the server's loop. */
    method HandleBody(bytesRead: nat, packet: Option<Bytes>) returns (got: Option<Bytes>)
      requires Bounded(Abs()) && receiver.ReadingBody? && bytesRead <= |sockets[receiver.sock].inbox|
      modifies this
      ensures Abs() == Selection.OnBodyRead(old(Abs()), bytesRead, packet)
      ensures delivered == old(delivered) + if got.Some? then [got.value] else []
      ensures (old(selected) ==> old(connSocket).Some?) ==> !receiver.ReadingBody?
    {
      hide Consume;
      var whole := bytesRead == receiver.total;
      sockets := Consume(sockets, receiver.sock, bytesRead);
      bodyCut := bodyCut || !whole;
      got := None;
      if bytesRead == 0 || packet.None? {
        ReceiveLoop();
        return;
      }
      if whole {
        got := packet;
        delivered := delivered + [packet.value];
        receiver := Calling;
      } else {
        receiver := Exited;
      }
    }

    /** ReceiveFrom's body read ends early because the peer is gone. */
    method OnBodyEnds(bytesRead: nat) returns (ghost stale: Bytes)
      requires Can(BodyEnds(bytesRead, Zeros(MAX_BUFFSIZE)))
      modifies this, connBuffer, protocol.decryptedData
      ensures Valid() && |stale| == MAX_BUFFSIZE
      ensures Abs() == Step(Ops(), Key(), old(Abs()), BodyEnds(bytesRead, stale))
    {
      hide Safe, Decrypted, Selection.OnBodyEnds, Holds, Behind, Abs, Later;
      ghost var f, k, st := Ops(), Key(), Abs();
      Fields();
      EnabledIsBounded(st);
      var packet;
      packet, stale := DecryptBody(bytesRead);
      StepKeepsSafe(f, k, st, BodyEnds(bytesRead, stale));
      NoBytesNoPacket(st, bytesRead, packet, Decrypted(f, k, st.rx.header, st.rx.len, st.sockets[st.rx.sock].inbox,
                                                       bytesRead, stale));
      HandleBodyEnds(bytesRead, packet);
    }

    method HandleBodyEnds(bytesRead: nat, packet: Option<Bytes>)
      requires Bounded(Abs()) && receiver.ReadingBody?
      modifies this
      ensures Abs() == Selection.OnBodyEnds(old(Abs()), bytesRead, packet)
      ensures (old(selected) ==> old(connSocket).Some?) ==> !receiver.ReadingBody?
    {
      hide Consume;
      sockets := Consume(sockets, receiver.sock, |sockets[receiver.sock].inbox|);
      ended := ended + {receiver.sock};
      if bytesRead == 0 || packet.None? {
        ReceiveLoop();
      } else {
        receiver := Exited;
      }
    }

    /** SendTo up to its write: dropped without an error while nothing is selected, else the frame of the
        `len` bytes at offset 52 of the tun buffer. */
    method SendTo(len: nat, draw: Draw) returns (frame: Option<Bytes>)
      requires len <= MAX_BUFFSIZE && InRange(draw) && Buffers() && Can(Send(Outgoing(tunBuffer[..], len, draw)))
      modifies this, tunBuffer, protocol.encryptedData
      ensures Valid() && Abs() == Step(Ops(), Key(), old(Abs()), Send(Outgoing(old(tunBuffer[..]), len, draw)))
      ensures var x := Outgoing(old(tunBuffer[..]), len, draw);
              frame == if old(selected) then Some(FrameOf(Ops(), Key(), x)) else None
    {
      hide FrameOf, Ledger, Holds;
      if !selected {
        return None;
      }
      var x := Outgoing(tunBuffer[..], len, draw);
      var payloadLen := protocol.SealFrame(tunBuffer, len, draw);
      frame := Some(tunBuffer[..SIZE + payloadLen]);
      sender := Writing(connSocket.value, x);
    }

    /** SendTo after its write: -1 when stopped, 0 after a failed write. */
    method OnWritten(ok: bool, bytesSent: nat) returns (r: int)
      requires Can(Written(ok))
      modifies this
      ensures Valid() && Abs() == Step(Ops(), Key(), old(Abs()), Written(ok))
      ensures r == if old(stopped) then -1 else if ok then bytesSent else 0
    {
      StepKeepsSafe(Ops(), Key(), Abs(), Written(ok));
      hide Safe, Selection.OnWritten, Holds;
      r := HandleWritten(ok, bytesSent);
    }

    /** Lines 148 to 161. */
    method HandleWritten(ok: bool, bytesSent: nat) returns (r: int)
      requires Bounded(Abs())
      modifies this
      ensures Abs() == Selection.OnWritten(old(Abs()), ok)
      ensures r == if old(stopped) then -1 else if ok then bytesSent else 0
    {
      hide Later;
      wire := wire + if ok && sender.Writing? then [Put(sender.sock, sender.x)] else [];
      if stopped {
        sender := Idle;
        return -1;
      }
      if !ok {
        if connSocket.None? {
          fault := NullDeref(156);
          return 0;
        }
        sender := Idle;
        selected := false;
        writeFailed := true;
        return 0;
      }
      sender := Idle;
      return bytesSent;
    }

    method Close()
      requires Can(Event.Close)
      modifies this
      ensures Valid() && Abs() == Step(Ops(), Key(), old(Abs()), Event.Close)
    {
      StepKeepsSafe(Ops(), Key(), Abs(), Event.Close);
      hide Safe, OnClose, Holds, Abs;
      EnabledIsBounded(Abs());
      HandleClose();
    }

    /** Lines 219 to 228: `async_tasks_running` counts the server's receive loop alone. */
    method HandleClose()
      requires Bounded(Abs())
      modifies this
      ensures Abs() == OnClose(old(Abs())) && receiver == old(receiver)
    {
      hide SetStatus, Later, Apart;
      if receiver == Exited || !selected {
        accepting := false;
      } else if connSocket.None? {
        fault := NullDeref(223);
      } else {
        sockets, connSocket := SetStatus(sockets, connSocket, Closed), None;
        accepting, selected, stopped := false, false, true;
      }
    }

    /** The state without its history. */
    function Now(): State
      reads this
    {
      State(sockets, selected, stopped, connSocket, replaceSocket, receiver, sender, accepting, fault,
            [], [], [], false, false, {}, [])
    }

    /** What can happen in the state at hand. */
    predicate Possible(input: Input)
      requires Bounded(Now()) && tunBuffer.Length == BUFFER_SIZE
      reads this, tunBuffer
    {
      && (input.Packet? ==> input.len <= MAX_BUFFSIZE && InRange(input.draw))
      && (input.FirstHeader? ==> input.n <= SIZE)
      && Enabled(Now(), EventOf(input, Blank(input), tunBuffer[..]))
    }

    /** One stretch of one coroutine. */
    method Turn(input: Input) returns (got: Option<Bytes>, ghost ev: Event)
      requires Valid() && Bounded(Now()) && Buffers() && Possible(input)
      modifies this, tunBuffer, connBuffer, candidateBuffer, protocol.encryptedData, protocol.decryptedData
      ensures Valid() && Bounded(old(Abs())) && Enabled(old(Abs()), ev)
      ensures ev == EventOf(input, StaleOf(ev), old(tunBuffer[..])) && Abs() == Step(Ops(), Key(), old(Abs()), ev)
      ensures delivered == old(delivered) + if got.Some? then [got.value] else []
    {
      hide Safe, Enabled, Step, Abs, Now, Bounded, Valid, MidRound, Buffers;
      ValidIsBounded();
      Fields();
      assert tunBuffer.Length == BUFFER_SIZE by { TunLength(); }
      ghost var st, tun := Abs(), tunBuffer[..];
      StaleDoesNotMatter(st, Now(), input, Blank(input), tun);
      got := None;
      ghost var stale := [];
      match input {
        case Accepts(peer) => OnAccepted(peer);
        case FirstHeader(s, n) => stale := OnCandidateHeader(s, n);
        case FirstBody(s, ok) => OnCandidateBody(s, ok);
        case Receives => ReceiveFrom();
        case LoopReturns => OnLoopEnds();
        case Wakes => OnWake();
        case HeaderIn => OnHeaderRead();
        case HeaderStops(n) => OnHeaderFails(n);
        case BodyIn(n) => got, stale := OnBodyRead(n);
        case BodyStops(n) => stale := OnBodyEnds(n);
        case Packet(len, draw) => var frame := SendTo(len, draw);
        case WriteDone(ok) => var r := OnWritten(ok, 0);
        case Closes => Close();
      }
      ev := EventOf(input, stale, tun);
      Fields();
      StaleDoesNotMatter(st, Forgetting(st), input, stale, tun);
      if !input.BodyIn? {
        StepIsQuiet(Ops(), Key(), st, ev);
      }
    }

    /**
     The server over a whole run, its coroutines and its clients interleaved in any order; what cannot happen
     in the state at hand does not. The run is one of the machine's. What the receive loop hands on comes from
     sealed frames only. And without a failed write or a body read cancelled on a living socket, it is one
     segment per socket chosen, in order, each read from that socket's peer.
    */
    method Run(inputs: seq<Input>, ghost all: seq<Sent>)
        returns (packets: seq<Bytes>, ghost evs: seq<Event>, ghost segments: seq<seq<Bytes>>)
      requires Valid() && Abs() == INIT
      modifies this, tunBuffer, connBuffer, candidateBuffer, protocol.encryptedData, protocol.decryptedData
      ensures Valid() && Selection.Run(Ops(), Key(), evs) == Some(Abs())
      ensures packets == delivered
      ensures Separable(all) && OnlySealed(Ops(), Key(), all) ==> forall p | p in packets :: WasSealed(all, p)
      ensures Clean(Abs()) && (AllSane(Ops(), Key(), Abs()) || (Separable(all) && OnlySealed(Ops(), Key(), all))) ==>
                InSegments(Ops(), Key(), Abs(), segments)
    {
      ghost var f, k := Ops(), Key();
      hide Safe, Enabled, Step, Holds, OnlySealed, AllSane, Clean, InSegments, Abs, Now;
      packets, evs := [], [];
      for i := 0 to |inputs|
        invariant Valid() && Ops() == f && Key() == k
        invariant Selection.Run(f, k, evs) == Some(Abs()) && packets == delivered
      {
        Fields();
        ValidIsBounded();
        if Possible(inputs[i]) {
          ghost var st := Abs();
          var got;
          ghost var ev;
          got, ev := Turn(inputs[i]);
          RunOn(f, k, evs, ev, st);
          evs := evs + [ev];
          if got.Some? {
            packets := packets + [got.value];
          }
        }
      }
      Fields();
      segments := RunDelivers(f, k, evs, Abs(), all);
    }
  }
}
