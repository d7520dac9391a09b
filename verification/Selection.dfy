/**
 The server side of connection/TCPConnection.h as a state machine. `tryReceive` (one coroutine per
 accepted socket), `ReceiveFrom`, `SendTo` and `Close` share `selected`, `stopped`, `conn_socket` and
 `replace_socket`; all run on one thread and interleave only where they yield. Every stretch from one
 yield to the next is one atomic step here.

 Two things are left to the environment and may happen at any time: a pending read or write may fail
 (the peer is gone, or somebody called cancel on the socket), and the bytes of the shared connection
 buffer that a read has not filled are arbitrary. What a read has delivered is used before it is
 overwritten: that is the one assumption about the shared buffer.
 */
module Selection {
  import opened ByteStrings
  import opened Aead
  import opened ProtocolHeader
  import opened Frames
  import opened Streams

  /** Who is at the other end: a dsvpn client writing frames, or anybody else. */
  datatype Peer = Client(xs: seq<Sent>) | Stranger(bytes: Bytes)

  /** Where an accepted socket is. */
  datatype Status =
    | AwaitingHeader                // tryReceive, first read
    | AwaitingBody(total: nat)      // tryReceive, second read
    | Rejected
    | Current
    | Replacement
    | Closed
    | Superseded

  /** An accepted socket, with its bytes still to be read. */
  datatype Socket = Socket(peer: Peer, status: Status, inbox: Bytes)

  /** Where the server's receive loop is. */
  datatype Receiver =
    | Calling                                                  // between two ReceiveFrom calls
    | Parked(woken: bool)                                      // on the timer; `woken` once cancelled
    | ReadingHeader(sock: nat)
    | ReadingBody(sock: nat, header: Header, len: nat, total: nat)   // the decrypted lengths
    | Exited

  /** SendTo's pending write: on which socket, and of what. */
  datatype Sender = Idle | Writing(sock: nat, x: Sent)

  /** A write that went through. */
  datatype Put = Put(sock: nat, x: Sent)

  /** `NullDeref` names the source line; `Uncaught` is an exception that leaves tryReceive: its second read
      has no error code, and line 80 asks for endpoints that may be gone; `TooLong` is a read issued for more
      bytes than the connection buffer has room for. */
  datatype Fault = NoFault | NullDeref(line: nat) | Uncaught | TooLong

  datatype State = State(
    sockets: seq<Socket>,
    selected: bool,
    stopped: bool,
    conn: Option<nat>,
    replace: Option<nat>,
    rx: Receiver,
    tx: Sender,
    accepting: bool,
    fault: Fault,
    // history
    delivered: seq<Bytes>,    // packets ReceiveFrom returned without an error code
    chosen: seq<nat>,         // sockets in the order conn_socket was set to them
    verifiedLog: seq<nat>,    // sockets in the order tryReceive finished with them
    writeFailed: bool,        // a SendTo write failed
    bodyCut: bool,            // a body read of ReceiveFrom was cancelled on a socket that lives on
    ended: set<nat>,          // sockets on which a body read ended because the peer was gone
    wire: seq<Put>)           // the writes of SendTo that went through

  datatype Event =
    | Accept(peer: Peer)
    | CandidateHeader(s: nat, n: nat, stale: Bytes)
    | CandidateBody(s: nat, ok: bool)   // not `ok`: the read fails, or the peer is gone by line 80
    | Call
    | LoopEnds
    | Wake
    | HeaderRead
    | HeaderFails(n: nat)
    | BodyRead(n: nat, stale: Bytes)    // `n` bytes came in; short, it was cancelled on a socket that lives on
    | BodyEnds(n: nat, stale: Bytes)    // `n` bytes came in, and the peer is gone
    | Send(x: Sent)
    | Written(ok: bool)
    | Close

  function BytesOf(f: Cipher, k: Key, p: Peer): Bytes
    requires p.Client? ==> AllSendable(p.xs)
  {
    match p
    case Client(xs) => StreamOf(f, k, xs)
    case Stranger(bytes) => bytes
  }

  const INIT: State :=
    State([], false, false, None, None, Calling, Idle, true, NoFault, [], [], [], false, false, {}, [])

  /** Pending reads and writes are on sockets that exist. */
  predicate Bounded(st: State) {
    && (st.conn.Some? ==> st.conn.value < |st.sockets|)
    && (st.replace.Some? ==> st.replace.value < |st.sockets|)
    && (st.rx.ReadingHeader? || st.rx.ReadingBody? ==> st.rx.sock < |st.sockets|)
    && (st.rx.ReadingBody? ==> |st.rx.header.lengths| == LENGTHS_BYTES)
  }

  /** `stopped` and the history flags are never cleared, and a closed acceptor is never opened again. */
  predicate Later(st: State, r: State) {
    && (st.stopped ==> r.stopped) && (r.accepting ==> st.accepting)
    && (st.writeFailed ==> r.writeFailed) && (st.bodyCut ==> r.bodyCut)
  }

  /** The step is no business of SendTo's, and ends no body read. */
  predicate Apart(st: State, r: State) {
    r.tx == st.tx && r.wire == st.wire && r.ended == st.ended
  }

  predicate Enabled(st: State, ev: Event)
    requires Bounded(st)
  {
    && st.fault == NoFault
    && match ev
       case Accept(peer) => st.accepting && (peer.Client? ==> forall i | 0 <= i < |peer.xs| :: Sendable(peer.xs[i]))
       case CandidateHeader(s, n, stale) =>
         && s < |st.sockets| && st.sockets[s].status == AwaitingHeader
         && n <= |st.sockets[s].inbox| && n + |stale| == SIZE
       case CandidateBody(s, ok) =>
         && s < |st.sockets| && st.sockets[s].status.AwaitingBody?
         && (ok ==> st.sockets[s].status.total <= |st.sockets[s].inbox|)
       case Call => st.rx == Calling
       case LoopEnds => st.rx == Calling
       case Wake => st.rx == Parked(true)
       case HeaderRead => st.rx.ReadingHeader? && SIZE <= |st.sockets[st.rx.sock].inbox|
       case HeaderFails(n) => st.rx.ReadingHeader? && n < SIZE && n <= |st.sockets[st.rx.sock].inbox|
       case BodyRead(n, stale) =>
         && st.rx.ReadingBody?
         && n <= st.rx.total && n <= |st.sockets[st.rx.sock].inbox| && |stale| == MAX_BUFFSIZE
       case BodyEnds(n, stale) =>
         && st.rx.ReadingBody?
         && n < st.rx.total && n <= |st.sockets[st.rx.sock].inbox| && |stale| == MAX_BUFFSIZE
       case Send(x) => st.tx == Idle && Sendable(x)
       case Written(_) => st.tx.Writing?
       case Close => true
  }

  function SetStatus(sockets: seq<Socket>, o: Option<nat>, status: Status): (r: seq<Socket>)
    requires o.Some? ==> o.value < |sockets|
    ensures |r| == |sockets|
  {
    match o
    case None => sockets
    case Some(s) => sockets[s := sockets[s].(status := status)]
  }

  function Consume(sockets: seq<Socket>, s: nat, n: nat): (r: seq<Socket>)
    requires s < |sockets| && n <= |sockets[s].inbox|
    ensures |r| == |sockets|
  {
    sockets[s := sockets[s].(inbox := sockets[s].inbox[n..])]
  }

  /** The top of ReceiveFrom's loop: park while nothing is selected, else start a header read. */
  function LoopTop(st: State): (r: State)
    requires Bounded(st)
    ensures Bounded(r) && r == st.(rx := r.rx, fault := r.fault)
  {
    if !st.selected then st.(rx := Parked(false))
    else match st.conn
         case None => st.(fault := NullDeref(182))
         case Some(c) => st.(rx := ReadingHeader(c))
  }

  /** What DecryptHeader returns at tryReceive's first read, of which `n` bytes came in; 0 if none did. */
  function CandidateTotal(f: Cipher, k: Key, inbox: Bytes, n: nat, stale: Bytes): nat
    requires n <= |inbox| && n + |stale| == SIZE
  {
    if n == 0 then 0 else HeaderTotal(f, k, Head(inbox[..n] + stale))
  }

  /** tryReceive after its first read: `n` bytes came in and DecryptHeader returned `total`. */
  function OnCandidateHeader(st: State, s: nat, n: nat, total: nat): (r: State)
    requires Bounded(st) && s < |st.sockets| && n <= |st.sockets[s].inbox|
    ensures Bounded(r) && Later(st, r) && Apart(st, r)
  {
    var socket := st.sockets[s];
    // a first read that fails means the peer is gone: nothing more will come
    var left := if n < SIZE then [] else socket.inbox[n..];
    if total == 0 then
      st.(sockets := st.sockets[s := socket.(inbox := left, status := Rejected)])
    else if total > BODY_ROOM then
      st.(fault := TooLong)
    else
      st.(sockets := st.sockets[s := socket.(inbox := left, status := AwaitingBody(total))])
  }

  /** A verified candidate when nothing is selected: it becomes conn_socket, and ReceiveFrom is woken. */
  function Choose(st: State, s: nat, read: Socket): (r: State)
    requires Bounded(st) && s < |st.sockets|
    ensures Bounded(r) && Later(st, r) && Apart(st, r)
  {
    var sockets := SetStatus(st.sockets, st.conn, Superseded);
    st.(sockets := sockets[s := read.(status := Current)], selected := true, conn := Some(s),
        rx := if st.rx.Parked? then Parked(true) else st.rx,
        chosen := st.chosen + [s], verifiedLog := st.verifiedLog + [s])
  }

  /** A verified candidate when there is one selected: it becomes replace_socket, whatever was held there. */
  function Reserve(st: State, s: nat, read: Socket): (r: State)
    requires Bounded(st) && s < |st.sockets|
    ensures Bounded(r) && Later(st, r) && Apart(st, r)
  {
    if st.conn.None? then st.(fault := NullDeref(96))
    else
      var sockets := SetStatus(st.sockets, st.replace, Superseded);
      st.(sockets := sockets[s := read.(status := Replacement)], replace := Some(s),
          verifiedLog := st.verifiedLog + [s])
  }

  function OnCandidateBody(st: State, s: nat, ok: bool): (r: State)
    requires Bounded(st) && s < |st.sockets| && st.sockets[s].status.AwaitingBody?
    requires ok ==> st.sockets[s].status.total <= |st.sockets[s].inbox|
    ensures Bounded(r) && Later(st, r) && Apart(st, r)
  {
    if !ok || !st.accepting then st.(fault := Uncaught)
    else
      var socket := st.sockets[s];
      var read := socket.(inbox := socket.inbox[socket.status.total..]);
      if !st.selected then Choose(st, s, read) else Reserve(st, s, read)
  }

  /** ReceiveFrom with header `h` in: DecryptHeader returned `total`, and PAYLOAD_LENGTH is now `len`. */
  function OnHeaderRead(st: State, h: Header, len: nat, total: nat): (r: State)
    requires Bounded(st) && st.rx.ReadingHeader? && SIZE <= |st.sockets[st.rx.sock].inbox|
    requires |h.lengths| == LENGTHS_BYTES
    ensures Bounded(r) && Later(st, r) && Apart(st, r)
  {
    var st' := st.(sockets := Consume(st.sockets, st.rx.sock, SIZE));
    if total == 0 then LoopTop(st')
    else if st.conn.None? then st.(fault := NullDeref(209))
    else if total > BODY_ROOM then st.(fault := TooLong)
    else st'.(rx := ReadingBody(st.conn.value, h, len, total))
  }

  function OnHeaderFails(st: State, n: nat): (r: State)
    requires Bounded(st) && st.rx.ReadingHeader? && n <= |st.sockets[st.rx.sock].inbox|
    ensures Bounded(r) && Later(st, r) && Apart(st, r)
  {
    var st' := st.(sockets := Consume(st.sockets, st.rx.sock, n));
    if st.stopped then st'.(rx := Exited)
    else if st.conn.None? then st.(fault := NullDeref(192))
    else
      var closed := SetStatus(st'.sockets, st.conn, Closed);
      match st.replace
      case None => LoopTop(st'.(sockets := closed, conn := None, selected := false))
      case Some(r) =>
        LoopTop(st'.(sockets := SetStatus(closed, st.replace, Current), conn := st.replace, replace := None,
                     selected := true, chosen := st.chosen + [r]))
  }

  /** ReceiveFrom with `n` body bytes in: DecryptPayload gives `got`. */
  function OnBodyRead(st: State, n: nat, got: Option<Bytes>): (r: State)
    requires Bounded(st) && st.rx.ReadingBody? && n <= |st.sockets[st.rx.sock].inbox|
    ensures Bounded(r) && Later(st, r) && Apart(st, r)
  {
    var whole := n == st.rx.total;
    var st' := st.(sockets := Consume(st.sockets, st.rx.sock, n), bodyCut := st.bodyCut || !whole);
    if n == 0 || got.None? then LoopTop(st')
    // cut short, the packet comes back with the error code set, and the server's loop returns on that
    else if whole then st'.(rx := Calling, delivered := st.delivered + [got.value])
    else st'.(rx := Exited)
  }

  /** ReceiveFrom with `n` body bytes in when the peer is gone: what is left unread is lost. */
  function OnBodyEnds(st: State, n: nat, got: Option<Bytes>): (r: State)
    requires Bounded(st) && st.rx.ReadingBody?
    ensures Bounded(r) && Later(st, r) && Apart(st, r.(ended := st.ended)) && r.ended == st.ended + {st.rx.sock}
  {
    var st' := st.(sockets := Consume(st.sockets, st.rx.sock, |st.sockets[st.rx.sock].inbox|),
                   ended := st.ended + {st.rx.sock});
    if n == 0 || got.None? then LoopTop(st') else st'.(rx := Exited)
  }

  function OnSend(st: State, x: Sent): (r: State)
    requires Bounded(st)
    ensures Bounded(r) && Later(st, r) && r.ended == st.ended
  {
    if !st.selected then st
    else match st.conn
         case None => st.(fault := NullDeref(147))
         case Some(c) => st.(tx := Writing(c, x))
  }

  function OnWritten(st: State, ok: bool): (r: State)
    requires Bounded(st)
    ensures Bounded(r) && Later(st, r) && r.ended == st.ended
  {
    var put := if ok && st.tx.Writing? then [Put(st.tx.sock, st.tx.x)] else [];
    var st' := st.(tx := Idle, wire := st.wire + put);
    if st.stopped || ok then st'
    else if st.conn.None? then st.(fault := NullDeref(156))
    else st'.(selected := false, writeFailed := true)
  }

  function OnClose(st: State): (r: State)
    requires Bounded(st)
    ensures Bounded(r) && Later(st, r) && Apart(st, r)
  {
    var st' := st.(accepting := false);
    if st.rx == Exited || !st.selected then st'
    else if st.conn.None? then st.(fault := NullDeref(223))
    else st'.(sockets := SetStatus(st.sockets, st.conn, Closed), conn := None, selected := false, stopped := true)
  }

  /** PAYLOAD_LENGTH once DecryptHeader has opened the lengths. */
  function PlainLength(f: Cipher, k: Key, h: Header): nat
    requires |h.lengths| == LENGTHS_BYTES
  {
    match OpenHeader(f, k, h)
    case None => 0
    case Some(l) => l.payload
  }

  /** DecryptPayload on the `n` body bytes that came in and the stale bytes behind them. */
  function Decrypted(f: Cipher, k: Key, h: Header, len: nat, inbox: Bytes, n: nat, stale: Bytes): Option<Bytes>
    requires n <= |inbox| && |stale| == MAX_BUFFSIZE
  {
    OpenPayload(f, k, h.nonce, h.payloadTag, len, inbox[..n] + stale)
  }

  function OnAccept(f: Cipher, k: Key, st: State, peer: Peer): (r: State)
    requires Bounded(st) && (peer.Client? ==> AllSendable(peer.xs))
    ensures Bounded(r) && Later(st, r) && Apart(st, r)
  {
    st.(sockets := st.sockets + [Socket(peer, AwaitingHeader, BytesOf(f, k, peer))])
  }

  function Step(f: Cipher, k: Key, st: State, ev: Event): (r: State)
    requires Bounded(st) && Enabled(st, ev)
    ensures Bounded(r) && Later(st, r)
  {
    match ev
    case Accept(peer) => OnAccept(f, k, st, peer)
    case CandidateHeader(s, n, stale) =>
      OnCandidateHeader(st, s, n, CandidateTotal(f, k, st.sockets[s].inbox, n, stale))
    case CandidateBody(s, ok) => OnCandidateBody(st, s, ok)
    case Call => LoopTop(st)
    case LoopEnds => st.(rx := Exited)
    case Wake => LoopTop(st)
    case HeaderRead =>
      var h := Head(st.sockets[st.rx.sock].inbox);
      OnHeaderRead(st, h, PlainLength(f, k, h), HeaderTotal(f, k, h))
    case HeaderFails(n) => OnHeaderFails(st, n)
    case BodyRead(n, stale) =>
      OnBodyRead(st, n, Decrypted(f, k, st.rx.header, st.rx.len, st.sockets[st.rx.sock].inbox, n, stale))
    case BodyEnds(n, stale) =>
      OnBodyEnds(st, n, Decrypted(f, k, st.rx.header, st.rx.len, st.sockets[st.rx.sock].inbox, n, stale))
    case Send(x) => OnSend(st, x)
    case Written(ok) => OnWritten(st, ok)
    case Close => OnClose(st)
  }

  /** The state after a sequence of events, or nothing if one of them cannot happen. */
  function Run(f: Cipher, k: Key, evs: seq<Event>): (r: Option<State>)
    ensures r.Some? ==> Bounded(r.value)
  {
    if evs == [] then Some(INIT)
    else
      var before := Run(f, k, evs[..|evs| - 1]);
      if before.Some? && Enabled(before.value, evs[|evs| - 1])
      then Some(Step(f, k, before.value, evs[|evs| - 1]))
      else None
  }

  /** One event more. */
  lemma RunOn(f: Cipher, k: Key, evs: seq<Event>, ev: Event, st: State)
    requires Run(f, k, evs) == Some(st) && Bounded(st) && Enabled(st, ev)
    ensures Run(f, k, evs + [ev]) == Some(Step(f, k, st, ev))
  {
    assert (evs + [ev])[..|evs|] == evs;
  }

  // ----- every run, failed writes and Close included -----

  predicate Held(status: Status) {
    status == Current || status == Replacement
  }

  /** What the ledger says of one socket. */
  predicate Entered(socket: Socket, s: nat, conn: Option<nat>, replace: Option<nat>) {
    && (socket.status == Current <==> conn == Some(s))
    && (socket.status == Replacement <==> replace == Some(s))
    && (socket.status.AwaitingBody? ==> 0 < socket.status.total <= BODY_ROOM)
  }

  /** The fields agree with the ledger: the current socket is what conn_socket holds, the replacement is
      what replace_socket holds, and a body read of tryReceive fits the connection buffer. */
  ghost predicate Ledger(sockets: seq<Socket>, conn: Option<nat>, replace: Option<nat>) {
    forall s | 0 <= s < |sockets| :: Entered(sockets[s], s, conn, replace)
  }

  ghost predicate Safe(st: State) {
    && Bounded(st)
    && Ledger(st.sockets, st.conn, st.replace)
    && (st.selected ==> st.conn.Some?)
    // stopped for good
    && (st.stopped ==> !st.selected && !st.accepting && st.conn.None?)
    // no lost wake-up
    && (st.rx.Parked? && st.selected ==> st.rx.woken)
    // a pending read outlives its socket only through Close
    && ((st.rx.ReadingHeader? || st.rx.ReadingBody?) && st.conn.None? ==> st.stopped)
    // the only null dereferences there are
    && (st.fault.NullDeref? ==> st.fault.line == 156 || (st.fault.line == 209 && st.stopped))
  }

  /** A change to one socket that keeps it out of, or where it is in, the held ones. */
  lemma LedgerKept(sockets: seq<Socket>, conn: Option<nat>, replace: Option<nat>, s: nat, socket: Socket)
    requires Ledger(sockets, conn, replace) && s < |sockets|
    requires socket.status == sockets[s].status || (!Held(socket.status) && !Held(sockets[s].status))
    requires socket.status.AwaitingBody? ==> 0 < socket.status.total <= BODY_ROOM
    ensures Ledger(sockets[s := socket], conn, replace)
  {
    assert Entered(sockets[s], s, conn, replace);
  }

  lemma LedgerRead(sockets: seq<Socket>, conn: Option<nat>, replace: Option<nat>, s: nat, n: nat)
    requires Ledger(sockets, conn, replace) && s < |sockets| && n <= |sockets[s].inbox|
    ensures Ledger(Consume(sockets, s, n), conn, replace)
  {
    assert Entered(sockets[s], s, conn, replace);
    LedgerKept(sockets, conn, replace, s, sockets[s].(inbox := sockets[s].inbox[n..]));
  }

  /** The current socket gives up its place: closed by the program, or dropped for another. */
  lemma LedgerReleased(sockets: seq<Socket>, conn: Option<nat>, replace: Option<nat>, status: Status)
    requires Ledger(sockets, conn, replace) && (conn.Some? ==> conn.value < |sockets|)
    requires status == Closed || status == Superseded
    ensures Ledger(SetStatus(sockets, conn, status), None, replace)
  {
  }

  lemma LedgerReplacementReleased(sockets: seq<Socket>, conn: Option<nat>, replace: Option<nat>)
    requires Ledger(sockets, conn, replace) && (replace.Some? ==> replace.value < |sockets|)
    ensures Ledger(SetStatus(sockets, replace, Superseded), conn, None)
  {
  }

  /** The replacement moves up. */
  lemma LedgerPromoted(sockets: seq<Socket>, replace: Option<nat>)
    requires Ledger(sockets, None, replace) && replace.Some? && replace.value < |sockets|
    ensures Ledger(SetStatus(sockets, replace, Current), replace, None)
  {
    assert Entered(sockets[replace.value], replace.value, None, replace);
  }

  /** A verified candidate takes an empty place. */
  lemma LedgerTaken(sockets: seq<Socket>, conn: Option<nat>, replace: Option<nat>, s: nat, socket: Socket)
    requires Ledger(sockets, conn, replace) && s < |sockets| && !Held(sockets[s].status)
    ensures conn.None? && socket.status == Current ==> Ledger(sockets[s := socket], Some(s), replace)
    ensures replace.None? && socket.status == Replacement ==> Ledger(sockets[s := socket], conn, Some(s))
  {
    assert Entered(sockets[s], s, conn, replace);
  }

  lemma LoopTopKeepsSafe(st: State)
    requires Bounded(st) && Ledger(st.sockets, st.conn, st.replace)
    requires (st.selected ==> st.conn.Some?) && st.fault == NoFault
    requires st.stopped ==> !st.selected && !st.accepting && st.conn.None?
    ensures Safe(LoopTop(st))
  {
    hide Ledger;
  }

  lemma AcceptKeepsSafe(f: Cipher, k: Key, st: State, peer: Peer)
    requires Safe(st) && (peer.Client? ==> AllSendable(peer.xs))
    ensures Safe(OnAccept(f, k, st, peer))
  {
    hide BytesOf;
  }

  lemma CandidateHeaderKeepsSafe(st: State, s: nat, n: nat, total: nat)
    requires Safe(st) && s < |st.sockets| && st.sockets[s].status == AwaitingHeader && n <= |st.sockets[s].inbox|
    ensures Safe(OnCandidateHeader(st, s, n, total))
  {
    hide Ledger, Later, Entered;
    var socket := st.sockets[s];
    var left := if n < SIZE then [] else socket.inbox[n..];
    if total == 0 {
      LedgerKept(st.sockets, st.conn, st.replace, s, socket.(inbox := left, status := Rejected));
    } else if total <= BODY_ROOM {
      LedgerKept(st.sockets, st.conn, st.replace, s,
                 socket.(inbox := left, status := AwaitingBody(total)));
    }
  }

  lemma ChooseKeepsSafe(st: State, s: nat, read: Socket)
    requires Safe(st) && s < |st.sockets| && !Held(st.sockets[s].status) && !st.selected && st.accepting
    ensures Safe(Choose(st, s, read))
  {
    assert Entered(st.sockets[s], s, st.conn, st.replace);
    LedgerReleased(st.sockets, st.conn, st.replace, Superseded);
    var released := SetStatus(st.sockets, st.conn, Superseded);
    assert released[s] == st.sockets[s];
    LedgerTaken(released, None, st.replace, s, read.(status := Current));
    hide Ledger;
  }

  lemma ReserveKeepsSafe(st: State, s: nat, read: Socket)
    requires Safe(st) && s < |st.sockets| && !Held(st.sockets[s].status) && st.selected
    ensures Safe(Reserve(st, s, read))
  {
    assert Entered(st.sockets[s], s, st.conn, st.replace);
    LedgerReplacementReleased(st.sockets, st.conn, st.replace);
    var released := SetStatus(st.sockets, st.replace, Superseded);
    assert released[s] == st.sockets[s];
    LedgerTaken(released, st.conn, None, s, read.(status := Replacement));
    hide Ledger;
  }

  lemma CandidateBodyKeepsSafe(st: State, s: nat, ok: bool)
    requires Safe(st) && s < |st.sockets| && st.sockets[s].status.AwaitingBody?
    requires ok ==> st.sockets[s].status.total <= |st.sockets[s].inbox|
    ensures Safe(OnCandidateBody(st, s, ok))
  {
    if ok && st.accepting {
      assert Entered(st.sockets[s], s, st.conn, st.replace);
      hide Safe, Choose, Reserve, Ledger;
      var socket := st.sockets[s];
      var read := socket.(inbox := socket.inbox[socket.status.total..]);
      if st.selected { ReserveKeepsSafe(st, s, read); } else { ChooseKeepsSafe(st, s, read); }
    }
  }

  lemma HeaderReadKeepsSafe(st: State, h: Header, len: nat, total: nat)
    requires Safe(st) && st.fault == NoFault && st.rx.ReadingHeader? && SIZE <= |st.sockets[st.rx.sock].inbox|
    requires |h.lengths| == LENGTHS_BYTES
    ensures Safe(OnHeaderRead(st, h, len, total))
  {
    LedgerRead(st.sockets, st.conn, st.replace, st.rx.sock, SIZE);
    hide LoopTop, Ledger;
    LoopTopKeepsSafe(st.(sockets := Consume(st.sockets, st.rx.sock, SIZE)));
  }

  lemma HeaderFailsKeepsSafe(st: State, n: nat)
    requires Safe(st) && st.fault == NoFault && st.rx.ReadingHeader? && n <= |st.sockets[st.rx.sock].inbox|
    ensures Safe(OnHeaderFails(st, n))
  {
    var read := Consume(st.sockets, st.rx.sock, n);
    LedgerRead(st.sockets, st.conn, st.replace, st.rx.sock, n);
    if !st.stopped && st.conn.Some? {
      LedgerReleased(read, st.conn, st.replace, Closed);
      var closed := SetStatus(read, st.conn, Closed);
      if st.replace.Some? {
        LedgerPromoted(closed, st.replace);
        LoopTopKeepsSafe(st.(sockets := SetStatus(closed, st.replace, Current), conn := st.replace, replace := None,
                             selected := true, chosen := st.chosen + [st.replace.value]));
      } else {
        LoopTopKeepsSafe(st.(sockets := closed, conn := None, selected := false));
      }
    }
    hide Ledger, LoopTop, Consume, SetStatus;
  }

  lemma BodyReadKeepsSafe(st: State, n: nat, got: Option<Bytes>)
    requires Safe(st) && st.fault == NoFault && st.rx.ReadingBody? && n <= |st.sockets[st.rx.sock].inbox|
    ensures Safe(OnBodyRead(st, n, got))
  {
    hide Ledger, Consume, LoopTop;
    var whole := n == st.rx.total;
    LedgerRead(st.sockets, st.conn, st.replace, st.rx.sock, n);
    var counted := Consume(st.sockets, st.rx.sock, n);
    LoopTopKeepsSafe(st.(sockets := counted, bodyCut := st.bodyCut || !whole));
  }

  lemma BodyEndsKeepsSafe(st: State, n: nat, got: Option<Bytes>)
    requires Safe(st) && st.fault == NoFault && st.rx.ReadingBody?
    ensures Safe(OnBodyEnds(st, n, got))
  {
    hide Ledger, Consume, LoopTop;
    var all := |st.sockets[st.rx.sock].inbox|;
    LedgerRead(st.sockets, st.conn, st.replace, st.rx.sock, all);
    LoopTopKeepsSafe(st.(sockets := Consume(st.sockets, st.rx.sock, all), ended := st.ended + {st.rx.sock}));
  }

  lemma CloseKeepsSafe(st: State)
    requires Safe(st) && st.fault == NoFault
    ensures Safe(OnClose(st))
  {
    LedgerReleased(st.sockets, st.conn, st.replace, Closed);
    hide Ledger;
  }

  lemma StepKeepsSafe(f: Cipher, k: Key, st: State, ev: Event)
    requires Safe(st) && Enabled(st, ev)
    ensures Safe(Step(f, k, st, ev))
  {
    hide Ledger, CandidateTotal, Head, HeaderTotal, PlainLength, Decrypted, OnAccept, OnCandidateHeader,
         OnCandidateBody, OnHeaderRead, OnHeaderFails, OnBodyRead, OnBodyEnds, OnClose, LoopTop;
    match ev
    case Accept(peer) => AcceptKeepsSafe(f, k, st, peer);
    case CandidateHeader(s, n, stale) =>
      CandidateHeaderKeepsSafe(st, s, n, CandidateTotal(f, k, st.sockets[s].inbox, n, stale));
    case CandidateBody(s, ok) => CandidateBodyKeepsSafe(st, s, ok);
    case Call => LoopTopKeepsSafe(st);
    case LoopEnds =>
    case Wake => LoopTopKeepsSafe(st);
    case HeaderRead =>
      var h := Head(st.sockets[st.rx.sock].inbox);
      HeaderReadKeepsSafe(st, h, PlainLength(f, k, h), HeaderTotal(f, k, h));
    case HeaderFails(n) => HeaderFailsKeepsSafe(st, n);
    case BodyRead(n, stale) =>
      BodyReadKeepsSafe(st, n, Decrypted(f, k, st.rx.header, st.rx.len, st.sockets[st.rx.sock].inbox, n, stale));
    case BodyEnds(n, stale) =>
      BodyEndsKeepsSafe(st, n, Decrypted(f, k, st.rx.header, st.rx.len, st.sockets[st.rx.sock].inbox, n, stale));
    case Send(_) =>
    case Written(ok) =>
    case Close => CloseKeepsSafe(st);
  }

  lemma {:induction false} AlwaysSafe(f: Cipher, k: Key, evs: seq<Event>)
    requires Run(f, k, evs).Some?
    ensures Safe(Run(f, k, evs).value)
  {
    if evs != [] {
      AlwaysSafe(f, k, evs[..|evs| - 1]);
      StepKeepsSafe(f, k, Run(f, k, evs[..|evs| - 1]).value, evs[|evs| - 1]);
    }
  }
}
