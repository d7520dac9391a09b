/** Exactly when the server's code dereferences a null conn_socket, and that it can. */
module Faults {
  import opened ByteStrings
  import opened Aead
  import opened ProtocolHeader
  import opened Frames
  import opened Streams
  import opened Selection

  /** SendTo's error path, after ReceiveFrom has closed and reset the socket during the write. */
  predicate CancelsNothing(st: State, ev: Event) {
    ev == Written(false) && !st.stopped && st.conn.None?
  }

  /** ReceiveFrom with an authenticated header, after Close has reset the socket. */
  predicate ReadsNothing(f: Cipher, k: Key, st: State, ev: Event)
    requires Bounded(st)
  {
    && ev.HeaderRead? && st.rx.ReadingHeader? && SIZE <= |st.sockets[st.rx.sock].inbox|
    && HeaderTotal(f, k, Head(st.sockets[st.rx.sock].inbox)) != 0 && st.conn.None?
  }

  /** `r` comes without a null dereference. */
  predicate Sound(r: State) {
    !r.fault.NullDeref?
  }

  /** Lines 96, 182, 192, 147 and 223. */
  lemma OtherStepsAreSound(st: State, s: nat, ok: bool)
    requires Safe(st) && st.fault == NoFault
    ensures Sound(LoopTop(st)) && (forall x :: Sound(OnSend(st, x))) && Sound(OnClose(st))
    ensures (s < |st.sockets| && st.sockets[s].status.AwaitingBody?
             && (ok ==> st.sockets[s].status.total <= |st.sockets[s].inbox|)) ==> Sound(OnCandidateBody(st, s, ok))
  {
    hide Ledger, SetStatus;
  }

  lemma EarlyStepsAreSound(f: Cipher, k: Key, st: State, peer: Peer, s: nat, n: nat, total: nat)
    requires Bounded(st) && st.fault == NoFault
    ensures (peer.Client? ==> AllSendable(peer.xs)) ==> Sound(OnAccept(f, k, st, peer))
    ensures s < |st.sockets| && n <= |st.sockets[s].inbox| ==> Sound(OnCandidateHeader(st, s, n, total))
  {
    hide BytesOf;
  }

  lemma ReceiveStepsAreSound(st: State, n: nat, got: Option<Bytes>)
    requires Safe(st) && st.fault == NoFault
    ensures st.rx.ReadingHeader? && n <= |st.sockets[st.rx.sock].inbox| ==> Sound(OnHeaderFails(st, n))
    ensures st.rx.ReadingBody? && n <= |st.sockets[st.rx.sock].inbox| ==> Sound(OnBodyRead(st, n, got))
    ensures st.rx.ReadingBody? ==> Sound(OnBodyEnds(st, n, got))
  {
    hide Ledger, SetStatus, Consume, Later, Apart;
  }

  lemma HeaderReadSound(st: State, h: Header, len: nat, total: nat)
    requires Safe(st) && st.fault == NoFault && st.rx.ReadingHeader? && SIZE <= |st.sockets[st.rx.sock].inbox|
    requires |h.lengths| == LENGTHS_BYTES
    ensures Sound(OnHeaderRead(st, h, len, total)) <==> total == 0 || st.conn.Some?
    ensures total != 0 && st.conn.None? ==> OnHeaderRead(st, h, len, total).fault == NullDeref(209) && st.stopped
  {
    hide Ledger, Consume;
  }

  /** SendTo's error path. */
  lemma WrittenSound(st: State, ok: bool)
    requires Safe(st) && st.fault == NoFault && st.tx.Writing?
    ensures var r := OnWritten(st, ok);
            && (r.fault.NullDeref? <==> CancelsNothing(st, Written(ok)))
            && (CancelsNothing(st, Written(ok)) ==> r.fault == NullDeref(156))
  {
    hide Ledger, Later;
  }

  lemma StepFaultsExactly(f: Cipher, k: Key, st: State, ev: Event)
    requires Safe(st) && Enabled(st, ev)
    ensures var st' := Step(f, k, st, ev);
            && (st'.fault.NullDeref? <==> CancelsNothing(st, ev) || ReadsNothing(f, k, st, ev))
            && (CancelsNothing(st, ev) ==> st'.fault == NullDeref(156))
            && (ReadsNothing(f, k, st, ev) ==> st'.fault == NullDeref(209) && st.stopped)
  {
    assert Bounded(st);
    hide Safe, CandidateTotal, Head, HeaderTotal, PlainLength, Decrypted, LoopTop, Later, Apart, OnAccept,
         OnCandidateHeader, OnSend, OnWritten, OnClose, OnCandidateBody, OnHeaderRead, OnHeaderFails, OnBodyRead,
         OnBodyEnds;
    match ev
    case Accept(peer) => EarlyStepsAreSound(f, k, st, peer, 0, 0, 0);
    case CandidateHeader(s, n, stale) =>
      EarlyStepsAreSound(f, k, st, Stranger([]), s, n, CandidateTotal(f, k, st.sockets[s].inbox, n, stale));
    case CandidateBody(s, ok) => OtherStepsAreSound(st, s, ok);
    case Written(ok) => WrittenSound(st, ok);
    case HeaderRead =>
      var h := Head(st.sockets[st.rx.sock].inbox);
      HeaderReadSound(st, h, PlainLength(f, k, h), HeaderTotal(f, k, h));
    case HeaderFails(n) => ReceiveStepsAreSound(st, n, None);
    case BodyRead(n, stale) =>
      ReceiveStepsAreSound(st, n, Decrypted(f, k, st.rx.header, st.rx.len, st.sockets[st.rx.sock].inbox, n, stale));
    case BodyEnds(n, stale) =>
      ReceiveStepsAreSound(st, n, Decrypted(f, k, st.rx.header, st.rx.len, st.sockets[st.rx.sock].inbox, n, stale));
    case _ => OtherStepsAreSound(st, 0, false);
  }

  /** In every run, the seven dereferences of conn_socket are safe but for two, each under one condition. */
  lemma NullDereferencesExactly(f: Cipher, k: Key, evs: seq<Event>, st: State, ev: Event)
    requires Run(f, k, evs) == Some(st) && Bounded(st) && Enabled(st, ev)
    ensures var st' := Step(f, k, st, ev);
            && (st'.fault.NullDeref? <==> CancelsNothing(st, ev) || ReadsNothing(f, k, st, ev))
            && (CancelsNothing(st, ev) ==> st'.fault == NullDeref(156))
            && (ReadsNothing(f, k, st, ev) ==> st'.fault == NullDeref(209) && st.stopped)
  {
    AlwaysSafe(f, k, evs);
    hide *;
    StepFaultsExactly(f, k, st, ev);
  }

  /** Whatever header authenticates, it announces the size of a real frame's body. */
  lemma GenuineTotalsFit(f: Cipher, k: Key, all: seq<Sent>, h: Header)
    requires Separable(all) && OnlySealed(f, k, all) && |h.lengths| == LENGTHS_BYTES
    ensures HeaderTotal(f, k, h) == 0 || OBF_THRESHOLD <= HeaderTotal(f, k, h) <= MAX_BUFFSIZE
  {
    if OpenHeader(f, k, h).Some? {
      var i := HeaderIsGenuine(f, k, all, h);
      SizeWindow(f, k, all[i]);
    }
  }

  /** Nothing was thrown, and no read was issued beyond the buffer. */
  predicate Plain(r: State) {
    r.fault != TooLong && r.fault != Uncaught
  }

  lemma HeaderStepsFit(st: State, s: nat, n: nat, h: Header, len: nat, total: nat)
    requires Bounded(st) && st.fault == NoFault && |h.lengths| == LENGTHS_BYTES
    ensures s < |st.sockets| && n <= |st.sockets[s].inbox| ==>
              var r := OnCandidateHeader(st, s, n, total);
              r.fault != Uncaught && (total <= BODY_ROOM ==> Plain(r))
    ensures st.rx.ReadingHeader? && SIZE <= |st.sockets[st.rx.sock].inbox| ==>
              var r := OnHeaderRead(st, h, len, total);
              r.fault != Uncaught && (total <= BODY_ROOM ==> Plain(r))
  {
    hide Bounded, Later;
  }

  lemma LoopStepsFit(st: State, ok: bool)
    requires Bounded(st) && st.fault == NoFault
    ensures Plain(LoopTop(st)) && (forall x :: Plain(OnSend(st, x))) && Plain(OnWritten(st, ok))
  {
    hide Later, Bounded;
  }

  lemma CloseFits(st: State)
    requires Bounded(st) && st.fault == NoFault
    ensures Plain(OnClose(st))
  {
    hide Later, SetStatus, Bounded;
  }

  /** tryReceive after its second read throws when that read failed, or when line 80 does. */
  lemma CandidateStepFits(st: State, s: nat, ok: bool)
    requires Bounded(st) && st.fault == NoFault && s < |st.sockets| && st.sockets[s].status.AwaitingBody?
    requires ok ==> st.sockets[s].status.total <= |st.sockets[s].inbox|
    ensures OnCandidateBody(st, s, ok).fault != TooLong
    ensures OnCandidateBody(st, s, ok).fault == Uncaught <==> !ok || !st.accepting
  {
    hide Later, SetStatus;
  }

  lemma HeaderFailsFits(st: State, n: nat)
    requires Bounded(st) && st.fault == NoFault && st.rx.ReadingHeader? && n <= |st.sockets[st.rx.sock].inbox|
    ensures Plain(OnHeaderFails(st, n))
  {
    hide Later, SetStatus, Consume, Bounded;
  }

  lemma BodyReadFits(st: State, n: nat, got: Option<Bytes>)
    requires Bounded(st) && st.fault == NoFault && st.rx.ReadingBody?
    ensures n <= |st.sockets[st.rx.sock].inbox| ==> Plain(OnBodyRead(st, n, got))
    ensures Plain(OnBodyEnds(st, n, got))
  {
    hide Later, Consume, Bounded;
  }

  /** One step throws out of tryReceive exactly when it is that coroutine's second read failing, or line 80
      finding its peer or the acceptor gone. */
  lemma StepThrowsExactly(f: Cipher, k: Key, st: State, ev: Event)
    requires Bounded(st) && Enabled(st, ev)
    ensures Step(f, k, st, ev).fault == Uncaught <==> ev.CandidateBody? && (!ev.ok || !st.accepting)
  {
    hide CandidateTotal, Head, HeaderTotal, PlainLength, Decrypted, LoopTop, Later, OnCandidateHeader, OnSend,
         OnWritten, OnClose, OnCandidateBody, OnHeaderRead, OnHeaderFails, OnBodyRead, OnBodyEnds, BytesOf;
    match ev
    case Accept(_) =>
    case CandidateHeader(s, n, stale) =>
      var h := Header(Zeros(12), Zeros(16), Zeros(16), Zeros(8));
      HeaderStepsFit(st, s, n, h, 0, CandidateTotal(f, k, st.sockets[s].inbox, n, stale));
    case HeaderRead =>
      var h := Head(st.sockets[st.rx.sock].inbox);
      HeaderStepsFit(st, 0, 0, h, PlainLength(f, k, h), HeaderTotal(f, k, h));
    case CandidateBody(s, ok) => CandidateStepFits(st, s, ok);
    case _ => ReceiverStepFits(f, k, st, ev);
  }

  lemma ReceiverStepFits(f: Cipher, k: Key, st: State, ev: Event)
    requires Bounded(st) && Enabled(st, ev)
    requires !ev.Accept? && !ev.CandidateHeader? && !ev.CandidateBody? && !ev.HeaderRead?
    ensures Plain(Step(f, k, st, ev))
  {
    hide Decrypted, LoopTop, Later, OnSend, OnWritten, OnClose, OnHeaderFails, OnBodyRead, OnBodyEnds;
    match ev
    case Written(ok) => LoopStepsFit(st, ok);
    case HeaderFails(n) => HeaderFailsFits(st, n);
    case BodyRead(n, stale) =>
      BodyReadFits(st, n, Decrypted(f, k, st.rx.header, st.rx.len, st.sockets[st.rx.sock].inbox, n, stale));
    case BodyEnds(n, stale) =>
      BodyReadFits(st, n, Decrypted(f, k, st.rx.header, st.rx.len, st.sockets[st.rx.sock].inbox, n, stale));
    case Close => CloseFits(st);
    case _ => LoopStepsFit(st, false);
  }

  lemma StepFits(f: Cipher, k: Key, all: seq<Sent>, st: State, ev: Event)
    requires Separable(all) && OnlySealed(f, k, all) && Bounded(st) && Enabled(st, ev)
    ensures Step(f, k, st, ev).fault != TooLong
  {
    hide Separable, OnlySealed, CandidateTotal, Head, HeaderTotal, PlainLength, Decrypted, Later, OnCandidateHeader,
         OnCandidateBody, OnHeaderRead, BytesOf;
    match ev
    case Accept(_) =>
    case CandidateHeader(s, n, stale) =>
      CandidateTotalFits(f, k, all, st.sockets[s].inbox, n, stale);
      var h := Header(Zeros(12), Zeros(16), Zeros(16), Zeros(8));
      HeaderStepsFit(st, s, n, h, 0, CandidateTotal(f, k, st.sockets[s].inbox, n, stale));
    case HeaderRead =>
      var h := Head(st.sockets[st.rx.sock].inbox);
      GenuineTotalsFit(f, k, all, h);
      HeaderStepsFit(st, 0, 0, h, PlainLength(f, k, h), HeaderTotal(f, k, h));
    case CandidateBody(s, ok) => CandidateStepFits(st, s, ok);
    case _ =>
      ReceiverStepFits(f, k, st, ev);
      hide Step;
  }

  lemma CandidateTotalFits(f: Cipher, k: Key, all: seq<Sent>, inbox: Bytes, n: nat, stale: Bytes)
    requires Separable(all) && OnlySealed(f, k, all) && n <= |inbox| && n + |stale| == SIZE
    ensures CandidateTotal(f, k, inbox, n, stale) <= MAX_BUFFSIZE
  {
    hide Separable, OnlySealed, Head, HeaderTotal;
    if n > 0 {
      GenuineTotalsFit(f, k, all, Head(inbox[..n] + stale));
    }
  }

  /** Whoever connects and whatever they send, replays and splices included: if only senders of frames hold
      the key, no read is ever issued for more bytes than the connection buffer has room for. */
  lemma {:induction false} NeverTooLong(f: Cipher, k: Key, all: seq<Sent>, evs: seq<Event>)
    requires Separable(all) && OnlySealed(f, k, all) && Run(f, k, evs).Some?
    ensures Run(f, k, evs).value.fault != TooLong
  {
    hide Separable, OnlySealed, Step;
    if evs != [] {
      NeverTooLong(f, k, all, evs[..|evs| - 1]);
      StepFits(f, k, all, Run(f, k, evs[..|evs| - 1]).value, evs[|evs| - 1]);
    }
  }

  /** A client of frame `x` and more connects first, and is chosen. */
  function Connects(x: Sent, ys: seq<Sent>): seq<Event> {
    [Accept(Client([x] + ys)), CandidateHeader(0, SIZE, []), CandidateBody(0, true)]
  }

  function Connected(f: Cipher, k: Key, x: Sent, ys: seq<Sent>): State
    requires Sendable(x) && AllSendable(ys)
  {
    State([Socket(Client([x] + ys), Current, StreamOf(f, k, ys))], true, false, Some(0), None, Calling, Idle,
          true, NoFault, [], [0], [0], false, false, {}, [])
  }

  /** The client's first header has been read, its body has not. */
  function Waiting(f: Cipher, k: Key, x: Sent, ys: seq<Sent>): State
    requires Sendable(x) && AllSendable(ys)
  {
    INIT.(sockets := [Socket(Client([x] + ys), AwaitingBody(BodySize(x)), BodyOf(f, k, x) + StreamOf(f, k, ys))])
  }

  lemma FrameFirst(f: Cipher, k: Key, x: Sent, ys: seq<Sent>)
    requires Sendable(x) && AllSendable(ys)
    ensures AllSendable([x] + ys) && StreamOf(f, k, [x] + ys) == FrameOf(f, k, x) + StreamOf(f, k, ys)
  {
    assert ([x] + ys)[1..] == ys;
  }

  lemma FirstHeader(f: Cipher, k: Key, x: Sent, rest: Bytes)
    requires Sendable(x) && Opens(f, k, x)
    ensures var s := FrameOf(f, k, x) + rest;
            && SIZE <= |s| && Head(s) == HeaderOf(f, k, x)
            && HeaderTotal(f, k, Head(s)) == BodySize(x) && 0 < BodySize(x) <= BODY_ROOM
            && CandidateTotal(f, k, s, SIZE, []) == BodySize(x)
            && s[SIZE..] == BodyOf(f, k, x) + rest && |BodyOf(f, k, x)| == BodySize(x)
            && s[SIZE..][BodySize(x)..] == rest
  {
    var s := FrameOf(f, k, x) + rest;
    assert s == Encode(HeaderOf(f, k, x)) + (BodyOf(f, k, x) + rest);
    HeadOfEncode(HeaderOf(f, k, x), BodyOf(f, k, x) + rest);
    DecodeOfEncodeLengths(LengthsOf(x));
    SizeWindow(f, k, x);
    SameHead(s);
    assert s[..SIZE] + [] == s[..SIZE];
  }

  lemma PlainLengthOf(f: Cipher, k: Key, y: Sent)
    requires Sendable(y) && Opens(f, k, y)
    ensures PlainLength(f, k, HeaderOf(f, k, y)) == |y.payload|
  {
    DecodeOfEncodeLengths(LengthsOf(y));
  }

  lemma WaitsForBody(f: Cipher, k: Key, x: Sent, ys: seq<Sent>)
    requires Sendable(x) && AllSendable(ys) && Opens(f, k, x)
    ensures Run(f, k, Connects(x, ys)[..2]) == Some(Waiting(f, k, x, ys))
  {
    FrameFirst(f, k, x, ys);
    FirstHeader(f, k, x, StreamOf(f, k, ys));
    var p := Client([x] + ys);
    var all := FrameOf(f, k, x) + StreamOf(f, k, ys);
    var s1 := INIT.(sockets := [Socket(p, AwaitingHeader, all)]);
    var evs := Connects(x, ys);
    hide Head, HeaderTotal, CandidateTotal, FrameOf, StreamOf, BodySize;
    RunOn(f, k, [], evs[0], INIT);
    assert Step(f, k, INIT, evs[0]) == s1;
    RunOn(f, k, [evs[0]], evs[1], s1);
    assert Step(f, k, s1, evs[1]) == Waiting(f, k, x, ys);
    assert [evs[0]] + [evs[1]] == evs[..2];
  }

  lemma ConnectsTo(f: Cipher, k: Key, x: Sent, ys: seq<Sent>)
    requires Sendable(x) && AllSendable(ys) && Opens(f, k, x)
    ensures Run(f, k, Connects(x, ys)) == Some(Connected(f, k, x, ys))
  {
    WaitsForBody(f, k, x, ys);
    SizeWindow(f, k, x);
    var st, evs := Waiting(f, k, x, ys), Connects(x, ys);
    hide FrameOf, BodyOf, BodySize, StreamOf;
    RunOn(f, k, evs[..2], evs[2], st);
    assert (BodyOf(f, k, x) + StreamOf(f, k, ys))[BodySize(x)..] == StreamOf(f, k, ys);
    assert Step(f, k, st, evs[2]) == Connected(f, k, x, ys);
    assert evs[..2] + [evs[2]] == evs;
  }

  /** One more client, of frame `z` and more, connects, and its first header is read. */
  lemma NextWaits(f: Cipher, k: Key, evs: seq<Event>, st: State, z: Sent, ws: seq<Sent>)
      returns (all: seq<Event>, r: State)
    requires Run(f, k, evs) == Some(st) && st.fault == NoFault && st.accepting
    requires Sendable(z) && AllSendable(ws) && Opens(f, k, z)
    ensures all == evs + [Accept(Client([z] + ws))] + [CandidateHeader(|st.sockets|, SIZE, [])]
    ensures Run(f, k, all) == Some(r)
    ensures |BodyOf(f, k, z)| == BodySize(z)
    ensures var inbox := BodyOf(f, k, z) + StreamOf(f, k, ws);
            r == st.(sockets := st.sockets + [Socket(Client([z] + ws), AwaitingBody(BodySize(z)), inbox)])
  {
    FrameFirst(f, k, z, ws);
    FirstHeader(f, k, z, StreamOf(f, k, ws));
    var c, bytes, p := |st.sockets|, FrameOf(f, k, z) + StreamOf(f, k, ws), Client([z] + ws);
    hide Head, HeaderTotal, CandidateTotal, FrameOf, StreamOf, BodySize, BodyOf, Later;
    var e1, e2 := Accept(p), CandidateHeader(c, SIZE, []);
    var s1 := st.(sockets := st.sockets + [Socket(p, AwaitingHeader, bytes)]);
    RunOn(f, k, evs, e1, st);
    assert Step(f, k, st, e1) == s1;
    r := st.(sockets := st.sockets + [Socket(p, AwaitingBody(BodySize(z)), BodyOf(f, k, z) + StreamOf(f, k, ws))]);
    RunOn(f, k, evs + [e1], e2, s1);
    assert Step(f, k, s1, e2).sockets == r.sockets;
    all := evs + [e1] + [e2];
  }

  /** While a socket is current and none is in reserve, one more client connects, and is held in reserve. */
  lemma SecondConnects(f: Cipher, k: Key, evs: seq<Event>, st: State, z: Sent, ws: seq<Sent>)
      returns (all: seq<Event>, r: State)
    requires Run(f, k, evs) == Some(st) && st.fault == NoFault && st.accepting
    requires st.selected && st.conn.Some? && st.replace.None? && Sendable(z) && AllSendable(ws) && Opens(f, k, z)
    ensures Run(f, k, all) == Some(r)
    ensures r == st.(sockets := st.sockets + [Socket(Client([z] + ws), Replacement, StreamOf(f, k, ws))],
                     replace := Some(|st.sockets|), verifiedLog := st.verifiedLog + [|st.sockets|])
  {
    var e2, s2 := NextWaits(f, k, evs, st, z, ws);
    var e3 := CandidateBody(|st.sockets|, true);
    hide BodyOf, BodySize, StreamOf, Run, Later;
    RunOn(f, k, e2, e3, s2);
    all, r := e2 + [e3], Step(f, k, s2, e3);
    assert (BodyOf(f, k, z) + StreamOf(f, k, ws))[BodySize(z)..] == StreamOf(f, k, ws);
    assert r.sockets == st.sockets + [Socket(Client([z] + ws), Replacement, StreamOf(f, k, ws))];
  }

  lemma OneFrame(f: Cipher, k: Key, z: Sent)
    requires Sendable(z)
    ensures AllSendable([z]) && StreamOf(f, k, [z]) == FrameOf(f, k, z) + []
  {
    assert [z][1..] == [];
  }

  /** A run that ends at line 156: the socket ends during a write, ReceiveFrom resets it, the write fails. */
  lemma WriteFaultHappens(f: Cipher, k: Key, x: Sent, y: Sent) returns (evs: seq<Event>)
    requires Sendable(x) && Sendable(y) && Opens(f, k, x)
    ensures Run(f, k, evs).Some? && Run(f, k, evs).value.fault == NullDeref(156)
  {
    ConnectsTo(f, k, x, [y]);
    var s0 := Connected(f, k, x, [y]);
    hide FrameOf, StreamOf, Head, HeaderTotal, CandidateTotal;
    var e0 := Connects(x, [y]);
    var s1 := s0.(tx := Writing(0, x));
    RunOn(f, k, e0, Send(x), s0);
    var s2 := s1.(rx := ReadingHeader(0));
    RunOn(f, k, e0 + [Send(x)], Call, s1);
    assert s2.sockets[0].inbox[0..] == s2.sockets[0].inbox;
    var s3 := s2.(sockets := [s2.sockets[0].(status := Closed)], conn := None, selected := false, rx := Parked(false));
    RunOn(f, k, e0 + [Send(x)] + [Call], HeaderFails(0), s2);
    assert Step(f, k, s2, HeaderFails(0)) == s3;
    RunOn(f, k, e0 + [Send(x)] + [Call] + [HeaderFails(0)], Written(false), s3);
    evs := e0 + [Send(x)] + [Call] + [HeaderFails(0)] + [Written(false)];
  }

  /** A run that ends at line 209: Close resets the socket between a header read and its use. */
  lemma ReadFaultHappens(f: Cipher, k: Key, x: Sent, y: Sent) returns (evs: seq<Event>)
    requires Sendable(x) && Sendable(y) && Opens(f, k, x) && Opens(f, k, y)
    ensures Run(f, k, evs).Some? && Run(f, k, evs).value.fault == NullDeref(209)
  {
    ConnectsTo(f, k, x, [y]);
    OneFrame(f, k, y);
    FirstHeader(f, k, y, []);
    var s0 := Connected(f, k, x, [y]);
    hide FrameOf, StreamOf, Head, HeaderTotal, CandidateTotal, BodySize;
    var e0 := Connects(x, [y]);
    var s1 := s0.(rx := ReadingHeader(0));
    RunOn(f, k, e0, Call, s0);
    var s2 := s1.(sockets := [s1.sockets[0].(status := Closed)], conn := None, selected := false, stopped := true,
                  accepting := false);
    RunOn(f, k, e0 + [Call], Close, s1);
    assert Step(f, k, s1, Close) == s2;
    RunOn(f, k, e0 + [Call] + [Close], HeaderRead, s2);
    evs := e0 + [Call] + [Close] + [HeaderRead];
  }
}
