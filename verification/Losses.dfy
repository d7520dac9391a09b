/**
 Where the server's TCP side does not do what one would expect: for each case a run that shows it, and the
 exact condition over all runs.
*/
module Losses {
  import opened ByteStrings
  import opened Aead
  import opened ProtocolHeader
  import opened Frames
  import opened Protocols
  import opened Streams
  import opened Selection
  import opened Faults
  import opened Closing
  import opened Resync
  import opened Provenance

  // ----- the receive loop returns -----

  /** The three ways out of the server's receive loop: its tun write failed, ReceiveFrom found `stopped`, or
      ReceiveFrom returned a packet from a body read that was cut short, with the error code still set. */
  predicate Returns(f: Cipher, k: Key, st: State, ev: Event)
    requires Bounded(st) && Enabled(st, ev)
  {
    match ev
    case LoopEnds => true
    case HeaderFails(_) => st.stopped
    case BodyRead(n, stale) => CutPacket(f, k, st, n, stale)
    case BodyEnds(n, stale) => CutPacket(f, k, st, n, stale)
    case _ => false
  }

  /** Some, not all, body bytes are in, and DecryptPayload accepts them with what lies behind them. */
  predicate CutPacket(f: Cipher, k: Key, st: State, n: nat, stale: Bytes)
    requires Bounded(st) && st.rx.ReadingBody? && n <= |st.sockets[st.rx.sock].inbox| && |stale| == MAX_BUFFSIZE
  {
    && 0 < n < st.rx.total
    && Decrypted(f, k, st.rx.header, st.rx.len, st.sockets[st.rx.sock].inbox, n, stale).Some?
  }

  lemma BodyExits(st: State, n: nat, got: Option<Bytes>)
    requires Bounded(st) && st.rx.ReadingBody? && n <= st.rx.total
    ensures n <= |st.sockets[st.rx.sock].inbox| ==>
              (OnBodyRead(st, n, got).rx == Exited <==> 0 < n < st.rx.total && got.Some?)
    ensures OnBodyEnds(st, n, got).rx == Exited <==> 0 < n && got.Some?
  {
    hide Later, Consume, Bounded;
  }

  lemma HeaderExits(st: State, n: nat)
    requires Bounded(st) && st.rx.ReadingHeader? && n <= |st.sockets[st.rx.sock].inbox|
    ensures OnHeaderFails(st, n).rx == Exited <==> st.stopped
  {
    hide Later, SetStatus, Consume, Bounded;
  }

  lemma HeaderReadStays(st: State, h: Header, len: nat, total: nat)
    requires Bounded(st) && st.rx.ReadingHeader? && SIZE <= |st.sockets[st.rx.sock].inbox|
    requires |h.lengths| == LENGTHS_BYTES
    ensures OnHeaderRead(st, h, len, total).rx != Exited
  {
    hide Later, Consume, Bounded;
  }

  lemma CandidateStays(st: State, s: nat, n: nat, total: nat, ok: bool)
    requires Bounded(st) && st.rx != Exited && s < |st.sockets|
    ensures n <= |st.sockets[s].inbox| ==> OnCandidateHeader(st, s, n, total).rx != Exited
    ensures (st.sockets[s].status.AwaitingBody? && (ok ==> st.sockets[s].status.total <= |st.sockets[s].inbox|))
            ==> OnCandidateBody(st, s, ok).rx != Exited
  {
    hide Later, SetStatus, Bounded;
  }

  lemma OthersStay(st: State, ok: bool)
    requires Bounded(st) && st.rx != Exited
    ensures LoopTop(st).rx != Exited && (forall x :: OnSend(st, x).rx != Exited) && OnWritten(st, ok).rx != Exited
    ensures OnClose(st).rx != Exited
  {
    hide Later, SetStatus, Bounded;
  }

  lemma AcceptStays(f: Cipher, k: Key, st: State, peer: Peer)
    requires Bounded(st) && st.rx != Exited && (peer.Client? ==> AllSendable(peer.xs))
    ensures OnAccept(f, k, st, peer).rx != Exited
  {
    hide Later, Bounded, BytesOf;
  }

  lemma StepReturnsExactly(f: Cipher, k: Key, st: State, ev: Event)
    requires Bounded(st) && Enabled(st, ev) && st.rx != Exited
    ensures Step(f, k, st, ev).rx == Exited <==> Returns(f, k, st, ev)
  {
    hide CandidateTotal, Head, HeaderTotal, PlainLength, Decrypted, LoopTop, Later, OnAccept, OnCandidateHeader,
         OnSend, OnWritten, OnClose, OnCandidateBody, OnHeaderRead, OnHeaderFails, OnBodyRead, OnBodyEnds;
    match ev
    case Accept(peer) => AcceptStays(f, k, st, peer);
    case CandidateHeader(s, n, stale) =>
      CandidateStays(st, s, n, CandidateTotal(f, k, st.sockets[s].inbox, n, stale), false);
    case CandidateBody(s, ok) => CandidateStays(st, s, 0, 0, ok);
    case HeaderRead =>
      var h := Head(st.sockets[st.rx.sock].inbox);
      HeaderReadStays(st, h, PlainLength(f, k, h), HeaderTotal(f, k, h));
    case HeaderFails(n) => HeaderExits(st, n);
    case BodyRead(n, stale) =>
      BodyExits(st, n, Decrypted(f, k, st.rx.header, st.rx.len, st.sockets[st.rx.sock].inbox, n, stale));
    case BodyEnds(n, stale) =>
      BodyExits(st, n, Decrypted(f, k, st.rx.header, st.rx.len, st.sockets[st.rx.sock].inbox, n, stale));
    case Written(ok) => OthersStay(st, ok);
    case _ => OthersStay(st, false);
  }

  /** Event `i` of a run takes the receive loop out. */
  ghost predicate ReturnsAt(f: Cipher, k: Key, evs: seq<Event>, i: nat)
    requires i < |evs|
  {
    var before := Run(f, k, evs[..i]);
    before.Some? && Enabled(before.value, evs[i]) && Returns(f, k, before.value, evs[i])
  }

  lemma {:induction false} ReturnsEarlier(f: Cipher, k: Key, evs: seq<Event>, i: nat)
    requires i < |evs| - 1
    ensures ReturnsAt(f, k, evs[..|evs| - 1], i) <==> ReturnsAt(f, k, evs, i)
  {
    assert evs[..|evs| - 1][..i] == evs[..i];
  }

  /** The receive loop has returned exactly when one of the three ways out was taken at some point of the
      run; nothing else ends it. */
  lemma {:induction false} ReturnedExactly(f: Cipher, k: Key, evs: seq<Event>)
    requires Run(f, k, evs).Some?
    ensures Run(f, k, evs).value.rx == Exited <==> exists i :: 0 <= i < |evs| && ReturnsAt(f, k, evs, i)
    decreases |evs|
  {
    hide Step, Returns, Enabled;
    if evs != [] {
      var n := |evs| - 1;
      var before := Run(f, k, evs[..n]).value;
      ReturnedExactly(f, k, evs[..n]);
      forall i | 0 <= i < n ensures ReturnsAt(f, k, evs[..n], i) <==> ReturnsAt(f, k, evs, i) {
        ReturnsEarlier(f, k, evs, i);
      }
      if before.rx == Exited {
        StepAfterExit(f, k, before, evs[n]);
      } else {
        StepReturnsExactly(f, k, before, evs[n]);
        assert ReturnsAt(f, k, evs, n) <==> Returns(f, k, before, evs[n]);
      }
    }
  }

  /** What a cut packet costs: it is not delivered, and neither is anything after it, whoever connects. */
  lemma CutPacketEndsDelivery(f: Cipher, k: Key, evs: seq<Event>, st: State, ev: Event, more: seq<Event>)
    requires Run(f, k, evs) == Some(st) && Bounded(st) && Enabled(st, ev) && (ev.BodyRead? || ev.BodyEnds?)
    requires CutPacket(f, k, st, ev.n, ev.stale) && Run(f, k, evs + [ev] + more).Some?
    ensures Run(f, k, evs + [ev] + more).value.rx == Exited
    ensures Run(f, k, evs + [ev] + more).value.delivered == st.delivered
  {
    RunOn(f, k, evs, ev, st);
    StepReturnsExactly(f, k, st, ev);
    var inbox := st.sockets[st.rx.sock].inbox;
    CutDeliversNothing(st, ev.n, Decrypted(f, k, st.rx.header, st.rx.len, inbox, ev.n, ev.stale));
    hide Run, Decrypted, OnBodyRead, OnBodyEnds;
    ExitIsFinal(f, k, evs + [ev], more);
  }

  lemma CutDeliversNothing(st: State, n: nat, got: Option<Bytes>)
    requires Bounded(st) && st.rx.ReadingBody? && n < st.rx.total && n <= |st.sockets[st.rx.sock].inbox|
    ensures OnBodyRead(st, n, got).delivered == st.delivered == OnBodyEnds(st, n, got).delivered
  {
    hide Later, Consume;
  }

  /**
   A second client gets through while the current one's frame is in its padding: line 96 cancels the body
   read, the packet is lost with its payload complete, and the loop is over while a verified client waits
   in reserve and nobody has called Close.
  */
  lemma CutPaddingEndsLoop(f: Cipher, k: Key, x: Sent, y: Sent, z: Sent, n: nat, stale: Bytes)
      returns (evs: seq<Event>, st: State)
    requires Sendable(x) && Sendable(y) && Sendable(z) && Opens(f, k, x) && Opens(f, k, y) && Opens(f, k, z)
    requires 0 < n && |y.payload| <= n < BodySize(y) && |stale| == MAX_BUFFSIZE
    ensures Run(f, k, evs) == Some(st) && st.fault == NoFault && !st.stopped && !st.writeFailed
    ensures st.rx == Exited && st.delivered == [] && st.replace == Some(1) && st.selected
  {
    ConnectsTo(f, k, x, [y]);
    OneFrame(f, k, y);
    FirstHeader(f, k, y, []);
    var body, h := BodyOf(f, k, y), HeaderOf(f, k, y);
    assert body + [] == body;
    CutPayload(f, k, y, n, stale);
    PlainLengthOf(f, k, y);
    var s0 := Connected(f, k, x, [y]);
    hide FrameOf, StreamOf, BodyOf, Head, HeaderTotal, CandidateTotal, BodySize, PlainLength, Decrypted, Later,
         HeaderOf;
    var e0 := Connects(x, [y]);
    var s1 := s0.(rx := ReadingHeader(0));
    RunOn(f, k, e0, Call, s0);
    var s2 := s1.(sockets := [s1.sockets[0].(inbox := body)], rx := ReadingBody(0, h, |y.payload|, BodySize(y)));
    RunOn(f, k, e0 + [Call], HeaderRead, s1);
    assert Step(f, k, s1, HeaderRead).sockets == s2.sockets;
    var all, s3 := SecondConnects(f, k, e0 + [Call] + [HeaderRead], s2, z, []);
    RunOn(f, k, all, BodyRead(n, stale), s3);
    evs, st := all + [BodyRead(n, stale)], Step(f, k, s3, BodyRead(n, stale));
  }

  /** A frame's payload is decrypted from its first bytes alone. */
  lemma CutPayload(f: Cipher, k: Key, y: Sent, n: nat, stale: Bytes)
    requires Sendable(y) && Opens(f, k, y) && |y.payload| <= n < BodySize(y) && |stale| == MAX_BUFFSIZE
    ensures n <= |BodyOf(f, k, y)|
    ensures Decrypted(f, k, HeaderOf(f, k, y), |y.payload|, BodyOf(f, k, y), n, stale) == Some(y.payload)
  {
    SizeWindow(f, k, y);
    var c := SealedPayload(f, k, y).cipher;
    assert (BodyOf(f, k, y)[..n] + stale)[..|c|] == c;
  }

  // ----- a cancel in the middle of a payload -----

  /** ReceiveFrom is in the body of the second frame when a second client gets through. */
  lemma SecondInBody(f: Cipher, k: Key, x: Sent, y: Sent, post: seq<Sent>, z: Sent)
      returns (evs: seq<Event>, st: State)
    requires Sendable(x) && Sendable(y) && AllSendable(post) && Sendable(z)
    requires Opens(f, k, x) && Opens(f, k, y) && Opens(f, k, z)
    ensures Run(f, k, evs) == Some(st) && st.fault == NoFault && !st.stopped && !st.writeFailed && st.delivered == []
    ensures |st.sockets| == 2 && st.selected && st.conn == Some(0) && st.replace == Some(1)
    ensures st.sockets[0].inbox == BodyOf(f, k, y) + StreamOf(f, k, post) && |BodyOf(f, k, y)| == BodySize(y)
    ensures st.rx == ReadingBody(0, HeaderOf(f, k, y), |y.payload|, BodySize(y))
  {
    var ys := [y] + post;
    FrameFirst(f, k, y, post);
    ConnectsTo(f, k, x, ys);
    FirstHeader(f, k, y, StreamOf(f, k, post));
    PlainLengthOf(f, k, y);
    var s0 := Connected(f, k, x, ys);
    hide FrameOf, StreamOf, BodyOf, Head, HeaderTotal, CandidateTotal, BodySize, PlainLength, Later, HeaderOf;
    var e0 := Connects(x, ys);
    var s1 := s0.(rx := ReadingHeader(0));
    RunOn(f, k, e0, Call, s0);
    var s2 := s1.(sockets := [s1.sockets[0].(inbox := BodyOf(f, k, y) + StreamOf(f, k, post))],
                  rx := ReadingBody(0, HeaderOf(f, k, y), |y.payload|, BodySize(y)));
    RunOn(f, k, e0 + [Call], HeaderRead, s1);
    assert Step(f, k, s1, HeaderRead).sockets == s2.sockets;
    evs, st := SecondConnects(f, k, e0 + [Call] + [HeaderRead], s2, z, []);
  }

  /** Of the frames `post` behind `lead`, `out` is what comes after the first that starts a multiple of 52 bytes
      away; it is all of them exactly when 52 divides `lead`. */
  ghost predicate Remains(f: Cipher, k: Key, lead: Bytes, post: seq<Sent>, out: seq<Bytes>)
    requires AllSendable(post)
  {
    && (forall j: nat | ResumesAt(f, k, |lead|, post, j) :: out == Payloads(post[j..]))
    && ((forall j: nat :: !ResumesAt(f, k, |lead|, post, j)) ==> out == [])
    && (post != [] ==> (out == Payloads(post) <==> |lead| % SIZE == 0))
  }

  /**
   Line 96 cancels a body read with `n` bytes in, on a socket that lives on, and what is in does not decrypt:
   ReceiveFrom takes the rest of the body for headers, and the stream is out of step.
  */
  lemma CutPayloadLosesStep(f: Cipher, k: Key, x: Sent, y: Sent, post: seq<Sent>, z: Sent, n: nat, stale: Bytes)
      returns (evs: seq<Event>, st: State)
    requires Sendable(x) && Sendable(y) && AllSendable(post) && Sendable(z)
    requires Opens(f, k, x) && Opens(f, k, y) && AllOpen(f, k, post) && Opens(f, k, z)
    requires n < BodySize(y) == |BodyOf(f, k, y)| && |stale| == MAX_BUFFSIZE
    requires Decrypted(f, k, HeaderOf(f, k, y), |y.payload|, BodyOf(f, k, y), n, stale) == None
    requires NothingOpensBetween(f, k, BodyOf(f, k, y)[n..], post)
    ensures Run(f, k, evs) == Some(st) && st.fault == NoFault && !st.stopped && st.delivered == []
    ensures |st.sockets| == 2 && st.conn == Some(0) && st.rx == ReadingHeader(0)
    ensures st.sockets[0].inbox == BodyOf(f, k, y)[n..] + StreamOf(f, k, post)
    ensures forall b: Buffer ::
              Remains(f, k, BodyOf(f, k, y)[n..], post, Feed(f, k, Start(b), st.sockets[0].inbox).out)
  {
    hide FrameOf, StreamOf, BodyOf, HeaderOf, BodySize, Decrypted, Later, Opens, Run, NothingOpensBetween,
         Remains, Feed;
    var e0, s0 := SecondInBody(f, k, x, y, post, z);
    CutSame(f, k, HeaderOf(f, k, y), |y.payload|, BodyOf(f, k, y), StreamOf(f, k, post), n, stale);
    evs, st := CutsBody(f, k, e0, s0, n, stale);
    CutRest(BodyOf(f, k, y), StreamOf(f, k, post), n);
    forall b: Buffer ensures Remains(f, k, BodyOf(f, k, y)[n..], post, Feed(f, k, Start(b), st.sockets[0].inbox).out) {
      CutCosts(f, k, b, BodyOf(f, k, y)[n..], post);
    }
  }

  lemma CutRest(body: Bytes, rest: Bytes, n: nat)
    requires n <= |body|
    ensures (body + rest)[n..] == body[n..] + rest
  {
  }

  /** A body read is cancelled short of its end, and nothing decrypts: ReceiveFrom goes on to a header read. */
  lemma CutsBody(f: Cipher, k: Key, evs: seq<Event>, st: State, n: nat, stale: Bytes)
      returns (all: seq<Event>, r: State)
    requires Run(f, k, evs) == Some(st) && Bounded(st) && st.fault == NoFault && st.rx.ReadingBody? && st.selected
    requires st.conn == Some(st.rx.sock) && n < st.rx.total && n <= |st.sockets[st.rx.sock].inbox|
    requires |stale| == MAX_BUFFSIZE
    requires Decrypted(f, k, st.rx.header, st.rx.len, st.sockets[st.rx.sock].inbox, n, stale) == None
    ensures Run(f, k, all) == Some(r)
    ensures r == st.(sockets := Consume(st.sockets, st.rx.sock, n), rx := ReadingHeader(st.rx.sock), bodyCut := true)
    ensures r.sockets[st.rx.sock].inbox == st.sockets[st.rx.sock].inbox[n..]
  {
    hide Run, Decrypted, Later;
    RunOn(f, k, evs, BodyRead(n, stale), st);
    all, r := evs + [BodyRead(n, stale)], Step(f, k, st, BodyRead(n, stale));
  }

  lemma CutCosts(f: Cipher, k: Key, b: Buffer, lead: Bytes, post: seq<Sent>)
    requires AllSendable(post) && AllOpen(f, k, post) && NothingOpensBetween(f, k, lead, post)
    ensures Remains(f, k, lead, post, Feed(f, k, Start(b), lead + StreamOf(f, k, post)).out)
  {
    hide Feed, StreamOf, NothingOpensBetween, ResumesAt, Payloads, Opens;
    OutOfStepCosts(f, k, Start(b), lead, post);
    assert forall ps: seq<Bytes> :: [] + ps == ps;
    if post != [] {
      NoLaterFrameLost(f, k, Start(b), lead, post);
    }
  }

  /** What DecryptPayload sees of a cut body does not depend on what follows in the stream. */
  lemma CutSame(f: Cipher, k: Key, h: Header, len: nat, body: Bytes, rest: Bytes, n: nat, stale: Bytes)
    requires n <= |body| && |stale| == MAX_BUFFSIZE
    ensures Decrypted(f, k, h, len, body + rest, n, stale) == Decrypted(f, k, h, len, body, n, stale)
  {
    assert (body + rest)[..n] == body[..n];
  }

  // ----- selection by the header alone -----

  /** Anybody who can replay one genuine header, followed by as many bytes of anything as it announces, gets
      to be the server's socket. */
  lemma ReplayedHeaderIsChosen(f: Cipher, k: Key, x: Sent, junk: Bytes) returns (evs: seq<Event>, st: State)
    requires Sendable(x) && Opens(f, k, x) && |junk| == BodySize(x)
    ensures var peer := Stranger(Encode(HeaderOf(f, k, x)) + junk);
            evs == [Accept(peer), CandidateHeader(0, SIZE, []), CandidateBody(0, true)]
    ensures Run(f, k, evs) == Some(st) && st.fault == NoFault && st.selected && st.conn == Some(0)
  {
    ReplayIsAdmitted(f, k, x, junk);
    var bytes := Encode(HeaderOf(f, k, x)) + junk;
    hide Admitted, Encode, HeaderOf, Run;
    var e0 := [Accept(Stranger(bytes))];
    AcceptsFirst(f, k, bytes);
    var s0 := INIT.(sockets := [Socket(Stranger(bytes), AwaitingHeader, bytes)]);
    var more := AdmittedIsTaken(f, k, e0, s0, 0);
    evs, st := e0 + more, Run(f, k, e0 + more).value;
  }

  lemma AcceptsFirst(f: Cipher, k: Key, bytes: Bytes)
    ensures Run(f, k, [Accept(Stranger(bytes))])
            == Some(INIT.(sockets := [Socket(Stranger(bytes), AwaitingHeader, bytes)]))
  {
    RunOn(f, k, [], Accept(Stranger(bytes)), INIT);
    assert [] + [Accept(Stranger(bytes))] == [Accept(Stranger(bytes))];
    var x := Socket(Stranger(bytes), AwaitingHeader, bytes);
    assert OnAccept(f, k, INIT, Stranger(bytes)) == INIT.(sockets := [x]) by { assert INIT.sockets + [x] == [x]; }
  }

  // ----- exceptions that leave tryReceive -----

  /** In every run, an exception leaves tryReceive exactly at its second read failing, or at line 80 with the
      peer or the acceptor gone. */
  lemma ThrowsExactly(f: Cipher, k: Key, evs: seq<Event>, st: State)
    requires Run(f, k, evs) == Some(st)
    ensures st.fault == Uncaught <==>
              && evs != []
              && var n := |evs| - 1;
              && var before := Run(f, k, evs[..n]);
              && evs[n].CandidateBody? && before.Some? && (!evs[n].ok || !before.value.accepting)
  {
    hide Step;
    if evs != [] {
      StepThrowsExactly(f, k, Run(f, k, evs[..|evs| - 1]).value, evs[|evs| - 1]);
    }
  }

  /** A client that goes away after its first header. */
  lemma LostClientThrows(f: Cipher, k: Key, x: Sent, y: Sent) returns (evs: seq<Event>)
    requires Sendable(x) && Sendable(y) && Opens(f, k, x)
    ensures evs == Connects(x, [y])[..2] + [CandidateBody(0, false)]
    ensures Run(f, k, evs).Some? && Run(f, k, evs).value.fault == Uncaught
  {
    WaitsForBody(f, k, x, [y]);
    var e0, ev := Connects(x, [y])[..2], CandidateBody(0, false);
    RunOn(f, k, e0, ev, Waiting(f, k, x, [y]));
    evs := e0 + [ev];
  }

  /** A client whose first body arrives after Close has closed the acceptor. */
  lemma CloseThenCandidateThrows(f: Cipher, k: Key, x: Sent, y: Sent) returns (evs: seq<Event>)
    requires Sendable(x) && Sendable(y) && Opens(f, k, x)
    ensures evs == Connects(x, [y])[..2] + [Close] + [CandidateBody(0, true)]
    ensures Run(f, k, evs).Some? && Run(f, k, evs).value.fault == Uncaught
  {
    WaitsForBody(f, k, x, [y]);
    SizeWindow(f, k, x);
    var st, e0, ev := Waiting(f, k, x, [y]), Connects(x, [y])[..2], CandidateBody(0, true);
    hide FrameOf, StreamOf, BodyOf, BodySize;
    RunOn(f, k, e0, Close, st);
    RunOn(f, k, e0 + [Close], ev, st.(accepting := false));
    evs := e0 + [Close] + [ev];
  }
}
