/** What a failed SendTo write does to the selection machine, over all runs. */
module FailedWrites {
  import opened ByteStrings
  import opened Aead
  import opened ProtocolHeader
  import opened Frames
  import opened Streams
  import opened Selection
  import opened HandOver
  import opened Faults
  import opened Provenance

  /**
   After a failed SendTo write, packets are dropped without an error; the next candidate that gets through
   tryReceive takes the place of the socket that failed, is not merely held in reserve, and is what the next
   packet is written to; once the acceptor is closed, tryReceive throws instead. But if a header read was
   pending on the socket that failed, that read's failure is the next thing to happen to the new socket, and
   closes it.
  */
  lemma FailedWriteMakesRoom(f: Cipher, k: Key, st: State, s: nat, p: Sent)
    requires Sendable(p)
    requires Safe(st) && st.fault == NoFault && st.tx.Writing? && !st.stopped && st.conn.Some?
    requires s < |st.sockets| && st.sockets[s].status.AwaitingBody?
    requires st.sockets[s].status.total <= |st.sockets[s].inbox|
    ensures var failed := Step(f, k, st, Written(false));
            && failed.fault == NoFault && Step(f, k, failed, Send(p)) == failed
            && Enabled(failed, CandidateBody(s, true))
            && var next := Step(f, k, failed, CandidateBody(s, true));
            if !st.accepting then next.fault == Uncaught
            else
              && next.fault == NoFault && next.selected && next.conn == Some(s) && next.replace == st.replace
              && st.conn.value != s && next.sockets[st.conn.value].status == Superseded
              && Step(f, k, next, Send(p)).tx == Writing(s, p)
              && (st.rx.ReadingHeader? ==>
                    && Enabled(next, HeaderFails(0))
                    && Step(f, k, next, HeaderFails(0)).sockets[s].status == Closed)
  {
    var c := st.conn.value;
    assert Entered(st.sockets[c], c, st.conn, st.replace) && Entered(st.sockets[s], s, st.conn, st.replace);
    hide Ledger, Later;
  }

  /** What makes up for a failed write: the header read on the failed socket fails, or a candidate is taken. */
  predicate Mends(ev: Event) {
    ev.HeaderFails? || (ev.CandidateBody? && ev.ok)
  }

  /** A write failed, and nothing has made up for it since. */
  predicate Unmended(evs: seq<Event>) {
    exists i :: 0 <= i < |evs| && evs[i] == Written(false) && forall j | i < j < |evs| :: !Mends(evs[j])
  }

  lemma UnmendedStep(evs: seq<Event>)
    requires evs != []
    ensures var n := |evs| - 1;
            Unmended(evs) <==> evs[n] == Written(false) || (Unmended(evs[..n]) && !Mends(evs[n]))
  {
    var n := |evs| - 1;
    if Unmended(evs[..n]) && !Mends(evs[n]) {
      var i :| 0 <= i < n && evs[..n][i] == Written(false) && forall j | i < j < n :: !Mends(evs[..n][j]);
      assert evs[i] == Written(false) && forall j | i < j < n :: evs[j] == evs[..n][j];
    }
    if Unmended(evs) && evs[n] != Written(false) {
      var i :| 0 <= i < |evs| && evs[i] == Written(false) && forall j | i < j < |evs| :: !Mends(evs[j]);
      assert evs[..n][i] == Written(false);
    }
  }

  /** A socket is held, but packets are dropped. */
  predicate Dangling(st: State) {
    !st.selected && st.conn.Some?
  }

  /** What one step comes to: whether packets are dropped with a socket held, and nothing is stopped by it. */
  predicate Keeps(st: State, r: State, dangling: bool) {
    r.stopped == st.stopped && (r.fault == NoFault ==> Dangling(r) == dangling)
  }

  lemma HeaderReadDangles(st: State, h: Header, len: nat, total: nat)
    requires Bounded(st) && st.rx.ReadingHeader? && SIZE <= |st.sockets[st.rx.sock].inbox|
    requires |h.lengths| == LENGTHS_BYTES
    ensures Keeps(st, OnHeaderRead(st, h, len, total), Dangling(st))
  {
    hide Later, SetStatus, Consume;
  }

  lemma BodyDangles(st: State, n: nat, got: Option<Bytes>)
    requires Bounded(st) && st.rx.ReadingBody? && n <= |st.sockets[st.rx.sock].inbox|
    ensures Keeps(st, OnBodyRead(st, n, got), Dangling(st))
  {
    hide Later, LoopTop, Consume;
  }

  lemma BodyEndDangles(st: State, n: nat, got: Option<Bytes>)
    requires Bounded(st) && st.rx.ReadingBody?
    ensures Keeps(st, OnBodyEnds(st, n, got), Dangling(st))
  {
    hide Later, LoopTop, Consume;
  }

  lemma LoopDangles(st: State)
    requires Bounded(st)
    ensures Keeps(st, LoopTop(st), Dangling(st)) && Keeps(st, st.(rx := Exited), Dangling(st))
  {
    hide Later;
  }

  lemma HeaderFailsMends(st: State, n: nat)
    requires Bounded(st) && st.rx.ReadingHeader? && n <= |st.sockets[st.rx.sock].inbox| && !(st.stopped && Dangling(st))
    ensures Keeps(st, OnHeaderFails(st, n), false)
  {
    hide Later, SetStatus, Consume;
  }

  lemma CandidateDangles(st: State, s: nat, n: nat, total: nat, ok: bool)
    requires Bounded(st) && s < |st.sockets|
    ensures n <= |st.sockets[s].inbox| ==> Keeps(st, OnCandidateHeader(st, s, n, total), Dangling(st))
    ensures (st.sockets[s].status.AwaitingBody? && (ok ==> st.sockets[s].status.total <= |st.sockets[s].inbox|))
            ==> Keeps(st, OnCandidateBody(st, s, ok), false) && (OnCandidateBody(st, s, ok).fault == NoFault ==> ok)
  {
    hide Later, SetStatus, Bounded;
  }

  lemma SenderDangles(st: State, ok: bool)
    requires Bounded(st) && st.fault == NoFault
    ensures forall x :: Keeps(st, OnSend(st, x), Dangling(st))
    ensures Keeps(st, OnWritten(st, ok), Dangling(st) || (!ok && !st.stopped))
  {
    hide Later;
  }

  lemma CloseDangles(st: State)
    requires Bounded(st) && st.fault == NoFault
    ensures OnClose(st).fault == NoFault ==> Dangling(OnClose(st)) == Dangling(st)
    ensures OnClose(st).stopped && !st.stopped ==> st.selected
  {
    hide Later, SetStatus;
  }

  lemma AcceptDangles(f: Cipher, k: Key, st: State, peer: Peer)
    requires Bounded(st) && (peer.Client? ==> AllSendable(peer.xs))
    ensures Keeps(st, OnAccept(f, k, st, peer), Dangling(st))
  {
    hide Later, BytesOf;
  }

  function DanglesAfter(st: State, ev: Event): bool {
    if ev == Written(false) && !st.stopped then true else if Mends(ev) then false else Dangling(st)
  }

  lemma StepDangles(f: Cipher, k: Key, st: State, ev: Event)
    requires Bounded(st) && Enabled(st, ev) && !(st.stopped && Dangling(st))
    ensures var r := Step(f, k, st, ev);
            && (r.fault == NoFault ==> Dangling(r) == DanglesAfter(st, ev))
            && (r.stopped && !st.stopped ==> ev == Close && st.selected)
  {
    hide CandidateTotal, Head, HeaderTotal, PlainLength, Decrypted, LoopTop, Later, OnAccept, OnCandidateHeader,
         OnSend, OnWritten, OnClose, OnCandidateBody, OnHeaderRead, OnHeaderFails, OnBodyRead, OnBodyEnds;
    match ev
    case Accept(peer) => AcceptDangles(f, k, st, peer);
    case CandidateHeader(s, n, stale) =>
      CandidateDangles(st, s, n, CandidateTotal(f, k, st.sockets[s].inbox, n, stale), false);
    case CandidateBody(s, ok) => CandidateDangles(st, s, 0, 0, ok);
    case HeaderRead =>
      var h := Head(st.sockets[st.rx.sock].inbox);
      HeaderReadDangles(st, h, PlainLength(f, k, h), HeaderTotal(f, k, h));
    case HeaderFails(n) => HeaderFailsMends(st, n);
    case BodyRead(n, stale) =>
      BodyDangles(st, n, Decrypted(f, k, st.rx.header, st.rx.len, st.sockets[st.rx.sock].inbox, n, stale));
    case BodyEnds(n, stale) =>
      BodyEndDangles(st, n, Decrypted(f, k, st.rx.header, st.rx.len, st.sockets[st.rx.sock].inbox, n, stale));
    case Send(_) => SenderDangles(st, true);
    case Written(ok) => SenderDangles(st, ok);
    case Close => CloseDangles(st);
    case _ => LoopDangles(st);
  }

  /** Hand-over's first clause, over all runs: a socket is held without being selected exactly when a write
      failed and nothing has made up for it since, and Close has not taken effect. */
  lemma {:induction false} DanglesExactly(f: Cipher, k: Key, evs: seq<Event>, st: State)
    requires Run(f, k, evs) == Some(st) && st.fault == NoFault
    ensures Dangling(st) <==> !st.stopped && Unmended(evs)
    decreases |evs|
  {
    hide Step, Enabled, Unmended;
    if evs == [] {
      assert !Unmended([]) by { NothingUnmended(); }
    } else {
      var n := |evs| - 1;
      var before := Run(f, k, evs[..n]).value;
      assert before.fault == NoFault by { EnabledIsSound(before, evs[n]); }
      DanglesExactly(f, k, evs[..n], before);
      StepDangles(f, k, before, evs[n]);
      UnmendedStep(evs);
      StoppedLater(f, k, before, evs[n]);
    }
  }

  lemma NothingUnmended()
    ensures !Unmended([])
  {
  }

  lemma EnabledIsSound(st: State, ev: Event)
    requires Bounded(st) && Enabled(st, ev)
    ensures st.fault == NoFault
  {
  }

  lemma StoppedLater(f: Cipher, k: Key, st: State, ev: Event)
    requires Bounded(st) && Enabled(st, ev)
    ensures st.stopped ==> Step(f, k, st, ev).stopped
  {
    hide Step;
  }

  /** A write fails: the socket stays, packets are dropped, and hand-over's invariant is gone. */
  lemma FailedWriteDangles(f: Cipher, k: Key, x: Sent, y: Sent) returns (evs: seq<Event>, st: State)
    requires Sendable(x) && Sendable(y) && Opens(f, k, x)
    ensures Run(f, k, evs) == Some(st) && st.fault == NoFault && !st.stopped
    ensures st.conn == Some(0) && !st.selected && !HandsOver(st)
  {
    ConnectsTo(f, k, x, [y]);
    var s0 := Connected(f, k, x, [y]);
    hide FrameOf, StreamOf, Head, HeaderTotal, CandidateTotal;
    var e0 := Connects(x, [y]);
    RunOn(f, k, e0, Send(x), s0);
    var s1 := s0.(tx := Writing(0, x));
    RunOn(f, k, e0 + [Send(x)], Written(false), s1);
    evs, st := e0 + [Send(x)] + [Written(false)], s1.(tx := Idle, selected := false, writeFailed := true);
    assert s1.wire + [] == s1.wire;
  }

  /** A write that is pending on the old socket fails after the hand-over, and it is the new socket that is
      held without being selected. */
  lemma LateFailureHitsReplacement(f: Cipher, k: Key, x: Sent, y: Sent, z: Sent) returns (evs: seq<Event>, st: State)
    requires Sendable(x) && Sendable(y) && Sendable(z) && Opens(f, k, x) && Opens(f, k, z)
    ensures Run(f, k, evs) == Some(st) && st.fault == NoFault && !st.stopped
    ensures st.conn == Some(1) && !st.selected && st.sockets[0].status == Closed && st.sockets[1].status == Current
    ensures st.chosen == [0, 1] && |evs| > 1 && evs[|evs| - 2..] == [HeaderFails(0), Written(false)]
  {
    ConnectsTo(f, k, x, [y]);
    var s0 := Connected(f, k, x, [y]);
    hide FrameOf, StreamOf, Head, HeaderTotal, CandidateTotal;
    var e0 := Connects(x, [y]);
    RunOn(f, k, e0, Send(x), s0);
    var s1 := s0.(tx := Writing(0, x));
    RunOn(f, k, e0 + [Send(x)], Call, s1);
    var s2 := s1.(rx := ReadingHeader(0));
    var e3, s3 := SecondConnects(f, k, e0 + [Send(x)] + [Call], s2, z, []);
    evs, st := PromotedThenUnselected(f, k, e3, s3, x);
  }

  lemma PromotedThenUnselected(f: Cipher, k: Key, evs: seq<Event>, st: State, x: Sent)
      returns (all: seq<Event>, r: State)
    requires Run(f, k, evs) == Some(st) && st.fault == NoFault && !st.stopped && st.tx == Writing(0, x)
    requires st.rx == ReadingHeader(0) && st.conn == Some(0) && st.replace == Some(1)
    requires |st.sockets| == 2 && st.chosen == [0]
    ensures all == evs + [HeaderFails(0)] + [Written(false)] && Run(f, k, all) == Some(r) && r.fault == NoFault
    ensures !r.stopped && r.conn == Some(1) && !r.selected && r.chosen == [0, 1]
    ensures |r.sockets| == 2 && r.sockets[0].status == Closed && r.sockets[1].status == Current
  {
    hide Run, Later;
    RunOn(f, k, evs, HeaderFails(0), st);
    var s1 := Step(f, k, st, HeaderFails(0));
    RunOn(f, k, evs + [HeaderFails(0)], Written(false), s1);
    all, r := evs + [HeaderFails(0)] + [Written(false)], Step(f, k, s1, Written(false));
  }

  // ----- the header read that the failed write cancels -----

  /** A step of ReceiveFrom, or of the loop that calls it. */
  predicate Receives(ev: Event) {
    ev.Call? || ev.LoopEnds? || ev.Wake? || ev.HeaderRead? || ev.HeaderFails? || ev.BodyRead? || ev.BodyEnds?
  }

  predicate Takes(ev: Event) {
    ev.CandidateBody? && ev.ok
  }

  /** From position `i` on, ReceiveFrom has not moved. */
  predicate QuietFrom(evs: seq<Event>, i: int) {
    forall j | i < j < |evs| && 0 <= j :: !Receives(evs[j])
  }

  /** A write failed since ReceiveFrom moved last. */
  predicate WroteSince(evs: seq<Event>) {
    exists i :: 0 <= i < |evs| && evs[i] == Written(false) && QuietFrom(evs, i)
  }

  /** A write failed since ReceiveFrom moved last, and then a candidate got through. */
  predicate SwappedSince(evs: seq<Event>) {
    exists i, n :: 0 <= i < n < |evs| && evs[i] == Written(false) && Takes(evs[n]) && QuietFrom(evs, i)
  }

  lemma QuietStep(evs: seq<Event>, i: nat)
    requires evs != [] && i < |evs| - 1
    ensures QuietFrom(evs, i) <==> QuietFrom(evs[..|evs| - 1], i) && !Receives(evs[|evs| - 1])
  {
    var front := evs[..|evs| - 1];
    if QuietFrom(front, i) && !Receives(evs[|evs| - 1]) {
      forall j | i < j < |evs| ensures !Receives(evs[j]) {
        if j < |front| {
          assert front[j] == evs[j];
        }
      }
    }
    if QuietFrom(evs, i) {
      forall j | i < j < |front| ensures !Receives(front[j]) {
        assert front[j] == evs[j];
      }
    }
  }

  lemma WroteStep(evs: seq<Event>)
    requires evs != []
    ensures var n := |evs| - 1;
            WroteSince(evs) <==> evs[n] == Written(false) || (WroteSince(evs[..n]) && !Receives(evs[n]))
  {
    var n := |evs| - 1;
    if WroteSince(evs[..n]) && !Receives(evs[n]) {
      var i :| 0 <= i < n && evs[..n][i] == Written(false) && QuietFrom(evs[..n], i);
      QuietStep(evs, i);
      assert evs[i] == Written(false);
    }
    if WroteSince(evs) && evs[n] != Written(false) {
      var i :| 0 <= i < |evs| && evs[i] == Written(false) && QuietFrom(evs, i);
      QuietStep(evs, i);
      assert evs[..n][i] == Written(false);
    }
    if evs[n] == Written(false) {
      assert QuietFrom(evs, n);
    }
  }

  lemma SwappedStep(evs: seq<Event>)
    requires evs != []
    ensures var n := |evs| - 1;
            SwappedSince(evs)
            <==> !Receives(evs[n]) && (SwappedSince(evs[..n]) || (Takes(evs[n]) && WroteSince(evs[..n])))
  {
    var last := |evs| - 1;
    var front := evs[..last];
    if !Receives(evs[last]) && SwappedSince(front) {
      var i, n :| 0 <= i < n < last && front[i] == Written(false) && Takes(front[n]) && QuietFrom(front, i);
      QuietStep(evs, i);
      assert evs[i] == Written(false) && Takes(evs[n]);
    }
    if !Receives(evs[last]) && Takes(evs[last]) && WroteSince(front) {
      var i :| 0 <= i < last && front[i] == Written(false) && QuietFrom(front, i);
      QuietStep(evs, i);
      assert evs[i] == Written(false);
    }
    if SwappedSince(evs) {
      var i, n :| 0 <= i < n < |evs| && evs[i] == Written(false) && Takes(evs[n]) && QuietFrom(evs, i);
      QuietStep(evs, i);
      assert front[i] == Written(false);
      if n < last {
        assert Takes(front[n]);
      }
    }
  }

  /** While a header read is pending: whether its socket has lost its place, and whether to another. */
  predicate Tracks(st: State, wrote: bool, swapped: bool) {
    st.rx.ReadingHeader? && !st.stopped ==>
      && (!st.selected || st.conn != Some(st.rx.sock) <==> wrote)
      && (st.conn != Some(st.rx.sock) <==> swapped)
  }

  /** A header read that has just been issued is on the current socket, which is selected. */
  predicate JustIssued(r: State) {
    r.rx.ReadingHeader? && r.fault == NoFault ==> r.selected && r.conn == Some(r.rx.sock)
  }

  lemma ReceiverIssues(st: State, h: Header, len: nat, total: nat, n: nat, got: Option<Bytes>)
    requires Bounded(st) && st.fault == NoFault
    ensures JustIssued(LoopTop(st))
    ensures (st.rx.ReadingHeader? && SIZE <= |st.sockets[st.rx.sock].inbox| && |h.lengths| == LENGTHS_BYTES)
            ==> JustIssued(OnHeaderRead(st, h, len, total))
    ensures (st.rx.ReadingHeader? && n <= |st.sockets[st.rx.sock].inbox|) ==> JustIssued(OnHeaderFails(st, n))
  {
    hide Later, SetStatus, Consume;
  }

  lemma BodyIssues(st: State, n: nat, got: Option<Bytes>)
    requires Bounded(st) && st.fault == NoFault && st.rx.ReadingBody?
    ensures n <= |st.sockets[st.rx.sock].inbox| ==> JustIssued(OnBodyRead(st, n, got))
    ensures JustIssued(OnBodyEnds(st, n, got))
  {
    hide Later, SetStatus, Consume;
  }

  lemma CandidateTracks(st: State, s: nat, n: nat, total: nat, ok: bool, wrote: bool, swapped: bool)
    requires Bounded(st) && ReadsTaken(st) && s < |st.sockets| && !Taken(st.sockets[s].status)
    requires Tracks(st, wrote, swapped)
    ensures n <= |st.sockets[s].inbox| ==> Tracks(OnCandidateHeader(st, s, n, total), wrote, swapped)
    ensures (st.sockets[s].status.AwaitingBody? && (ok ==> st.sockets[s].status.total <= |st.sockets[s].inbox|))
            ==> var r := OnCandidateBody(st, s, ok);
                r.fault == NoFault ==> Tracks(r, wrote, swapped || wrote)
  {
    hide Later, SetStatus, Bounded;
  }

  lemma OthersTrack(f: Cipher, k: Key, st: State, peer: Peer, ok: bool, wrote: bool, swapped: bool)
    requires Bounded(st) && Tracks(st, wrote, swapped)
    ensures (peer.Client? ==> AllSendable(peer.xs)) ==> Tracks(OnAccept(f, k, st, peer), wrote, swapped)
    ensures (forall x :: Tracks(OnSend(st, x), wrote, swapped))
    ensures OnWritten(st, ok).fault == NoFault ==> Tracks(OnWritten(st, ok), wrote || !ok, swapped)
  {
    hide Later, Bounded, BytesOf;
  }

  lemma CloseTracks(st: State, wrote: bool, swapped: bool)
    requires Bounded(st) && Tracks(st, wrote, swapped)
    ensures OnClose(st).fault == NoFault ==> Tracks(OnClose(st), wrote, swapped)
  {
    hide Later, SetStatus, Bounded;
  }

  lemma StepTracks(f: Cipher, k: Key, st: State, ev: Event, wrote: bool, swapped: bool)
    requires Bounded(st) && ReadsTaken(st) && Enabled(st, ev) && Tracks(st, wrote, swapped)
    requires Step(f, k, st, ev).fault == NoFault
    ensures Tracks(Step(f, k, st, ev), ev == Written(false) || (wrote && !Receives(ev)),
                   !Receives(ev) && (swapped || (Takes(ev) && wrote)))
  {
    hide CandidateTotal, Head, HeaderTotal, PlainLength, Decrypted, LoopTop, Later, OnAccept, OnCandidateHeader, OnSend,
         OnWritten, OnClose, OnCandidateBody, OnHeaderRead, OnHeaderFails, OnBodyRead, OnBodyEnds, ReadsTaken;
    match ev
    case Accept(peer) => OthersTrack(f, k, st, peer, true, wrote, swapped);
    case CandidateHeader(s, n, stale) =>
      var total := CandidateTotal(f, k, st.sockets[s].inbox, n, stale);
      CandidateTracks(st, s, n, total, false, wrote, swapped);
    case CandidateBody(s, ok) =>
      CandidateTracks(st, s, 0, 0, ok, wrote, swapped);
      if !ok {
        Faults.CandidateStepFits(st, s, ok);
      }
    case Send(_) => OthersTrack(f, k, st, Stranger([]), true, wrote, swapped);
    case Written(ok) => OthersTrack(f, k, st, Stranger([]), ok, wrote, swapped);
    case Close => CloseTracks(st, wrote, swapped);
    case LoopEnds =>
    case HeaderRead =>
      var h := Head(st.sockets[st.rx.sock].inbox);
      ReceiverIssues(st, h, PlainLength(f, k, h), HeaderTotal(f, k, h), 0, None);
    case BodyRead(n, stale) =>
      BodyIssues(st, n, Decrypted(f, k, st.rx.header, st.rx.len, st.sockets[st.rx.sock].inbox, n, stale));
    case BodyEnds(n, stale) =>
      BodyIssues(st, n, Decrypted(f, k, st.rx.header, st.rx.len, st.sockets[st.rx.sock].inbox, n, stale));
    case HeaderFails(n) => ReceiverIssues(st, Header(Zeros(12), Zeros(16), Zeros(16), Zeros(8)), 0, 0, n, None);
    case _ => ReceiverIssues(st, Header(Zeros(12), Zeros(16), Zeros(16), Zeros(8)), 0, 0, 0, None);
  }

  lemma {:induction false} AlwaysTracks(f: Cipher, k: Key, evs: seq<Event>)
    requires Run(f, k, evs).Some? && Run(f, k, evs).value.fault == NoFault
    ensures Tracks(Run(f, k, evs).value, WroteSince(evs), SwappedSince(evs))
    decreases |evs|
  {
    hide Step, Enabled, Tracks, WroteSince, SwappedSince, AllTraced, ReadsTaken;
    if evs == [] {
      NothingTracked();
    } else {
      var n := |evs| - 1;
      var st := Run(f, k, evs[..n]).value;
      EnabledIsSound(st, evs[n]);
      AlwaysTracks(f, k, evs[..n]);
      AlwaysTraced(f, k, evs[..n]);
      ReadsAreTaken(f, k, st);
      StepTracks(f, k, st, evs[n], WroteSince(evs[..n]), SwappedSince(evs[..n]));
      WroteStep(evs);
      SwappedStep(evs);
    }
  }

  lemma NothingTracked()
    ensures Tracks(INIT, WroteSince([]), SwappedSince([]))
  {
  }

  /** Socket `s`, which was current, is closed by a step. */
  predicate Closes(st: State, r: State, s: nat) {
    && s < |st.sockets| && s < |r.sockets|
    && st.sockets[s].status == Current && r.sockets[s].status == Closed
  }

  lemma FailureCloses(st: State, n: nat, s: nat)
    requires Safe(st) && st.rx.ReadingHeader? && n <= |st.sockets[st.rx.sock].inbox| && st.fault == NoFault
    ensures Closes(st, OnHeaderFails(st, n), s) <==> !st.stopped && st.conn == Some(s)
  {
    if s < |st.sockets| {
      assert Entered(st.sockets[s], s, st.conn, st.replace);
    }
    if st.replace.Some? {
      assert Entered(st.sockets[st.replace.value], st.replace.value, st.conn, st.replace);
    }
    hide Ledger, Later;
  }

  /**
   In every run, a header read that fails closes a socket other than the one it was on exactly when the server
   is not stopped, a SendTo write failed since ReceiveFrom moved last, and after that a candidate got through:
   the failed write cancels the read, and by the time ReceiveFrom looks, `conn_socket` is the new one.
  */
  lemma ClosesAnotherIff(f: Cipher, k: Key, evs: seq<Event>, st: State, n: nat)
    requires Run(f, k, evs) == Some(st) && Bounded(st) && Enabled(st, HeaderFails(n))
    ensures (exists s: nat :: s != st.rx.sock && Closes(st, Step(f, k, st, HeaderFails(n)), s))
            <==> !st.stopped && SwappedSince(evs)
  {
    AlwaysSafe(f, k, evs);
    AlwaysTracks(f, k, evs);
    hide Run, Ledger, OnHeaderFails, SwappedSince, WroteSince, Closes;
    forall s: nat ensures Closes(st, Step(f, k, st, HeaderFails(n)), s) <==> !st.stopped && st.conn == Some(s) {
      FailureCloses(st, n, s);
    }
    if !st.stopped && SwappedSince(evs) {
      assert st.conn.Some? && st.conn.value != st.rx.sock;
      assert Closes(st, Step(f, k, st, HeaderFails(n)), st.conn.value);
    }
  }

  /** A write fails on the first client, a second one gets through in its place, and the failed read closes
      that one unread: no socket is left, and the server waits. */
  lemma SecondClientClosedUnread(f: Cipher, k: Key, x: Sent, ys: seq<Sent>, z: Sent)
      returns (evs: seq<Event>, st: State)
    requires Sendable(x) && AllSendable(ys) && Sendable(z) && Opens(f, k, x) && Opens(f, k, z)
    ensures Run(f, k, evs) == Some(st) && st.fault == NoFault && !st.stopped
    ensures st.chosen == [0, 1] && |st.sockets| == 2 && st.sockets[1].status == Closed
    ensures st.conn.None? && st.rx == Parked(false)
  {
    ConnectsTo(f, k, x, ys);
    var s0 := Connected(f, k, x, ys);
    hide StreamOf, BodyOf, BodySize, Later;
    var e0 := Connects(x, ys);
    RunOn(f, k, e0, Call, s0);
    var s1 := s0.(rx := ReadingHeader(0));
    RunOn(f, k, e0 + [Call], Send(x), s1);
    var s2 := s1.(tx := Writing(0, x));
    RunOn(f, k, e0 + [Call] + [Send(x)], Written(false), s2);
    var s3 := s2.(tx := Idle, selected := false, writeFailed := true);
    assert s2.wire + [] == s2.wire;
    evs, st := NextThenClosed(f, k, e0 + [Call] + [Send(x)] + [Written(false)], s3, z);
  }

  lemma NextThenClosed(f: Cipher, k: Key, evs: seq<Event>, st: State, z: Sent) returns (all: seq<Event>, r: State)
    requires Run(f, k, evs) == Some(st) && st.fault == NoFault && st.accepting && !st.stopped && !st.selected
    requires st.rx == ReadingHeader(0) && st.conn == Some(0) && st.replace.None?
    requires |st.sockets| == 1 && st.chosen == [0] && Sendable(z) && Opens(f, k, z)
    ensures Run(f, k, all) == Some(r) && r.fault == NoFault && !r.stopped
    ensures r.chosen == [0, 1] && |r.sockets| == 2 && r.sockets[1].status == Closed
    ensures r.conn.None? && r.rx == Parked(false)
  {
    hide Run, Opens, BodyOf, BodySize;
    var e1, s1 := NextWaits(f, k, evs, st, z, []);
    all, r := ChosenThenClosed(f, k, e1, s1);
  }

  lemma ChosenThenClosed(f: Cipher, k: Key, evs: seq<Event>, st: State) returns (all: seq<Event>, r: State)
    requires Run(f, k, evs) == Some(st) && st.fault == NoFault && st.accepting && !st.stopped && !st.selected
    requires st.rx == ReadingHeader(0) && st.conn == Some(0) && st.replace.None?
    requires |st.sockets| == 2 && st.chosen == [0]
    requires st.sockets[1].status.AwaitingBody? && st.sockets[1].status.total <= |st.sockets[1].inbox|
    ensures Run(f, k, all) == Some(r) && r.fault == NoFault && !r.stopped
    ensures r.chosen == [0, 1] && |r.sockets| == 2 && r.sockets[1].status == Closed
    ensures r.conn.None? && r.rx == Parked(false)
  {
    hide Run, Later;
    RunOn(f, k, evs, CandidateBody(1, true), st);
    var s1 := Step(f, k, st, CandidateBody(1, true));
    RunOn(f, k, evs + [CandidateBody(1, true)], HeaderFails(0), s1);
    all, r := evs + [CandidateBody(1, true)] + [HeaderFails(0)], Step(f, k, s1, HeaderFails(0));
  }

  // ----- the header read that the failed write comes too late to cancel -----

  /** What follows a header: a body read on what conn_socket holds, which need not be where the header was. */
  lemma HeaderReadIssues(st: State, h: Header, len: nat, total: nat)
    requires Bounded(st) && st.fault == NoFault && st.rx.ReadingHeader? && SIZE <= |st.sockets[st.rx.sock].inbox|
    requires |h.lengths| == LENGTHS_BYTES
    ensures var r := OnHeaderRead(st, h, len, total);
            && r.conn == st.conn
            && (r.rx.ReadingBody? <==> 0 < total <= BODY_ROOM && st.conn.Some?)
            && (r.rx.ReadingBody? ==>
                  && r.rx == ReadingBody(st.conn.value, h, len, total)
                  && |r.sockets| == |st.sockets|
                  && r.sockets[st.rx.sock].inbox == st.sockets[st.rx.sock].inbox[SIZE..])
  {
    ConsumedInbox(st.sockets, st.rx.sock);
    LoopTopReadsNoBody(st.(sockets := Consume(st.sockets, st.rx.sock, SIZE)));
    hide Later, Apart, LoopTop, Consume;
    if total == 0 {
    } else if st.conn.None? {
    } else if total > BODY_ROOM {
    } else {
    }
  }

  lemma LoopTopReadsNoBody(st: State)
    requires Bounded(st) && !st.rx.ReadingBody?
    ensures !LoopTop(st).rx.ReadingBody?
  {
  }

  lemma ConsumedInbox(sockets: seq<Socket>, s: nat)
    requires s < |sockets| && SIZE <= |sockets[s].inbox|
    ensures Consume(sockets, s, SIZE)[s].inbox == sockets[s].inbox[SIZE..]
  {
  }

  /**
   In every run, a header that opens is followed by a body read on the socket that `conn_socket` holds by then;
   and that is another socket than the header came from exactly when a SendTo write failed since ReceiveFrom
   moved last, and after that a candidate got through.
  */
  lemma BodyFromAnotherIff(f: Cipher, k: Key, evs: seq<Event>, st: State)
    requires Run(f, k, evs) == Some(st) && Bounded(st) && Enabled(st, HeaderRead)
    ensures var r := Step(f, k, st, HeaderRead);
            var total := HeaderTotal(f, k, Head(st.sockets[st.rx.sock].inbox));
            && (r.rx.ReadingBody? <==> 0 < total <= BODY_ROOM && st.conn.Some?)
            && (r.rx.ReadingBody? ==>
                  && r.conn == Some(r.rx.sock)
                  && (r.rx.sock != st.rx.sock <==> SwappedSince(evs))
                  && |r.sockets| == |st.sockets|
                  && r.sockets[st.rx.sock].inbox == st.sockets[st.rx.sock].inbox[SIZE..])
  {
    AlwaysSafe(f, k, evs);
    AlwaysTracks(f, k, evs);
    hide Run, Ledger, OnHeaderRead, SwappedSince, WroteSince, Head, HeaderTotal, PlainLength, Later, Apart;
    var h := Head(st.sockets[st.rx.sock].inbox);
    HeaderReadIssues(st, h, PlainLength(f, k, h), HeaderTotal(f, k, h));
  }

  /** A header of the first client is read; a write to it has failed meanwhile, and the second has got through:
      the body is read from the second. */
  lemma BodyFromTheSecond(f: Cipher, k: Key, x: Sent, y: Sent, z: Sent, ws: seq<Sent>)
      returns (evs: seq<Event>, st: State)
    requires Sendable(x) && Sendable(y) && Sendable(z) && AllSendable(ws)
    requires Opens(f, k, x) && Opens(f, k, y) && Opens(f, k, z)
    ensures Run(f, k, evs) == Some(st) && st.fault == NoFault && !st.stopped && |st.sockets| == 2
    ensures st.rx == ReadingBody(1, HeaderOf(f, k, y), |y.payload|, BodySize(y)) && st.conn == Some(1)
    ensures st.sockets[0].inbox == BodyOf(f, k, y) && st.sockets[1].inbox == StreamOf(f, k, ws)
  {
    ConnectsTo(f, k, x, [y]);
    var s0 := Connected(f, k, x, [y]);
    OneFrame(f, k, y);
    hide StreamOf, FrameOf, BodyOf, BodySize, HeaderOf, Later, Apart;
    var e0 := Connects(x, [y]);
    RunOn(f, k, e0, Call, s0);
    var s1 := s0.(rx := ReadingHeader(0));
    RunOn(f, k, e0 + [Call], Send(x), s1);
    var s2 := s1.(tx := Writing(0, x));
    RunOn(f, k, e0 + [Call] + [Send(x)], Written(false), s2);
    var s3 := s2.(tx := Idle, selected := false, writeFailed := true);
    assert s2.wire + [] == s2.wire;
    var e4, s4 := NextWaits(f, k, e0 + [Call] + [Send(x)] + [Written(false)], s3, z, ws);
    assert (BodyOf(f, k, z) + StreamOf(f, k, ws))[BodySize(z)..] == StreamOf(f, k, ws);
    evs, st := ChosenThenRead(f, k, e4, s4, y);
  }

  lemma ChosenThenRead(f: Cipher, k: Key, evs: seq<Event>, st: State, y: Sent) returns (all: seq<Event>, r: State)
    requires Run(f, k, evs) == Some(st) && st.fault == NoFault && st.accepting && !st.stopped && !st.selected
    requires st.rx == ReadingHeader(0) && st.conn == Some(0) && st.replace.None? && |st.sockets| == 2
    requires Sendable(y) && Opens(f, k, y) && st.sockets[0].inbox == FrameOf(f, k, y) + []
    requires st.sockets[1].status.AwaitingBody? && st.sockets[1].status.total <= |st.sockets[1].inbox|
    ensures Run(f, k, all) == Some(r) && r.fault == NoFault && !r.stopped && |r.sockets| == 2 && r.conn == Some(1)
    ensures r.rx == ReadingBody(1, HeaderOf(f, k, y), |y.payload|, BodySize(y))
    ensures r.sockets[0].inbox == BodyOf(f, k, y)
    ensures r.sockets[1].inbox == st.sockets[1].inbox[st.sockets[1].status.total..]
  {
    FirstHeader(f, k, y, []);
    PlainLengthOf(f, k, y);
    hide Run, Later, Apart, Head, HeaderTotal, CandidateTotal, PlainLength, FrameOf, BodyOf, BodySize, HeaderOf;
    assert BodyOf(f, k, y) + [] == BodyOf(f, k, y);
    RunOn(f, k, evs, CandidateBody(1, true), st);
    var s1 := Step(f, k, st, CandidateBody(1, true));
    RunOn(f, k, evs + [CandidateBody(1, true)], HeaderRead, s1);
    all, r := evs + [CandidateBody(1, true)] + [HeaderRead], Step(f, k, s1, HeaderRead);
  }
}
