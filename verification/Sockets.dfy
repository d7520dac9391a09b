/** What becomes of the server's sockets: closed by Close, by a failed read, or not at all. */
module Sockets {
  import opened ByteStrings
  import opened Aead
  import opened ProtocolHeader
  import opened Frames
  import opened Streams
  import opened Selection
  import opened HandOver
  import opened Provenance
  import opened Delivery
  import FailedWrites

  // ----- Close -----

  /** `r` has the sockets of `st`, but for socket `c`, which is closed. */
  ghost predicate OneClosed(st: State, r: State, c: nat) {
    && c < |st.sockets| && |r.sockets| == |st.sockets|
    && st.sockets[c].status == Current && r.sockets[c] == st.sockets[c].(status := Closed)
    && forall t | 0 <= t < |st.sockets| && t != c :: r.sockets[t] == st.sockets[t]
  }

  lemma CloseCloses(st: State)
    requires Safe(st) && st.fault == NoFault
    ensures var r := OnClose(st);
            && r.fault == NoFault && !r.accepting && r.chosen == st.chosen
            && (r.stopped && !st.stopped <==> st.rx != Exited && st.selected)
            && (if r.stopped && !st.stopped
                then st.conn.Some? && OneClosed(st, r, st.conn.value) && r.conn.None? && !r.selected
                else r.sockets == st.sockets && r.conn == st.conn && r.selected == st.selected)
  {
    if st.conn.Some? {
      assert Entered(st.sockets[st.conn.value], st.conn.value, st.conn, st.replace);
    }
    hide Ledger, Later, Apart;
  }

  /** In every run, Close takes effect exactly when the receive loop has not returned and a socket is selected;
      it then closes that socket, leaves all others as they are, the one in reserve included, and lets go of
      it. Otherwise it closes the acceptor and nothing else. */
  lemma CloseClosesIff(f: Cipher, k: Key, evs: seq<Event>, st: State)
    requires Run(f, k, evs) == Some(st) && Bounded(st) && Enabled(st, Close)
    ensures var r := Step(f, k, st, Close);
            && r.fault == NoFault && !r.accepting && r.chosen == st.chosen
            && (r.stopped && !st.stopped <==> st.rx != Exited && st.selected)
            && (if r.stopped && !st.stopped
                then st.conn.Some? && OneClosed(st, r, st.conn.value) && r.conn.None? && !r.selected
                else r.sockets == st.sockets && r.conn == st.conn && r.selected == st.selected)
  {
    AlwaysSafe(f, k, evs);
    hide Run, OnClose, Safe;
    CloseCloses(st);
  }

  // ----- once stopped -----

  /** No socket that was taken changes its place. */
  ghost predicate Settled(st: State, r: State) {
    && r.chosen == st.chosen && r.replace == st.replace && |st.sockets| <= |r.sockets|
    && forall t | 0 <= t < |st.sockets| && Taken(st.sockets[t].status) :: r.sockets[t].status == st.sockets[t].status
  }

  lemma ConsumedSettles(st: State, r: State, s: nat, n: nat)
    requires s < |st.sockets| && n <= |st.sockets[s].inbox|
    requires r.sockets == st.sockets || r.sockets == Consume(st.sockets, s, n)
    requires r.chosen == st.chosen && r.replace == st.replace
    ensures Settled(st, r)
  {
  }

  lemma CandidateSettles(st: State, s: nat, n: nat, total: nat, ok: bool)
    requires Bounded(st) && s < |st.sockets| && !Taken(st.sockets[s].status)
    ensures n <= |st.sockets[s].inbox| ==> Settled(st, OnCandidateHeader(st, s, n, total))
    ensures !st.accepting && st.sockets[s].status.AwaitingBody?
            && (ok ==> st.sockets[s].status.total <= |st.sockets[s].inbox|)
            ==> Settled(st, OnCandidateBody(st, s, ok))
  {
    hide Later, Apart, Bounded, Choose, Reserve;
  }

  lemma HeaderSettles(st: State, h: Header, len: nat, total: nat)
    requires Bounded(st) && st.rx.ReadingHeader? && SIZE <= |st.sockets[st.rx.sock].inbox|
    requires |h.lengths| == LENGTHS_BYTES
    ensures Settled(st, OnHeaderRead(st, h, len, total))
  {
    hide Later, Apart, LoopTop, Consume, Settled;
    var r := OnHeaderRead(st, h, len, total);
    if total == 0 {
    } else if st.conn.None? {
    } else if total > BODY_ROOM {
    } else {
    }
    ConsumedSettles(st, r, st.rx.sock, SIZE);
  }

  lemma HeaderFailsSettles(st: State, n: nat)
    requires Bounded(st) && st.rx.ReadingHeader? && st.stopped && n <= |st.sockets[st.rx.sock].inbox|
    ensures Settled(st, OnHeaderFails(st, n))
  {
    hide Later, Apart, LoopTop, Consume, SetStatus, Settled;
    ConsumedSettles(st, OnHeaderFails(st, n), st.rx.sock, n);
  }

  lemma BodySettles(st: State, n: nat, got: Option<Bytes>)
    requires Bounded(st) && st.rx.ReadingBody? && n <= |st.sockets[st.rx.sock].inbox|
    ensures Settled(st, OnBodyRead(st, n, got)) && Settled(st, OnBodyEnds(st, n, got))
  {
    hide Later, Apart, LoopTop, Consume, Settled;
    var r, e := OnBodyRead(st, n, got), OnBodyEnds(st, n, got);
    if n == 0 || got.None? {
    } else if n == st.rx.total {
    } else {
    }
    ConsumedSettles(st, r, st.rx.sock, n);
    ConsumedSettles(st, e, st.rx.sock, |st.sockets[st.rx.sock].inbox|);
  }

  lemma SenderSettles(st: State, ok: bool)
    requires Bounded(st)
    ensures (forall x :: Settled(st, OnSend(st, x))) && Settled(st, OnWritten(st, ok))
  {
    hide Later, Bounded, Taken;
  }

  lemma OthersSettle(f: Cipher, k: Key, st: State, peer: Peer)
    requires Bounded(st)
    ensures (peer.Client? ==> AllSendable(peer.xs)) ==> Settled(st, OnAccept(f, k, st, peer))
    ensures Settled(st, LoopTop(st)) && Settled(st, st.(rx := Exited)) && (!st.selected ==> Settled(st, OnClose(st)))
  {
    hide Later, Apart, Bounded, BytesOf, Taken;
  }

  lemma StepSettles(f: Cipher, k: Key, st: State, ev: Event)
    requires Safe(st) && st.stopped && Enabled(st, ev)
    ensures Settled(st, Step(f, k, st, ev))
  {
    hide Settled, Ledger, CandidateTotal, Head, HeaderTotal, PlainLength, Decrypted, LoopTop, Later, OnAccept,
         OnCandidateHeader, OnCandidateBody, OnHeaderRead, OnHeaderFails, OnBodyRead, OnBodyEnds, OnSend, OnWritten,
         OnClose;
    match ev
    case Accept(peer) => OthersSettle(f, k, st, peer);
    case CandidateHeader(s, n, stale) =>
      CandidateSettles(st, s, n, CandidateTotal(f, k, st.sockets[s].inbox, n, stale), false);
    case CandidateBody(s, ok) => CandidateSettles(st, s, 0, 0, ok);
    case HeaderRead =>
      var h := Head(st.sockets[st.rx.sock].inbox);
      HeaderSettles(st, h, PlainLength(f, k, h), HeaderTotal(f, k, h));
    case HeaderFails(n) => HeaderFailsSettles(st, n);
    case BodyRead(n, stale) =>
      BodySettles(st, n, Decrypted(f, k, st.rx.header, st.rx.len, st.sockets[st.rx.sock].inbox, n, stale));
    case BodyEnds(n, stale) =>
      BodySettles(st, n, Decrypted(f, k, st.rx.header, st.rx.len, st.sockets[st.rx.sock].inbox, n, stale));
    case Send(_) => SenderSettles(st, true);
    case Written(ok) => SenderSettles(st, ok);
    case _ => OthersSettle(f, k, st, Stranger([]));
  }

  /** Once Close has taken effect, nobody is chosen any more and no socket that was taken changes its place,
      whatever follows: in particular the one held in reserve is neither read nor closed. */
  lemma {:induction false} StopSettles(f: Cipher, k: Key, evs: seq<Event>, more: seq<Event>)
    requires Run(f, k, evs).Some? && Run(f, k, evs).value.stopped && Run(f, k, evs + more).Some?
    ensures Run(f, k, evs + more).value.stopped
    ensures Settled(Run(f, k, evs).value, Run(f, k, evs + more).value)
    decreases |more|
  {
    hide Step, Enabled, Safe;
    if more == [] {
      assert evs + more == evs;
    } else {
      var n := |more| - 1;
      assert (evs + more)[..|evs + more| - 1] == evs + more[..n] && (evs + more)[|evs + more| - 1] == more[n];
      StopSettles(f, k, evs, more[..n]);
      AlwaysSafe(f, k, evs + more[..n]);
      StepSettles(f, k, Run(f, k, evs + more[..n]).value, more[n]);
    }
  }

  // ----- runs without a failed write -----

  /** Of the sockets, exactly those ever chosen are current or closed. */
  ghost predicate ChosenAreKnown(st: State) {
    && (forall i | 0 <= i < |st.chosen| :: WasChosen(st, st.chosen[i]))
    && forall s | 0 <= s < |st.sockets| :: Named(st.sockets[s].status) <==> s in st.chosen
  }

  lemma KnownFrom(st: State)
    requires Once(st) && forall i | 0 <= i < |st.chosen| :: WasChosen(st, st.chosen[i])
    ensures ChosenAreKnown(st)
  {
    hide Distinct;
    forall s | 0 <= s < |st.sockets| && s in st.chosen ensures Named(st.sockets[s].status) {
      var i :| 0 <= i < |st.chosen| && st.chosen[i] == s;
      assert WasChosen(st, st.chosen[i]);
    }
  }

  lemma SettledKnown(st: State, r: State)
    requires ChosenAreKnown(st) && Settled(st, r)
    ensures forall i | 0 <= i < |r.chosen| :: WasChosen(r, r.chosen[i])
  {
    forall i | 0 <= i < |r.chosen| ensures WasChosen(r, r.chosen[i]) {
      assert WasChosen(st, st.chosen[i]);
    }
  }

  lemma ClosedKnown(st: State, r: State, c: nat)
    requires ChosenAreKnown(st) && OneClosed(st, r, c) && r.chosen == st.chosen
    ensures forall i | 0 <= i < |r.chosen| :: WasChosen(r, r.chosen[i])
  {
    forall i | 0 <= i < |r.chosen| ensures WasChosen(r, r.chosen[i]) {
      assert WasChosen(st, st.chosen[i]);
    }
  }

  /**
   In every run without a failed SendTo write, before Close and after: the sockets that are current or closed are
   exactly those that were ever chosen. None is dropped unclosed.
  */
  lemma {:induction false} ChosenAreClosed(f: Cipher, k: Key, evs: seq<Event>)
    requires Run(f, k, evs).Some? && !Run(f, k, evs).value.writeFailed
    ensures ChosenAreKnown(Run(f, k, evs).value)
  {
    var r := Run(f, k, evs).value;
    NeverChosenTwice(f, k, evs);
    if !r.stopped {
      AlwaysHandsOver(f, k, evs);
    } else {
      var n := |evs| - 1;
      var st := Run(f, k, evs[..n]).value;
      AlwaysSafe(f, k, evs[..n]);
      hide Step, Enabled, Safe, Once, ChosenAreKnown, OneClosed, Settled;
      ChosenAreClosed(f, k, evs[..n]);
      if st.stopped {
        StepSettles(f, k, st, evs[n]);
        SettledKnown(st, r);
      } else {
        FailedWrites.StepDangles(f, k, st, evs[n]);
        CloseClosesIff(f, k, evs[..n], st);
        ClosedKnown(st, r, st.conn.value);
      }
    }
    KnownFrom(r);
  }

  /** And in every run at all, whatever is closed was chosen before. */
  lemma ClosedWereChosen(f: Cipher, k: Key, evs: seq<Event>, st: State, s: nat)
    requires Run(f, k, evs) == Some(st) && s < |st.sockets| && st.sockets[s].status == Closed
    ensures s in st.chosen
  {
    NeverChosenTwice(f, k, evs);
  }
}
