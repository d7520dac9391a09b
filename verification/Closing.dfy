/** How the server's receive loop ends, and how Close leaves it hanging. */
module Closing {
  import opened ByteStrings
  import opened Aead
  import opened ProtocolHeader
  import opened Frames
  import opened Streams
  import opened Selection
  import opened Faults
  import opened Provenance
  import FailedWrites

  ghost predicate Silent(st: State, r: State) {
    r.rx == Exited && r.delivered == st.delivered
  }

  lemma CandidatesAreSilent(st: State, s: nat, n: nat, total: nat, ok: bool)
    requires Bounded(st) && st.rx == Exited && s < |st.sockets|
    ensures n <= |st.sockets[s].inbox| ==> Silent(st, OnCandidateHeader(st, s, n, total))
    ensures st.sockets[s].status.AwaitingBody? && (ok ==> st.sockets[s].status.total <= |st.sockets[s].inbox|)
            ==> Silent(st, OnCandidateBody(st, s, ok))
  {
    hide Later, SetStatus, Bounded;
  }

  lemma OthersAreSilent(f: Cipher, k: Key, st: State, peer: Peer, ok: bool)
    requires Bounded(st) && st.rx == Exited
    ensures (peer.Client? ==> AllSendable(peer.xs)) ==> Silent(st, OnAccept(f, k, st, peer))
    ensures (forall x :: Silent(st, OnSend(st, x))) && Silent(st, OnWritten(st, ok)) && Silent(st, OnClose(st))
  {
    hide Later, SetStatus, Bounded, BytesOf;
  }

  /** No step brings the receive loop back, or a packet out of it. */
  lemma StepAfterExit(f: Cipher, k: Key, st: State, ev: Event)
    requires Bounded(st) && Enabled(st, ev) && st.rx == Exited
    ensures Silent(st, Step(f, k, st, ev))
  {
    hide Later, Bounded, CandidateTotal, Head, HeaderTotal, PlainLength, Decrypted, OnAccept, OnSend, OnWritten,
         OnClose, OnCandidateHeader, OnCandidateBody, OnHeaderRead, OnHeaderFails, OnBodyRead, OnBodyEnds, LoopTop;
    match ev
    case Accept(peer) => OthersAreSilent(f, k, st, peer, false);
    case CandidateHeader(s, n, stale) =>
      CandidatesAreSilent(st, s, n, CandidateTotal(f, k, st.sockets[s].inbox, n, stale), false);
    case CandidateBody(s, ok) => CandidatesAreSilent(st, s, 0, 0, ok);
    case Written(ok) => OthersAreSilent(f, k, st, Stranger([]), ok);
    case _ => OthersAreSilent(f, k, st, Stranger([]), false);
  }

  /** The receive loop returns once and for all: whoever connects afterwards, nothing more is delivered. */
  lemma {:induction false} ExitIsFinal(f: Cipher, k: Key, evs: seq<Event>, more: seq<Event>)
    requires Run(f, k, evs).Some? && Run(f, k, evs).value.rx == Exited && Run(f, k, evs + more).Some?
    ensures Run(f, k, evs + more).value.rx == Exited
    ensures Run(f, k, evs + more).value.delivered == Run(f, k, evs).value.delivered
    decreases |more|
  {
    hide Step, Enabled;
    if more == [] {
      assert evs + more == evs;
    } else {
      var n := |more| - 1;
      assert (evs + more)[..|evs + more| - 1] == evs + more[..n] && (evs + more)[|evs + more| - 1] == more[n];
      ExitIsFinal(f, k, evs, more[..n]);
      StepAfterExit(f, k, Run(f, k, evs + more[..n]).value, more[n]);
    }
  }

  /** Close while a header read is pending: when that read fails, the loop returns, and with it delivery ends. */
  lemma CloseThenFailedReadExits(f: Cipher, k: Key, st: State, n: nat)
    requires Safe(st) && st.fault == NoFault && st.selected && st.rx.ReadingHeader?
    requires n < SIZE && n <= |st.sockets[st.rx.sock].inbox|
    ensures var closed := Step(f, k, st, Close);
            && closed.stopped && closed.conn.None? && closed.fault == NoFault
            && Enabled(closed, HeaderFails(n)) && Step(f, k, closed, HeaderFails(n)).rx == Exited
  {
    hide Ledger, Later;
  }

  /** ReceiveFrom waits on the timer, nobody has woken it, and the acceptor is closed. */
  predicate Stuck(st: State) {
    st.rx == Parked(false) && !st.accepting && !st.selected
  }

  lemma CandidateKeepsStuck(st: State, s: nat, n: nat, total: nat, ok: bool)
    requires Bounded(st) && Stuck(st) && s < |st.sockets|
    ensures n <= |st.sockets[s].inbox| ==> Stuck(OnCandidateHeader(st, s, n, total))
    ensures (st.sockets[s].status.AwaitingBody? && (ok ==> st.sockets[s].status.total <= |st.sockets[s].inbox|))
            ==> Stuck(OnCandidateBody(st, s, ok))
  {
    hide Later, Bounded, SetStatus;
  }

  lemma StepKeepsStuck(f: Cipher, k: Key, st: State, ev: Event)
    requires Bounded(st) && Enabled(st, ev) && Stuck(st)
    ensures Stuck(Step(f, k, st, ev))
  {
    hide CandidateTotal, Head, HeaderTotal, PlainLength, Decrypted, LoopTop, Later, OnCandidateHeader, OnCandidateBody,
         OnHeaderRead, OnHeaderFails, OnBodyRead, OnBodyEnds, BytesOf;
    match ev
    case CandidateHeader(s, n, stale) =>
      CandidateKeepsStuck(st, s, n, CandidateTotal(f, k, st.sockets[s].inbox, n, stale), false);
    case CandidateBody(s, ok) => CandidateKeepsStuck(st, s, 0, 0, ok);
    case _ =>
  }

  lemma {:induction false} StaysStuck(f: Cipher, k: Key, evs: seq<Event>, more: seq<Event>)
    requires Run(f, k, evs).Some? && Stuck(Run(f, k, evs).value) && Run(f, k, evs + more).Some?
    ensures Stuck(Run(f, k, evs + more).value)
    decreases |more|
  {
    hide Step, Enabled, Stuck;
    if more == [] {
      assert evs + more == evs;
    } else {
      var n := |more| - 1;
      assert (evs + more)[..|evs + more| - 1] == evs + more[..n] && (evs + more)[|evs + more| - 1] == more[n];
      StaysStuck(f, k, evs, more[..n]);
      StepKeepsStuck(f, k, Run(f, k, evs + more[..n]).value, more[n]);
    }
  }

  /** A parked ReceiveFrom that nobody has woken yet can ever go on exactly when the acceptor is still open:
      Close does not wake it, and after Close nobody else can. */
  lemma ParkedResumesIff(f: Cipher, k: Key, evs: seq<Event>, st: State, x: Sent)
    requires Run(f, k, evs) == Some(st) && st.fault == NoFault && st.rx == Parked(false)
    requires Sendable(x) && Opens(f, k, x)
    ensures (exists more :: Run(f, k, evs + more).Some? && Run(f, k, evs + more).value.rx != Parked(false))
            <==> st.accepting
  {
    AlwaysSafe(f, k, evs);
    assert !st.selected;
    hide Run, Safe;
    if st.accepting {
      var more := ParkedIsWoken(f, k, evs, st, x);
    } else {
      forall more | Run(f, k, evs + more).Some? ensures Run(f, k, evs + more).value.rx == Parked(false) {
        StaysStuck(f, k, evs, more);
      }
    }
  }

  /** Somebody gets through, and the loop is woken. */
  lemma ParkedIsWoken(f: Cipher, k: Key, evs: seq<Event>, st: State, x: Sent) returns (more: seq<Event>)
    requires Run(f, k, evs) == Some(st) && st.fault == NoFault && st.rx == Parked(false) && !st.selected && st.accepting
    requires Sendable(x) && Opens(f, k, x)
    ensures Run(f, k, evs + more).Some? && Run(f, k, evs + more).value.rx == Parked(true)
  {
    hide Run, Admitted, Encode, HeaderOf, BodySize;
    var bytes := Encode(HeaderOf(f, k, x)) + Zeros(BodySize(x));
    ReplayIsAdmitted(f, k, x, Zeros(BodySize(x)));
    var e1 := Accept(Stranger(bytes));
    var st1 := NextAccepted(f, k, evs, st, bytes);
    var e2 := AdmittedIsTaken(f, k, evs + [e1], st1, |st.sockets|);
    more := [e1] + e2;
    assert evs + [e1] + e2 == evs + more;
  }

  lemma NextAccepted(f: Cipher, k: Key, evs: seq<Event>, st: State, bytes: Bytes) returns (r: State)
    requires Run(f, k, evs) == Some(st) && st.fault == NoFault && st.accepting
    ensures r == st.(sockets := st.sockets + [Socket(Stranger(bytes), AwaitingHeader, bytes)])
    ensures Run(f, k, evs + [Accept(Stranger(bytes))]) == Some(r)
  {
    RunOn(f, k, evs, Accept(Stranger(bytes)), st);
    r := OnAccept(f, k, st, Stranger(bytes));
  }

  /** Close before any client has connected: the receive loop never returns. */
  lemma CloseWhileParkedHangs(f: Cipher, k: Key, more: seq<Event>)
    requires Run(f, k, [Call, Close] + more).Some?
    ensures Run(f, k, [Call, Close] + more).value.rx == Parked(false)
  {
    RunOn(f, k, [], Call, INIT);
    assert [] + [Call] == [Call] && [Call] + [Close] == [Call, Close];
    RunOn(f, k, [Call], Close, INIT.(rx := Parked(false)));
    StaysStuck(f, k, [Call, Close], more);
  }

  // ----- can ReceiveFrom return -1? -----

  /** Close, as far as the receive loop is concerned. */
  lemma CloseFields(f: Cipher, k: Key, st: State)
    requires Safe(st) && Enabled(st, Close)
    ensures var r := Step(f, k, st, Close);
            && r.fault == NoFault && !r.accepting && r.rx == st.rx
            && (r.stopped <==> st.stopped || (st.selected && st.rx != Exited))
  {
    hide Ledger, SetStatus, Later;
  }

  /** The server is stopped, and no header read is pending whose failure ReceiveFrom could act on. */
  predicate Missed(st: State) {
    st.stopped && !st.rx.ReadingHeader?
  }

  lemma ReceiverMisses(st: State, n: nat, got: Option<Bytes>)
    requires Bounded(st) && Missed(st) && !st.selected && st.conn.None?
    ensures Missed(LoopTop(st))
    ensures st.rx.ReadingBody? && n <= |st.sockets[st.rx.sock].inbox| ==> Missed(OnBodyRead(st, n, got))
    ensures st.rx.ReadingBody? ==> Missed(OnBodyEnds(st, n, got))
  {
    hide Later, Consume;
  }

  lemma OthersMiss(f: Cipher, k: Key, st: State, peer: Peer, ok: bool)
    requires Bounded(st) && Missed(st) && !st.selected && st.conn.None?
    ensures (peer.Client? ==> AllSendable(peer.xs)) ==> Missed(OnAccept(f, k, st, peer))
    ensures (forall x :: Missed(OnSend(st, x))) && Missed(OnWritten(st, ok)) && Missed(OnClose(st))
    ensures Missed(st.(rx := Exited))
  {
    hide Later, SetStatus, BytesOf;
  }

  lemma CandidateMisses(st: State, s: nat, n: nat, total: nat, ok: bool)
    requires Bounded(st) && Missed(st) && !st.accepting && s < |st.sockets|
    ensures n <= |st.sockets[s].inbox| ==> Missed(OnCandidateHeader(st, s, n, total))
    ensures (st.sockets[s].status.AwaitingBody? && (ok ==> st.sockets[s].status.total <= |st.sockets[s].inbox|))
            ==> Missed(OnCandidateBody(st, s, ok))
  {
    hide Later, SetStatus;
  }

  lemma StepMisses(f: Cipher, k: Key, st: State, ev: Event)
    requires Safe(st) && Enabled(st, ev) && Missed(st)
    ensures Missed(Step(f, k, st, ev))
  {
    assert Bounded(st) && !st.selected && !st.accepting && st.conn.None?;
    hide Missed, Safe, CandidateTotal, Decrypted, LoopTop, Later, OnAccept, OnCandidateHeader, OnCandidateBody,
         OnBodyRead, OnBodyEnds, OnSend, OnWritten, OnClose;
    match ev
    case Accept(peer) => OthersMiss(f, k, st, peer, false);
    case CandidateHeader(s, n, stale) =>
      CandidateMisses(st, s, n, CandidateTotal(f, k, st.sockets[s].inbox, n, stale), false);
    case CandidateBody(s, ok) => CandidateMisses(st, s, 0, 0, ok);
    case BodyRead(n, stale) =>
      ReceiverMisses(st, n, Decrypted(f, k, st.rx.header, st.rx.len, st.sockets[st.rx.sock].inbox, n, stale));
    case BodyEnds(n, stale) =>
      ReceiverMisses(st, n, Decrypted(f, k, st.rx.header, st.rx.len, st.sockets[st.rx.sock].inbox, n, stale));
    case HeaderRead => NotReadingHeader(st);
    case HeaderFails(_) => NotReadingHeader(st);
    case Call => ReceiverMisses(st, 0, None);
    case Wake => ReceiverMisses(st, 0, None);
    case Written(ok) => OthersMiss(f, k, st, Stranger([]), ok);
    case _ => OthersMiss(f, k, st, Stranger([]), false);
  }

  lemma NotReadingHeader(st: State)
    requires Missed(st)
    ensures !st.rx.ReadingHeader?
  {
  }

  /** A header read fails, and ReceiveFrom finds the server stopped: it returns -1. */
  ghost predicate ReturnsStopped(f: Cipher, k: Key, evs: seq<Event>) {
    var r := Run(f, k, evs);
    r.Some? && Bounded(r.value) && r.value.stopped && Enabled(r.value, HeaderFails(0))
  }

  /** No further call of Close. */
  predicate NoClose(evs: seq<Event>) {
    forall i | 0 <= i < |evs| :: evs[i] != Close
  }

  /** Without Close, nothing is stopped; and a chance that is missed stays missed. */
  lemma {:induction false} StaysUnreturned(f: Cipher, k: Key, evs: seq<Event>, more: seq<Event>)
    requires Run(f, k, evs).Some? && Run(f, k, evs + more).Some? && NoClose(more)
    requires Missed(Run(f, k, evs).value) || !Run(f, k, evs).value.stopped
    ensures Missed(Run(f, k, evs + more).value) || !Run(f, k, evs + more).value.stopped
    decreases |more|
  {
    hide Step, Enabled, Missed, Safe;
    if more == [] {
      assert evs + more == evs;
    } else {
      var n := |more| - 1;
      assert (evs + more)[..|evs + more| - 1] == evs + more[..n] && (evs + more)[|evs + more| - 1] == more[n];
      StaysUnreturned(f, k, evs, more[..n]);
      var st := Run(f, k, evs + more[..n]).value;
      AlwaysSafe(f, k, evs + more[..n]);
      if Missed(st) {
        StepMisses(f, k, st, more[n]);
      } else {
        OnlyCloseStops(f, k, st, more[n]);
      }
    }
  }

  lemma OnlyCloseStops(f: Cipher, k: Key, st: State, ev: Event)
    requires Safe(st) && Enabled(st, ev) && ev != Close && !st.stopped
    ensures !Step(f, k, st, ev).stopped
  {
    hide Step;
    FailedWrites.StepDangles(f, k, st, ev);
  }

  /**
   Close is there to make ReceiveFrom return -1. From any state of any run, and without a second Close, it can
   still do so exactly when a header read is pending at the time of Close, and the server is selected or was
   stopped before. Between two calls, woken but not resumed, parked or in the middle of a body, the loop never
   hears of it.
  */
  lemma CloseIsHeardIff(f: Cipher, k: Key, evs: seq<Event>, st: State)
    requires Run(f, k, evs) == Some(st) && st.fault == NoFault
    ensures (exists more :: NoClose(more) && ReturnsStopped(f, k, evs + [Close] + more))
            <==> st.rx.ReadingHeader? && (st.selected || st.stopped)
  {
    AlwaysSafe(f, k, evs);
    var r := Closed(f, k, evs, st);
    hide Run, Safe, ReturnsStopped;
    if st.rx.ReadingHeader? && (st.selected || st.stopped) {
      assert evs + [Close] + [] == evs + [Close];
      HeardAtOnce(f, k, evs + [Close] + [], r);
      assert NoClose([]);
    } else {
      forall more | NoClose(more) ensures !ReturnsStopped(f, k, evs + [Close] + more) {
        NeverHeard(f, k, evs + [Close], r, more);
      }
    }
  }

  lemma Closed(f: Cipher, k: Key, evs: seq<Event>, st: State) returns (r: State)
    requires Run(f, k, evs) == Some(st) && Safe(st) && st.fault == NoFault
    ensures Run(f, k, evs + [Close]) == Some(r) && r.fault == NoFault && r.rx == st.rx
    ensures r.stopped <==> st.stopped || (st.selected && st.rx != Exited)
  {
    hide Run, Ledger, OnClose;
    CloseFields(f, k, st);
    RunOn(f, k, evs, Close, st);
    r := Step(f, k, st, Close);
  }

  lemma NeverHeard(f: Cipher, k: Key, evs: seq<Event>, r: State, more: seq<Event>)
    requires Run(f, k, evs) == Some(r) && NoClose(more) && (Missed(r) || !r.stopped)
    ensures !ReturnsStopped(f, k, evs + more)
  {
    hide Run, Missed, ReturnsStopped;
    if Run(f, k, evs + more).Some? {
      StaysUnreturned(f, k, evs, more);
    }
    NotReturned(f, k, evs + more);
  }

  lemma HeardAtOnce(f: Cipher, k: Key, evs: seq<Event>, r: State)
    requires Run(f, k, evs) == Some(r) && r.stopped && r.fault == NoFault && r.rx.ReadingHeader?
    ensures ReturnsStopped(f, k, evs)
  {
    hide Run;
  }

  lemma NotReturned(f: Cipher, k: Key, evs: seq<Event>)
    requires Run(f, k, evs).Some? ==> Missed(Run(f, k, evs).value) || !Run(f, k, evs).value.stopped
    ensures !ReturnsStopped(f, k, evs)
  {
    hide Run;
  }

  /** A selected client, a packet just handed on: Close comes between two calls of ReceiveFrom, the next call
      parks, and the loop never ends. */
  lemma CloseBetweenCallsHangs(f: Cipher, k: Key, x: Sent, ys: seq<Sent>, more: seq<Event>) returns (evs: seq<Event>)
    requires Sendable(x) && AllSendable(ys) && Opens(f, k, x)
    ensures evs == Connects(x, ys) + [Close] + [Call] && Run(f, k, evs).Some? && Run(f, k, evs).value.stopped
    ensures Run(f, k, evs + more).Some? ==> Run(f, k, evs + more).value.rx == Parked(false)
  {
    ConnectsTo(f, k, x, ys);
    var s0 := Connected(f, k, x, ys);
    hide StreamOf;
    RunOn(f, k, Connects(x, ys), Close, s0);
    var s1 := Step(f, k, s0, Close);
    RunOn(f, k, Connects(x, ys) + [Close], Call, s1);
    evs := Connects(x, ys) + [Close] + [Call];
    if Run(f, k, evs + more).Some? {
      StaysStuck(f, k, evs, more);
    }
  }
}
