/** Runs of the selection machine without a failed SendTo write, before Close takes effect: hand-over. */
module HandOver {
  import opened ByteStrings
  import opened Aead
  import opened ProtocolHeader
  import opened Frames
  import opened Selection

  ghost predicate LastIs(log: seq<nat>, s: nat) {
    log != [] && log[|log| - 1] == s
  }

  ghost predicate Distinct(log: seq<nat>) {
    forall i, j | 0 <= i < j < |log| :: log[i] != log[j]
  }

  ghost predicate HandsOver(st: State) {
    && (st.selected <==> st.conn.Some?)
    && (st.replace.Some? ==> st.selected)
    && (st.rx.ReadingHeader? || st.rx.ReadingBody? ==> st.conn == Some(st.rx.sock))
    && (st.rx == Parked(false) ==> st.conn.None? && st.replace.None?)
    && (st.replace.Some? ==> LastIs(st.verifiedLog, st.replace.value))
    && (st.conn.Some? ==> LastIs(st.chosen, st.conn.value))
    && Distinct(st.chosen)
    && (forall i | 0 <= i < |st.chosen| :: WasChosen(st, st.chosen[i]))
  }

  /** A socket that was conn_socket at some time is so now, or has been closed by the program. */
  ghost predicate WasChosen(st: State, s: nat) {
    s < |st.sockets| && (st.sockets[s].status == Current || st.sockets[s].status == Closed)
  }

  /** Nothing that undermines hand-over has happened yet. */
  predicate Undisturbed(st: State) {
    !st.writeFailed && !st.stopped
  }

  lemma LoopTopHandsOver(st: State)
    requires Bounded(st) && st.fault == NoFault && (st.selected <==> st.conn.Some?)
    requires HandsOver(st.(rx := Calling))
    ensures HandsOver(LoopTop(st))
  {
  }

  lemma SameSocketsHandOver(st: State, sockets: seq<Socket>)
    requires HandsOver(st) && |st.sockets| <= |sockets|
    requires forall s | 0 <= s < |st.sockets| ::
               || sockets[s].status == st.sockets[s].status
               || (!Held(st.sockets[s].status) && st.sockets[s].status != Closed)
    ensures HandsOver(st.(sockets := sockets))
  {
    var st' := st.(sockets := sockets);
    forall i | 0 <= i < |st.chosen| ensures WasChosen(st', st.chosen[i]) {
      assert WasChosen(st, st.chosen[i]);
    }
  }

  /** What is true of the sockets chosen so far stays true when one that never was is changed. */
  lemma OthersWereChosen(st: State, st': State, s: nat)
    requires HandsOver(st) && s < |st.sockets| == |st'.sockets|
    requires st.sockets[s].status != Current && st.sockets[s].status != Closed
    requires forall t | 0 <= t < |st.sockets| && t != s ::
               st'.sockets[t].status == st.sockets[t].status || st.sockets[t].status == Replacement
    ensures forall i | 0 <= i < |st.chosen| :: st.chosen[i] != s && WasChosen(st', st.chosen[i])
  {
    forall i | 0 <= i < |st.chosen| ensures st.chosen[i] != s && WasChosen(st', st.chosen[i]) {
      assert WasChosen(st, st.chosen[i]);
    }
  }

  lemma ChooseHandsOver(st: State, s: nat, read: Socket)
    requires Bounded(st) && HandsOver(st) && s < |st.sockets| && st.sockets[s].status.AwaitingBody? && !st.selected
    ensures HandsOver(Choose(st, s, read))
  {
    var r := Choose(st, s, read);
    OthersWereChosen(st, r, s);
    hide WasChosen;
    forall i | 0 <= i < |r.chosen| ensures WasChosen(r, r.chosen[i]) {
      if i == |st.chosen| {
        JustChosen(r, s);
      }
    }
  }

  lemma JustChosen(st: State, s: nat)
    requires s < |st.sockets| && st.sockets[s].status == Current
    ensures WasChosen(st, s)
  {
  }

  lemma ReserveHandsOver(st: State, s: nat, read: Socket)
    requires Safe(st) && HandsOver(st) && s < |st.sockets| && st.sockets[s].status.AwaitingBody? && st.selected
    ensures HandsOver(Reserve(st, s, read))
  {
    if st.replace.Some? {
      assert Entered(st.sockets[st.replace.value], st.replace.value, st.conn, st.replace);
    }
    hide Ledger;
    OthersWereChosen(st, Reserve(st, s, read), s);
    hide WasChosen;
  }

  lemma CandidateBodyHandsOver(st: State, s: nat, ok: bool)
    requires Safe(st) && HandsOver(st) && s < |st.sockets| && st.sockets[s].status.AwaitingBody?
    requires ok ==> st.sockets[s].status.total <= |st.sockets[s].inbox|
    ensures HandsOver(OnCandidateBody(st, s, ok))
  {
    FaultHandsOver(st, Uncaught);
    hide HandsOver, Choose, Reserve, Ledger;
    if ok && st.accepting {
      var socket := st.sockets[s];
      var read := socket.(inbox := socket.inbox[socket.status.total..]);
      if st.selected { ReserveHandsOver(st, s, read); } else { ChooseHandsOver(st, s, read); }
    }
  }

  lemma HeaderFailsHandsOver(st: State, n: nat)
    requires Safe(st) && HandsOver(st) && Undisturbed(st) && st.fault == NoFault
    requires st.rx.ReadingHeader? && n <= |st.sockets[st.rx.sock].inbox|
    ensures HandsOver(OnHeaderFails(st, n))
  {
    var c := st.conn.value;
    var read := Consume(st.sockets, c, n);
    var closed := SetStatus(read, st.conn, Closed);
    assert Entered(st.sockets[c], c, st.conn, st.replace);
    var base := st.(sockets := closed, conn := None, selected := false, rx := Calling);
    forall i | 0 <= i < |st.chosen| ensures WasChosen(base, st.chosen[i]) {
      assert WasChosen(st, st.chosen[i]);
    }
    match st.replace
    case None => LoopTopHandsOver(base);
    case Some(r) =>
      assert Entered(st.sockets[r], r, st.conn, st.replace);
      var next := base.(sockets := SetStatus(closed, st.replace, Current), conn := st.replace, replace := None,
                        selected := true, chosen := st.chosen + [r]);
      forall i | 0 <= i < |st.chosen| ensures st.chosen[i] != r && WasChosen(next, st.chosen[i]) {
        assert WasChosen(st, st.chosen[i]) && WasChosen(base, st.chosen[i]);
      }
      assert WasChosen(next, r);
      LoopTopHandsOver(next);
  }

  lemma HeaderReadHandsOver(st: State, h: Header, len: nat, total: nat)
    requires Safe(st) && HandsOver(st) && st.fault == NoFault && |h.lengths| == LENGTHS_BYTES
    requires st.rx.ReadingHeader? && SIZE <= |st.sockets[st.rx.sock].inbox|
    ensures HandsOver(OnHeaderRead(st, h, len, total))
  {
    var read := Consume(st.sockets, st.rx.sock, SIZE);
    var st' := st.(sockets := read);
    SameSocketsHandOver(st, read);
    assert (st.selected <==> st.conn.Some?) && st.conn == Some(st.rx.sock);
    ReadsOnHandOver(st', h, len, total);
    FaultHandsOver(st, TooLong);
    ExitHandsOver(st');
    hide Ledger, HandsOver, Consume, LoopTop;
    LoopTopHandsOver(st');
  }

  /** A body read on the socket whose header was read. */
  lemma ReadsOnHandOver(st: State, h: Header, len: nat, total: nat)
    requires HandsOver(st) && st.rx.ReadingHeader?
    ensures HandsOver(st.(rx := ReadingBody(st.rx.sock, h, len, total)))
  {
    SameSocketsHandOver(st.(rx := ReadingBody(st.rx.sock, h, len, total)), st.sockets);
  }

  /** Hand-over does not depend on what was delivered, or on which loop reads next. */
  lemma PacketsDoNotMatter(st: State, delivered: seq<Bytes>, bodyCut: bool)
    requires HandsOver(st)
    ensures var st' := st.(delivered := delivered, bodyCut := bodyCut);
            HandsOver(st') && HandsOver(st'.(rx := Exited)) && HandsOver(st'.(rx := Calling))
  {
    forall i | 0 <= i < |st.chosen| ensures WasChosen(st.(delivered := delivered, bodyCut := bodyCut), st.chosen[i]) {
      assert WasChosen(st, st.chosen[i]);
    }
    ExitHandsOver(st.(delivered := delivered, bodyCut := bodyCut));
  }

  lemma BodyReadHandsOver(st: State, n: nat, got: Option<Bytes>)
    requires Safe(st) && HandsOver(st) && st.fault == NoFault && st.rx.ReadingBody?
    requires n <= |st.sockets[st.rx.sock].inbox|
    ensures HandsOver(OnBodyRead(st, n, got))
  {
    var whole := n == st.rx.total;
    var counted := Consume(st.sockets, st.rx.sock, n);
    BodyCountedHandsOver(st, n);
    hide Ledger, LoopTop, HandsOver, Consume;
    var st' := st.(sockets := counted);
    PacketsDoNotMatter(st', st.delivered, st.bodyCut || !whole);
    if got.Some? {
      PacketsDoNotMatter(st', st.delivered + [got.value], st.bodyCut || !whole);
    }
    LoopTopHandsOver(st'.(bodyCut := st.bodyCut || !whole));
  }

  lemma BodyEndsHandsOver(st: State, n: nat, got: Option<Bytes>)
    requires Safe(st) && HandsOver(st) && st.fault == NoFault && st.rx.ReadingBody?
    ensures HandsOver(OnBodyEnds(st, n, got))
  {
    var sockets := Consume(st.sockets, st.rx.sock, |st.sockets[st.rx.sock].inbox|);
    var st' := st.(sockets := sockets, ended := st.ended + {st.rx.sock});
    SameSocketsHandOver(st, sockets);
    assert st.selected <==> st.conn.Some?;
    hide Ledger, LoopTop, HandsOver, Consume, Later;
    EndedDoesNotMatter(st.(sockets := sockets), st'.ended);
    ExitHandsOver(st');
    LoopTopHandsOver(st');
  }

  lemma EndedDoesNotMatter(st: State, ended: set<nat>)
    requires HandsOver(st)
    ensures HandsOver(st.(ended := ended))
  {
    SameSocketsHandOver(st.(ended := ended), st.sockets);
  }

  lemma BodyCountedHandsOver(st: State, n: nat)
    requires Bounded(st) && HandsOver(st) && st.rx.ReadingBody? && n <= |st.sockets[st.rx.sock].inbox|
    ensures HandsOver(st.(sockets := Consume(st.sockets, st.rx.sock, n)))
    ensures st.selected <==> st.conn.Some?
  {
    SameSocketsHandOver(st, Consume(st.sockets, st.rx.sock, n));
  }

  lemma AcceptHandsOver(f: Cipher, k: Key, st: State, peer: Peer)
    requires Bounded(st) && HandsOver(st) && (peer.Client? ==> AllSendable(peer.xs))
    ensures HandsOver(OnAccept(f, k, st, peer))
  {
    SameSocketsHandOver(st, OnAccept(f, k, st, peer).sockets);
  }

  lemma CandidateHeaderHandsOver(st: State, s: nat, n: nat, total: nat)
    requires Bounded(st) && HandsOver(st) && s < |st.sockets| && st.sockets[s].status == AwaitingHeader
    requires n <= |st.sockets[s].inbox|
    ensures HandsOver(OnCandidateHeader(st, s, n, total))
  {
    FaultHandsOver(st, TooLong);
    SameSocketsHandOver(st, OnCandidateHeader(st, s, n, total).sockets);
    hide HandsOver;
  }

  lemma StepHandsOver(f: Cipher, k: Key, st: State, ev: Event)
    requires Safe(st) && Enabled(st, ev) && (Undisturbed(st) ==> HandsOver(st))
    ensures Undisturbed(Step(f, k, st, ev)) ==> HandsOver(Step(f, k, st, ev))
  {
    var st' := Step(f, k, st, ev);
    if Undisturbed(st') {
      hide Ledger, CandidateTotal, Head, HeaderTotal, PlainLength, Decrypted, HandsOver, WasChosen, Safe, OnAccept,
           OnCandidateHeader, OnCandidateBody, OnHeaderRead, OnHeaderFails, OnBodyRead, OnBodyEnds, OnSend,
           OnWritten, OnClose, LoopTop;
      match ev
      case Accept(peer) => AcceptHandsOver(f, k, st, peer);
      case CandidateHeader(s, n, stale) =>
        CandidateHeaderHandsOver(st, s, n, CandidateTotal(f, k, st.sockets[s].inbox, n, stale));
      case CandidateBody(s, ok) => CandidateBodyHandsOver(st, s, ok);
      case Call => CallHandsOver(st);
      case LoopEnds => ExitHandsOver(st);
      case Wake => CallHandsOver(st);
      case HeaderRead =>
        var h := Head(st.sockets[st.rx.sock].inbox);
        HeaderReadHandsOver(st, h, PlainLength(f, k, h), HeaderTotal(f, k, h));
      case HeaderFails(n) => HeaderFailsHandsOver(st, n);
      case BodyRead(n, stale) =>
        BodyReadHandsOver(st, n, Decrypted(f, k, st.rx.header, st.rx.len, st.sockets[st.rx.sock].inbox, n, stale));
      case BodyEnds(n, stale) =>
        BodyEndsHandsOver(st, n, Decrypted(f, k, st.rx.header, st.rx.len, st.sockets[st.rx.sock].inbox, n, stale));
      case Send(_) => SendHandsOver(st);
      case Written(ok) => WrittenHandsOver(st, ok);
      case Close => CloseHandsOver(st);
    }
  }

  lemma FaultHandsOver(st: State, fault: Fault)
    requires HandsOver(st)
    ensures HandsOver(st.(fault := fault))
  {
    assert forall s :: WasChosen(st, s) ==> WasChosen(st.(fault := fault), s);
  }

  lemma ExitHandsOver(st: State)
    requires HandsOver(st)
    ensures HandsOver(st.(rx := Exited)) && HandsOver(st.(rx := Calling))
  {
    SameSocketsHandOver(st.(rx := Exited), st.sockets);
  }

  lemma CallHandsOver(st: State)
    requires Safe(st) && HandsOver(st) && st.fault == NoFault
    ensures HandsOver(LoopTop(st))
  {
    ExitHandsOver(st);
    LoopTopHandsOver(st);
  }

  lemma SendHandsOver(st: State)
    requires Safe(st) && HandsOver(st)
    ensures (forall x :: HandsOver(OnSend(st, x)))
  {
    FaultHandsOver(st, NoFault);
    SameSocketsHandOver(st, st.sockets);
  }

  lemma WrittenHandsOver(st: State, ok: bool)
    requires Safe(st) && HandsOver(st) && Undisturbed(OnWritten(st, ok))
    ensures HandsOver(OnWritten(st, ok))
  {
  }

  lemma CloseHandsOver(st: State)
    requires Safe(st) && HandsOver(st) && Undisturbed(OnClose(st))
    ensures HandsOver(OnClose(st))
  {
  }

  /**
   In every run with no failed write, and until Close takes effect: `selected` exactly when conn_socket
   is set; a replacement is held only while selected; the pending read is on the current conn_socket;
   ReceiveFrom parked with no wake pending means that no socket is held; the replacement is the
   candidate verified last and the current socket the one chosen last; no socket is chosen twice.
  */
  lemma {:induction false} AlwaysHandsOver(f: Cipher, k: Key, evs: seq<Event>)
    requires Run(f, k, evs).Some? && Undisturbed(Run(f, k, evs).value)
    ensures HandsOver(Run(f, k, evs).value)
  {
    if evs != [] {
      var before := evs[..|evs| - 1];
      AlwaysSafe(f, k, before);
      AlwaysHandsOver(f, k, before);
      StepHandsOver(f, k, Run(f, k, before).value, evs[|evs| - 1]);
    }
  }

  lemma PromotesReplacement(st: State, n: nat)
    requires Safe(st) && HandsOver(st) && Undisturbed(st) && st.fault == NoFault && st.replace.Some?
    requires st.rx.ReadingHeader? && n <= |st.sockets[st.rx.sock].inbox|
    ensures var st' := OnHeaderFails(st, n);
            && st'.rx == ReadingHeader(st.replace.value) && st'.conn == st.replace && st'.replace == None
            && st'.selected && st'.fault == NoFault
            && st.rx.sock != st.replace.value && st'.sockets[st.rx.sock].status == Closed
  {
    var r := st.replace.value;
    assert Entered(st.sockets[r], r, st.conn, st.replace);
    hide Ledger, WasChosen, Distinct;
  }

  /** A failed header read with a replacement held promotes the candidate that was verified last: it is
      read next, the failed socket is closed, and nothing is held in reserve any more. */
  lemma PromotesTheLatest(f: Cipher, k: Key, evs: seq<Event>, n: nat, st: State, st': State)
    requires Run(f, k, evs) == Some(st) && Undisturbed(st) && st.replace.Some?
    requires Bounded(st) && Enabled(st, HeaderFails(n)) && st' == Step(f, k, st, HeaderFails(n))
    ensures LastIs(st.verifiedLog, st.replace.value)
    ensures st'.rx == ReadingHeader(st.replace.value) && st'.conn == st.replace && st'.replace == None
    ensures st'.selected && st'.fault == NoFault
    ensures st.rx.sock != st.replace.value && st.rx.sock < |st'.sockets| && st'.sockets[st.rx.sock].status == Closed
  {
    AlwaysSafe(f, k, evs);
    AlwaysHandsOver(f, k, evs);
    hide Run, OnHeaderFails, WasChosen, Distinct, Ledger;
    PromotesReplacement(st, n);
  }
}
