/**
 Where things come from in any run of the selection machine, whoever connects, failed writes, cut reads
 and Close included: held sockets from bytes that authenticate, packets from frames that were sealed.
*/
module Provenance {
  import opened ByteStrings
  import opened Aead
  import opened ProtocolHeader
  import opened Frames
  import opened Streams
  import opened Selection

  /** The first 52 bytes open as a header, and as many bytes as it announces follow. */
  predicate Admitted(f: Cipher, k: Key, bytes: Bytes) {
    && SIZE <= |bytes|
    && var total := HeaderTotal(f, k, Head(bytes));
       0 < total <= BODY_ROOM && SIZE + total <= |bytes|
  }

  /** tryReceive is done with the socket, and has taken it. */
  predicate Taken(status: Status) {
    Held(status) || status == Closed || status == Superseded
  }

  /** What is known of a socket's bytes, from where it is. */
  ghost predicate Traced(f: Cipher, k: Key, x: Socket) {
    && (x.peer.Client? ==> AllSendable(x.peer.xs))
    && var bytes := BytesOf(f, k, x.peer);
       && (x.status == AwaitingHeader ==> x.inbox == bytes)
       && (x.status.AwaitingBody? ==>
             || x.inbox == []
             || (SIZE <= |bytes| && HeaderTotal(f, k, Head(bytes)) == x.status.total && x.inbox == bytes[SIZE..]))
       && (x.status.AwaitingBody? ==> 0 < x.status.total <= BODY_ROOM)
       && (Taken(x.status) ==> Admitted(f, k, bytes))
  }

  /** A read of ReceiveFrom is on a socket that was taken. */
  ghost predicate ReadsTaken(st: State) {
    st.rx.ReadingHeader? || st.rx.ReadingBody? ==> st.rx.sock < |st.sockets| && Taken(st.sockets[st.rx.sock].status)
  }

  ghost predicate AllTraced(f: Cipher, k: Key, st: State) {
    && (forall s | 0 <= s < |st.sockets| :: Traced(f, k, st.sockets[s]))
    && (forall s | 0 <= s < |st.sockets| :: s in st.verifiedLog <==> Taken(st.sockets[s].status))
    && (forall s | s in st.verifiedLog :: s < |st.sockets|)
    && ReadsTaken(st)
  }

  /** The held sockets have been taken. */
  ghost predicate HoldsTaken(st: State) {
    && (st.selected ==> st.conn.Some?)
    && (st.conn.Some? ==> st.conn.value < |st.sockets| && Taken(st.sockets[st.conn.value].status))
    && (st.replace.Some? ==> st.replace.value < |st.sockets| && Taken(st.sockets[st.replace.value].status))
  }

  lemma LedgerHoldsTaken(st: State)
    requires Safe(st)
    ensures HoldsTaken(st) && Bounded(st)
  {
    if st.conn.Some? {
      assert Entered(st.sockets[st.conn.value], st.conn.value, st.conn, st.replace);
    }
    if st.replace.Some? {
      assert Entered(st.sockets[st.replace.value], st.replace.value, st.conn, st.replace);
    }
  }

  /** A step of the receive loop, of SendTo or of Close: sockets that are not taken yet are left alone. */
  ghost predicate TakenOnly(st: State, r: State) {
    && SameButTaken(st.sockets, r.sockets) && r.verifiedLog == st.verifiedLog && ReadsTaken(r)
  }

  ghost predicate SameButTaken(sockets: seq<Socket>, after: seq<Socket>) {
    && |after| == |sockets|
    && (forall s | 0 <= s < |sockets| ::
          || after[s] == sockets[s]
          || (Taken(after[s].status) && Taken(sockets[s].status) && after[s].peer == sockets[s].peer))
  }

  lemma TakenOnlyTraced(f: Cipher, k: Key, st: State, r: State)
    requires AllTraced(f, k, st) && TakenOnly(st, r)
    ensures AllTraced(f, k, r)
  {
    hide Admitted, BytesOf, ReadsTaken;
    forall s | 0 <= s < |r.sockets| ensures Traced(f, k, r.sockets[s]) {
      assert Traced(f, k, st.sockets[s]);
    }
  }

  lemma ConsumeSame(sockets: seq<Socket>, s: nat, n: nat)
    requires s < |sockets| && n <= |sockets[s].inbox| && Taken(sockets[s].status)
    ensures SameButTaken(sockets, Consume(sockets, s, n)) && SameButTaken(sockets, sockets)
    ensures forall t | 0 <= t < |sockets| :: Consume(sockets, s, n)[t].status == sockets[t].status
  {
  }

  lemma LoopTopTakenOnly(st: State)
    requires Bounded(st) && HoldsTaken(st) && ReadsTaken(st)
    ensures TakenOnly(st, LoopTop(st))
  {
    hide Later, Bounded, Taken;
  }

  lemma HeaderReadTakenOnly(st: State, h: Header, len: nat, total: nat)
    requires Bounded(st) && HoldsTaken(st) && ReadsTaken(st) && |h.lengths| == LENGTHS_BYTES
    requires st.rx.ReadingHeader? && SIZE <= |st.sockets[st.rx.sock].inbox|
    ensures TakenOnly(st, OnHeaderRead(st, h, len, total))
  {
    hide Later, Consume, SameButTaken, LoopTop, Taken;
    ConsumeSame(st.sockets, st.rx.sock, SIZE);
    var st' := st.(sockets := Consume(st.sockets, st.rx.sock, SIZE));
    assert LoopTop(st').sockets == st'.sockets && LoopTop(st').verifiedLog == st'.verifiedLog;
    LoopTopTakenOnly(st');
  }

  lemma SetStatusSame(sockets: seq<Socket>, o: Option<nat>, status: Status)
    requires o.Some? ==> o.value < |sockets| && Taken(sockets[o.value].status)
    requires Taken(status)
    ensures SameButTaken(sockets, SetStatus(sockets, o, status))
    ensures forall t | 0 <= t < |sockets| && Taken(sockets[t].status) :: Taken(SetStatus(sockets, o, status)[t].status)
  {
  }

  lemma SameTwice(a: seq<Socket>, b: seq<Socket>, c: seq<Socket>)
    requires SameButTaken(a, b) && SameButTaken(b, c)
    ensures SameButTaken(a, c)
  {
  }

  /** The top of the loop, on sockets that differ from those before only where they are taken. */
  lemma LoopTopFrom(st: State, st': State)
    requires Bounded(st') && HoldsTaken(st') && SameButTaken(st.sockets, st'.sockets)
    requires st'.verifiedLog == st.verifiedLog
    ensures TakenOnly(st, LoopTop(st'))
  {
    hide Later, Taken, SameButTaken;
  }

  lemma HeaderFailsTakenOnly(st: State, n: nat)
    requires Bounded(st) && HoldsTaken(st) && ReadsTaken(st)
    requires st.rx.ReadingHeader? && n <= |st.sockets[st.rx.sock].inbox|
    ensures TakenOnly(st, OnHeaderFails(st, n))
  {
    hide Later, Consume, SetStatus, LoopTop, SameButTaken, Taken;
    var read := Consume(st.sockets, st.rx.sock, n);
    ConsumeSame(st.sockets, st.rx.sock, n);
    if !st.stopped && st.conn.Some? {
      var closed := SetStatus(read, st.conn, Closed);
      ClosedIsTaken();
      SetStatusSame(read, st.conn, Closed);
      SameTwice(st.sockets, read, closed);
      if st.replace.Some? {
        var r := st.replace.value;
        var moved := SetStatus(closed, st.replace, Current);
        SetStatusSame(closed, st.replace, Current);
        SameTwice(st.sockets, closed, moved);
        LoopTopFrom(st, st.(sockets := moved, conn := st.replace, replace := None, selected := true,
                            chosen := st.chosen + [r]));
      } else {
        LoopTopFrom(st, st.(sockets := closed, conn := None, selected := false));
      }
    }
  }

  lemma ClosedIsTaken()
    ensures Taken(Closed) && Taken(Current)
  {
  }

  lemma BodyReadTakenOnly(st: State, n: nat, got: Option<Bytes>)
    requires Bounded(st) && HoldsTaken(st) && ReadsTaken(st)
    requires st.rx.ReadingBody? && n <= |st.sockets[st.rx.sock].inbox|
    ensures TakenOnly(st, OnBodyRead(st, n, got))
  {
    hide Later, Consume, LoopTop, SameButTaken, Taken;
    var whole := n == st.rx.total;
    var counted := Consume(st.sockets, st.rx.sock, n);
    ConsumeSame(st.sockets, st.rx.sock, n);
    LoopTopFrom(st, st.(sockets := counted, bodyCut := st.bodyCut || !whole));
  }

  lemma BodyEndsTakenOnly(st: State, n: nat, got: Option<Bytes>)
    requires Bounded(st) && HoldsTaken(st) && ReadsTaken(st) && st.rx.ReadingBody?
    ensures TakenOnly(st, OnBodyEnds(st, n, got))
  {
    hide Later, Consume, LoopTop, SameButTaken, Taken;
    var all := |st.sockets[st.rx.sock].inbox|;
    ConsumeSame(st.sockets, st.rx.sock, all);
    LoopTopFrom(st, st.(sockets := Consume(st.sockets, st.rx.sock, all), ended := st.ended + {st.rx.sock}));
  }

  lemma SendTakenOnly(st: State, ok: bool)
    requires Bounded(st) && ReadsTaken(st)
    ensures (forall x :: TakenOnly(st, OnSend(st, x))) && TakenOnly(st, OnWritten(st, ok))
    ensures TakenOnly(st, st.(rx := Exited))
  {
    hide Later, Bounded, Taken;
  }

  lemma CloseTakenOnly(st: State)
    requires Bounded(st) && HoldsTaken(st) && ReadsTaken(st)
    ensures TakenOnly(st, OnClose(st))
  {
    hide Later, Bounded;
  }

  lemma AcceptTraced(f: Cipher, k: Key, st: State, peer: Peer)
    requires Bounded(st) && AllTraced(f, k, st) && (peer.Client? ==> AllSendable(peer.xs))
    ensures AllTraced(f, k, OnAccept(f, k, st, peer))
  {
    hide BytesOf, Admitted;
  }

  /** A change to one socket that is not taken by it. */
  lemma OneSocketTraced(f: Cipher, k: Key, st: State, s: nat, x: Socket)
    requires AllTraced(f, k, st) && s < |st.sockets| && !Taken(st.sockets[s].status)
    requires Traced(f, k, x) && !Taken(x.status)
    ensures AllTraced(f, k, st.(sockets := st.sockets[s := x]))
  {
    hide Traced;
  }

  /** What a candidate's own socket is after its header read. */
  lemma CandidateHeaderOutcome(f: Cipher, k: Key, x: Socket, n: nat, stale: Bytes)
    requires Traced(f, k, x) && x.status == AwaitingHeader && n <= |x.inbox| && n + |stale| == SIZE
    ensures var total := CandidateTotal(f, k, x.inbox, n, stale);
            var left := if n < SIZE then [] else x.inbox[n..];
            && Traced(f, k, x.(inbox := left, status := Rejected))
            && (0 < total <= BODY_ROOM ==>
                  Traced(f, k, x.(inbox := left, status := AwaitingBody(total))))
  {
    if n == SIZE {
      assert x.inbox[..n] + stale == x.inbox[..SIZE];
      assert Head(x.inbox[..SIZE]) == Head(x.inbox);
    }
    hide Head, HeaderTotal;
  }

  lemma CandidateHeaderTraced(f: Cipher, k: Key, st: State, s: nat, n: nat, stale: Bytes)
    requires Bounded(st) && AllTraced(f, k, st) && s < |st.sockets| && st.sockets[s].status == AwaitingHeader
    requires n <= |st.sockets[s].inbox| && n + |stale| == SIZE
    ensures AllTraced(f, k, OnCandidateHeader(st, s, n, CandidateTotal(f, k, st.sockets[s].inbox, n, stale)))
  {
    hide Traced, CandidateTotal, Later, Bounded;
    var x := st.sockets[s];
    assert Traced(f, k, x);
    CandidateHeaderOutcome(f, k, x, n, stale);
    var total := CandidateTotal(f, k, x.inbox, n, stale);
    var left := if n < SIZE then [] else x.inbox[n..];
    if total == 0 {
      OneSocketTraced(f, k, st, s, x.(inbox := left, status := Rejected));
    } else if total <= BODY_ROOM {
      OneSocketTraced(f, k, st, s, x.(inbox := left, status := AwaitingBody(total)));
    } else {
      assert AllTraced(f, k, st.(fault := TooLong));
    }
  }

  /** A socket that is taken, and perhaps one taken before that is dropped for it. */
  lemma TakingTraced(f: Cipher, k: Key, st: State, s: nat, x: Socket, dropped: Option<nat>, r: State)
    requires AllTraced(f, k, st) && s < |st.sockets| && !Taken(st.sockets[s].status)
    requires Traced(f, k, x) && Taken(x.status)
    requires dropped.Some? ==> dropped.value < |st.sockets| && Taken(st.sockets[dropped.value].status)
    requires r.sockets == SetStatus(st.sockets, dropped, Superseded)[s := x] && r.verifiedLog == st.verifiedLog + [s]
    requires r.rx == st.rx || r.rx.Parked?
    ensures AllTraced(f, k, r)
  {
    hide Admitted, BytesOf;
    forall t | 0 <= t < |r.sockets| ensures Traced(f, k, r.sockets[t]) {
      if t != s {
        assert Traced(f, k, st.sockets[t]);
      }
    }
  }

  /** What a candidate's own socket is after its body read. */
  lemma CandidateBodyOutcome(f: Cipher, k: Key, x: Socket, status: Status)
    requires Traced(f, k, x) && x.status.AwaitingBody? && x.status.total <= |x.inbox| && Taken(status)
    ensures Traced(f, k, x.(inbox := x.inbox[x.status.total..], status := status))
  {
    hide Head, HeaderTotal;
  }

  lemma CandidateBodyTraced(f: Cipher, k: Key, st: State, s: nat, ok: bool)
    requires Bounded(st) && HoldsTaken(st) && AllTraced(f, k, st) && s < |st.sockets|
    requires st.sockets[s].status.AwaitingBody?
    requires ok ==> st.sockets[s].status.total <= |st.sockets[s].inbox|
    ensures AllTraced(f, k, OnCandidateBody(st, s, ok))
  {
    hide Traced, Later, Bounded, SetStatus;
    var x, r := st.sockets[s], OnCandidateBody(st, s, ok);
    assert Traced(f, k, x);
    if !ok || !st.accepting {
      assert AllTraced(f, k, st.(fault := Uncaught));
    } else if !st.selected {
      CandidateBodyOutcome(f, k, x, Current);
      TakingTraced(f, k, st, s, x.(inbox := x.inbox[x.status.total..], status := Current), st.conn, r);
    } else {
      CandidateBodyOutcome(f, k, x, Replacement);
      TakingTraced(f, k, st, s, x.(inbox := x.inbox[x.status.total..], status := Replacement),
                   st.replace, r);
    }
  }

  lemma StepTraced(f: Cipher, k: Key, st: State, ev: Event)
    requires Safe(st) && AllTraced(f, k, st) && Enabled(st, ev)
    ensures AllTraced(f, k, Step(f, k, st, ev))
  {
    LedgerHoldsTaken(st);
    hide Safe, Traced, TakenOnly, CandidateTotal, Head, HeaderTotal, PlainLength, Decrypted, OnAccept, OnSend,
         OnWritten, OnClose, OnCandidateHeader, OnCandidateBody, OnHeaderRead, OnHeaderFails, OnBodyRead, OnBodyEnds,
         LoopTop, Later;
    match ev
    case Accept(peer) => AcceptTraced(f, k, st, peer);
    case CandidateHeader(s, n, stale) => CandidateHeaderTraced(f, k, st, s, n, stale);
    case CandidateBody(s, ok) => CandidateBodyTraced(f, k, st, s, ok);
    case _ => StepTakenOnly(f, k, st, ev); TakenOnlyTraced(f, k, st, Step(f, k, st, ev));
  }

  /** All but the steps of Accept and tryReceive. */
  lemma StepTakenOnly(f: Cipher, k: Key, st: State, ev: Event)
    requires Bounded(st) && HoldsTaken(st) && ReadsTaken(st) && Enabled(st, ev)
    requires !ev.Accept? && !ev.CandidateHeader? && !ev.CandidateBody?
    ensures TakenOnly(st, Step(f, k, st, ev))
  {
    hide TakenOnly, Head, HeaderTotal, PlainLength, Decrypted, OnSend, OnWritten, OnClose, OnHeaderRead,
         OnHeaderFails, OnBodyRead, OnBodyEnds, LoopTop, Later;
    match ev
    case HeaderRead =>
      var h := Head(st.sockets[st.rx.sock].inbox);
      HeaderReadTakenOnly(st, h, PlainLength(f, k, h), HeaderTotal(f, k, h));
    case HeaderFails(n) => HeaderFailsTakenOnly(st, n);
    case BodyRead(n, stale) =>
      BodyReadTakenOnly(st, n, Decrypted(f, k, st.rx.header, st.rx.len, st.sockets[st.rx.sock].inbox, n, stale));
    case BodyEnds(n, stale) =>
      BodyEndsTakenOnly(st, n, Decrypted(f, k, st.rx.header, st.rx.len, st.sockets[st.rx.sock].inbox, n, stale));
    case Call => LoopTopTakenOnly(st);
    case Wake => LoopTopTakenOnly(st);
    case Written(ok) => SendTakenOnly(st, ok);
    case Close => CloseTakenOnly(st);
    case _ => SendTakenOnly(st, false);
  }

  lemma {:induction false} AlwaysTraced(f: Cipher, k: Key, evs: seq<Event>)
    requires Run(f, k, evs).Some?
    ensures AllTraced(f, k, Run(f, k, evs).value)
  {
    if evs != [] {
      var before := evs[..|evs| - 1];
      AlwaysSafe(f, k, before);
      AlwaysTraced(f, k, before);
      StepTraced(f, k, Run(f, k, before).value, evs[|evs| - 1]);
    }
  }

  /** In every run, whoever connects: a socket that is or ever was current or held in reserve belongs to a
      peer whose own first 52 bytes open under the key, with the announced number of bytes behind them. */
  lemma HeldSocketsAuthenticate(f: Cipher, k: Key, evs: seq<Event>, st: State, s: nat)
    requires Run(f, k, evs) == Some(st) && s < |st.sockets|
    requires st.conn == Some(s) || st.replace == Some(s) || s in st.verifiedLog
    ensures st.sockets[s].peer.Client? ==> AllSendable(st.sockets[s].peer.xs)
    ensures Admitted(f, k, BytesOf(f, k, st.sockets[s].peer))
  {
    AlwaysTraced(f, k, evs);
    AlwaysSafe(f, k, evs);
    assert Traced(f, k, st.sockets[s]) && Entered(st.sockets[s], s, st.conn, st.replace);
  }

  // ----- exactly who is taken -----

  /** Peers stay who they are, and a closed acceptor stays closed, with nobody taken any more. */
  ghost predicate Follows(st: State, r: State) {
    && |st.sockets| <= |r.sockets|
    && (forall s | 0 <= s < |st.sockets| :: r.sockets[s].peer == st.sockets[s].peer)
    && (!st.accepting ==> !r.accepting && r.verifiedLog == st.verifiedLog)
  }

  lemma AcceptFollows(f: Cipher, k: Key, st: State, peer: Peer)
    requires Bounded(st) && (peer.Client? ==> AllSendable(peer.xs))
    ensures Follows(st, OnAccept(f, k, st, peer))
  {
    hide BytesOf;
  }

  lemma CandidateFollows(st: State, s: nat, n: nat, total: nat, ok: bool)
    requires Bounded(st) && s < |st.sockets|
    ensures n <= |st.sockets[s].inbox| ==> Follows(st, OnCandidateHeader(st, s, n, total))
    ensures st.sockets[s].status.AwaitingBody? && (ok ==> st.sockets[s].status.total <= |st.sockets[s].inbox|)
            ==> Follows(st, OnCandidateBody(st, s, ok))
  {
    hide Later, Bounded;
  }

  lemma OthersFollow(f: Cipher, k: Key, st: State, ev: Event)
    requires Bounded(st) && HoldsTaken(st) && ReadsTaken(st) && Enabled(st, ev)
    requires !ev.Accept? && !ev.CandidateHeader? && !ev.CandidateBody?
    ensures Follows(st, Step(f, k, st, ev))
  {
    StepTakenOnly(f, k, st, ev);
    var r := Step(f, k, st, ev);
    assert SameButTaken(st.sockets, r.sockets);
    assert Later(st, r);
    hide *;
    FollowsFrom(st, r);
  }

  lemma FollowsFrom(st: State, r: State)
    requires SameButTaken(st.sockets, r.sockets) && r.verifiedLog == st.verifiedLog && (!st.accepting ==> !r.accepting)
    ensures Follows(st, r)
  {
  }

  lemma StepFollows(f: Cipher, k: Key, st: State, ev: Event)
    requires Bounded(st) && HoldsTaken(st) && ReadsTaken(st) && Enabled(st, ev)
    ensures Follows(st, Step(f, k, st, ev))
  {
    hide Follows, CandidateTotal, OnAccept, OnCandidateHeader, OnCandidateBody, OnHeaderRead, OnHeaderFails,
         OnBodyRead, OnBodyEnds, OnSend, OnWritten, OnClose, LoopTop, Head, HeaderTotal, PlainLength, Decrypted,
         Later;
    match ev
    case Accept(peer) => AcceptFollows(f, k, st, peer);
    case CandidateHeader(s, n, stale) =>
      CandidateFollows(st, s, n, CandidateTotal(f, k, st.sockets[s].inbox, n, stale), false);
    case CandidateBody(s, ok) => CandidateFollows(st, s, 0, 0, ok);
    case _ => OthersFollow(f, k, st, ev);
  }

  /** What holds from a state on, whatever happens next. */
  lemma {:induction false} RunFollows(f: Cipher, k: Key, evs: seq<Event>, more: seq<Event>)
    requires Run(f, k, evs).Some? && Run(f, k, evs + more).Some?
    ensures Follows(Run(f, k, evs).value, Run(f, k, evs + more).value)
    decreases |more|
  {
    hide Step, Enabled, AllTraced, HoldsTaken, ReadsTaken;
    if more == [] {
      assert evs + more == evs;
    } else {
      var n := |more| - 1;
      assert (evs + more)[..|evs + more| - 1] == evs + more[..n] && (evs + more)[|evs + more| - 1] == more[n];
      RunFollows(f, k, evs, more[..n]);
      var st := Run(f, k, evs + more[..n]).value;
      AlwaysTraced(f, k, evs + more[..n]);
      AlwaysSafe(f, k, evs + more[..n]);
      LedgerHoldsTaken(st);
      ReadsAreTaken(f, k, st);
      StepFollows(f, k, st, more[n]);
    }
  }

  lemma ReadsAreTaken(f: Cipher, k: Key, st: State)
    requires AllTraced(f, k, st)
    ensures ReadsTaken(st)
  {
  }

  lemma ReplayIsAdmitted(f: Cipher, k: Key, x: Sent, junk: Bytes)
    requires Sendable(x) && Opens(f, k, x) && |junk| == BodySize(x)
    ensures Admitted(f, k, Encode(HeaderOf(f, k, x)) + junk)
  {
    HeadOfEncode(HeaderOf(f, k, x), junk);
    DecodeOfEncodeLengths(LengthsOf(x));
    SizeWindow(f, k, x);
  }

  /** An admitted candidate's first read, in full. */
  lemma AdmittedWaits(f: Cipher, k: Key, evs: seq<Event>, st: State, s: nat) returns (r: State)
    requires Run(f, k, evs) == Some(st) && st.fault == NoFault
    requires s < |st.sockets| && st.sockets[s].status == AwaitingHeader && Admitted(f, k, st.sockets[s].inbox)
    ensures Run(f, k, evs + [CandidateHeader(s, SIZE, [])]) == Some(r)
    ensures var x := st.sockets[s];
            var total := HeaderTotal(f, k, Head(x.inbox));
            && 0 < total && SIZE + total <= |x.inbox|
            && r == st.(sockets := st.sockets[s := x.(inbox := x.inbox[SIZE..], status := AwaitingBody(total))])
  {
    var x, ev := st.sockets[s], CandidateHeader(s, SIZE, []);
    assert x.inbox[..SIZE] + [] == x.inbox[..SIZE];
    SameHead(x.inbox);
    hide Head, HeaderTotal, Run, Later;
    RunOn(f, k, evs, ev, st);
    r := Step(f, k, st, ev);
  }

  /** An admitted candidate's two reads, in full. */
  lemma AdmittedIsTaken(f: Cipher, k: Key, evs: seq<Event>, st: State, s: nat) returns (more: seq<Event>)
    requires Run(f, k, evs) == Some(st) && st.fault == NoFault
    requires s < |st.sockets| && st.sockets[s].status == AwaitingHeader
    requires st.accepting && Admitted(f, k, st.sockets[s].inbox)
    ensures Run(f, k, evs + more).Some? && s in Run(f, k, evs + more).value.verifiedLog
    ensures var r := Run(f, k, evs + more).value;
            r.fault == NoFault && r.selected && (if st.selected then r.replace == Some(s) else r.conn == Some(s))
    ensures more == [CandidateHeader(s, SIZE, []), CandidateBody(s, true)]
    ensures !st.selected && st.rx.Parked? ==> Run(f, k, evs + more).value.rx == Parked(true)
  {
    AlwaysSafe(f, k, evs);
    assert st.selected ==> st.conn.Some?;
    hide Run, Safe, Admitted, Head, HeaderTotal, Later, SetStatus;
    var e1, e2 := CandidateHeader(s, SIZE, []), CandidateBody(s, true);
    var st1 := AdmittedWaits(f, k, evs, st, s);
    RunOn(f, k, evs + [e1], e2, st1);
    more := [e1, e2];
    assert evs + [e1] + [e2] == evs + more;
  }

  /**
   Who gets to be the server's socket: from any state of any run, an accepted socket can be taken by
   tryReceive exactly when the acceptor is still open, the first 52 bytes on it open as a header, and as many
   bytes as that header announces follow. What DecryptPayload makes of those bytes plays no part.
  */
  lemma TakenIffHeaderAuthenticates(f: Cipher, k: Key, evs: seq<Event>, st: State, s: nat)
    requires Run(f, k, evs) == Some(st) && st.fault == NoFault
    requires s < |st.sockets| && st.sockets[s].status == AwaitingHeader
    ensures (exists more :: Run(f, k, evs + more).Some? && s in Run(f, k, evs + more).value.verifiedLog)
            <==> st.accepting && Admitted(f, k, st.sockets[s].inbox)
  {
    AlwaysTraced(f, k, evs);
    assert Traced(f, k, st.sockets[s]) && s !in st.verifiedLog;
    hide Run, Admitted, BytesOf, Traced;
    if more :| Run(f, k, evs + more).Some? && s in Run(f, k, evs + more).value.verifiedLog {
      var st' := Run(f, k, evs + more).value;
      RunFollows(f, k, evs, more);
      HeldSocketsAuthenticate(f, k, evs + more, st', s);
      UntouchedBytes(f, k, st.sockets[s]);
    }
    if st.accepting && Admitted(f, k, st.sockets[s].inbox) {
      var more := AdmittedIsTaken(f, k, evs, st, s);
    }
  }

  lemma UntouchedBytes(f: Cipher, k: Key, x: Socket)
    requires Traced(f, k, x) && x.status == AwaitingHeader
    ensures (x.peer.Client? ==> AllSendable(x.peer.xs)) && x.inbox == BytesOf(f, k, x.peer)
  {
  }

  // ----- no fabrication -----

  /** The body read in progress is under a sealed frame's header, and what was delivered was sealed. */
  ghost predicate Sealed(all: seq<Sent>, st: State) {
    && (st.rx.ReadingBody? ==>
          exists i :: 0 <= i < |all| && st.rx.header.nonce == all[i].draw.nonce && st.rx.len == |all[i].payload|)
    && (forall p | p in st.delivered :: WasSealed(all, p))
  }

  ghost predicate WasSealed(all: seq<Sent>, p: Bytes) {
    exists i :: 0 <= i < |all| && all[i].payload == p
  }

  lemma HeaderReadOutcome(st: State, h: Header, len: nat, total: nat)
    requires Bounded(st) && st.rx.ReadingHeader? && SIZE <= |st.sockets[st.rx.sock].inbox|
    requires |h.lengths| == LENGTHS_BYTES
    ensures var r := OnHeaderRead(st, h, len, total);
            && r.delivered == st.delivered
            && (r.rx.ReadingBody? ==> r.rx.header == h && r.rx.len == len && total != 0)
  {
    hide Later, Consume, Bounded;
  }

  lemma HeaderReadSealed(f: Cipher, k: Key, all: seq<Sent>, st: State)
    requires Separable(all) && OnlySealed(f, k, all) && Bounded(st) && Sealed(all, st)
    requires st.rx.ReadingHeader? && SIZE <= |st.sockets[st.rx.sock].inbox|
    ensures var h := Head(st.sockets[st.rx.sock].inbox);
            Sealed(all, OnHeaderRead(st, h, PlainLength(f, k, h), HeaderTotal(f, k, h)))
  {
    hide Separable, OnlySealed, Later, OnHeaderRead, Head, WasSealed;
    var h := Head(st.sockets[st.rx.sock].inbox);
    HeaderReadOutcome(st, h, PlainLength(f, k, h), HeaderTotal(f, k, h));
    if OpenHeader(f, k, h).Some? {
      var i := HeaderIsGenuine(f, k, all, h);
      assert h.nonce == all[i].draw.nonce && PlainLength(f, k, h) == |all[i].payload|;
    }
  }

  lemma DecryptedIsSealed(f: Cipher, k: Key, all: seq<Sent>, h: Header, len: nat, inbox: Bytes, n: nat, stale: Bytes)
    requires Separable(all) && OnlySealed(f, k, all) && n <= |inbox| && |stale| == MAX_BUFFSIZE
    requires exists i :: 0 <= i < |all| && h.nonce == all[i].draw.nonce && len == |all[i].payload|
    ensures var got := Decrypted(f, k, h, len, inbox, n, stale);
            got.Some? ==> WasSealed(all, got.value)
  {
    var i :| 0 <= i < |all| && h.nonce == all[i].draw.nonce && len == |all[i].payload|;
    PayloadIsGenuine(f, k, all, i, h.payloadTag, inbox[..n] + stale);
  }

  /** No packet comes out, and no body read is begun. */
  ghost predicate Quiet(st: State, r: State) {
    r.delivered == st.delivered && (r.rx.ReadingBody? ==> r.rx == st.rx)
  }

  lemma CandidateQuiet(st: State, s: nat, n: nat, total: nat, ok: bool)
    requires Bounded(st) && s < |st.sockets|
    ensures n <= |st.sockets[s].inbox| ==> Quiet(st, OnCandidateHeader(st, s, n, total))
    ensures st.sockets[s].status.AwaitingBody? && (ok ==> st.sockets[s].status.total <= |st.sockets[s].inbox|)
            ==> Quiet(st, OnCandidateBody(st, s, ok))
  {
    hide Later, Bounded, SetStatus;
  }

  lemma ReceiverQuiet(st: State, n: nat, got: Option<Bytes>)
    requires Bounded(st)
    ensures Quiet(st, LoopTop(st))
    ensures st.rx.ReadingHeader? && n <= |st.sockets[st.rx.sock].inbox| ==> Quiet(st, OnHeaderFails(st, n))
    ensures st.rx.ReadingBody? ==> Quiet(st, OnBodyEnds(st, n, got))
  {
    hide Later, SetStatus, Consume;
  }

  lemma OthersQuiet(f: Cipher, k: Key, st: State, peer: Peer, ok: bool)
    requires Bounded(st)
    ensures (peer.Client? ==> AllSendable(peer.xs)) ==> Quiet(st, OnAccept(f, k, st, peer))
    ensures (forall x :: Quiet(st, OnSend(st, x))) && Quiet(st, OnWritten(st, ok)) && Quiet(st, OnClose(st))
    ensures Quiet(st, st.(rx := Exited))
  {
    hide Later, Bounded, SetStatus, BytesOf;
  }

  lemma StepQuiet(f: Cipher, k: Key, st: State, ev: Event)
    requires Bounded(st) && Enabled(st, ev) && !ev.HeaderRead? && !ev.BodyRead?
    ensures Quiet(st, Step(f, k, st, ev))
  {
    hide Later, Quiet, CandidateTotal, Decrypted, OnAccept, OnCandidateHeader, OnCandidateBody, OnHeaderFails,
         OnBodyEnds, OnSend, OnWritten, OnClose, LoopTop;
    match ev
    case Accept(peer) => OthersQuiet(f, k, st, peer, false);
    case CandidateHeader(s, n, stale) =>
      CandidateQuiet(st, s, n, CandidateTotal(f, k, st.sockets[s].inbox, n, stale), false);
    case CandidateBody(s, ok) => CandidateQuiet(st, s, 0, 0, ok);
    case HeaderFails(n) => ReceiverQuiet(st, n, None);
    case BodyEnds(n, stale) =>
      ReceiverQuiet(st, n, Decrypted(f, k, st.rx.header, st.rx.len, st.sockets[st.rx.sock].inbox, n, stale));
    case Call => ReceiverQuiet(st, 0, None);
    case Wake => ReceiverQuiet(st, 0, None);
    case Written(ok) => OthersQuiet(f, k, st, Stranger([]), ok);
    case _ => OthersQuiet(f, k, st, Stranger([]), false);
  }

  lemma BodyReadSealed(all: seq<Sent>, st: State, n: nat, got: Option<Bytes>)
    requires Bounded(st) && st.rx.ReadingBody? && n <= |st.sockets[st.rx.sock].inbox| && Sealed(all, st)
    requires got.Some? ==> WasSealed(all, got.value)
    ensures Sealed(all, OnBodyRead(st, n, got))
  {
    hide Later, Consume, WasSealed;
  }

  lemma StepSealed(f: Cipher, k: Key, all: seq<Sent>, st: State, ev: Event)
    requires Separable(all) && OnlySealed(f, k, all) && Bounded(st) && Enabled(st, ev) && Sealed(all, st)
    ensures Sealed(all, Step(f, k, st, ev))
  {
    hide Separable, OnlySealed, Later, Head, HeaderTotal, PlainLength, Decrypted, WasSealed, OnHeaderRead,
         OnBodyRead;
    match ev
    case HeaderRead => HeaderReadSealed(f, k, all, st);
    case BodyRead(n, stale) =>
      DecryptedIsSealed(f, k, all, st.rx.header, st.rx.len, st.sockets[st.rx.sock].inbox, n, stale);
      BodyReadSealed(all, st, n, Decrypted(f, k, st.rx.header, st.rx.len, st.sockets[st.rx.sock].inbox, n, stale));
    case _ =>
      StepQuiet(f, k, st, ev);
      hide Step;
  }

  lemma {:induction false} AlwaysSealed(f: Cipher, k: Key, all: seq<Sent>, evs: seq<Event>)
    requires Separable(all) && OnlySealed(f, k, all) && Run(f, k, evs).Some?
    ensures Sealed(all, Run(f, k, evs).value)
  {
    hide Separable, OnlySealed, Step;
    if evs != [] {
      AlwaysSealed(f, k, all, evs[..|evs| - 1]);
      StepSealed(f, k, all, Run(f, k, evs[..|evs| - 1]).value, evs[|evs| - 1]);
    }
  }

  /** No fabrication over TCP: in every run, whoever connects and whatever they send, with failed writes, cut
      reads and Close at any time, every packet delivered is the payload of a frame that was sealed. */
  lemma NoFabricationTcp(f: Cipher, k: Key, all: seq<Sent>, evs: seq<Event>, st: State, p: Bytes) returns (i: nat)
    requires Separable(all) && OnlySealed(f, k, all) && Run(f, k, evs) == Some(st) && p in st.delivered
    ensures i < |all| && all[i].payload == p
  {
    AlwaysSealed(f, k, all, evs);
    assert WasSealed(all, p);
    i :| 0 <= i < |all| && all[i].payload == p;
  }
}
