/** What the server receives over a whole run of the selection machine, hand-overs and Close included. */
module Delivery {
  import opened ByteStrings
  import opened Aead
  import opened ProtocolHeader
  import opened Frames
  import opened Protocols
  import opened Streams
  import opened Selection
  import opened Parsing
  import opened HandOver
  import opened Provenance

  /** No SendTo write failed, and no body read was cancelled on a socket that lives on. */
  predicate Clean(st: State) {
    !st.writeFailed && !st.bodyCut
  }

  /** A peer's bytes after the frame that tryReceive uses up. */
  function Rest(f: Cipher, k: Key, p: Peer): Bytes
    requires p.Client? ==> AllSendable(p.xs)
  {
    match TakeFirst(f, k, BytesOf(f, k, p))
    case None => []
    case Some(rest) => rest
  }

  ghost predicate SanePeer(f: Cipher, k: Key, p: Peer) {
    (p.Client? ==> AllSendable(p.xs)) && Sane(f, k, Rest(f, k, p))
  }

  ghost predicate AllSane(f: Cipher, k: Key, st: State) {
    forall s | 0 <= s < |st.sockets| :: SanePeer(f, k, st.sockets[s].peer)
  }

  /** `seg`, and `more` after it, are the first of the packets in the peer's bytes behind its first frame; all
      of them, if `exact`. */
  ghost predicate Begins(f: Cipher, k: Key, p: Peer, seg: seq<Bytes>, more: seq<Bytes>, exact: bool) {
    && (p.Client? ==> AllSendable(p.xs))
    && TakeFirst(f, k, BytesOf(f, k, p)).Some?
    && var all := Parsed(f, k, Rest(f, k, p));
       seg + more <= all && (exact ==> seg + more == all)
  }

  /** Everything on the socket has been read, and no body read on it was cut short by the peer's going. */
  predicate ReadWhole(st: State, s: nat)
    requires s < |st.sockets|
  {
    s !in st.ended && st.sockets[s].inbox == []
  }

  /** A socket's segment, so far; and all there is to it, once everything has been read. */
  ghost predicate SegmentOf(f: Cipher, k: Key, st: State, s: nat, seg: seq<Bytes>) {
    && s < |st.sockets|
    && Begins(f, k, st.sockets[s].peer, seg, [], ReadWhole(st, s))
  }

  /** What was delivered is one segment per socket chosen, in order. */
  ghost predicate Segmented(f: Cipher, k: Key, st: State, segs: seq<seq<Bytes>>) {
    && |segs| == |st.chosen| && st.delivered == Flatten(segs)
    && forall i | 0 <= i < |segs| :: SegmentOf(f, k, st, st.chosen[i], segs[i])
  }

  /** At the start of a round: what is left to read continues the socket's segment. */
  ghost predicate AtRound(f: Cipher, k: Key, x: Socket, seg: seq<Bytes>, exact: bool) {
    Sane(f, k, x.inbox) && Begins(f, k, x.peer, seg, Parsed(f, k, x.inbox), exact)
  }

  /** Between the header and the body of a round. */
  ghost predicate InRound(f: Cipher, k: Key, x: Socket, seg: seq<Bytes>, h: Header, len: nat, total: nat, exact: bool) {
    && 0 < total && len <= total && (total <= |x.inbox| ==> Sane(f, k, x.inbox[total..]))
    && Begins(f, k, x.peer, seg, ParsedBody(f, k, h, len, total, x.inbox), exact)
  }

  /** tryReceive has used up the first frame, and nothing else has been read. */
  ghost predicate Fresh(f: Cipher, k: Key, x: Socket) {
    && SanePeer(f, k, x.peer) && TakeFirst(f, k, BytesOf(f, k, x.peer)).Some?
    && x.inbox == Rest(f, k, x.peer)
  }

  function Last<T>(s: seq<T>): T
    requires s != []
  {
    s[|s| - 1]
  }

  /** The socket that is being read, or will be next. */
  function Active(st: State): Option<nat> {
    if st.rx.ReadingHeader? || st.rx.ReadingBody? then Some(st.rx.sock)
    else if st.stopped then None
    else st.conn
  }

  /** Socket `a` is where the receive loop takes it to be. */
  ghost predicate Proceeds(f: Cipher, k: Key, st: State, a: nat, seg: seq<Bytes>) {
    && a < |st.sockets|
    && if st.rx.ReadingBody? then
         InRound(f, k, st.sockets[a], seg, st.rx.header, st.rx.len, st.rx.total, a !in st.ended)
       else AtRound(f, k, st.sockets[a], seg, a !in st.ended)
  }

  ghost predicate Delivers(f: Cipher, k: Key, st: State, segs: seq<seq<Bytes>>) {
    && Bounded(st) && Segmented(f, k, st, segs)
    && (forall s | s in st.ended :: s in st.chosen)
    && (Active(st).Some? ==> LastIs(st.chosen, Active(st).value) && Proceeds(f, k, st, Active(st).value, Last(segs)))
    && (!st.stopped && st.replace.Some? ==> Fresh(f, k, st.sockets[st.replace.value]))
  }

  lemma {:induction false} FlattenAppend<T>(a: seq<seq<T>>, b: seq<seq<T>>)
    ensures Flatten(a + b) == Flatten(a) + Flatten(b)
    decreases |a|
  {
    if a == [] {
      assert a + b == b;
    } else {
      assert (a + b)[0] == a[0] && (a + b)[1..] == a[1..] + b;
      FlattenAppend(a[1..], b);
    }
  }

  lemma FlattenOne<T>(s: seq<T>)
    ensures Flatten([s]) == s
  {
    assert [s][1..] == [];
  }

  /** The last segment with one packet more. */
  function Grown(segs: seq<seq<Bytes>>, p: Bytes): (r: seq<seq<Bytes>>)
    requires segs != []
    ensures |r| == |segs|
  {
    segs[..|segs| - 1] + [Last(segs) + [p]]
  }

  lemma GrownFlattens(segs: seq<seq<Bytes>>, p: Bytes)
    requires segs != []
    ensures Flatten(Grown(segs, p)) == Flatten(segs) + [p]
  {
    var a := segs[..|segs| - 1];
    FlattenAppend(a, [Last(segs)]);
    FlattenAppend(a, [Last(segs) + [p]]);
    FlattenOne(Last(segs));
    FlattenOne(Last(segs) + [p]);
    assert segs == a + [Last(segs)];
  }

  lemma GrownAt(segs: seq<seq<Bytes>>, p: Bytes)
    requires segs != []
    ensures forall i | 0 <= i < |segs| - 1 :: Grown(segs, p)[i] == segs[i]
    ensures Last(Grown(segs, p)) == Last(segs) + [p]
  {
  }

  // ----- rounds -----

  /** From the start of a round, the header taken off. */
  lemma RoundOpens(f: Cipher, k: Key, x: Socket, seg: seq<Bytes>, exact: bool)
    requires AtRound(f, k, x, seg, exact) && SIZE <= |x.inbox|
    ensures var h := Head(x.inbox);
            var total := HeaderTotal(f, k, h);
            var y := x.(inbox := x.inbox[SIZE..]);
            && (total == 0 ==> AtRound(f, k, y, seg, exact))
            && (0 < total <= BODY_ROOM ==> InRound(f, k, y, seg, h, PlainLength(f, k, h), total, exact))
  {
    hide Head, HeaderTotal, PlainLength, TakeFirst, Rest;
  }

  /** The body taken off: the packet in it, if there is one, continues the segment. */
  lemma RoundCloses(f: Cipher, k: Key, x: Socket, seg: seq<Bytes>, h: Header, len: nat, total: nat, stale: Bytes,
                    exact: bool)
    requires InRound(f, k, x, seg, h, len, total, exact) && total <= |x.inbox| && |stale| == MAX_BUFFSIZE
    ensures var got := Decrypted(f, k, h, len, x.inbox, total, stale);
            var y := x.(inbox := x.inbox[total..]);
            AtRound(f, k, y, if got.Some? then seg + [got.value] else seg, exact)
  {
    OpenedWhole(f, k, h, len, x.inbox, total, stale);
    var got := Decrypted(f, k, h, len, x.inbox, total, stale);
    hide Decrypted, Opened, Sane, TakeFirst, Rest, Parsed;
    var packets := if got.Some? then [got.value] else [];
    var rest := Parsed(f, k, x.inbox[total..]);
    assert seg + (packets + rest) == (seg + packets) + rest;
    assert seg + [] == seg;
  }

  lemma BeginsShort(f: Cipher, k: Key, p: Peer, seg: seq<Bytes>, more: seq<Bytes>, exact: bool)
    requires Begins(f, k, p, seg, more, exact)
    ensures Begins(f, k, p, seg, [], exact && more == [])
  {
    var all := Parsed(f, k, Rest(f, k, p));
    assert seg + more == all[..|seg + more|];
    assert seg + [] == (seg + more)[..|seg|] == all[..|seg|];
  }

  /** Fewer than 52 bytes more taken off a socket at the start of a round: its segment stands as it is, and is
      complete if that was all. */
  lemma RoundEnds(f: Cipher, k: Key, x: Socket, seg: seq<Bytes>, n: nat, exact: bool)
    requires AtRound(f, k, x, seg, exact) && n <= |x.inbox| && n < SIZE
    ensures Begins(f, k, x.peer, seg, [], exact && x.inbox[n..] == [])
  {
    BeginsShort(f, k, x.peer, seg, Parsed(f, k, x.inbox), exact);
    if x.inbox[n..] == [] {
      assert |x.inbox| == n;
    }
  }

  lemma BodyMissing(f: Cipher, k: Key, x: Socket, seg: seq<Bytes>, h: Header, len: nat, total: nat, exact: bool)
    requires InRound(f, k, x, seg, h, len, total, exact)
    ensures 0 < total && Begins(f, k, x.peer, seg, [], exact && x.inbox == [])
  {
    BeginsShort(f, k, x.peer, seg, ParsedBody(f, k, h, len, total, x.inbox), exact);
  }

  /** A socket on which nothing more will come. */
  lemma SpentAtRound(f: Cipher, k: Key, x: Socket, seg: seq<Bytes>)
    requires Begins(f, k, x.peer, seg, [], false) && x.inbox == []
    ensures AtRound(f, k, x, seg, false)
  {
  }

  lemma Weaker(f: Cipher, k: Key, p: Peer, seg: seq<Bytes>, exact: bool, less: bool)
    requires Begins(f, k, p, seg, [], exact) && (less ==> exact)
    ensures Begins(f, k, p, seg, [], less)
  {
  }

  // ----- steps that leave the bytes of chosen sockets alone -----

  /** A socket's unread bytes are all that counts. */
  predicate SameBytes(x: Socket, y: Socket) {
    x.peer == y.peer && x.inbox == y.inbox
  }

  ghost predicate SameChosen(st: State, r: State) {
    && r.chosen == st.chosen && r.ended == st.ended
    && forall s | s in st.chosen && s < |st.sockets| :: s < |r.sockets| && SameBytes(r.sockets[s], st.sockets[s])
  }

  lemma SegmentedStill(f: Cipher, k: Key, st: State, r: State, segs: seq<seq<Bytes>>)
    requires Segmented(f, k, st, segs) && SameChosen(st, r) && r.delivered == st.delivered
    ensures Segmented(f, k, r, segs)
  {
    hide Begins, Flatten;
    forall i | 0 <= i < |segs| ensures SegmentOf(f, k, r, r.chosen[i], segs[i]) {
      assert SegmentOf(f, k, st, st.chosen[i], segs[i]) && st.chosen[i] in st.chosen;
    }
  }

  /** The receive loop is where it was, or nowhere. */
  predicate SameActive(st: State, r: State) {
    Active(r).Some? ==>
      && Active(st) == Active(r)
      && (r.rx.ReadingBody? || st.rx.ReadingBody? ==> r.rx == st.rx)
  }

  lemma ProceedsStill(f: Cipher, k: Key, st: State, r: State, a: nat, seg: seq<Bytes>)
    requires Proceeds(f, k, st, a, seg) && a < |r.sockets| && SameBytes(r.sockets[a], st.sockets[a])
    requires r.ended == st.ended && (r.rx.ReadingBody? || st.rx.ReadingBody? ==> r.rx == st.rx)
    ensures Proceeds(f, k, r, a, seg)
  {
    hide Begins, Sane, Parsed, ParsedBody;
  }

  /** A step that delivers nothing, chooses nobody, and leaves alone the bytes of the sockets that count. */
  lemma StillDelivers(f: Cipher, k: Key, st: State, r: State, segs: seq<seq<Bytes>>)
    requires Delivers(f, k, st, segs) && Bounded(r)
    requires SameChosen(st, r) && r.delivered == st.delivered && SameActive(st, r)
    requires !r.stopped && r.replace.Some? ==>
               && !st.stopped && r.replace == st.replace
               && SameBytes(r.sockets[r.replace.value], st.sockets[r.replace.value])
    ensures Delivers(f, k, r, segs)
  {
    BoundedDelivers(f, k, st, segs);
    hide Segmented, Proceeds, Fresh;
    SegmentedStill(f, k, st, r, segs);
    if Active(r).Some? {
      var a := Active(r).value;
      assert a in st.chosen;
      ProceedsBounded(f, k, st, a, Last(segs));
      ProceedsStill(f, k, st, r, a, Last(segs));
    }
    if !r.stopped && r.replace.Some? {
      FreshStill(f, k, st.sockets[st.replace.value], r.sockets[r.replace.value]);
    }
  }

  lemma ProceedsBounded(f: Cipher, k: Key, st: State, a: nat, seg: seq<Bytes>)
    requires Proceeds(f, k, st, a, seg)
    ensures a < |st.sockets|
  {
  }

  lemma FreshStill(f: Cipher, k: Key, x: Socket, y: Socket)
    requires Fresh(f, k, x) && SameBytes(x, y)
    ensures Fresh(f, k, y)
  {
  }

  lemma BoundedDelivers(f: Cipher, k: Key, st: State, segs: seq<seq<Bytes>>)
    requires Delivers(f, k, st, segs)
    ensures Bounded(st) && Segmented(f, k, st, segs) && |segs| == |st.chosen|
    ensures forall s | s in st.ended :: s in st.chosen
  {
  }

  lemma AcceptDelivers(f: Cipher, k: Key, st: State, peer: Peer, segs: seq<seq<Bytes>>)
    requires Delivers(f, k, st, segs) && (peer.Client? ==> AllSendable(peer.xs))
    ensures Delivers(f, k, OnAccept(f, k, st, peer), segs)
  {
    hide Delivers, BytesOf, Later, Apart;
    BoundedDelivers(f, k, st, segs);
    StillDelivers(f, k, st, OnAccept(f, k, st, peer), segs);
  }

  lemma FaultDelivers(f: Cipher, k: Key, st: State, fault: Fault, segs: seq<seq<Bytes>>)
    requires Delivers(f, k, st, segs)
    ensures Delivers(f, k, st.(fault := fault), segs)
  {
    BoundedDelivers(f, k, st, segs);
    hide Delivers;
    StillDelivers(f, k, st, st.(fault := fault), segs);
  }

  /** `st` with the fields of `r` that do not bear on delivery. */
  function Aside(st: State, r: State): State {
    st.(tx := r.tx, accepting := r.accepting, selected := r.selected, fault := r.fault, writeFailed := r.writeFailed,
        wire := r.wire)
  }

  lemma AsideDelivers(f: Cipher, k: Key, st: State, r: State, segs: seq<seq<Bytes>>)
    requires Delivers(f, k, st, segs) && r == Aside(st, r)
    ensures Delivers(f, k, r, segs)
  {
    BoundedDelivers(f, k, st, segs);
    hide Delivers;
    StillDelivers(f, k, st, r, segs);
  }

  lemma SenderFields(st: State, ok: bool)
    requires Bounded(st)
    ensures forall x :: OnSend(st, x) == Aside(st, OnSend(st, x))
    ensures OnWritten(st, ok) == Aside(st, OnWritten(st, ok))
  {
    hide Later, Apart, Bounded;
  }

  lemma SetStatusBytes(sockets: seq<Socket>, o: Option<nat>, status: Status)
    requires o.Some? ==> o.value < |sockets|
    ensures forall t | 0 <= t < |sockets| :: SameBytes(SetStatus(sockets, o, status)[t], sockets[t])
  {
  }

  /** The state once Close has taken effect. */
  function Halted(st: State, sockets: seq<Socket>): State {
    st.(accepting := false, sockets := sockets, conn := None, selected := false, stopped := true)
  }

  lemma StopsDelivers(f: Cipher, k: Key, st: State, sockets: seq<Socket>, segs: seq<seq<Bytes>>)
    requires Delivers(f, k, st, segs) && |sockets| == |st.sockets|
    requires forall t | 0 <= t < |sockets| :: SameBytes(sockets[t], st.sockets[t])
    ensures Delivers(f, k, Halted(st, sockets), segs)
  {
    BoundedDelivers(f, k, st, segs);
    hide Delivers;
    StillDelivers(f, k, st, Halted(st, sockets), segs);
  }

  lemma CloseDelivers(f: Cipher, k: Key, st: State, segs: seq<seq<Bytes>>)
    requires Delivers(f, k, st, segs)
    ensures Delivers(f, k, OnClose(st), segs)
  {
    BoundedDelivers(f, k, st, segs);
    hide Delivers, Later, Apart, SetStatus, Segmented;
    if st.rx == Exited || !st.selected || st.conn.None? {
      AsideDelivers(f, k, st, OnClose(st), segs);
    } else {
      SetStatusBytes(st.sockets, st.conn, Closed);
      StopsDelivers(f, k, st, SetStatus(st.sockets, st.conn, Closed), segs);
    }
  }

  /** The receive loop goes from one call to the next, or ends. */
  lemma IdleDelivers(f: Cipher, k: Key, st: State, ev: Event, segs: seq<seq<Bytes>>)
    requires Safe(st) && Delivers(f, k, st, segs) && Enabled(st, ev) && (ev == Call || ev == Wake || ev == LoopEnds)
    ensures Delivers(f, k, Step(f, k, st, ev), segs)
  {
    hide Delivers, Ledger;
    StillDelivers(f, k, st, Step(f, k, st, ev), segs);
  }

  // ----- tryReceive -----

  /** A change to a socket that is not taken. */
  lemma CandidateChanges(f: Cipher, k: Key, st: State, s: nat, x: Socket, segs: seq<seq<Bytes>>)
    requires Delivers(f, k, st, segs) && HoldsTaken(st) && Once(st)
    requires s < |st.sockets| && !Taken(st.sockets[s].status) && x.peer == st.sockets[s].peer
    ensures Delivers(f, k, st.(sockets := st.sockets[s := x]), segs)
  {
    BoundedDelivers(f, k, st, segs);
    NotTakenApart(st, s);
    hide Delivers, Later, Apart, Taken, Once, HoldsTaken;
    StillDelivers(f, k, st, st.(sockets := st.sockets[s := x]), segs);
  }

  /** A socket that is not taken was not chosen, and is not the one in reserve. */
  lemma NotTakenApart(st: State, s: nat)
    requires HoldsTaken(st) && Once(st) && s < |st.sockets| && !Taken(st.sockets[s].status)
    ensures s !in st.chosen && st.replace != Some(s)
  {
    hide Distinct;
  }

  lemma CandidateHeaderDelivers(f: Cipher, k: Key, st: State, s: nat, n: nat, total: nat, segs: seq<seq<Bytes>>)
    requires Delivers(f, k, st, segs) && Bounded(st) && HoldsTaken(st) && Once(st)
    requires s < |st.sockets| && st.sockets[s].status == AwaitingHeader && n <= |st.sockets[s].inbox|
    ensures Delivers(f, k, OnCandidateHeader(st, s, n, total), segs)
  {
    hide Delivers, Later, Apart, Bounded, HoldsTaken, Once;
    var r := OnCandidateHeader(st, s, n, total);
    FaultDelivers(f, k, st, TooLong, segs);
    if total <= BODY_ROOM {
      CandidateChanges(f, k, st, s, r.sockets[s], segs);
    }
  }

  /** A candidate's socket once its body has been read. */
  lemma CandidateFresh(f: Cipher, k: Key, x: Socket, status: Status)
    requires Traced(f, k, x) && x.status.AwaitingBody? && x.status.total <= |x.inbox| && SanePeer(f, k, x.peer)
    ensures Fresh(f, k, x.(inbox := x.inbox[x.status.total..], status := status))
  {
    hide Head, HeaderTotal, Sane, BytesOf;
  }

  lemma FreshBegins(f: Cipher, k: Key, x: Socket)
    requires Fresh(f, k, x)
    ensures AtRound(f, k, x, [], true) && Begins(f, k, x.peer, [], [], x.inbox == [])
  {
    hide Sane, TakeFirst, BytesOf;
    assert [] + Parsed(f, k, x.inbox) == Parsed(f, k, x.inbox);
    assert Parsed(f, k, []) == [];
  }

  /** One more socket is chosen: one more segment, empty so far. */
  lemma TakesNext(f: Cipher, k: Key, st: State, r: State, segs: seq<seq<Bytes>>, s: nat)
    requires Segmented(f, k, st, segs) && s !in st.chosen && s !in st.ended && r.delivered == st.delivered
    requires SameChosen(st, r.(chosen := st.chosen)) && r.chosen == st.chosen + [s]
    requires s < |r.sockets| && Fresh(f, k, r.sockets[s])
    ensures Segmented(f, k, r, segs + [[]]) && AtRound(f, k, r.sockets[s], [], true)
  {
    hide Flatten, Begins, Fresh, AtRound;
    FlattenAppend(segs, [[]]);
    FlattenOne<Bytes>([]);
    SegmentedStill(f, k, st, r.(chosen := st.chosen), segs);
    FreshBegins(f, k, r.sockets[s]);
    var more := segs + [[]];
    assert forall i | 0 <= i < |segs| :: SegmentOf(f, k, r.(chosen := st.chosen), st.chosen[i], segs[i]);
    forall i | 0 <= i < |more| ensures SegmentOf(f, k, r, r.chosen[i], more[i]) {
      if i < |segs| {
        assert SegmentOf(f, k, r.(chosen := st.chosen), st.chosen[i], segs[i]);
      }
    }
  }

  /** And it is the one to be read next. */
  lemma ChosenDelivers(f: Cipher, k: Key, st: State, r: State, segs: seq<seq<Bytes>>, s: nat)
    requires Delivers(f, k, st, segs) && s !in st.chosen && r.delivered == st.delivered && Bounded(r)
    requires SameChosen(st, r.(chosen := st.chosen)) && r.chosen == st.chosen + [s]
    requires s < |r.sockets| && Fresh(f, k, r.sockets[s])
    requires !r.stopped && r.conn == Some(s) && r.replace.None? && !r.rx.ReadingHeader? && !r.rx.ReadingBody?
    ensures Delivers(f, k, r, segs + [[]])
  {
    hide Segmented, AtRound, Fresh;
    TakesNext(f, k, st, r, segs, s);
  }

  lemma ChooseDelivers(f: Cipher, k: Key, st: State, s: nat, read: Socket, segs: seq<seq<Bytes>>)
    requires Delivers(f, k, st, segs) && Bounded(st) && HandsOver(st) && !st.stopped && Once(st) && !st.selected
    requires s < |st.sockets| && !Taken(st.sockets[s].status) && Fresh(f, k, read.(status := Current))
    ensures Delivers(f, k, Choose(st, s, read), segs + [[]])
  {
    assert s !in st.chosen;
    hide Delivers, Fresh, Later, Apart, Distinct, WasChosen, Once, Taken;
    ChosenDelivers(f, k, st, Choose(st, s, read), segs, s);
  }

  lemma ReserveDelivers(f: Cipher, k: Key, st: State, s: nat, read: Socket, segs: seq<seq<Bytes>>)
    requires Delivers(f, k, st, segs) && Bounded(st) && Once(st) && st.selected
    requires s < |st.sockets| && !Taken(st.sockets[s].status) && Fresh(f, k, read.(status := Replacement))
    ensures Delivers(f, k, Reserve(st, s, read), segs)
  {
    var r := Reserve(st, s, read);
    assert s !in st.chosen;
    FaultDelivers(f, k, st, NullDeref(96), segs);
    hide Delivers, Fresh, Later, Apart, Once, Taken, SetStatus;
    if st.conn.Some? {
      SetStatusBytes(st.sockets, st.replace, Superseded);
      StillDelivers(f, k, st, r.(replace := None), segs);
      HoldsInReserve(f, k, r, s, segs);
    }
  }

  lemma HoldsInReserve(f: Cipher, k: Key, r: State, s: nat, segs: seq<seq<Bytes>>)
    requires Bounded(r) && Delivers(f, k, r.(replace := None), segs)
    requires r.replace == Some(s) && Fresh(f, k, r.sockets[s])
    ensures Delivers(f, k, r, segs)
  {
    BoundedDelivers(f, k, r.(replace := None), segs);
    hide Segmented, Fresh, Proceeds;
    SegmentedStill(f, k, r.(replace := None), r, segs);
    if Active(r).Some? {
      ProceedsBounded(f, k, r.(replace := None), Active(r).value, Last(segs));
      ProceedsStill(f, k, r.(replace := None), r, Active(r).value, Last(segs));
    }
  }

  lemma CandidateBodyDelivers(f: Cipher, k: Key, st: State, s: nat, ok: bool, segs: seq<seq<Bytes>>)
      returns (segs': seq<seq<Bytes>>)
    requires Safe(st) && Once(st) && (!st.stopped ==> HandsOver(st))
    requires Delivers(f, k, st, segs) && s < |st.sockets| && st.sockets[s].status.AwaitingBody?
    requires Traced(f, k, st.sockets[s]) && SanePeer(f, k, st.sockets[s].peer)
    requires ok ==> st.sockets[s].status.total <= |st.sockets[s].inbox|
    ensures Delivers(f, k, OnCandidateBody(st, s, ok), segs')
  {
    FaultDelivers(f, k, st, Uncaught, segs);
    BoundedDelivers(f, k, st, segs);
    segs' := segs;
    hide Delivers, HandsOver, Ledger, Traced, SanePeer, Fresh, Choose, Reserve, Segmented, Once;
    if ok && st.accepting {
      var x := st.sockets[s];
      var read := x.(inbox := x.inbox[x.status.total..]);
      if st.selected {
        CandidateFresh(f, k, x, Replacement);
        ReserveDelivers(f, k, st, s, read, segs);
      } else {
        CandidateFresh(f, k, x, Current);
        ChooseDelivers(f, k, st, s, read, segs);
        segs' := segs + [[]];
      }
    }
  }

  // ----- the receive loop -----

  lemma HeldApart(st: State)
    requires Safe(st) && st.replace.Some?
    ensures st.replace != st.conn
  {
    assert Entered(st.sockets[st.replace.value], st.replace.value, st.conn, st.replace);
  }

  /** The replacement was never chosen. */
  lemma ReplacementIsNew(st: State)
    requires Safe(st) && Once(st) && st.replace.Some?
    ensures st.replace.value !in st.chosen
  {
    assert Entered(st.sockets[st.replace.value], st.replace.value, st.conn, st.replace);
  }

  lemma ConsumeParts(sockets: seq<Socket>, s: nat, n: nat)
    requires s < |sockets| && n <= |sockets[s].inbox|
    ensures Consume(sockets, s, n)[s] == sockets[s].(inbox := sockets[s].inbox[n..])
    ensures forall t | 0 <= t < |sockets| && t != s :: Consume(sockets, s, n)[t] == sockets[t]
  {
  }

  /** `r` has the sockets of `st`, but for the bytes of the one chosen last, whose segment is now `seg`; what was
      delivered has grown accordingly. */
  ghost predicate LastMoved(st: State, r: State, s: nat) {
    && LastIs(st.chosen, s) && Distinct(st.chosen) && r.chosen == st.chosen
    && |r.sockets| == |st.sockets| && s < |st.sockets|
    && (forall t | t in st.ended || t in r.ended :: t == s || (t in st.ended && t in r.ended))
    && forall t | 0 <= t < |st.sockets| && t != s :: SameBytes(r.sockets[t], st.sockets[t])
  }

  /** Segments but the last do not move. */
  lemma OtherSegment(f: Cipher, k: Key, st: State, r: State, s: nat, t: nat, seg: seq<Bytes>)
    requires SegmentOf(f, k, st, t, seg) && LastMoved(st, r, s) && t != s
    ensures SegmentOf(f, k, r, t, seg)
  {
    hide Begins, Distinct;
  }

  lemma SegmentsMoved(f: Cipher, k: Key, st: State, r: State, s: nat, segs: seq<seq<Bytes>>)
    requires Segmented(f, k, st, segs) && LastMoved(st, r, s) && r.delivered == st.delivered
    requires SegmentOf(f, k, r, s, Last(segs))
    ensures Segmented(f, k, r, segs)
  {
    hide SegmentOf, Flatten;
    forall i | 0 <= i < |segs| ensures SegmentOf(f, k, r, r.chosen[i], segs[i]) {
      assert SegmentOf(f, k, st, st.chosen[i], segs[i]);
      if i < |segs| - 1 {
        OtherSegment(f, k, st, r, s, st.chosen[i], segs[i]);
      }
    }
  }

  lemma SegmentsGrown(f: Cipher, k: Key, st: State, r: State, s: nat, segs: seq<seq<Bytes>>, p: Bytes)
    requires Segmented(f, k, st, segs) && LastMoved(st, r, s) && r.delivered == st.delivered + [p] && segs != []
    requires SegmentOf(f, k, r, s, Last(segs) + [p])
    ensures Segmented(f, k, r, Grown(segs, p)) && Last(Grown(segs, p)) == Last(segs) + [p]
  {
    hide SegmentOf, Flatten, Grown;
    GrownFlattens(segs, p);
    GrownAt(segs, p);
    var grown := Grown(segs, p);
    forall i | 0 <= i < |grown| ensures SegmentOf(f, k, r, r.chosen[i], grown[i]) {
      assert SegmentOf(f, k, st, st.chosen[i], segs[i]);
      if i < |segs| - 1 {
        OtherSegment(f, k, st, r, s, st.chosen[i], segs[i]);
      }
    }
  }

  lemma AtRoundSegment(f: Cipher, k: Key, st: State, s: nat, seg: seq<Bytes>)
    requires s < |st.sockets| && AtRound(f, k, st.sockets[s], seg, s !in st.ended)
    ensures SegmentOf(f, k, st, s, seg)
  {
    RoundEnds(f, k, st.sockets[s], seg, 0, s !in st.ended);
  }

  lemma AtRoundProceeds(f: Cipher, k: Key, st: State, s: nat, seg: seq<Bytes>)
    requires s < |st.sockets| && !st.rx.ReadingBody? && AtRound(f, k, st.sockets[s], seg, s !in st.ended)
    ensures Proceeds(f, k, st, s, seg)
  {
  }

  /** What a step leaves that moves only the socket being read, with the segments it then has. */
  lemma MovedDelivers(f: Cipher, k: Key, st: State, r: State, segs: seq<seq<Bytes>>, segs': seq<seq<Bytes>>)
    requires Delivers(f, k, st, segs) && (st.rx.ReadingHeader? || st.rx.ReadingBody?)
    requires LastMoved(st, r, st.rx.sock) && Bounded(r) && Segmented(f, k, r, segs')
    requires Active(r).Some? ==> Active(r) == Some(st.rx.sock) && Proceeds(f, k, r, st.rx.sock, Last(segs'))
    requires !r.stopped && r.replace.Some? ==> !st.stopped && r.replace == st.replace && r.replace != Some(st.rx.sock)
    ensures Delivers(f, k, r, segs')
  {
    hide Segmented, Fresh, Distinct, Proceeds;
    if !r.stopped && r.replace.Some? {
      FreshStill(f, k, st.sockets[st.replace.value], r.sockets[r.replace.value]);
    }
  }

  /** After bytes were taken off the socket being read, between two rounds. */
  lemma TakenOff(f: Cipher, k: Key, st: State, r: State, segs: seq<seq<Bytes>>)
    requires Delivers(f, k, st, segs) && (st.rx.ReadingHeader? || st.rx.ReadingBody?)
    requires LastMoved(st, r, st.rx.sock) && r == st.(sockets := r.sockets, rx := Calling, ended := r.ended)
    requires Bounded(r) && AtRound(f, k, r.sockets[st.rx.sock], Last(segs), st.rx.sock !in r.ended)
    requires !st.stopped ==> st.conn == Some(st.rx.sock) && st.replace != st.conn
    ensures Delivers(f, k, r, segs)
  {
    var s := st.rx.sock;
    BoundedDelivers(f, k, st, segs);
    AtRoundProceeds(f, k, r, s, Last(segs));
    hide Delivers, Segmented, AtRound, Distinct, Proceeds, SegmentOf;
    AtRoundSegment(f, k, r, s, Last(segs));
    SegmentsMoved(f, k, st, r, s, segs);
    MovedDelivers(f, k, st, r, segs, segs);
  }

  /** The same with a packet. */
  lemma PacketTaken(f: Cipher, k: Key, st: State, r: State, segs: seq<seq<Bytes>>, p: Bytes)
    requires Delivers(f, k, st, segs) && st.rx.ReadingBody?
    requires LastMoved(st, r, st.rx.sock)
    requires r == st.(sockets := r.sockets, rx := Calling, delivered := st.delivered + [p])
    requires Bounded(r) && AtRound(f, k, r.sockets[st.rx.sock], Last(segs) + [p], st.rx.sock !in r.ended)
    requires !st.stopped ==> st.conn == Some(st.rx.sock) && st.replace != st.conn
    ensures Delivers(f, k, r, Grown(segs, p))
  {
    var s := st.rx.sock;
    BoundedDelivers(f, k, st, segs);
    AtRoundProceeds(f, k, r, s, Last(segs) + [p]);
    hide Delivers, Segmented, AtRound, Distinct, Grown, Proceeds, SegmentOf;
    AtRoundSegment(f, k, r, s, Last(segs) + [p]);
    SegmentsGrown(f, k, st, r, s, segs, p);
    MovedDelivers(f, k, st, r, segs, Grown(segs, p));
  }

  /** Reading ends for good on the socket that was read, or on all of them. */
  lemma ReadingEnds(f: Cipher, k: Key, st: State, r: State, segs: seq<seq<Bytes>>)
    requires Delivers(f, k, st, segs) && st.rx.ReadingHeader? && LastMoved(st, r, st.rx.sock)
    requires r.delivered == st.delivered && r.ended == st.ended && Active(r).None? && Bounded(r)
    requires SegmentOf(f, k, r, st.rx.sock, Last(segs))
    requires !r.stopped && r.replace.Some? ==> !st.stopped && r.replace == st.replace && r.replace != Some(st.rx.sock)
    ensures Delivers(f, k, r, segs)
  {
    BoundedDelivers(f, k, st, segs);
    hide Delivers, Segmented, SegmentOf, Proceeds, Distinct;
    SegmentsMoved(f, k, st, r, st.rx.sock, segs);
    MovedDelivers(f, k, st, r, segs, segs);
  }

  /** The top of the loop changes nothing that counts. */
  lemma LoopTopDelivers(f: Cipher, k: Key, st: State, segs: seq<seq<Bytes>>)
    requires Delivers(f, k, st.(rx := Calling), segs) && Bounded(st) && (st.selected ==> st.conn.Some?)
    requires st.stopped ==> !st.selected
    ensures Delivers(f, k, LoopTop(st), segs)
  {
    hide Delivers;
    BoundedDelivers(f, k, st.(rx := Calling), segs);
    StillDelivers(f, k, st.(rx := Calling), LoopTop(st), segs);
  }

  lemma ExitsDelivers(f: Cipher, k: Key, st: State, segs: seq<seq<Bytes>>)
    requires Delivers(f, k, st.(rx := Calling), segs) && Bounded(st)
    ensures Delivers(f, k, st.(rx := Exited), segs)
  {
    hide Delivers;
    BoundedDelivers(f, k, st.(rx := Calling), segs);
    StillDelivers(f, k, st.(rx := Calling), st.(rx := Exited), segs);
  }

  /** The socket being read is the one chosen last, and it is where reading is. */
  lemma ReadingLast(f: Cipher, k: Key, st: State, segs: seq<seq<Bytes>>)
    requires Safe(st) && Once(st) && (!st.stopped ==> HandsOver(st)) && Delivers(f, k, st, segs)
    requires st.rx.ReadingHeader? || st.rx.ReadingBody?
    ensures LastIs(st.chosen, st.rx.sock) && |segs| == |st.chosen| && st.rx.sock < |st.sockets|
    ensures Proceeds(f, k, st, st.rx.sock, Last(segs)) && Distinct(st.chosen)
    ensures !st.stopped ==> st.conn == Some(st.rx.sock) && st.replace != st.conn
    ensures Bounded(st) && (st.selected ==> st.conn.Some?) && (st.stopped ==> !st.selected)
  {
    if st.replace.Some? { HeldApart(st); }
    hide Ledger, Segmented, Proceeds, WasChosen, Distinct;
    BoundedDelivers(f, k, st, segs);
  }

  lemma ConsumeMoves(st: State, s: nat, n: nat, r: State)
    requires LastIs(st.chosen, s) && Distinct(st.chosen) && s < |st.sockets| && n <= |st.sockets[s].inbox|
    requires r.sockets == Consume(st.sockets, s, n) && r.chosen == st.chosen
    requires r.ended == st.ended || r.ended == st.ended + {s}
    ensures LastMoved(st, r, s) && r.sockets[s] == st.sockets[s].(inbox := st.sockets[s].inbox[n..])
  {
    ConsumeParts(st.sockets, s, n);
  }

  /** Back at the top of the loop, `n` bytes on, with nothing to return. */
  lemma BackToTop(f: Cipher, k: Key, st: State, n: nat, ended: set<nat>, segs: seq<seq<Bytes>>)
    requires Safe(st) && Once(st) && (!st.stopped ==> HandsOver(st)) && Delivers(f, k, st, segs) && segs != []
    requires (st.rx.ReadingHeader? || st.rx.ReadingBody?) && n <= |st.sockets[st.rx.sock].inbox|
    requires ended == st.ended || ended == st.ended + {st.rx.sock}
    requires var x := st.sockets[st.rx.sock];
             AtRound(f, k, x.(inbox := x.inbox[n..]), Last(segs), st.rx.sock !in ended)
    ensures var read := st.(sockets := Consume(st.sockets, st.rx.sock, n), ended := ended);
            Delivers(f, k, LoopTop(read), segs) && Delivers(f, k, read.(rx := Exited), segs)
  {
    var s := st.rx.sock;
    ReadingLast(f, k, st, segs);
    hide Safe, Once, HandsOver, Delivers, AtRound, Proceeds, Distinct, LoopTop, Consume, LastMoved;
    var read := st.(sockets := Consume(st.sockets, s, n), ended := ended);
    ConsumeMoves(st, s, n, read.(rx := Calling));
    TakenOff(f, k, st, read.(rx := Calling), segs);
    LoopTopDelivers(f, k, read, segs);
    ExitsDelivers(f, k, read, segs);
  }

  lemma InRoundMoves(f: Cipher, k: Key, st: State, s: nat, seg: seq<Bytes>)
    requires s < |st.sockets| && st.rx.ReadingBody?
    requires InRound(f, k, st.sockets[s], seg, st.rx.header, st.rx.len, st.rx.total, s !in st.ended)
    ensures Proceeds(f, k, st, s, seg) && SegmentOf(f, k, st, s, seg)
  {
    BodyMissing(f, k, st.sockets[s], seg, st.rx.header, st.rx.len, st.rx.total, s !in st.ended);
  }

  /** A header that opens: the socket is between header and body. */
  lemma OpensDelivers(f: Cipher, k: Key, st: State, r: State, segs: seq<seq<Bytes>>)
    requires Delivers(f, k, st, segs) && st.rx.ReadingHeader? && Bounded(r) && LastMoved(st, r, st.rx.sock)
    requires r == st.(sockets := r.sockets, rx := r.rx) && r.rx.ReadingBody? && r.rx.sock == st.rx.sock
    requires st.replace != Some(st.rx.sock)
    requires var s := st.rx.sock;
             InRound(f, k, r.sockets[s], Last(segs), r.rx.header, r.rx.len, r.rx.total, s !in st.ended)
    ensures Delivers(f, k, r, segs)
  {
    var s := st.rx.sock;
    BoundedDelivers(f, k, st, segs);
    InRoundMoves(f, k, r, s, Last(segs));
    hide Delivers, Segmented, InRound, Distinct, Proceeds, SegmentOf;
    SegmentsMoved(f, k, st, r, s, segs);
    MovedDelivers(f, k, st, r, segs, segs);
  }

  lemma HeaderReadDelivers(f: Cipher, k: Key, st: State, segs: seq<seq<Bytes>>)
    requires Safe(st) && Once(st) && (!st.stopped ==> HandsOver(st)) && Delivers(f, k, st, segs)
    requires st.rx.ReadingHeader? && SIZE <= |st.sockets[st.rx.sock].inbox|
    ensures var h := Head(st.sockets[st.rx.sock].inbox);
            Delivers(f, k, OnHeaderRead(st, h, PlainLength(f, k, h), HeaderTotal(f, k, h)), segs)
  {
    var s := st.rx.sock;
    var h := Head(st.sockets[s].inbox);
    var total := HeaderTotal(f, k, h);
    ReadingLast(f, k, st, segs);
    assert st.conn.Some? ==> !st.stopped;
    RoundOpens(f, k, st.sockets[s], Last(segs), s !in st.ended);
    hide Safe, Once, HandsOver, Delivers, Head, HeaderTotal, PlainLength, AtRound, InRound, Proceeds, Distinct, LoopTop,
         Later, Apart, Consume, LastMoved;
    FaultDelivers(f, k, st, NullDeref(209), segs);
    FaultDelivers(f, k, st, TooLong, segs);
    if total == 0 {
      BackToTop(f, k, st, SIZE, st.ended, segs);
    } else if st.conn.Some? && total <= BODY_ROOM {
      var r := OnHeaderRead(st, h, PlainLength(f, k, h), total);
      ConsumeMoves(st, s, SIZE, r);
      OpensDelivers(f, k, st, r, segs);
    }
  }

  /** A packet is returned. */
  lemma ReturnsDelivers(f: Cipher, k: Key, st: State, n: nat, p: Bytes, segs: seq<seq<Bytes>>)
    requires Safe(st) && Once(st) && (!st.stopped ==> HandsOver(st)) && Delivers(f, k, st, segs) && segs != []
    requires st.rx.ReadingBody? && n <= |st.sockets[st.rx.sock].inbox|
    requires var x := st.sockets[st.rx.sock];
             AtRound(f, k, x.(inbox := x.inbox[n..]), Last(segs) + [p], st.rx.sock !in st.ended)
    ensures var read := st.(sockets := Consume(st.sockets, st.rx.sock, n));
            Delivers(f, k, read.(rx := Calling, delivered := st.delivered + [p]), Grown(segs, p))
  {
    var s := st.rx.sock;
    ReadingLast(f, k, st, segs);
    hide Safe, Once, HandsOver, Delivers, AtRound, Proceeds, Distinct, Consume, LastMoved, Grown;
    var r := st.(sockets := Consume(st.sockets, s, n), rx := Calling, delivered := st.delivered + [p]);
    ConsumeMoves(st, s, n, r);
    PacketTaken(f, k, st, r, segs, p);
  }

  lemma BodyReadDelivers(f: Cipher, k: Key, st: State, stale: Bytes, segs: seq<seq<Bytes>>)
      returns (segs': seq<seq<Bytes>>)
    requires Safe(st) && Once(st) && (!st.stopped ==> HandsOver(st)) && Delivers(f, k, st, segs)
    requires st.rx.ReadingBody? && st.rx.total <= |st.sockets[st.rx.sock].inbox| && |stale| == MAX_BUFFSIZE
    ensures var n := st.rx.total;
            var got := Decrypted(f, k, st.rx.header, st.rx.len, st.sockets[st.rx.sock].inbox, n, stale);
            Delivers(f, k, OnBodyRead(st, n, got), segs')
  {
    var s, n := st.rx.sock, st.rx.total;
    var x := st.sockets[s];
    var got := Decrypted(f, k, st.rx.header, st.rx.len, x.inbox, n, stale);
    ReadingLast(f, k, st, segs);
    RoundCloses(f, k, x, Last(segs), st.rx.header, st.rx.len, n, stale, s !in st.ended);
    assert 0 < n;
    hide Safe, Once, HandsOver, Delivers, Decrypted, AtRound, InRound, Proceeds, Distinct, LoopTop, Later, Apart,
         Consume, LastMoved, Grown;
    if got.None? {
      segs' := segs;
      BackToTop(f, k, st, n, st.ended, segs);
    } else {
      segs' := Grown(segs, got.value);
      ReturnsDelivers(f, k, st, n, got.value, segs);
    }
  }

  lemma BodyEndsDelivers(f: Cipher, k: Key, st: State, n: nat, got: Option<Bytes>, segs: seq<seq<Bytes>>)
    requires Safe(st) && Once(st) && (!st.stopped ==> HandsOver(st)) && Delivers(f, k, st, segs) && st.rx.ReadingBody?
    ensures Delivers(f, k, OnBodyEnds(st, n, got), segs)
  {
    var s := st.rx.sock;
    var x := st.sockets[s];
    var all := |x.inbox|;
    ReadingLast(f, k, st, segs);
    BodyMissing(f, k, x, Last(segs), st.rx.header, st.rx.len, st.rx.total, s !in st.ended);
    Weaker(f, k, x.peer, Last(segs), s !in st.ended && x.inbox == [], false);
    SpentAtRound(f, k, x.(inbox := x.inbox[all..]), Last(segs));
    hide Safe, Once, HandsOver, Delivers, AtRound, InRound, Proceeds, Distinct, LoopTop, Later, Apart, Consume, Begins;
    BackToTop(f, k, st, all, st.ended + {s}, segs);
  }

  // ----- the header read that fails -----

  lemma ClosedMoves(st: State, s: nat, n: nat, r: State)
    requires LastIs(st.chosen, s) && Distinct(st.chosen) && s < |st.sockets| && n <= |st.sockets[s].inbox|
    requires r.sockets == SetStatus(Consume(st.sockets, s, n), Some(s), Closed) && r.chosen == st.chosen
    requires r.ended == st.ended
    ensures LastMoved(st, r, s) && SameBytes(r.sockets[s], st.sockets[s].(inbox := st.sockets[s].inbox[n..]))
  {
    ConsumeParts(st.sockets, s, n);
  }

  lemma FailedSegment(f: Cipher, k: Key, st: State, r: State, s: nat, n: nat, seg: seq<Bytes>)
    requires s < |st.sockets| && s < |r.sockets| && n <= |st.sockets[s].inbox| && n < SIZE && r.ended == st.ended
    requires AtRound(f, k, st.sockets[s], seg, s !in st.ended)
    requires SameBytes(r.sockets[s], st.sockets[s].(inbox := st.sockets[s].inbox[n..]))
    ensures SegmentOf(f, k, r, s, seg)
  {
    RoundEnds(f, k, st.sockets[s], seg, n, s !in st.ended);
  }

  /** The server is stopped: reading is over. */
  lemma StoppedDelivers(f: Cipher, k: Key, st: State, n: nat, segs: seq<seq<Bytes>>)
    requires Safe(st) && Once(st) && st.stopped && Delivers(f, k, st, segs)
    requires st.rx.ReadingHeader? && n <= |st.sockets[st.rx.sock].inbox| && n < SIZE
    ensures Delivers(f, k, st.(sockets := Consume(st.sockets, st.rx.sock, n), rx := Exited), segs)
  {
    var s := st.rx.sock;
    ReadingLast(f, k, st, segs);
    hide Safe, Once, Delivers, AtRound, Distinct, Consume, LastMoved, SegmentOf;
    var r := st.(sockets := Consume(st.sockets, s, n), rx := Exited);
    ConsumeMoves(st, s, n, r);
    FailedSegment(f, k, st, r, s, n, Last(segs));
    ReadingEnds(f, k, st, r, segs);
  }

  /** The current socket is closed. */
  lemma BaseDelivers(f: Cipher, k: Key, st: State, n: nat, segs: seq<seq<Bytes>>) returns (base: State)
    requires Safe(st) && Once(st) && !st.stopped && HandsOver(st) && Delivers(f, k, st, segs)
    requires st.rx.ReadingHeader? && n <= |st.sockets[st.rx.sock].inbox| && n < SIZE
    ensures st.conn.Some? && base == st.(sockets := SetStatus(Consume(st.sockets, st.rx.sock, n), st.conn, Closed),
                                         conn := None, selected := false, rx := Calling)
    ensures Bounded(base) && Delivers(f, k, base, segs)
  {
    var s := st.rx.sock;
    ReadingLast(f, k, st, segs);
    hide Safe, Once, HandsOver, Delivers, AtRound, Distinct, Consume, SetStatus, LastMoved, SegmentOf;
    base := st.(sockets := SetStatus(Consume(st.sockets, s, n), st.conn, Closed), conn := None, selected := false,
                rx := Calling);
    ClosedMoves(st, s, n, base);
    FailedSegment(f, k, st, base, s, n, Last(segs));
    ReadingEnds(f, k, st, base, segs);
  }

  /** The state once the replacement is promoted. */
  function Promoted(st: State, r: nat): State
    requires r < |st.sockets|
  {
    st.(sockets := SetStatus(st.sockets, Some(r), Current), conn := Some(r), replace := None, selected := true,
        chosen := st.chosen + [r])
  }

  lemma NextDelivers(f: Cipher, k: Key, st: State, r: nat, segs: seq<seq<Bytes>>)
    requires Delivers(f, k, st, segs) && st.replace == Some(r) && !st.stopped && st.rx == Calling && r < |st.sockets|
    requires r !in st.chosen
    ensures Bounded(Promoted(st, r)) && Delivers(f, k, LoopTop(Promoted(st, r)), segs + [[]])
  {
    var next := Promoted(st, r);
    BoundedDelivers(f, k, st, segs);
    SetStatusBytes(st.sockets, Some(r), Current);
    FreshStill(f, k, st.sockets[r], next.sockets[r]);
    hide Delivers, SetStatus, LoopTop, Fresh, Segmented;
    ChosenDelivers(f, k, st, next, segs, r);
    LoopTopDelivers(f, k, next, segs + [[]]);
  }

  /** Which read was pending does not matter at the top of the loop, once that goes on. */
  lemma LoopTopRx(f: Cipher, k: Key, st: State, rx: Receiver)
    requires Bounded(st) && (rx.ReadingHeader? || rx.ReadingBody? ==> rx.sock < |st.sockets|)
    requires rx.ReadingBody? ==> |rx.header.lengths| == LENGTHS_BYTES
    ensures Bounded(st.(rx := rx))
    ensures (st.selected ==> st.conn.Some?) ==> LoopTop(st.(rx := rx)) == LoopTop(st)
    ensures st.replace.Some? ==>
              var r := Promoted(st, st.replace.value);
              LoopTop(r.(rx := rx)) == LoopTop(r)
  {
  }

  lemma HeaderFailsDelivers(f: Cipher, k: Key, st: State, n: nat, segs: seq<seq<Bytes>>)
      returns (segs': seq<seq<Bytes>>)
    requires Safe(st) && Once(st) && (!st.stopped ==> HandsOver(st)) && Delivers(f, k, st, segs)
    requires st.rx.ReadingHeader? && n <= |st.sockets[st.rx.sock].inbox| && n < SIZE
    ensures Delivers(f, k, OnHeaderFails(st, n), segs')
  {
    BoundedDelivers(f, k, st, segs);
    segs' := segs;
    if st.replace.Some? { ReplacementIsNew(st); }
    hide Safe, Once, Delivers, HandsOver, Segmented, Later, Apart, LoopTop, Consume, SetStatus;
    if st.stopped {
      StoppedDelivers(f, k, st, n, segs);
    } else {
      var base := BaseDelivers(f, k, st, n, segs);
      LoopTopRx(f, k, base, st.rx);
      if st.replace.Some? {
        NextDelivers(f, k, base, st.replace.value, segs);
        segs' := segs + [[]];
      } else {
        LoopTopDelivers(f, k, base, segs);
      }
    }
  }

  // ----- all steps -----

  lemma ReadDelivers(f: Cipher, k: Key, st: State, ev: Event, segs: seq<seq<Bytes>>) returns (segs': seq<seq<Bytes>>)
    requires Safe(st) && Once(st) && Enabled(st, ev) && (!st.stopped ==> HandsOver(st)) && Delivers(f, k, st, segs)
    requires ev.HeaderRead? || ev.HeaderFails? || (ev.BodyRead? && ev.n == st.rx.total) || ev.BodyEnds?
    ensures Delivers(f, k, Step(f, k, st, ev), segs')
  {
    segs' := segs;
    hide Head, HeaderTotal, PlainLength, Decrypted, HandsOver, Delivers, Ledger, Once, OnHeaderRead, OnHeaderFails,
         OnBodyRead, OnBodyEnds, LoopTop;
    match ev
    case HeaderRead => HeaderReadDelivers(f, k, st, segs);
    case HeaderFails(n) => segs' := HeaderFailsDelivers(f, k, st, n, segs);
    case BodyRead(n, stale) => segs' := BodyReadDelivers(f, k, st, stale, segs);
    case BodyEnds(n, stale) =>
      var got := Decrypted(f, k, st.rx.header, st.rx.len, st.sockets[st.rx.sock].inbox, n, stale);
      BodyEndsDelivers(f, k, st, n, got, segs);
  }

  lemma WholeBody(f: Cipher, k: Key, st: State, ev: Event)
    requires Bounded(st) && Enabled(st, ev) && ev.BodyRead? && !Step(f, k, st, ev).bodyCut
    ensures ev.n == st.rx.total
  {
    hide Decrypted, Later, Apart, Consume, LoopTop;
  }

  /** Every step of a clean run keeps delivery in segments; a step adds a packet to the last, or a segment. */
  lemma StepDelivers(f: Cipher, k: Key, st: State, ev: Event, segs: seq<seq<Bytes>>) returns (segs': seq<seq<Bytes>>)
    requires Safe(st) && AllTraced(f, k, st) && Once(st) && Enabled(st, ev) && AllSane(f, k, st)
    requires (!st.stopped ==> HandsOver(st)) && Delivers(f, k, st, segs) && Clean(Step(f, k, st, ev))
    ensures Delivers(f, k, Step(f, k, st, ev), segs')
  {
    LedgerHoldsTaken(st);
    segs' := segs;
    hide CandidateTotal, HandsOver, Delivers, Safe, Once, HoldsTaken, ReadsTaken, OnAccept, OnCandidateHeader,
         OnCandidateBody, OnHeaderRead, OnHeaderFails, OnBodyRead, OnBodyEnds, OnSend, OnWritten, OnClose, Traced,
         SanePeer, LoopTop;
    match ev
    case Accept(peer) => AcceptDelivers(f, k, st, peer, segs);
    case CandidateHeader(s, n, stale) =>
      CandidateHeaderDelivers(f, k, st, s, n, CandidateTotal(f, k, st.sockets[s].inbox, n, stale), segs);
    case CandidateBody(s, ok) => segs' := CandidateBodyDelivers(f, k, st, s, ok, segs);
    case Written(ok) => SenderFields(st, ok); AsideDelivers(f, k, st, Step(f, k, st, ev), segs);
    case Send(_) => SenderFields(st, true); AsideDelivers(f, k, st, Step(f, k, st, ev), segs);
    case Close => CloseDelivers(f, k, st, segs);
    case BodyRead(_, _) => WholeBody(f, k, st, ev); segs' := ReadDelivers(f, k, st, ev, segs);
    case HeaderRead => segs' := ReadDelivers(f, k, st, ev, segs);
    case HeaderFails(_) => segs' := ReadDelivers(f, k, st, ev, segs);
    case BodyEnds(_, _) => segs' := ReadDelivers(f, k, st, ev, segs);
    case _ => IdleDelivers(f, k, st, ev, segs);
  }

  /** Over every clean run, whoever connects with sane bytes, Close at any time. */
  lemma {:induction false} AlwaysDelivers(f: Cipher, k: Key, evs: seq<Event>) returns (segs: seq<seq<Bytes>>)
    requires Run(f, k, evs).Some? && Clean(Run(f, k, evs).value) && AllSane(f, k, Run(f, k, evs).value)
    ensures Delivers(f, k, Run(f, k, evs).value, segs)
  {
    segs := [];
    if evs != [] {
      var n := |evs| - 1;
      var st := Run(f, k, evs[..n]).value;
      AlwaysSafe(f, k, evs[..n]);
      AlwaysTraced(f, k, evs[..n]);
      NeverChosenTwice(f, k, evs[..n]);
      LedgerHoldsTaken(st);
      StepFollows(f, k, st, evs[n]);
      hide Step, Enabled, Safe, Once, AllTraced, HandsOver, SanePeer, Delivers;
      assert Later(st, Step(f, k, st, evs[n]));
      SaneBefore(f, k, st, Step(f, k, st, evs[n]));
      if !st.stopped {
        AlwaysHandsOver(f, k, evs[..n]);
      }
      var before := AlwaysDelivers(f, k, evs[..n]);
      segs := StepDelivers(f, k, st, evs[n], before);
    }
  }

  lemma SaneBefore(f: Cipher, k: Key, st: State, r: State)
    requires Follows(st, r) && AllSane(f, k, r)
    ensures AllSane(f, k, st)
  {
    hide SanePeer;
    forall s | 0 <= s < |st.sockets| ensures SanePeer(f, k, st.sockets[s].peer) {
      assert SanePeer(f, k, r.sockets[s].peer);
    }
  }

  // ----- no socket is chosen twice, in any run at all -----

  predicate WasCurrent(status: Status) {
    status == Current || status == Closed || status == Superseded
  }

  ghost predicate Once(st: State) {
    && Distinct(st.chosen)
    && (forall s | s in st.chosen :: s < |st.sockets| && WasCurrent(st.sockets[s].status))
    && forall s | 0 <= s < |st.sockets| :: Named(st.sockets[s].status) ==> s in st.chosen
  }

  predicate Named(status: Status) {
    status == Current || status == Closed
  }

  /** Nobody new is chosen, and what was once current does not become anything else. */
  ghost predicate NobodyNew(st: State, r: State) {
    && r.chosen == st.chosen && |st.sockets| <= |r.sockets|
    && (forall s | 0 <= s < |st.sockets| :: WasCurrent(st.sockets[s].status) ==> WasCurrent(r.sockets[s].status))
    && NamedBefore(st, r, |r.sockets|)
  }

  /** Nobody but `s` has become current or closed that was not current or closed before. */
  ghost predicate NamedBefore(st: State, r: State, s: nat) {
    forall t | 0 <= t < |r.sockets| && t != s :: Named(r.sockets[t].status) ==>
      t < |st.sockets| && Named(st.sockets[t].status)
  }

  /** Socket `s` is chosen, which never was before. */
  ghost predicate OneNew(st: State, r: State, s: nat) {
    && r.chosen == st.chosen + [s] && s < |st.sockets| <= |r.sockets|
    && !WasCurrent(st.sockets[s].status) && WasCurrent(r.sockets[s].status)
    && (forall t | 0 <= t < |st.sockets| :: WasCurrent(st.sockets[t].status) ==> WasCurrent(r.sockets[t].status))
    && NamedBefore(st, r, s)
  }

  lemma OnceStill(st: State, r: State)
    requires Once(st) && NobodyNew(st, r)
    ensures Once(r)
  {
    hide Distinct, WasCurrent, Named;
  }

  lemma OnceMore(st: State, r: State, s: nat)
    requires Once(st) && OneNew(st, r, s)
    ensures Once(r)
  {
    assert s !in st.chosen;
    hide WasCurrent, Named;
    forall i, j | 0 <= i < j < |r.chosen| ensures r.chosen[i] != r.chosen[j] {
      assert st.chosen[i] in st.chosen;
    }
  }

  lemma CandidateHeaderOnce(st: State, s: nat, n: nat, total: nat)
    requires Bounded(st) && s < |st.sockets| && !Taken(st.sockets[s].status) && n <= |st.sockets[s].inbox|
    ensures NobodyNew(st, OnCandidateHeader(st, s, n, total))
  {
    hide Later, Apart, Bounded;
    if total == 0 {
    } else if total > BODY_ROOM {
    } else {
    }
  }

  lemma SetStatusOnce(sockets: seq<Socket>, o: Option<nat>)
    requires o.Some? ==> o.value < |sockets|
    ensures forall t | 0 <= t < |sockets| && WasCurrent(sockets[t].status) ::
              WasCurrent(SetStatus(sockets, o, Superseded)[t].status)
    ensures forall t | 0 <= t < |sockets| && Named(SetStatus(sockets, o, Superseded)[t].status) ::
              Named(sockets[t].status)
  {
  }

  lemma ChooseOnce(st: State, s: nat, read: Socket)
    requires Bounded(st) && s < |st.sockets| && !WasCurrent(st.sockets[s].status)
    ensures OneNew(st, Choose(st, s, read), s)
  {
    SetStatusOnce(st.sockets, st.conn);
    hide Later, Apart, SetStatus;
  }

  lemma ReserveOnce(st: State, s: nat, read: Socket)
    requires Bounded(st) && s < |st.sockets| && !WasCurrent(st.sockets[s].status)
    ensures NobodyNew(st, Reserve(st, s, read))
  {
    SetStatusOnce(st.sockets, st.replace);
    hide Later, Apart, SetStatus;
  }

  lemma CandidateBodyOnce(st: State, s: nat, ok: bool)
    requires Bounded(st) && s < |st.sockets| && st.sockets[s].status.AwaitingBody?
    requires ok ==> st.sockets[s].status.total <= |st.sockets[s].inbox|
    ensures NobodyNew(st, OnCandidateBody(st, s, ok)) || OneNew(st, OnCandidateBody(st, s, ok), s)
  {
    if ok && st.accepting {
      var socket := st.sockets[s];
      var read := socket.(inbox := socket.inbox[socket.status.total..]);
      ChooseOnce(st, s, read);
      ReserveOnce(st, s, read);
      hide NobodyNew, OneNew, Choose, Reserve, Later, Apart;
    } else {
      hide OneNew, Choose, Reserve, Later, Apart;
    }
  }

  /** The current socket closed, and perhaps another promoted. */
  lemma ClosesOnce(sockets: seq<Socket>, s: nat, n: nat, conn: nat, next: Option<nat>)
    requires s < |sockets| && n <= |sockets[s].inbox| && conn < |sockets| && Named(sockets[conn].status)
    requires next.Some? ==> next.value < |sockets|
    ensures var r := SetStatus(SetStatus(Consume(sockets, s, n), Some(conn), Closed), next, Current);
            forall t | 0 <= t < |sockets| ::
              && (WasCurrent(sockets[t].status) ==> WasCurrent(r[t].status))
              && (Named(r[t].status) ==> Named(sockets[t].status) || next == Some(t))
              && (next == Some(t) ==> WasCurrent(r[t].status))
  {
  }

  lemma HeaderFailsParts(st: State, n: nat)
    requires Bounded(st) && st.rx.ReadingHeader? && n <= |st.sockets[st.rx.sock].inbox|
    ensures var r, read := OnHeaderFails(st, n), Consume(st.sockets, st.rx.sock, n);
            if st.stopped || st.conn.None? then r.chosen == st.chosen && (r.sockets == st.sockets || r.sockets == read)
            else
              && r.sockets == SetStatus(SetStatus(read, st.conn, Closed), st.replace, Current)
              && r.chosen == st.chosen + (if st.replace.Some? then [st.replace.value] else [])
  {
    hide Later, Apart, LoopTop, Consume;
    assert st.chosen + [] == st.chosen;
    if st.stopped {
    } else if st.conn.None? {
    } else if st.replace.None? {
    } else {
    }
  }

  lemma HeaderFailsOnce(st: State, n: nat)
    requires Safe(st) && st.rx.ReadingHeader? && n <= |st.sockets[st.rx.sock].inbox|
    ensures var r := OnHeaderFails(st, n);
            NobodyNew(st, r) || (st.replace.Some? && OneNew(st, r, st.replace.value))
  {
    HeaderFailsParts(st, n);
    if st.replace.Some? {
      assert Entered(st.sockets[st.replace.value], st.replace.value, st.conn, st.replace);
    }
    if st.stopped || st.conn.None? {
      hide OnHeaderFails, Consume, Ledger, NobodyNew;
      ConsumedOnce(st, OnHeaderFails(st, n), st.rx.sock, n);
    } else {
      assert Entered(st.sockets[st.conn.value], st.conn.value, st.conn, st.replace);
      ClosesOnce(st.sockets, st.rx.sock, n, st.conn.value, st.replace);
      hide OnHeaderFails, Consume, SetStatus, Ledger;
    }
  }

  lemma ConsumedOnce(st: State, r: State, s: nat, n: nat)
    requires s < |st.sockets| && n <= |st.sockets[s].inbox|
    requires r.sockets == st.sockets || r.sockets == Consume(st.sockets, s, n)
    requires r.chosen == st.chosen
    ensures NobodyNew(st, r)
  {
  }

  lemma HeaderReadOnce(st: State, h: Header, len: nat, total: nat)
    requires Bounded(st) && st.rx.ReadingHeader? && SIZE <= |st.sockets[st.rx.sock].inbox|
    requires |h.lengths| == LENGTHS_BYTES
    ensures NobodyNew(st, OnHeaderRead(st, h, len, total))
  {
    assert st.rx.sock < |st.sockets|;
    hide Later, Apart, LoopTop, Consume, NobodyNew, Bounded;
    var r := OnHeaderRead(st, h, len, total);
    if total == 0 {
    } else if st.conn.None? {
    } else if total > BODY_ROOM {
    } else {
    }
    ConsumedOnce(st, r, st.rx.sock, SIZE);
  }

  lemma BodyReadOnce(st: State, n: nat, got: Option<Bytes>)
    requires Bounded(st) && st.rx.ReadingBody? && n <= |st.sockets[st.rx.sock].inbox|
    ensures NobodyNew(st, OnBodyRead(st, n, got))
  {
    assert st.rx.sock < |st.sockets|;
    hide Later, Apart, LoopTop, Consume, NobodyNew, Bounded;
    var r := OnBodyRead(st, n, got);
    if n == 0 || got.None? {
    } else if n == st.rx.total {
    } else {
    }
    ConsumedOnce(st, r, st.rx.sock, n);
  }

  lemma BodyEndsOnce(st: State, n: nat, got: Option<Bytes>)
    requires Bounded(st) && st.rx.ReadingBody?
    ensures NobodyNew(st, OnBodyEnds(st, n, got))
  {
    assert st.rx.sock < |st.sockets|;
    hide Later, Apart, LoopTop, Consume, NobodyNew, Bounded;
    var r := OnBodyEnds(st, n, got);
    if n == 0 || got.None? {
    } else {
    }
    ConsumedOnce(st, r, st.rx.sock, |st.sockets[st.rx.sock].inbox|);
  }

  lemma OthersOnce(f: Cipher, k: Key, st: State, peer: Peer)
    requires Bounded(st)
    ensures (peer.Client? ==> AllSendable(peer.xs)) ==> NobodyNew(st, OnAccept(f, k, st, peer))
    ensures NobodyNew(st, LoopTop(st)) && NobodyNew(st, st.(rx := Exited))
  {
    hide Later, Apart, Bounded, BytesOf, WasCurrent;
  }

  lemma SenderOnce(st: State, ok: bool)
    requires Bounded(st)
    ensures (forall x :: NobodyNew(st, OnSend(st, x))) && NobodyNew(st, OnWritten(st, ok))
  {
    hide Later, Apart, Bounded, WasCurrent;
  }

  lemma CloseOnce(st: State)
    requires Safe(st)
    ensures NobodyNew(st, OnClose(st))
  {
    if st.conn.Some? {
      assert Entered(st.sockets[st.conn.value], st.conn.value, st.conn, st.replace);
    }
    hide Later, Apart, Ledger;
  }

  /** What one step comes to for those who are chosen. */
  lemma StepChooses(f: Cipher, k: Key, st: State, ev: Event) returns (s: nat)
    requires Safe(st) && Enabled(st, ev)
    ensures NobodyNew(st, Step(f, k, st, ev)) || OneNew(st, Step(f, k, st, ev), s)
  {
    LedgerHoldsTaken(st);
    s := 0;
    hide NobodyNew, OneNew, Safe, HoldsTaken, CandidateTotal, Head, HeaderTotal, PlainLength, Decrypted, LoopTop,
         OnAccept, OnCandidateHeader, OnCandidateBody, OnHeaderRead, OnHeaderFails, OnBodyRead, OnBodyEnds, OnSend,
         OnWritten, OnClose, Later;
    match ev
    case Accept(peer) => OthersOnce(f, k, st, peer);
    case CandidateHeader(c, n, stale) =>
      CandidateHeaderOnce(st, c, n, CandidateTotal(f, k, st.sockets[c].inbox, n, stale));
    case CandidateBody(c, ok) => CandidateBodyOnce(st, c, ok); s := c;
    case HeaderRead =>
      var h := Head(st.sockets[st.rx.sock].inbox);
      HeaderReadOnce(st, h, PlainLength(f, k, h), HeaderTotal(f, k, h));
    case HeaderFails(n) =>
      HeaderFailsOnce(st, n);
      if st.replace.Some? { s := st.replace.value; }
    case BodyRead(n, stale) =>
      BodyReadOnce(st, n, Decrypted(f, k, st.rx.header, st.rx.len, st.sockets[st.rx.sock].inbox, n, stale));
    case BodyEnds(n, stale) =>
      BodyEndsOnce(st, n, Decrypted(f, k, st.rx.header, st.rx.len, st.sockets[st.rx.sock].inbox, n, stale));
    case Send(_) => SenderOnce(st, true);
    case Written(ok) => SenderOnce(st, ok);
    case Close => CloseOnce(st);
    case _ => OthersOnce(f, k, st, Stranger([]));
  }

  /** In every run, failed writes and cut reads included. */
  lemma {:induction false} NeverChosenTwice(f: Cipher, k: Key, evs: seq<Event>)
    requires Run(f, k, evs).Some?
    ensures Once(Run(f, k, evs).value)
  {
    hide Step, Enabled, Safe, NobodyNew, OneNew;
    if evs != [] {
      var st, ev := Run(f, k, evs[..|evs| - 1]).value, evs[|evs| - 1];
      AlwaysSafe(f, k, evs[..|evs| - 1]);
      NeverChosenTwice(f, k, evs[..|evs| - 1]);
      var s := StepChooses(f, k, st, ev);
      if NobodyNew(st, Step(f, k, st, ev)) {
        OnceStill(st, Step(f, k, st, ev));
      } else {
        OnceMore(st, Step(f, k, st, ev), s);
      }
    }
  }

  // ----- the main results -----

  /** `seg` is of the packets that the reader returns on the peer's bytes, once its first frame is used up,
      whatever buffer it starts with: the first of them, or all if `exact`. */
  ghost predicate ReadFrom(f: Cipher, k: Key, p: Peer, seg: seq<Bytes>, exact: bool) {
    && (p.Client? ==> AllSendable(p.xs))
    && TakeFirst(f, k, BytesOf(f, k, p)).Some?
    && forall b: Buffer ::
         var out := Feed(f, k, Start(b), Rest(f, k, p)).out;
         seg <= out && (exact ==> seg == out)
  }

  /** What was delivered is one segment per chosen socket, in the order of choosing, each read from its peer;
      and all of that peer's packets, once its bytes are used up and no body read on it ended early. */
  ghost predicate InSegments(f: Cipher, k: Key, st: State, segments: seq<seq<Bytes>>) {
    && st.delivered == Flatten(segments) && |segments| == |st.chosen|
    && forall i | 0 <= i < |st.chosen| ::
         var s := st.chosen[i];
         && s < |st.sockets|
         && ReadFrom(f, k, st.sockets[s].peer, segments[i], ReadWhole(st, s))
  }

  lemma BeginsIsReadFrom(f: Cipher, k: Key, p: Peer, seg: seq<Bytes>, exact: bool)
    requires Begins(f, k, p, seg, [], exact) && SanePeer(f, k, p)
    ensures ReadFrom(f, k, p, seg, exact)
  {
    hide Parsed, Sane, TakeFirst, Feed;
    forall b: Buffer
      ensures var out := Feed(f, k, Start(b), Rest(f, k, p)).out;
              seg <= out && (exact ==> seg == out)
    {
      ReaderParses(f, k, Start(b), Rest(f, k, p));
      assert seg + [] == seg && [] + Parsed(f, k, Rest(f, k, p)) == Parsed(f, k, Rest(f, k, p));
    }
  }

  /**
   Whole-run delivery with hand-over. In every run with no failed SendTo write and no body read cancelled on
   a living socket, Close and connections that end in mid-body included, whoever connects with sane bytes:
   no socket is chosen twice, and what ReceiveFrom returns over the whole run is one segment per chosen
   socket, in the order of choosing, each a prefix of what the reader makes of that peer's bytes after its
   first frame. Nothing is withheld: when the bytes are used up and no body read ended early, the segment is
   all of it.
  */
  lemma WholeRunDelivery(f: Cipher, k: Key, evs: seq<Event>, st: State) returns (segments: seq<seq<Bytes>>)
    requires Run(f, k, evs) == Some(st) && Clean(st) && AllSane(f, k, st)
    ensures Distinct(st.chosen) && InSegments(f, k, st, segments)
  {
    segments := AlwaysDelivers(f, k, evs);
    BoundedDelivers(f, k, st, segments);
    NeverChosenTwice(f, k, evs);
    hide Run, Delivers, ReadFrom, Begins, SanePeer, Distinct, Flatten;
    forall i | 0 <= i < |st.chosen|
      ensures var s := st.chosen[i];
              && s < |st.sockets|
              && ReadFrom(f, k, st.sockets[s].peer, segments[i], ReadWhole(st, s))
    {
      var s := st.chosen[i];
      assert SegmentOf(f, k, st, s, segments[i]);
      BeginsIsReadFrom(f, k, st.sockets[s].peer, segments[i], ReadWhole(st, s));
    }
  }

  /** And in the middle of things: between two rounds, what has been delivered from the current socket and what
      is still to be read on it make up all of its packets; nothing is lost on the way. */
  lemma NothingLostYet(f: Cipher, k: Key, evs: seq<Event>, st: State) returns (segments: seq<seq<Bytes>>)
    requires Run(f, k, evs) == Some(st) && Clean(st) && AllSane(f, k, st) && !st.stopped
    requires st.conn.Some? && !st.rx.ReadingBody? && st.conn.value !in st.ended
    ensures InSegments(f, k, st, segments) && LastIs(st.chosen, st.conn.value) && st.conn.value < |st.sockets|
    ensures var x := st.sockets[st.conn.value];
            && (x.peer.Client? ==> AllSendable(x.peer.xs))
            && segments != [] && Last(segments) + Parsed(f, k, x.inbox) == Parsed(f, k, Rest(f, k, x.peer))
  {
    segments := AlwaysDelivers(f, k, evs);
    AlwaysHandsOver(f, k, evs);
    BoundedDelivers(f, k, st, segments);
    assert Proceeds(f, k, st, st.conn.value, Last(segments));
    hide Run, Delivers, ReadFrom, SanePeer, Distinct, Flatten, HandsOver, Parsed, Rest, TakeFirst, BytesOf;
    forall i | 0 <= i < |st.chosen|
      ensures var s := st.chosen[i];
              && s < |st.sockets|
              && ReadFrom(f, k, st.sockets[s].peer, segments[i], ReadWhole(st, s))
    {
      var s := st.chosen[i];
      assert SegmentOf(f, k, st, s, segments[i]);
      BeginsIsReadFrom(f, k, st.sockets[s].peer, segments[i], ReadWhole(st, s));
    }
  }

  /** If only senders of frames hold the key, the peers need not be sane: anybody may connect, with replayed
      headers or whatever else. */
  lemma AnybodySane(f: Cipher, k: Key, all: seq<Sent>, evs: seq<Event>)
    requires Separable(all) && OnlySealed(f, k, all) && Run(f, k, evs).Some?
    ensures AllSane(f, k, Run(f, k, evs).value)
  {
    AlwaysTraced(f, k, evs);
    var st := Run(f, k, evs).value;
    hide Run, Separable, OnlySealed, Sane, Rest, BytesOf, Admitted, ReadsTaken;
    forall s | 0 <= s < |st.sockets| ensures SanePeer(f, k, st.sockets[s].peer) {
      assert Traced(f, k, st.sockets[s]);
      IdealIsSane(f, k, all, Rest(f, k, st.sockets[s].peer));
    }
  }

  lemma ClientRest(f: Cipher, k: Key, xs: seq<Sent>)
    requires AllSendable(xs) && AllOpen(f, k, xs)
    ensures xs == [] ==> TakeFirst(f, k, BytesOf(f, k, Client(xs))) == None
    ensures xs != [] ==> Rest(f, k, Client(xs)) == StreamOf(f, k, xs[1..])
  {
    hide FrameOf, Opens, TakeFirst;
    if xs == [] {
      NoFirst(f, k);
    } else {
      assert Sendable(xs[0]) && Opens(f, k, xs[0]);
      TakesFirstFrame(f, k, xs[0], StreamOf(f, k, xs[1..]));
    }
  }

  lemma NoFirst(f: Cipher, k: Key)
    ensures TakeFirst(f, k, []) == None
  {
  }

  /** A client's bytes are sane, and its segment is of the payloads it sent, minus the first. */
  lemma ClientSegment(f: Cipher, k: Key, xs: seq<Sent>, seg: seq<Bytes>, exact: bool)
    requires AllSendable(xs) && AllOpen(f, k, xs)
    ensures SanePeer(f, k, Client(xs))
    ensures ReadFrom(f, k, Client(xs), seg, exact) ==>
              xs != [] && seg <= Payloads(xs)[1..] && (exact ==> seg == Payloads(xs)[1..])
  {
    hide Sane, TakeFirst, BytesOf, StreamOf, Feed, Parsed, Opens, Sendable;
    ClientRest(f, k, xs);
    if xs == [] {
      NothingSane(f, k, Client(xs));
    } else {
      StreamParses(f, k, xs[1..]);
      var b: Buffer := Zeros(BUFFER_SIZE);
      ReaderParses(f, k, Start(b), StreamOf(f, k, xs[1..]));
      assert [] + Payloads(xs[1..]) == Payloads(xs[1..]) == Payloads(xs)[1..];
    }
  }

  lemma NothingSane(f: Cipher, k: Key, p: Peer)
    requires (p.Client? ==> AllSendable(p.xs)) && TakeFirst(f, k, BytesOf(f, k, p)) == None
    ensures SanePeer(f, k, p)
  {
  }
}
