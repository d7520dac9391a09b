/** Runs in which everything arrives: every client is read to its end, one after the other. */
module Progress {
  import opened ByteStrings
  import opened Aead
  import opened ProtocolHeader
  import opened Frames
  import opened Streams
  import opened Selection
  import opened Faults
  import opened Delivery

  /** ReceiveFrom has just asked for a header on socket `c`, the only one held. */
  predicate Asking(st: State, c: nat) {
    && st.fault == NoFault && st.accepting && !st.stopped && c < |st.sockets|
    && st.selected && st.conn == Some(c) && st.replace.None? && st.rx == ReadingHeader(c)
  }

  /** The events of one ReceiveFrom that returns, and of the next call. */
  function Round(y: Sent, stale: Bytes): seq<Event> {
    [HeaderRead, BodyRead(BodySize(y), stale), Call]
  }

  /** The body of a frame, read in full, decrypts whatever is behind it. */
  lemma WholePayload(f: Cipher, k: Key, y: Sent, rest: Bytes, stale: Bytes)
    requires Sendable(y) && Opens(f, k, y) && |stale| == MAX_BUFFSIZE
    ensures |BodyOf(f, k, y)| == BodySize(y) > 0
    ensures Decrypted(f, k, HeaderOf(f, k, y), |y.payload|, BodyOf(f, k, y) + rest, BodySize(y), stale)
            == Some(y.payload)
  {
    SizeWindow(f, k, y);
    var body, c := BodyOf(f, k, y), SealedPayload(f, k, y).cipher;
    assert ((body + rest)[..BodySize(y)] + stale)[..|c|] == c;
  }

  /** The header is read. */
  lemma ReadsHeader(f: Cipher, k: Key, evs: seq<Event>, st: State, c: nat, y: Sent, rest: Bytes) returns (r: State)
    requires Run(f, k, evs) == Some(st) && Asking(st, c) && Sendable(y) && Opens(f, k, y)
    requires st.sockets[c].inbox == FrameOf(f, k, y) + rest
    ensures Run(f, k, evs + [HeaderRead]) == Some(r)
    ensures r == st.(sockets := st.sockets[c := st.sockets[c].(inbox := BodyOf(f, k, y) + rest)],
                     rx := ReadingBody(c, HeaderOf(f, k, y), |y.payload|, BodySize(y)))
  {
    FirstHeader(f, k, y, rest);
    PlainLengthOf(f, k, y);
    hide FrameOf, BodyOf, Head, HeaderTotal, CandidateTotal, BodySize, PlainLength, Later, Apart, HeaderOf, Run, Opens;
    RunOn(f, k, evs, HeaderRead, st);
    r := Step(f, k, st, HeaderRead);
  }

  /** The body is read, and its packet returned. */
  lemma ReadsBody(f: Cipher, k: Key, evs: seq<Event>, st: State, c: nat, y: Sent, rest: Bytes, stale: Bytes)
      returns (r: State)
    requires Run(f, k, evs) == Some(st) && Sendable(y) && Opens(f, k, y) && |stale| == MAX_BUFFSIZE
    requires st.rx == ReadingBody(c, HeaderOf(f, k, y), |y.payload|, BodySize(y))
    requires Asking(st.(rx := ReadingHeader(c)), c)
    requires st.sockets[c].inbox == BodyOf(f, k, y) + rest
    ensures Run(f, k, evs + [BodyRead(BodySize(y), stale)]) == Some(r)
    ensures r == st.(sockets := st.sockets[c := st.sockets[c].(inbox := rest)], rx := Calling,
                     delivered := st.delivered + [y.payload])
  {
    WholePayload(f, k, y, rest, stale);
    hide FrameOf, BodyOf, BodySize, Later, Apart, HeaderOf, Run, Opens, Decrypted;
    assert (BodyOf(f, k, y) + rest)[BodySize(y)..] == rest;
    RunOn(f, k, evs, BodyRead(BodySize(y), stale), st);
    r := Step(f, k, st, BodyRead(BodySize(y), stale));
  }

  /** One frame is read, its packet returned, and ReceiveFrom called again. */
  lemma ReadsOne(f: Cipher, k: Key, evs: seq<Event>, st: State, c: nat, y: Sent, rest: Bytes, stale: Bytes)
      returns (r: State)
    requires Run(f, k, evs) == Some(st) && Asking(st, c) && Sendable(y) && Opens(f, k, y) && |stale| == MAX_BUFFSIZE
    requires st.sockets[c].inbox == FrameOf(f, k, y) + rest
    ensures Run(f, k, evs + Round(y, stale)) == Some(r)
    ensures r == st.(sockets := st.sockets[c := st.sockets[c].(inbox := rest)], delivered := st.delivered + [y.payload])
  {
    hide FrameOf, BodyOf, BodySize, Later, Apart, HeaderOf, Run, Opens;
    var s1 := ReadsHeader(f, k, evs, st, c, y, rest);
    var e1, body := evs + [HeaderRead], BodyRead(BodySize(y), stale);
    var s2 := ReadsBody(f, k, e1, s1, c, y, rest, stale);
    RunOn(f, k, e1 + [body], Call, s2);
    assert e1 + [body] + [Call] == evs + Round(y, stale);
    r := Step(f, k, s2, Call);
  }

  function Rounds(ys: seq<Sent>, stale: Bytes): seq<Event> {
    if ys == [] then [] else Round(ys[0], stale) + Rounds(ys[1..], stale)
  }

  /** What is left of a client's frames is read, and returned packet by packet. */
  lemma {:induction false} ReadsAll(f: Cipher, k: Key, evs: seq<Event>, st: State, c: nat, ys: seq<Sent>, stale: Bytes)
      returns (r: State)
    requires Run(f, k, evs) == Some(st) && Asking(st, c) && AllSendable(ys) && AllOpen(f, k, ys)
    requires st.sockets[c].inbox == StreamOf(f, k, ys) && |stale| == MAX_BUFFSIZE
    ensures Run(f, k, evs + Rounds(ys, stale)) == Some(r) && Asking(r, c)
    ensures r == st.(sockets := st.sockets[c := st.sockets[c].(inbox := [])], delivered := st.delivered + Payloads(ys))
    decreases |ys|
  {
    hide FrameOf, Opens, Run, Round;
    if ys == [] {
      r := st;
      assert evs + [] == evs && st.delivered + [] == st.delivered;
    } else {
      assert Sendable(ys[0]) && Opens(f, k, ys[0]);
      var s1 := ReadsOne(f, k, evs, st, c, ys[0], StreamOf(f, k, ys[1..]), stale);
      r := ReadsAll(f, k, evs + Round(ys[0], stale), s1, c, ys[1..], stale);
      assert evs + Round(ys[0], stale) + Rounds(ys[1..], stale) == evs + Rounds(ys, stale);
      assert st.delivered + [ys[0].payload] + Payloads(ys[1..]) == st.delivered + Payloads(ys);
    }
  }

  /** A client connects while none is held: it is chosen, and wakes ReceiveFrom if that is parked. */
  lemma FirstConnects(f: Cipher, k: Key, evs: seq<Event>, st: State, z: Sent, ws: seq<Sent>)
      returns (all: seq<Event>, r: State)
    requires Run(f, k, evs) == Some(st) && st.fault == NoFault && st.accepting
    requires !st.selected && st.conn.None? && Sendable(z) && AllSendable(ws) && Opens(f, k, z)
    ensures Run(f, k, all) == Some(r)
    ensures var c := |st.sockets|;
            r == st.(sockets := st.sockets + [Socket(Client([z] + ws), Current, StreamOf(f, k, ws))],
                     selected := true, conn := Some(c), rx := if st.rx.Parked? then Parked(true) else st.rx,
                     chosen := st.chosen + [c], verifiedLog := st.verifiedLog + [c])
  {
    var e2, s2 := NextWaits(f, k, evs, st, z, ws);
    var c := |st.sockets|;
    var e3 := CandidateBody(c, true);
    hide BodyOf, BodySize, StreamOf, Run, Later, Apart;
    RunOn(f, k, e2, e3, s2);
    all, r := e2 + [e3], Step(f, k, s2, e3);
    assert (BodyOf(f, k, z) + StreamOf(f, k, ws))[BodySize(z)..] == StreamOf(f, k, ws);
    assert r.sockets == st.sockets + [Socket(Client([z] + ws), Current, StreamOf(f, k, ws))];
  }

  /** The very first client, with ReceiveFrom waiting for it, is read to its end. */
  lemma ServesFirst(f: Cipher, k: Key, z: Sent, ws: seq<Sent>, stale: Bytes) returns (evs: seq<Event>, st: State)
    requires Sendable(z) && Opens(f, k, z) && AllSendable(ws) && AllOpen(f, k, ws) && |stale| == MAX_BUFFSIZE
    ensures Run(f, k, evs) == Some(st) && Asking(st, 0)
    ensures st == INIT.(sockets := [Socket(Client([z] + ws), Current, [])], selected := true, conn := Some(0),
                        rx := ReadingHeader(0), chosen := [0], verifiedLog := [0], delivered := Payloads(ws))
  {
    hide StreamOf, Opens, Payloads, Rounds, Later, Apart;
    RunOn(f, k, [], Call, INIT);
    var s0 := INIT.(rx := Parked(false));
    var e1, s1 := FirstConnects(f, k, [] + [Call], s0, z, ws);
    RunOn(f, k, e1, Wake, s1);
    var s2 := s1.(rx := ReadingHeader(0));
    st := ReadsAll(f, k, e1 + [Wake], s2, 0, ws, stale);
    evs := e1 + [Wake] + Rounds(ws, stale);
    assert [] + Payloads(ws) == Payloads(ws);
  }

  /** What the next client's turn changes. */
  ghost predicate TookTurn(st: State, r: State, c: nat, xs: seq<Sent>)
    requires xs != []
  {
    var n := |st.sockets|;
    && Asking(r, n) && c < n && |r.sockets| == n + 1
    && r.delivered == st.delivered + Payloads(xs)[1..] && r.chosen == st.chosen + [n]
    && r.writeFailed == st.writeFailed && r.bodyCut == st.bodyCut
    && r.sockets[n] == Socket(Client(xs), Current, [])
    && r.sockets[c] == st.sockets[c].(status := Closed)
    && forall t | 0 <= t < n && t != c :: r.sockets[t] == st.sockets[t]
  }

  /** The read on the one that is current fails, and the one in reserve takes its place. */
  lemma Replaces(f: Cipher, k: Key, evs: seq<Event>, st: State, c: nat, n: nat) returns (r: State)
    requires Run(f, k, evs) == Some(st) && Asking(st.(replace := None), c) && st.replace == Some(n) && c < n
    requires n == |st.sockets| - 1
    ensures Run(f, k, evs + [HeaderFails(0)]) == Some(r) && Asking(r, n)
    ensures r == st.(sockets := r.sockets, conn := Some(n), replace := None, rx := ReadingHeader(n),
                     chosen := st.chosen + [n])
    ensures |r.sockets| == |st.sockets| && r.sockets[n] == st.sockets[n].(status := Current)
    ensures r.sockets[c] == st.sockets[c].(status := Closed)
    ensures forall t | 0 <= t < n && t != c :: r.sockets[t] == st.sockets[t]
  {
    hide Run, Later, Apart;
    assert st.sockets[c].inbox[0..] == st.sockets[c].inbox;
    RunOn(f, k, evs, HeaderFails(0), st);
    r := Step(f, k, st, HeaderFails(0));
  }

  /** The next client connects, which cancels the read on the one before it, and is read to its end. */
  lemma ServesNext(f: Cipher, k: Key, evs: seq<Event>, st: State, c: nat, z: Sent, ws: seq<Sent>, stale: Bytes)
      returns (all: seq<Event>, r: State)
    requires Run(f, k, evs) == Some(st) && Asking(st, c) && |stale| == MAX_BUFFSIZE
    requires Sendable(z) && Opens(f, k, z) && AllSendable(ws) && AllOpen(f, k, ws)
    ensures Run(f, k, all) == Some(r) && TookTurn(st, r, c, [z] + ws)
  {
    hide StreamOf, Opens, Payloads, Rounds, Run;
    var n := |st.sockets|;
    var e1, s1 := SecondConnects(f, k, evs, st, z, ws);
    var s2 := Replaces(f, k, e1, s1, c, n);
    r := ReadsAll(f, k, e1 + [HeaderFails(0)], s2, n, ws, stale);
    all := e1 + [HeaderFails(0)] + Rounds(ws, stale);
    PayloadsTail(z, ws);
  }

  lemma PayloadsTail(z: Sent, ws: seq<Sent>)
    ensures Payloads([z] + ws)[1..] == Payloads(ws)
  {
  }

  /** Each client's payloads but the first. */
  function Turns(clients: seq<seq<Sent>>): (r: seq<seq<Bytes>>)
    requires forall i | 0 <= i < |clients| :: clients[i] != []
    ensures |r| == |clients|
  {
    seq(|clients|, i requires 0 <= i < |clients| => Payloads(clients[i])[1..])
  }

  ghost predicate Genuine(f: Cipher, k: Key, xs: seq<Sent>) {
    AllSendable(xs) && AllOpen(f, k, xs)
  }

  /** Every one of `clients` has been chosen in its turn and read to its end. */
  ghost predicate AllServed(st: State, clients: seq<seq<Sent>>)
    requires clients != [] && forall i | 0 <= i < |clients| :: clients[i] != []
  {
    var n := |clients| - 1;
    && Asking(st, n) && !st.writeFailed && !st.bodyCut
    && |st.sockets| == |st.chosen| == |clients| && st.delivered == Flatten(Turns(clients))
    && forall i | 0 <= i < |clients| ::
         st.chosen[i] == i && st.sockets[i] == Socket(Client(clients[i]), if i < n then Closed else Current, [])
  }

  lemma TurnsGrow(clients: seq<seq<Sent>>)
    requires clients != [] && forall i | 0 <= i < |clients| :: clients[i] != []
    ensures var n := |clients| - 1;
            Flatten(Turns(clients)) == Flatten(Turns(clients[..n])) + Payloads(clients[n])[1..]
  {
    var n := |clients| - 1;
    hide Payloads;
    assert Turns(clients) == Turns(clients[..n]) + [Payloads(clients[n])[1..]];
    FlattenAppend(Turns(clients[..n]), [Payloads(clients[n])[1..]]);
    FlattenOne(Payloads(clients[n])[1..]);
  }

  lemma ServedOneMore(st: State, r: State, clients: seq<seq<Sent>>)
    requires |clients| > 1 && forall i | 0 <= i < |clients| :: clients[i] != []
    requires var n := |clients| - 1;
             AllServed(st, clients[..n]) && TookTurn(st, r, n - 1, clients[n])
    ensures AllServed(r, clients)
  {
    TurnsGrow(clients);
    hide Turns, Flatten, Payloads;
    var n := |clients| - 1;
    forall i | 0 <= i < |clients|
      ensures r.chosen[i] == i && r.sockets[i] == Socket(Client(clients[i]), if i < n then Closed else Current, [])
    {
      if i < n {
        assert clients[..n][i] == clients[i];
      }
    }
  }

  lemma ServedOne(st: State, z: Sent, ws: seq<Sent>)
    requires st == INIT.(sockets := [Socket(Client([z] + ws), Current, [])], selected := true, conn := Some(0),
                         rx := ReadingHeader(0), chosen := [0], verifiedLog := [0], delivered := Payloads(ws))
    ensures AllServed(st, [[z] + ws])
  {
    PayloadsTail(z, ws);
    hide Payloads;
    FlattenOne(Payloads(ws));
    assert Turns([[z] + ws]) == [Payloads(ws)];
  }

  lemma ServedBounds(st: State, clients: seq<seq<Sent>>)
    requires clients != [] && (forall i | 0 <= i < |clients| :: clients[i] != []) && AllServed(st, clients)
    ensures Asking(st, |clients| - 1)
  {
  }

  /**
   Clients are served one after the other, however many there are and whatever each sends: there is a run, from
   a receive loop that waits before anybody has connected, in which each is chosen in its turn, every packet of
   it but the first is returned, in order, and its socket is closed when the next one takes over.
  */
  lemma {:induction false} EveryClientIsServed(f: Cipher, k: Key, clients: seq<seq<Sent>>, stale: Bytes)
      returns (evs: seq<Event>, st: State)
    requires clients != [] && |stale| == MAX_BUFFSIZE
    requires forall i | 0 <= i < |clients| :: clients[i] != [] && Genuine(f, k, clients[i])
    ensures Run(f, k, evs) == Some(st) && AllServed(st, clients)
    decreases |clients|
  {
    var n := |clients| - 1;
    var z, ws := clients[n][0], clients[n][1..];
    GenuineParts(f, k, clients[n]);
    hide Opens, Run, Payloads, Genuine, AllSendable, AllOpen, AllServed, TookTurn, Turns;
    assert [z] + ws == clients[n];
    if n == 0 {
      evs, st := ServesFirst(f, k, z, ws, stale);
      assert clients == [[z] + ws];
      ServedOne(st, z, ws);
    } else {
      var e1, s1 := EveryClientIsServed(f, k, clients[..n], stale);
      ServedBounds(s1, clients[..n]);
      evs, st := ServesNext(f, k, e1, s1, n - 1, z, ws, stale);
      ServedOneMore(s1, st, clients);
    }
  }

  lemma GenuineParts(f: Cipher, k: Key, xs: seq<Sent>)
    requires xs != [] && Genuine(f, k, xs)
    ensures Sendable(xs[0]) && Opens(f, k, xs[0]) && AllSendable(xs[1..]) && AllOpen(f, k, xs[1..])
  {
    hide Opens, Sendable;
  }
}
