/** What SendTo leaves on the sockets, over whole runs of the selection machine. */
module Writes {
  import opened ByteStrings
  import opened Aead
  import opened ProtocolHeader
  import opened Frames
  import opened Protocols
  import opened Streams
  import opened Selection
  import opened Faults
  import opened HandOver
  import opened Delivery

  /** What a step asks to be written: nothing, if nothing is selected. */
  function OfferOf(st: State, ev: Event): seq<Put> {
    if ev.Send? && st.selected && st.conn.Some? then [Put(st.conn.value, ev.x)] else []
  }

  /** The writes that a run starts, in order, each with the socket that was current. */
  function Offers(f: Cipher, k: Key, evs: seq<Event>): (r: seq<Put>)
    requires Run(f, k, evs).Some?
    ensures forall i | 0 <= i < |r| :: Sendable(r[i].x)
  {
    if evs == [] then []
    else
      var n := |evs| - 1;
      Offers(f, k, evs[..n]) + OfferOf(Run(f, k, evs[..n]).value, evs[n])
  }

  function OutcomeOf(ev: Event): seq<bool> {
    if ev.Written? then [ev.ok] else []
  }

  /** How the writes of a run ended, in order. */
  function Outcomes(evs: seq<Event>): seq<bool> {
    if evs == [] then [] else Outcomes(evs[..|evs| - 1]) + OutcomeOf(evs[|evs| - 1])
  }

  /** Of the writes that have ended, those that went through. */
  function Kept(puts: seq<Put>, oks: seq<bool>): seq<Put>
    requires |oks| <= |puts|
  {
    if oks == [] then []
    else
      var n := |oks| - 1;
      Kept(puts, oks[..n]) + (if oks[n] then [puts[n]] else [])
  }

  lemma {:induction false} KeptMore(puts: seq<Put>, more: seq<Put>, oks: seq<bool>)
    requires |oks| <= |puts|
    ensures Kept(puts + more, oks) == Kept(puts, oks)
    decreases |oks|
  {
    if oks != [] {
      KeptMore(puts, more, oks[..|oks| - 1]);
    }
  }

  /** A socket that nothing more is written to, now. */
  predicate Spent(st: State, s: nat) {
    !(st.selected && st.conn == Some(s))
  }

  /** The pending write is the one started last, and all before it have ended. */
  predicate Pending(st: State, offers: seq<Put>, oks: seq<bool>) {
    if st.tx.Idle? then |offers| == |oks|
    else |offers| == |oks| + 1 && offers[|oks|] == Put(st.tx.sock, st.tx.x)
  }

  /** No write follows a failed one on the same socket. */
  ghost predicate FailsLast(offers: seq<Put>, oks: seq<bool>) {
    forall i, j | 0 <= i < |oks| && i < j < |offers| && !oks[i] :: offers[j].sock != offers[i].sock
  }

  ghost predicate FailedAreSpent(st: State, offers: seq<Put>, oks: seq<bool>)
    requires |oks| <= |offers|
  {
    forall i | 0 <= i < |oks| && !oks[i] :: Spent(st, offers[i].sock)
  }

  ghost predicate ToChosen(st: State, offers: seq<Put>) {
    forall i | 0 <= i < |offers| :: offers[i].sock in st.chosen
  }

  ghost predicate Books(st: State, offers: seq<Put>, oks: seq<bool>) {
    && Pending(st, offers, oks) && st.wire == Kept(offers, oks)
    && ToChosen(st, offers) && FailedAreSpent(st, offers, oks) && FailsLast(offers, oks)
  }

  // ----- steps of the other coroutines -----

  /** The step does not touch SendTo's state, and a socket becomes selected only by being chosen. */
  predicate Elsewhere(st: State, r: State) {
    && r.tx == st.tx && r.wire == st.wire && st.chosen <= r.chosen
    && (r.selected && r.conn.Some? ==> (st.selected && r.conn == st.conn) || r.chosen == st.chosen + [r.conn.value])
  }

  lemma CandidateElsewhere(st: State, s: nat, n: nat, total: nat, ok: bool)
    requires Bounded(st) && s < |st.sockets|
    ensures n <= |st.sockets[s].inbox| ==> Elsewhere(st, OnCandidateHeader(st, s, n, total))
    ensures st.sockets[s].status.AwaitingBody? && (ok ==> st.sockets[s].status.total <= |st.sockets[s].inbox|)
            ==> Elsewhere(st, OnCandidateBody(st, s, ok))
  {
    hide Later, Bounded, SetStatus;
  }

  lemma HeaderElsewhere(st: State, h: Header, len: nat, total: nat)
    requires Bounded(st) && st.rx.ReadingHeader? && SIZE <= |st.sockets[st.rx.sock].inbox|
    requires |h.lengths| == LENGTHS_BYTES
    ensures Elsewhere(st, OnHeaderRead(st, h, len, total))
  {
    hide Later, LoopTop, Consume;
    if total == 0 {
    } else if st.conn.None? {
    } else if total > BODY_ROOM {
    } else {
    }
  }

  lemma HeaderFailsElsewhere(st: State, n: nat)
    requires Bounded(st) && st.rx.ReadingHeader? && n <= |st.sockets[st.rx.sock].inbox|
    ensures Elsewhere(st, OnHeaderFails(st, n))
  {
    hide Later, LoopTop, SetStatus, Consume;
    if st.stopped {
    } else if st.conn.None? {
    } else if st.replace.None? {
    } else {
    }
  }

  lemma BodyElsewhere(st: State, n: nat, got: Option<Bytes>)
    requires Bounded(st) && st.rx.ReadingBody? && n <= |st.sockets[st.rx.sock].inbox|
    ensures Elsewhere(st, OnBodyRead(st, n, got))
  {
    hide Later, LoopTop, Consume;
    if n == 0 || got.None? {
    } else if n == st.rx.total {
    } else {
    }
  }

  lemma BodyEndsElsewhere(st: State, n: nat, got: Option<Bytes>)
    requires Bounded(st) && st.rx.ReadingBody?
    ensures Elsewhere(st, OnBodyEnds(st, n, got))
  {
    hide Later, LoopTop, Consume;
  }

  lemma OthersElsewhere(f: Cipher, k: Key, st: State, peer: Peer)
    requires Bounded(st)
    ensures (peer.Client? ==> AllSendable(peer.xs)) ==> Elsewhere(st, OnAccept(f, k, st, peer))
    ensures Elsewhere(st, LoopTop(st)) && Elsewhere(st, st.(rx := Exited)) && Elsewhere(st, OnClose(st))
  {
    hide Later, BytesOf, SetStatus;
  }

  lemma StepElsewhere(f: Cipher, k: Key, st: State, ev: Event)
    requires Bounded(st) && Enabled(st, ev) && !ev.Send? && !ev.Written?
    ensures Elsewhere(st, Step(f, k, st, ev))
  {
    hide Elsewhere, CandidateTotal, Head, HeaderTotal, PlainLength, Decrypted, LoopTop, Later, OnAccept,
         OnCandidateHeader, OnCandidateBody, OnHeaderRead, OnHeaderFails, OnBodyRead, OnBodyEnds, OnClose;
    match ev
    case Accept(peer) => OthersElsewhere(f, k, st, peer);
    case CandidateHeader(s, n, stale) =>
      CandidateElsewhere(st, s, n, CandidateTotal(f, k, st.sockets[s].inbox, n, stale), false);
    case CandidateBody(s, ok) => CandidateElsewhere(st, s, 0, 0, ok);
    case HeaderRead =>
      var h := Head(st.sockets[st.rx.sock].inbox);
      HeaderElsewhere(st, h, PlainLength(f, k, h), HeaderTotal(f, k, h));
    case HeaderFails(n) => HeaderFailsElsewhere(st, n);
    case BodyRead(n, stale) =>
      BodyElsewhere(st, n, Decrypted(f, k, st.rx.header, st.rx.len, st.sockets[st.rx.sock].inbox, n, stale));
    case BodyEnds(n, stale) =>
      BodyEndsElsewhere(st, n, Decrypted(f, k, st.rx.header, st.rx.len, st.sockets[st.rx.sock].inbox, n, stale));
    case _ => OthersElsewhere(f, k, st, Stranger([]));
  }

  lemma SpentStays(st: State, r: State, s: nat)
    requires Elsewhere(st, r) && Distinct(r.chosen) && s in st.chosen && Spent(st, s)
    ensures Spent(r, s)
  {
    var i :| 0 <= i < |st.chosen| && st.chosen[i] == s;
    assert r.chosen[i] == s;
    if r.chosen == st.chosen + [s] {
      assert r.chosen[|st.chosen|] == s;
    }
  }

  lemma ElsewhereBooks(st: State, r: State, offers: seq<Put>, oks: seq<bool>)
    requires Books(st, offers, oks) && Elsewhere(st, r) && Distinct(r.chosen)
    ensures Books(r, offers, oks)
  {
    forall i | 0 <= i < |oks| && !oks[i] ensures Spent(r, offers[i].sock) {
      SpentStays(st, r, offers[i].sock);
    }
    forall i | 0 <= i < |offers| ensures offers[i].sock in r.chosen {
      assert offers[i].sock in st.chosen;
    }
  }

  // ----- SendTo's own steps -----

  /** What SendTo does: it drops the packet exactly if nothing is selected, and changes nothing but `tx`. */
  lemma SendParts(st: State, x: Sent)
    requires Safe(st) && st.fault == NoFault && st.tx == Idle
    ensures OnSend(st, x) == if st.selected then st.(tx := Writing(st.conn.value, x)) else st
    ensures st.selected ==> st.conn.Some? && OfferOf(st, Send(x)) == [Put(st.conn.value, x)]
    ensures !st.selected ==> OfferOf(st, Send(x)) == []
  {
    hide Ledger;
  }

  /** Only a current socket is selected, and it was chosen. */
  lemma CurrentWasChosen(st: State)
    requires Safe(st) && Once(st) && st.conn.Some?
    ensures st.conn.value in st.chosen
  {
    assert Entered(st.sockets[st.conn.value], st.conn.value, st.conn, st.replace);
  }

  lemma SendBooks(st: State, x: Sent, offers: seq<Put>, oks: seq<bool>)
    requires Safe(st) && Once(st) && st.fault == NoFault && st.tx == Idle && Books(st, offers, oks)
    ensures Books(OnSend(st, x), offers + OfferOf(st, Send(x)), oks)
  {
    SendParts(st, x);
    if st.selected {
      CurrentWasChosen(st);
      KeptMore(offers, [Put(st.conn.value, x)], oks);
    } else {
      assert offers + [] == offers;
    }
    hide Safe, Once, OnSend, OfferOf, Kept;
  }

  /** What comes after a write: SendTo is ready for the next packet; one that went through is on record, and
      nothing else has changed; one that failed has `selected` cleared, unless Close did that already. */
  lemma WrittenParts(st: State, ok: bool)
    requires Safe(st) && st.fault == NoFault && st.tx.Writing?
    ensures var r := OnWritten(st, ok);
            && (r.fault == NoFault <==> ok || st.stopped || st.conn.Some?)
            && (r.fault == NoFault ==> r.tx == Idle)
            && (ok ==> r == st.(tx := Idle, wire := st.wire + [Put(st.tx.sock, st.tx.x)]))
            && (!ok && r.fault == NoFault ==>
                  r == st.(tx := Idle, selected := false, writeFailed := st.writeFailed || !st.stopped))
  {
    hide Ledger;
    assert st.wire + [] == st.wire;
  }

  lemma WrittenBooks(st: State, ok: bool, offers: seq<Put>, oks: seq<bool>)
    requires Safe(st) && st.fault == NoFault && st.tx.Writing? && Books(st, offers, oks)
    requires OnWritten(st, ok).fault == NoFault
    ensures Books(OnWritten(st, ok), offers, oks + [ok])
  {
    WrittenParts(st, ok);
    KeptOneMore(offers, oks, ok);
    OneMoreFailsLast(offers, oks, ok);
    OneMoreSpent(st, OnWritten(st, ok), offers, oks, ok);
    hide Safe, OnWritten, Kept, FailsLast, FailedAreSpent;
    assert st.wire + [] == st.wire;
  }

  lemma OneMoreFailsLast(offers: seq<Put>, oks: seq<bool>, ok: bool)
    requires |offers| == |oks| + 1 && FailsLast(offers, oks)
    ensures FailsLast(offers, oks + [ok])
  {
  }

  lemma OneMoreSpent(st: State, r: State, offers: seq<Put>, oks: seq<bool>, ok: bool)
    requires |offers| == |oks| + 1 && FailedAreSpent(st, offers, oks) && r.conn == st.conn
    requires if ok then r.selected == st.selected else !r.selected
    ensures FailedAreSpent(r, offers, oks + [ok])
  {
  }

  lemma KeptOneMore(puts: seq<Put>, oks: seq<bool>, ok: bool)
    requires |oks| < |puts|
    ensures Kept(puts, oks + [ok]) == Kept(puts, oks) + (if ok then [puts[|oks|]] else [])
  {
    assert (oks + [ok])[..|oks|] == oks;
  }

  // ----- all runs -----

  lemma StepBooks(f: Cipher, k: Key, st: State, ev: Event, offers: seq<Put>, oks: seq<bool>)
    requires Safe(st) && Once(st) && Enabled(st, ev) && Books(st, offers, oks)
    requires Once(Step(f, k, st, ev)) && Step(f, k, st, ev).fault == NoFault
    ensures Books(Step(f, k, st, ev), offers + OfferOf(st, ev), oks + OutcomeOf(ev))
  {
    assert offers + [] == offers && oks + [] == oks;
    if ev.Send? {
      hide Books, Safe, Once;
      SendBooks(st, ev.x, offers, oks);
    } else if ev.Written? {
      hide Books, Safe, Once;
      WrittenBooks(st, ev.ok, offers, oks);
    } else {
      StepElsewhere(f, k, st, ev);
      hide Step, Books, Safe, Distinct, Elsewhere;
      ElsewhereBooks(st, Step(f, k, st, ev), offers, oks);
    }
  }

  /**
   In every run: writes are started for exactly the packets sent while a socket is selected, on that socket, one
   at a time and in order; those that went through are on record; and nothing is written to a socket after a
   write to it has failed.
  */
  lemma {:induction false} AlwaysBooks(f: Cipher, k: Key, evs: seq<Event>)
    requires Run(f, k, evs).Some? && Run(f, k, evs).value.fault == NoFault
    ensures Books(Run(f, k, evs).value, Offers(f, k, evs), Outcomes(evs))
    decreases |evs|
  {
    if evs != [] {
      var n := |evs| - 1;
      var st := Run(f, k, evs[..n]).value;
      assert st.fault == NoFault;
      NeverChosenTwice(f, k, evs);
      NeverChosenTwice(f, k, evs[..n]);
      AlwaysSafe(f, k, evs[..n]);
      hide Step, Enabled, Safe, Once, Books, OfferOf, OutcomeOf;
      AlwaysBooks(f, k, evs[..n]);
      StepBooks(f, k, st, evs[n], Offers(f, k, evs[..n]), Outcomes(evs[..n]));
    }
  }

  /** In every run, at the end of a write: exactly a failed one on a server that has no socket any more is a null
      dereference; otherwise SendTo is ready for the next packet, and a write that went through has changed
      nothing else. */
  lemma ReadyAgain(f: Cipher, k: Key, evs: seq<Event>, st: State, ok: bool)
    requires Run(f, k, evs) == Some(st) && Bounded(st) && Enabled(st, Written(ok))
    ensures var r := Step(f, k, st, Written(ok));
            && (r.fault == NoFault <==> ok || st.stopped || st.conn.Some?)
            && (r.fault == NoFault ==> r.tx == Idle && forall x | Sendable(x) :: Enabled(r, Send(x)))
            && (ok ==> r == st.(tx := Idle, wire := st.wire + [Put(st.tx.sock, st.tx.x)]))
            && (!ok && r.fault == NoFault ==>
                  r == st.(tx := Idle, selected := false, writeFailed := st.writeFailed || !st.stopped))
  {
    AlwaysSafe(f, k, evs);
    WrittenParts(st, ok);
    hide Run, Safe, OnWritten;
  }

  // ----- socket by socket -----

  /** What was put on socket `s`, in order. */
  function OnSocket(puts: seq<Put>, s: nat): (r: seq<Sent>)
    ensures (forall i | 0 <= i < |puts| :: Sendable(puts[i].x)) ==> AllSendable(r)
  {
    if puts == [] then []
    else
      var n := |puts| - 1;
      OnSocket(puts[..n], s) + (if puts[n].sock == s then [puts[n].x] else [])
  }

  lemma OneMorePut(puts: seq<Put>, p: Put, s: nat)
    ensures OnSocket(puts + [p], s) == OnSocket(puts, s) + (if p.sock == s then [p.x] else [])
  {
    assert (puts + [p])[..|puts|] == puts;
  }

  /** One write more: what is kept of all of them. */
  lemma KeptLast(puts: seq<Put>, oks: seq<bool>, s: nat)
    requires puts != [] && |oks| <= |puts| <= |oks| + 1
    ensures var n := |puts| - 1;
            OnSocket(Kept(puts, oks), s)
            == OnSocket(Kept(puts[..n], oks[..n]), s)
               + (if |oks| > n && oks[n] && puts[n].sock == s then [puts[n].x] else [])
  {
    var n := |puts| - 1;
    assert puts == puts[..n] + [puts[n]];
    KeptMore(puts[..n], [puts[n]], oks[..n]);
    if |oks| > n {
      OneMorePut(Kept(puts, oks[..n]), puts[n], s);
      assert oks[n] || Kept(puts, oks[..n]) + [] == Kept(puts, oks[..n]);
    } else {
      assert oks[..n] == oks;
    }
  }

  lemma {:induction false} NoneFailed(puts: seq<Put>, oks: seq<bool>, s: nat)
    requires |oks| == |puts| && forall i | 0 <= i < |puts| && puts[i].sock == s :: oks[i]
    ensures OnSocket(Kept(puts, oks), s) == OnSocket(puts, s)
    decreases |puts|
  {
    if puts != [] {
      var n := |puts| - 1;
      KeptLast(puts, oks, s);
      NoneFailed(puts[..n], oks[..n], s);
    }
  }

  /** Every write to `s` has gone through. */
  ghost predicate AllThrough(puts: seq<Put>, oks: seq<bool>, s: nat) {
    forall i | 0 <= i < |puts| && puts[i].sock == s :: i < |oks| && oks[i]
  }

  lemma FailsLastFront(puts: seq<Put>, oks: seq<bool>, s: nat)
    requires puts != [] && |oks| <= |puts| <= |oks| + 1 && FailsLast(puts, oks)
    ensures var n := |puts| - 1;
            && FailsLast(puts[..n], oks[..n])
            && (puts[n].sock == s ==> AllThrough(puts[..n], oks[..n], s))
  {
    var n := |puts| - 1;
    assert forall i | 0 <= i < n :: puts[..n][i] == puts[i] && oks[..n][i] == oks[i];
  }

  lemma ThroughKeepsAll(puts: seq<Put>, oks: seq<bool>, s: nat)
    requires |oks| == |puts| && AllThrough(puts, oks, s)
    ensures OnSocket(Kept(puts, oks), s) == OnSocket(puts, s)
  {
    NoneFailed(puts, oks, s);
  }

  lemma Extended(xs: seq<Sent>, x: Sent, ok: bool)
    ensures var done, sent := xs + (if ok then [x] else []), xs + [x];
            done <= sent && |sent| <= |done| + 1 && (done == sent <==> ok)
  {
    assert xs + [] == xs;
  }

  /** The last write is to another socket. */
  lemma LastElsewhere(puts: seq<Put>, oks: seq<bool>, s: nat)
    requires puts != [] && |oks| <= |puts| <= |oks| + 1 && puts[|puts| - 1].sock != s
    ensures var n := |puts| - 1;
            && OnSocket(Kept(puts, oks), s) == OnSocket(Kept(puts[..n], oks[..n]), s)
            && OnSocket(puts, s) == OnSocket(puts[..n], s)
  {
    KeptLast(puts, oks, s);
  }

  /** The last write is to `s`, and all before it went through. */
  lemma LastHere(puts: seq<Put>, oks: seq<bool>, s: nat)
    requires puts != [] && |oks| <= |puts| <= |oks| + 1 && puts[|puts| - 1].sock == s
    requires AllThrough(puts[..|puts| - 1], oks[..|puts| - 1], s)
    ensures var done, sent := OnSocket(Kept(puts, oks), s), OnSocket(puts, s);
            done <= sent && |sent| <= |done| + 1 && (done == sent <==> |oks| == |puts| && oks[|oks| - 1])
  {
    var n := |puts| - 1;
    KeptLast(puts, oks, s);
    ThroughKeepsAll(puts[..n], oks[..n], s);
    hide Kept, AllThrough;
    Extended(OnSocket(puts[..n], s), puts[n].x, |oks| > n && oks[n]);
  }

  lemma {:induction false} AllButTheLast(puts: seq<Put>, oks: seq<bool>, s: nat)
    requires |oks| <= |puts| <= |oks| + 1 && FailsLast(puts, oks)
    ensures var done, sent := OnSocket(Kept(puts, oks), s), OnSocket(puts, s);
            && done <= sent && |sent| <= |done| + 1
            && (done == sent <==> AllThrough(puts, oks, s))
    decreases |puts|
  {
    if puts != [] {
      var n := |puts| - 1;
      FailsLastFront(puts, oks, s);
      LastThrough(puts, oks, s);
      hide Kept, OnSocket, FailsLast, AllThrough;
      if puts[n].sock == s {
        LastHere(puts, oks, s);
      } else {
        LastElsewhere(puts, oks, s);
        AllButTheLast(puts[..n], oks[..n], s);
      }
    }
  }

  lemma LastThrough(puts: seq<Put>, oks: seq<bool>, s: nat)
    requires puts != [] && |oks| <= |puts| <= |oks| + 1
    ensures var n := |puts| - 1;
            AllThrough(puts, oks, s)
            <==> AllThrough(puts[..n], oks[..n], s) && (puts[n].sock == s ==> |oks| > n && oks[n])
  {
    var n := |puts| - 1;
    assert forall i | 0 <= i < n :: puts[..n][i] == puts[i] && oks[..n][i] == oks[i];
    if AllThrough(puts, oks, s) {
      forall i | 0 <= i < n && puts[..n][i].sock == s ensures oks[..n][i] {
        assert puts[i].sock == s;
      }
    }
  }

  /**
   In every run, socket by socket: what went through is what was sent while that socket was current and selected,
   in order, but for the last packet at most; all of it, exactly if no write to the socket has failed or is pending.
  */
  lemma SocketGetsAll(f: Cipher, k: Key, evs: seq<Event>, st: State, s: nat)
    requires Run(f, k, evs) == Some(st) && st.fault == NoFault
    ensures var done, sent := OnSocket(st.wire, s), OnSocket(Offers(f, k, evs), s);
            && done <= sent && |sent| <= |done| + 1
            && (done == sent <==> AllThrough(Offers(f, k, evs), Outcomes(evs), s))
  {
    AlwaysBooks(f, k, evs);
    hide Run, Offers, Outcomes, Kept, OnSocket, FailsLast, AllThrough;
    AllButTheLast(Offers(f, k, evs), Outcomes(evs), s);
  }

  // ----- what the client reads -----

  /** Frames that have come in whole are due. */
  lemma {:induction false} DueAtLeast(f: Cipher, k: Key, xs: seq<Sent>, m: nat, n: nat)
    requires AllSendable(xs) && m <= |xs| && |StreamOf(f, k, xs[..m])| <= n <= |StreamOf(f, k, xs)|
    ensures m <= Due(f, k, xs, n)
    decreases |xs|
  {
    if m > 0 {
      CutStep(f, k, xs, n);
      assert xs[..m][0] == xs[0] && xs[..m][1..] == xs[1..][..m - 1];
      hide FrameOf, Due;
      DueAtLeast(f, k, xs[1..], m - 1, n - |FrameOf(f, k, xs[0])|);
    }
  }

  /**
   From the server's SendTo to the client's Receive, over TCP, in every run: of the packets that were sent while
   socket `s` was current and selected, all have gone through but the last at most; and whatever part of their
   frames comes in at the client, it gets the first of them, in order, and nothing else: all that went through, once
   their frames are in.
  */
  lemma ClientReads(f: Cipher, k: Key, all: seq<Sent>, evs: seq<Event>, st: State, s: nat, n: nat, b: Buffer)
      returns (j: nat)
    requires Separable(all) && OnlySealed(f, k, all) && Run(f, k, evs) == Some(st) && st.fault == NoFault
    requires var sent := OnSocket(Offers(f, k, evs), s);
             (forall i | 0 <= i < |sent| :: sent[i] in all) && n <= |StreamOf(f, k, sent)|
    ensures var done, sent := OnSocket(st.wire, s), OnSocket(Offers(f, k, evs), s);
            && done <= sent && |sent| <= |done| + 1 && j <= |sent|
            && Finish(f, k, Feed(f, k, Start(b), StreamOf(f, k, sent)[..n])) == Payloads(sent[..j])
            && (|StreamOf(f, k, sent[..|done|])| <= n ==> |done| <= j)
  {
    var done, sent := OnSocket(st.wire, s), OnSocket(Offers(f, k, evs), s);
    SocketGetsAll(f, k, evs, st, s);
    hide Run, Offers, Outcomes, OnSocket, AllThrough, Separable, OnlySealed, Due, StreamOf, Finish, Feed, Payloads;
    assert done == sent[..|done|];
    if |StreamOf(f, k, sent[..|done|])| <= n {
      DueAtLeast(f, k, sent, |done|, n);
    }
    j := EndOfStream(f, k, all, sent, Start(b), n);
    assert [] + Payloads(sent[..j]) == Payloads(sent[..j]);
  }

  // ----- runs in which everything is written -----

  function Sends(ps: seq<Sent>): seq<Event> {
    if ps == [] then [] else [Send(ps[0]), Written(true)] + Sends(ps[1..])
  }

  function Puts(s: nat, ps: seq<Sent>): seq<Put> {
    seq(|ps|, i requires 0 <= i < |ps| => Put(s, ps[i]))
  }

  /** While a socket is selected, any number of packets can be sent to it one after the other. */
  lemma {:induction false} WritesAll(f: Cipher, k: Key, evs: seq<Event>, st: State, c: nat, ps: seq<Sent>)
    requires Run(f, k, evs) == Some(st) && st.fault == NoFault && st.tx == Idle && AllSendable(ps)
    requires st.selected && st.conn == Some(c)
    ensures Run(f, k, evs + Sends(ps)) == Some(st.(wire := st.wire + Puts(c, ps)))
    decreases |ps|
  {
    hide Later, Run;
    if ps == [] {
      assert evs + [] == evs && st.wire + [] == st.wire;
    } else {
      RunOn(f, k, evs, Send(ps[0]), st);
      var e1, s1 := evs + [Send(ps[0])], st.(tx := Writing(c, ps[0]));
      RunOn(f, k, e1, Written(true), s1);
      var e2, s2 := e1 + [Written(true)], st.(wire := st.wire + [Put(c, ps[0])]);
      WritesAll(f, k, e2, s2, c, ps[1..]);
      assert e2 + Sends(ps[1..]) == evs + Sends(ps);
      assert st.wire + [Put(c, ps[0])] + Puts(c, ps[1..]) == st.wire + Puts(c, ps);
    }
  }

  /** A client connects, and every packet sent from then on goes to it. */
  lemma WritesHappen(f: Cipher, k: Key, x: Sent, ys: seq<Sent>, ps: seq<Sent>) returns (st: State)
    requires Sendable(x) && AllSendable(ys) && Opens(f, k, x) && AllSendable(ps)
    ensures Run(f, k, Connects(x, ys) + Sends(ps)) == Some(st)
    ensures st.wire == Puts(0, ps) && st.tx == Idle && st.selected && st.fault == NoFault
  {
    ConnectsTo(f, k, x, ys);
    hide Run, StreamOf, Opens;
    WritesAll(f, k, Connects(x, ys), Connected(f, k, x, ys), 0, ps);
    assert [] + Puts(0, ps) == Puts(0, ps);
    st := Connected(f, k, x, ys).(wire := [] + Puts(0, ps));
  }
}
