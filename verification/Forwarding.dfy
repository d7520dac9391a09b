/**
 The two forwarding coroutines of each end (Client.cpp, Server.cpp) over UDP, as they take turns on one
 connection: any interleaving of tun reads and arriving datagrams.
*/
module Forwarding {
  import opened ByteStrings
  import opened Aead
  import opened ProtocolHeader
  import opened Frames
  import opened Protocols
  import opened Udp
  import opened Tunnel

  /** What resumes one of the two loops. */
  datatype Wakeup = TunPacket(raw: Bytes, draw: Draw) | FromWire(arriving: Arriving)

  datatype Outbound = Outbound(to: Endpoint, datagram: Bytes)

  ghost predicate Good(side: Side, c: Config, w: Wakeup) {
    w.TunPacket? ==> Prefix(side, c) <= |w.raw| && InRange(w.draw)
  }

  ghost predicate AllGood(side: Side, c: Config, ws: seq<Wakeup>) {
    forall i | 0 <= i < |ws| :: Good(side, c, ws[i])
  }

  function Raws(ws: seq<Wakeup>): (r: seq<Bytes>) {
    if ws == [] then [] else (if ws[0].TunPacket? then [ws[0].raw] else []) + Raws(ws[1..])
  }

  function Draws(ws: seq<Wakeup>): (r: seq<Draw>) {
    if ws == [] then [] else (if ws[0].TunPacket? then [ws[0].draw] else []) + Draws(ws[1..])
  }

  function Arrivals(ws: seq<Wakeup>): (r: seq<Arriving>) {
    if ws == [] then [] else (if ws[0].FromWire? then [ws[0].arriving] else []) + Arrivals(ws[1..])
  }

  function Contents(arrivals: seq<Arriving>): seq<Bytes> {
    if arrivals == [] then [] else [arrivals[0].datagram] + Contents(arrivals[1..])
  }

  function DatagramsOf(wire: seq<Outbound>): seq<Bytes> {
    if wire == [] then [] else [wire[0].datagram] + DatagramsOf(wire[1..])
  }

  /** Where the next datagram goes: the client's peer is fixed, the server answers whoever came last. */
  function Target(side: Side, ep: Endpoint, w: Wakeup): Endpoint {
    if side == ServerSide && w.FromWire? then w.arriving.from else ep
  }

  ghost function SendsFor(f: Cipher, k: Key, side: Side, c: Config, b: Buffer, ep: Endpoint, w: Wakeup): seq<Outbound>
    requires Tunnel.Valid(c) && Good(side, c, w)
  {
    if w.FromWire? then []
    else
      var xs := Seals(side, c, b, w.raw, w.draw);
      if xs == [] then [] else [Outbound(ep, FrameOf(f, k, xs[0]))]
  }

  ghost function TunAfter(f: Cipher, k: Key, side: Side, c: Config, b: Buffer, w: Wakeup): Buffer
    requires Tunnel.Valid(c) && Good(side, c, w)
  {
    if w.FromWire? then b else TunLeaves(f, k, side, c, b, w.raw, w.draw)
  }

  /** Every datagram one end sends over a run, with its destination. */
  ghost function WireOf(f: Cipher, k: Key, side: Side, c: Config, b: Buffer, ep: Endpoint,
      ws: seq<Wakeup>): seq<Outbound>
    requires Tunnel.Valid(c) && AllGood(side, c, ws)
    decreases |ws|
  {
    if ws == [] then []
    else
      assert Good(side, c, ws[0]);
      SendsFor(f, k, side, c, b, ep, ws[0])
      + WireOf(f, k, side, c, TunAfter(f, k, side, c, b, ws[0]), Target(side, ep, ws[0]), ws[1..])
  }

  lemma {:induction false} DatagramsOfAppend(a: seq<Outbound>, b: seq<Outbound>)
    ensures DatagramsOf(a + b) == DatagramsOf(a) + DatagramsOf(b)
    decreases |a|
  {
    if a == [] {
      assert a + b == b;
    } else {
      assert (a + b)[0] == a[0] && (a + b)[1..] == a[1..] + b;
      DatagramsOfAppend(a[1..], b);
    }
  }

  lemma {:induction false} RunIsReadable(side: Side, c: Config, ws: seq<Wakeup>)
    requires AllGood(side, c, ws)
    ensures Readable(side, c, Raws(ws), Draws(ws))
    decreases |ws|
  {
    if ws != [] {
      assert Good(side, c, ws[0]);
      RunIsReadable(side, c, ws[1..]);
    }
  }

  lemma DatagramsStep(f: Cipher, k: Key, xs: seq<Sent>, ys: seq<Sent>)
    requires AllSendable(xs) && AllSendable(ys)
    ensures AllSendable(xs + ys) && Datagrams(f, k, xs + ys) == Datagrams(f, k, xs) + Datagrams(f, k, ys)
  {
    hide FrameOf;
  }

  /** One tun packet: what it sends goes in front of what the rest of the run tunnels. */
  lemma TunneledStep(f: Cipher, k: Key, side: Side, c: Config, b: Buffer, ws: seq<Wakeup>)
    requires Tunnel.Valid(c) && AllGood(side, c, ws) && ws != [] && ws[0].TunPacket?
    requires Good(side, c, ws[0]) && Readable(side, c, Raws(ws), Draws(ws))
    requires Readable(side, c, Raws(ws[1..]), Draws(ws[1..]))
    ensures var xs := Seals(side, c, b, ws[0].raw, ws[0].draw);
            var rest := Tunneled(f, k, side, c, TunAfter(f, k, side, c, b, ws[0]), Raws(ws[1..]), Draws(ws[1..]));
            Datagrams(f, k, Tunneled(f, k, side, c, b, Raws(ws), Draws(ws)))
            == Datagrams(f, k, xs) + Datagrams(f, k, rest)
  {
    hide Seals, TunLeaves, FrameOf, Datagrams;
    var xs := Seals(side, c, b, ws[0].raw, ws[0].draw);
    var rest := Tunneled(f, k, side, c, TunAfter(f, k, side, c, b, ws[0]), Raws(ws[1..]), Draws(ws[1..]));
    assert Raws(ws)[1..] == Raws(ws[1..]) && Draws(ws)[1..] == Draws(ws[1..]);
    assert Tunneled(f, k, side, c, b, Raws(ws), Draws(ws)) == xs + rest;
    DatagramsStep(f, k, xs, rest);
  }

  /** The receiving loop's turns leave no trace in what the sending loop sends: a run's datagrams are the
      frames of what its tun reads alone would have been tunneled to. */
  lemma {:induction false} WireCarriesTunneled(f: Cipher, k: Key, side: Side, c: Config, b: Buffer, ep: Endpoint,
      ws: seq<Wakeup>)
    requires Tunnel.Valid(c) && AllGood(side, c, ws)
    ensures Readable(side, c, Raws(ws), Draws(ws))
    ensures DatagramsOf(WireOf(f, k, side, c, b, ep, ws))
            == Datagrams(f, k, Tunneled(f, k, side, c, b, Raws(ws), Draws(ws)))
    decreases |ws|
  {
    hide Seals, TunLeaves, FrameOf, Tunneled, Readable;
    RunIsReadable(side, c, ws);
    if ws == [] {
      assert Tunneled(f, k, side, c, b, [], []) == [] by { NothingTunneled(f, k, side, c, b); }
    } else {
      assert Good(side, c, ws[0]);
      RunIsReadable(side, c, ws[1..]);
      var b1, ep1 := TunAfter(f, k, side, c, b, ws[0]), Target(side, ep, ws[0]);
      WireCarriesTunneled(f, k, side, c, b1, ep1, ws[1..]);
      var head := SendsFor(f, k, side, c, b, ep, ws[0]);
      DatagramsOfAppend(head, WireOf(f, k, side, c, b1, ep1, ws[1..]));
      if ws[0].TunPacket? {
        TunneledStep(f, k, side, c, b, ws);
        SealsAtMostOne(side, c, b, ws[0].raw, ws[0].draw);
        assert DatagramsOf(head) == Datagrams(f, k, Seals(side, c, b, ws[0].raw, ws[0].draw));
      } else {
        assert Raws(ws) == Raws(ws[1..]) && Draws(ws) == Draws(ws[1..]);
      }
    }
  }

  lemma NothingTunneled(f: Cipher, k: Key, side: Side, c: Config, b: Buffer)
    requires Tunnel.Valid(c)
    ensures Readable(side, c, [], []) && Tunneled(f, k, side, c, b, [], []) == []
  {
  }

  lemma SealsAtMostOne(side: Side, c: Config, b: Buffer, raw: Bytes, draw: Draw)
    requires Tunnel.Valid(c) && Prefix(side, c) <= |raw| && InRange(draw)
    ensures |Seals(side, c, b, raw, draw)| <= 1
  {
  }

  predicate AllTo(ep: Endpoint, wire: seq<Outbound>) {
    forall i | 0 <= i < |wire| :: wire[i].to == ep
  }

  /** All of a run's datagrams go to one endpoint: the client's to its server, the server's to its client
      if that is where the last datagram before the run and all during the run came from. */
  lemma {:induction false} AllToPeer(f: Cipher, k: Key, side: Side, c: Config, b: Buffer, ep: Endpoint, ws: seq<Wakeup>)
    requires Tunnel.Valid(c) && AllGood(side, c, ws)
    requires side == ServerSide ==> forall i | 0 <= i < |ws| && ws[i].FromWire? :: ws[i].arriving.from == ep
    ensures AllTo(ep, WireOf(f, k, side, c, b, ep, ws))
    decreases |ws|
  {
    hide Seals, TunLeaves, FrameOf;
    if ws != [] {
      assert Good(side, c, ws[0]) && Target(side, ep, ws[0]) == ep;
      AllToPeer(f, k, side, c, TunAfter(f, k, side, c, b, ws[0]), ep, ws[1..]);
    }
  }

  /** The source of the last datagram of a run, or what it was before. */
  function LastSource(side: Side, ep: Endpoint, ws: seq<Wakeup>): Endpoint
    decreases |ws|
  {
    if ws == [] then ep else LastSource(side, Target(side, ep, ws[0]), ws[1..])
  }

  ghost function TunAtEnd(f: Cipher, k: Key, side: Side, c: Config, b: Buffer, ws: seq<Wakeup>): Buffer
    requires Tunnel.Valid(c) && AllGood(side, c, ws)
    decreases |ws|
  {
    if ws == [] then b
    else
      assert Good(side, c, ws[0]);
      TunAtEnd(f, k, side, c, TunAfter(f, k, side, c, b, ws[0]), ws[1..])
  }

  /** What is sent next goes to the source of the last datagram that came in, whatever that datagram was. */
  lemma {:induction false} AnswersLastSource(f: Cipher, k: Key, side: Side, c: Config, b: Buffer, ep: Endpoint,
                                             ws: seq<Wakeup>, w: Wakeup)
    requires Tunnel.Valid(c) && AllGood(side, c, ws) && Good(side, c, w)
    ensures AllGood(side, c, ws + [w])
    ensures WireOf(f, k, side, c, b, ep, ws + [w])
            == WireOf(f, k, side, c, b, ep, ws)
               + SendsFor(f, k, side, c, TunAtEnd(f, k, side, c, b, ws), LastSource(side, ep, ws), w)
    decreases |ws|
  {
    hide SendsFor, TunAfter;
    if ws == [] {
      assert ws + [w] == [w] && [w][1..] == [];
    } else {
      assert Good(side, c, ws[0]);
      assert (ws + [w])[0] == ws[0] && (ws + [w])[1..] == ws[1..] + [w];
      AnswersLastSource(f, k, side, c, TunAfter(f, k, side, c, b, ws[0]), Target(side, ep, ws[0]), ws[1..], w);
    }
  }

  /** So one datagram from anywhere, with anything in it, redirects what the server sends. */
  lemma ForgedDatagramRedirects(f: Cipher, k: Key, c: Config, b: Buffer, client: Endpoint, ws: seq<Wakeup>,
                                forged: Arriving, raw: Bytes, draw: Draw)
    requires Tunnel.Valid(c) && AllGood(ServerSide, c, ws) && InRange(draw)
    ensures AllGood(ServerSide, c, ws + [FromWire(forged)] + [TunPacket(raw, draw)])
    ensures WireOf(f, k, ServerSide, c, b, client, ws + [FromWire(forged)] + [TunPacket(raw, draw)])
            == WireOf(f, k, ServerSide, c, b, client, ws)
               + SendsFor(f, k, ServerSide, c, TunAtEnd(f, k, ServerSide, c, b, ws + [FromWire(forged)]), forged.from,
                          TunPacket(raw, draw))
  {
    AnswersLastSource(f, k, ServerSide, c, b, client, ws, FromWire(forged));
    LastSourceOf(ws, client, forged);
    AnswersLastSource(f, k, ServerSide, c, b, client, ws + [FromWire(forged)], TunPacket(raw, draw));
  }

  lemma {:induction false} LastSourceOf(ws: seq<Wakeup>, ep: Endpoint, last: Arriving)
    ensures LastSource(ServerSide, ep, ws + [FromWire(last)]) == last.from
    decreases |ws|
  {
    if ws == [] {
      assert ws + [FromWire(last)] == [FromWire(last)];
    } else {
      assert (ws + [FromWire(last)])[0] == ws[0] && (ws + [FromWire(last)])[1..] == ws[1..] + [FromWire(last)];
      LastSourceOf(ws[1..], Target(ServerSide, ep, ws[0]), last);
    }
  }

  /** The datagrams of a run that reach one endpoint. */
  function Reaching(ep: Endpoint, wire: seq<Outbound>): seq<Bytes> {
    if wire == [] then []
    else (if wire[0].to == ep then [wire[0].datagram] else []) + Reaching(ep, wire[1..])
  }

  lemma {:induction false} AllReach(ep: Endpoint, wire: seq<Outbound>)
    requires AllTo(ep, wire)
    ensures Reaching(ep, wire) == DatagramsOf(wire)
    decreases |wire|
  {
    if wire != [] {
      AllReach(ep, wire[1..]);
    }
  }

  lemma {:induction false} ArrivalsFrom(ep: Endpoint, ws: seq<Wakeup>)
    requires forall i | 0 <= i < |Arrivals(ws)| :: Arrivals(ws)[i].from == ep
    ensures forall i | 0 <= i < |ws| && ws[i].FromWire? :: ws[i].arriving.from == ep
    decreases |ws|
  {
    if ws != [] {
      assert forall i | 0 <= i < |Arrivals(ws[1..])| ::
          Arrivals(ws[1..])[i] == Arrivals(ws)[i + |Arrivals(ws)| - |Arrivals(ws[1..])|];
      ArrivalsFrom(ep, ws[1..]);
      forall i | 0 <= i < |ws| && ws[i].FromWire? ensures ws[i].arriving.from == ep {
        if i == 0 {
          assert Arrivals(ws)[0] == ws[0].arriving;
        } else {
          assert ws[i] == ws[1..][i - 1];
        }
      }
    }
  }

  /**
   Both directions at once: a client run and a server run, each with its two loops interleaved in
   any way, joined by lossless ordered channels; datagrams from elsewhere may reach the client at any time.
   The client's tun device is written exactly what the server's filter takes, in order; the server's exactly
   what the client's filter takes and the server's passes, which with IPv6 off is all of it.
  */
  lemma FullDuplex(f: Cipher, k: Key, c: Config, client: Endpoint, server: Endpoint,
                   ctun: Buffer, cconn: Buffer, cws: seq<Wakeup>, stun: Buffer, sconn: Buffer, sws: seq<Wakeup>)
    requires Lawful(f) && Tunnel.Valid(c)
    requires AllGood(ClientSide, c, cws) && IpPackets(ClientSide, c, Raws(cws))
    requires AllGood(ServerSide, c, sws) && IpPackets(ServerSide, c, Raws(sws))
    requires forall i | 0 <= i < |Arrivals(sws)| :: Arrivals(sws)[i].from == client
    requires Contents(Arrivals(sws)) == Reaching(server, WireOf(f, k, ClientSide, c, ctun, server, cws))
    requires FromServer(server, Arrivals(cws)) == Reaching(client, WireOf(f, k, ServerSide, c, stun, client, sws))
    ensures var taken := Filter(ClientSide, c, PacketsOf(ClientSide, c, Raws(cws)));
            && Written(f, k, c, sconn, Contents(Arrivals(sws))) == PassFilter(c, taken)
            && (!c.ipv6 ==> PassFilter(c, taken) == taken)
    ensures ClientWritten(f, k, c, server, cconn, Arrivals(cws))
            == FramedAll(c, Filter(ServerSide, c, PacketsOf(ServerSide, c, Raws(sws))))
  {
    hide WireOf, Tunneled, Written, ClientWritten, Filter, Raws, Arrivals;
    AllToPeer(f, k, ClientSide, c, ctun, server, cws);
    AllReach(server, WireOf(f, k, ClientSide, c, ctun, server, cws));
    WireCarriesTunneled(f, k, ClientSide, c, ctun, server, cws);
    EndToEndUdp(f, k, c, ctun, sconn, Raws(cws), Draws(cws));
    NothingLostIff(f, k, c, ctun, sconn, Raws(cws), Draws(cws));
    ArrivalsFrom(client, sws);
    AllToPeer(f, k, ServerSide, c, stun, client, sws);
    AllReach(client, WireOf(f, k, ServerSide, c, stun, client, sws));
    WireCarriesTunneled(f, k, ServerSide, c, stun, client, sws);
    ReversePath(f, k, c, server, stun, cconn, Raws(sws), Draws(sws), Arrivals(cws));
  }

  // ----- the loops themselves -----

  lemma {:induction false} RunStep(f: Cipher, k: Key, side: Side, c: Config, b: Buffer, ep: Endpoint,
      ws: seq<Wakeup>, i: nat)
    requires Tunnel.Valid(c) && AllGood(side, c, ws) && i < |ws|
    ensures Good(side, c, ws[i]) && AllGood(side, c, ws[i..]) && AllGood(side, c, ws[i + 1..])
    ensures WireOf(f, k, side, c, b, ep, ws[i..])
            == SendsFor(f, k, side, c, b, ep, ws[i])
               + WireOf(f, k, side, c, TunAfter(f, k, side, c, b, ws[i]), Target(side, ep, ws[i]), ws[i + 1..])
  {
    assert ws[i..][0] == ws[i] && ws[i..][1..] == ws[i + 1..];
  }

  /** The same, behind what has been sent so far; a datagram that comes in sends nothing. */
  lemma RunStepAppended(f: Cipher, k: Key, side: Side, c: Config, b: Buffer, ep: Endpoint, ws: seq<Wakeup>, i: nat,
                        wire: seq<Outbound>)
    requires Tunnel.Valid(c) && AllGood(side, c, ws) && i < |ws| && Good(side, c, ws[i])
    requires AllGood(side, c, ws[i..]) && AllGood(side, c, ws[i + 1..])
    ensures var rest := WireOf(f, k, side, c, TunAfter(f, k, side, c, b, ws[i]), Target(side, ep, ws[i]), ws[i + 1..]);
            && wire + WireOf(f, k, side, c, b, ep, ws[i..]) == (wire + SendsFor(f, k, side, c, b, ep, ws[i])) + rest
            && (ws[i].FromWire? ==> wire + SendsFor(f, k, side, c, b, ep, ws[i]) == wire)
  {
    hide WireOf, TunLeaves, Seals, FrameOf;
    RunStep(f, k, side, c, b, ep, ws, i);
  }

  lemma RunEnds(f: Cipher, k: Key, side: Side, c: Config, b: Buffer, ep: Endpoint)
    requires Tunnel.Valid(c)
    ensures WireOf(f, k, side, c, b, ep, []) == []
  {
  }

  lemma ServerEnds(f: Cipher, k: Key, c: Config, b: Buffer)
    requires Tunnel.Valid(c)
    ensures Written(f, k, c, b, Contents(Arrivals([]))) == []
  {
  }

  lemma ServerStep(f: Cipher, k: Key, c: Config, b: Buffer, ws: seq<Wakeup>, i: nat)
    requires Tunnel.Valid(c) && i < |ws|
    ensures Written(f, k, c, b, Contents(Arrivals(ws[i..])))
            == match ws[i]
               case TunPacket(_, _) => Written(f, k, c, b, Contents(Arrivals(ws[i + 1..])))
               case FromWire(a) =>
                 var b1 := Landed(b, a.datagram, c.serverMtu + SIZE);
                 Accepted(f, k, c, b1) + Written(f, k, c, Processed(f, k, b1), Contents(Arrivals(ws[i + 1..])))
  {
    hide Accepted, Processed, Landed;
    assert ws[i..][0] == ws[i] && ws[i..][1..] == ws[i + 1..];
    var rest := Arrivals(ws[i + 1..]);
    if ws[i].FromWire? {
      assert Arrivals(ws[i..]) == [ws[i].arriving] + rest;
      assert Contents(Arrivals(ws[i..])) == [ws[i].arriving.datagram] + Contents(rest);
    } else {
      assert Arrivals(ws[i..]) == rest;
    }
  }

  lemma ClientStep(f: Cipher, k: Key, c: Config, server: Endpoint, b: Buffer, ws: seq<Wakeup>, i: nat)
    requires Tunnel.Valid(c) && i < |ws|
    ensures ClientWritten(f, k, c, server, b, Arrivals(ws[i..]))
            == match ws[i]
               case TunPacket(_, _) => ClientWritten(f, k, c, server, b, Arrivals(ws[i + 1..]))
               case FromWire(a) =>
                 var b1 := Landed(b, a.datagram, c.clientMtu + SIZE);
                 if a.from != server then ClientWritten(f, k, c, server, b1, Arrivals(ws[i + 1..]))
                 else
                   ClientWrites(f, k, c, b1)
                   + ClientWritten(f, k, c, server, ClientLeaves(f, k, c, b1), Arrivals(ws[i + 1..]))
  {
    hide ClientWrites, ClientLeaves, Landed;
    assert ws[i..][0] == ws[i] && ws[i..][1..] == ws[i + 1..];
    var rest := Arrivals(ws[i + 1..]);
    if ws[i].FromWire? {
      assert Arrivals(ws[i..]) == [ws[i].arriving] + rest;
    } else {
      assert Arrivals(ws[i..]) == rest;
    }
  }

  class Server {
    const config: Config
    const connection: UDPConnection

    ghost predicate Valid()
    {
      Tunnel.Valid(config) && connection.Valid()
    }

    constructor (ops: Cipher, connKey: Bytes, config: Config)
      requires Tunnel.Valid(config)
      ensures Valid() && fresh(connection) && fresh(connection.tunBuffer) && fresh(connection.connBuffer)
      ensures connection.Ops() == ops && connection.Key() == KeyOf(connKey) && this.config == config
    {
      this.config := config;
      connection := new UDPConnection(ops, connKey);
    }

    /** One turn of the loop from the tun device to the client. */
    method OnTunRead(raw: Bytes, draw: Draw) returns (sent: seq<Outbound>)
      requires Valid() && InRange(draw)
      modifies connection.tunBuffer, connection.protocol.encryptedData
      ensures sent == SendsFor(connection.Ops(), connection.Key(), ServerSide, config, old(connection.tunBuffer[..]),
                               connection.lastRecvEp, TunPacket(raw, draw))
      ensures connection.tunBuffer[..] == TunLeaves(connection.Ops(), connection.Key(), ServerSide, config,
                                                    old(connection.tunBuffer[..]), raw, draw)
    {
      hide FrameOf;
      var packet := TunRead(ServerSide, config, raw);
      Write(connection.tunBuffer, SIZE, packet);
      if !Takes(ServerSide, config, connection.tunBuffer[SIZE..]) {
        return [];
      }
      var datagram, to := connection.SendTo(|packet|, draw);
      sent := [Outbound(to, datagram)];
    }

    /** One turn of the loop from the client to the tun device. */
    method OnDatagram(arriving: Arriving) returns (written: seq<Bytes>)
      requires Valid()
      modifies connection`lastRecvEp, connection.connBuffer, connection.protocol.decryptedData
      ensures connection.lastRecvEp == arriving.from
      ensures var f, k := connection.Ops(), connection.Key();
              var b := Landed(old(connection.connBuffer[..]), arriving.datagram, config.serverMtu + SIZE);
              && written == Accepted(f, k, config, b)
              && connection.connBuffer[..] == Processed(f, k, b)
    {
      hide Processed, OpenBuffer, Landed;
      var bytesRead := connection.ReceiveFrom(arriving.datagram, arriving.from, config.serverMtu + SIZE);
      if bytesRead == 0 {
        return [];
      }
      assert connection.connBuffer[..][SIZE..] == connection.connBuffer[SIZE..];
      if !Passes(config, connection.connBuffer[SIZE..]) {
        return [];
      }
      written := [connection.connBuffer[SIZE..SIZE + bytesRead]];
    }

    /** The two loops of Run, their turns interleaved in any order. */
    method Run(ws: seq<Wakeup>) returns (wire: seq<Outbound>, written: seq<Bytes>)
      requires Valid() && AllGood(ServerSide, config, ws)
      modifies connection`lastRecvEp, connection.tunBuffer, connection.connBuffer
      modifies connection.protocol.encryptedData, connection.protocol.decryptedData
      ensures wire == WireOf(connection.Ops(), connection.Key(), ServerSide, config, old(connection.tunBuffer[..]),
                             old(connection.lastRecvEp), ws)
      ensures written == Written(connection.Ops(), connection.Key(), config, old(connection.connBuffer[..]),
                                 Contents(Arrivals(ws)))
    {
      hide WireOf, Written, TunLeaves, Seals, Accepted, Processed, Landed, Contents, Arrivals, FrameOf;
      assert ws[0..] == ws;
      wire, written := [], [];
      ghost var f, k := connection.Ops(), connection.Key();
      for i := 0 to |ws|
        invariant connection.Ops() == f && connection.Key() == k
        invariant AllGood(ServerSide, config, ws[i..])
        invariant wire + WireOf(f, k, ServerSide, config, connection.tunBuffer[..], connection.lastRecvEp, ws[i..])
                  == WireOf(f, k, ServerSide, config, old(connection.tunBuffer[..]), old(connection.lastRecvEp), ws)
        invariant written + Written(f, k, config, connection.connBuffer[..], Contents(Arrivals(ws[i..])))
                  == Written(f, k, config, old(connection.connBuffer[..]), Contents(Arrivals(ws)))
      {
        RunStep(f, k, ServerSide, config, connection.tunBuffer[..], connection.lastRecvEp, ws, i);
        ServerStep(f, k, config, connection.connBuffer[..], ws, i);
        ghost var tun, ep := connection.tunBuffer[..], connection.lastRecvEp;
        ghost var after, next := TunAfter(f, k, ServerSide, config, tun, ws[i]), Target(ServerSide, ep, ws[i]);
        ghost var rest := WireOf(f, k, ServerSide, config, after, next, ws[i + 1..]);
        assert wire + SendsFor(f, k, ServerSide, config, tun, ep, ws[i]) + rest
               == wire + (SendsFor(f, k, ServerSide, config, tun, ep, ws[i]) + rest);
        match ws[i]
        case TunPacket(raw, draw) =>
          var sent := OnTunRead(raw, draw);
          wire := wire + sent;
        case FromWire(arriving) =>
          var packets := OnDatagram(arriving);
          written := written + packets;
          assert SendsFor(f, k, ServerSide, config, tun, ep, ws[i]) == [] && wire + [] == wire;
      }
      RunEnds(f, k, ServerSide, config, connection.tunBuffer[..], connection.lastRecvEp);
      ServerEnds(f, k, config, connection.connBuffer[..]);
      assert ws[|ws|..] == [];
    }
  }

  lemma ClientEnds(f: Cipher, k: Key, c: Config, server: Endpoint, b: Buffer)
    requires Tunnel.Valid(c)
    ensures ClientWritten(f, k, c, server, b, Arrivals([])) == []
  {
  }

  class Client {
    const config: Config
    const connection: UDPConnection

    ghost predicate Valid()
    {
      Tunnel.Valid(config) && connection.Valid()
    }

    constructor (ops: Cipher, connKey: Bytes, config: Config, server: Endpoint)
      requires Tunnel.Valid(config)
      ensures Valid() && fresh(connection) && fresh(connection.tunBuffer) && fresh(connection.connBuffer)
      ensures connection.Ops() == ops && connection.Key() == KeyOf(connKey) && this.config == config
      ensures connection.remoteSendEp == server
    {
      this.config := config;
      connection := new UDPConnection(ops, connKey);
      new;
      connection.Connect(server);
    }

    /** One turn of the loop from the tun device to the server. */
    method OnTunRead(raw: Bytes, draw: Draw) returns (sent: seq<Outbound>)
      requires Valid() && InRange(draw) && config.packetHl <= |raw|
      modifies connection.tunBuffer, connection.protocol.encryptedData
      ensures sent == SendsFor(connection.Ops(), connection.Key(), ClientSide, config, old(connection.tunBuffer[..]),
                               connection.remoteSendEp, TunPacket(raw, draw))
      ensures connection.tunBuffer[..] == TunLeaves(connection.Ops(), connection.Key(), ClientSide, config,
                                                    old(connection.tunBuffer[..]), raw, draw)
    {
      hide FrameOf;
      var packet := TunRead(ClientSide, config, raw);
      Write(connection.tunBuffer, SIZE - config.packetHl, packet);
      if !Takes(ClientSide, config, connection.tunBuffer[SIZE..]) {
        return [];
      }
      var datagram, to := connection.Send(|packet| - config.packetHl, draw);
      sent := [Outbound(to, datagram)];
    }

    /** One turn of the loop from the server to the tun device. */
    method OnDatagram(arriving: Arriving) returns (written: seq<Bytes>)
      requires Valid()
      modifies connection`lastRecvEp, connection.connBuffer, connection.protocol.decryptedData
      ensures var f, k := connection.Ops(), connection.Key();
              var b := Landed(old(connection.connBuffer[..]), arriving.datagram, config.clientMtu + SIZE);
              if arriving.from != connection.remoteSendEp then written == [] && connection.connBuffer[..] == b
              else
                written == ClientWrites(f, k, config, b) && connection.connBuffer[..] == ClientLeaves(f, k, config, b)
    {
      hide Processed, OpenBuffer, Landed;
      var bytesRead := connection.Receive(arriving.datagram, arriving.from, config.clientMtu + SIZE);
      if bytesRead == 0 || bytesRead == -1 {
        return [];
      }
      assert connection.connBuffer[..][SIZE..] == connection.connBuffer[SIZE..];
      var version := Version(connection.connBuffer[SIZE..]);
      if config.packetHl == 4 && (version == 4 || version == 6) {
        Write(connection.connBuffer, SIZE - 4, Family(version));
      }
      written := [connection.connBuffer[SIZE - config.packetHl..SIZE + bytesRead]];
    }

    /** The two loops of Reconnect, their turns interleaved in any order. */
    method Run(ws: seq<Wakeup>) returns (wire: seq<Outbound>, written: seq<Bytes>)
      requires Valid() && AllGood(ClientSide, config, ws)
      modifies connection`lastRecvEp, connection.tunBuffer, connection.connBuffer
      modifies connection.protocol.encryptedData, connection.protocol.decryptedData
      ensures wire == WireOf(connection.Ops(), connection.Key(), ClientSide, config, old(connection.tunBuffer[..]),
                             connection.remoteSendEp, ws)
      ensures written == ClientWritten(connection.Ops(), connection.Key(), config, connection.remoteSendEp,
                                       old(connection.connBuffer[..]), Arrivals(ws))
    {
      hide WireOf, ClientWritten, TunLeaves, Seals, ClientWrites, ClientLeaves, Landed, Arrivals, FrameOf, SendsFor;
      assert ws[0..] == ws;
      wire, written := [], [];
      ghost var f, k := connection.Ops(), connection.Key();
      ghost var server := connection.remoteSendEp;
      for i := 0 to |ws|
        invariant connection.Ops() == f && connection.Key() == k
        invariant AllGood(ClientSide, config, ws[i..])
        invariant wire + WireOf(f, k, ClientSide, config, connection.tunBuffer[..], server, ws[i..])
                  == WireOf(f, k, ClientSide, config, old(connection.tunBuffer[..]), server, ws)
        invariant written + ClientWritten(f, k, config, server, connection.connBuffer[..], Arrivals(ws[i..]))
                  == ClientWritten(f, k, config, server, old(connection.connBuffer[..]), Arrivals(ws))
      {
        ghost var tun := connection.tunBuffer[..];
        RunStep(f, k, ClientSide, config, tun, server, ws, i);
        ClientStep(f, k, config, server, connection.connBuffer[..], ws, i);
        RunStepAppended(f, k, ClientSide, config, tun, server, ws, i, wire);
        match ws[i]
        case TunPacket(raw, draw) =>
          var sent := OnTunRead(raw, draw);
          wire := wire + sent;
        case FromWire(arriving) =>
          var packets := OnDatagram(arriving);
          written := written + packets;
      }
      RunEnds(f, k, ClientSide, config, connection.tunBuffer[..], server);
      ClientEnds(f, k, config, server, connection.connBuffer[..]);
      assert ws[|ws|..] == [];
    }
  }
}
