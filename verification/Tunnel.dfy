/**
 The forwarding loops of Client.cpp and Server.cpp: packets are read from one tun device, filtered,
 sealed, carried, opened, filtered again and written to the other tun device.
 */
module Tunnel {
  import opened ByteStrings
  import opened Aead
  import opened ProtocolHeader
  import opened Frames
  import opened Protocols
  import opened Streams
  import opened Udp

  datatype Side = ClientSide | ServerSide

  /** The configuration both ends share, and TUN_PACKET_HL of the client's platform. */
  datatype Config = Config(clientIp: Bytes, clientIp6: Bytes, ipv6: bool, clientMtu: nat, serverMtu: nat, packetHl: nat)

  ghost predicate Valid(c: Config) {
    && |c.clientIp| == 4 && |c.clientIp6| == 16
    && c.clientMtu <= MAX_BUFFSIZE && c.serverMtu <= MAX_BUFFSIZE
    && (c.packetHl == 0 || c.packetHl == 4)
  }

  function Mtu(side: Side, c: Config): nat {
    if side == ClientSide then c.clientMtu else c.serverMtu
  }

  /** Bytes the tun device puts before a packet. */
  function Prefix(side: Side, c: Config): nat {
    if side == ClientSide then c.packetHl else 0
  }

  /** ip_v, the high half of the first byte. */
  function Version(a: Bytes): nat
    requires 0 < |a|
  {
    a[0] as nat / 16
  }

  /** The filter before sealing: source address at the client, destination address at the server. */
  predicate Takes(side: Side, c: Config, a: Bytes)
    requires 20 <= |a|
  {
    match side
    case ClientSide => (Version(a) == 4 && a[12..16] == c.clientIp) || (Version(a) == 6 && c.ipv6)
    case ServerSide =>
      || (Version(a) == 4 && a[16..20] == c.clientIp)
      || (Version(a) == 6 && 40 <= |a| && a[24..40] == c.clientIp6)
  }

  /** The server's filter after opening. For IPv6 it compares the destination address. */
  predicate Passes(c: Config, a: Bytes)
    requires 20 <= |a|
  {
    || (Version(a) == 4 && a[12..16] == c.clientIp)
    || (Version(a) == 6 && 40 <= |a| && a[24..40] == c.clientIp6)
  }

  /** A packet with a whole IP header, no longer than either MTU. */
  ghost predicate IpPacket(c: Config, p: Bytes) {
    20 <= |p| && (Version(p) == 6 ==> 40 <= |p|) && |p| <= c.clientMtu && |p| <= c.serverMtu
  }

  /** A filter looks at the packet's own header only, whatever lies behind the packet in the buffer. */
  lemma FiltersSeeThePacket(side: Side, c: Config, p: Bytes, area: Bytes)
    requires IpPacket(c, p) && |p| <= |area| && area[..|p|] == p
    ensures Takes(side, c, area) == Takes(side, c, p)
    ensures Passes(c, area) == Passes(c, p)
  {
    assert area[0] == area[..|p|][0];
    assert area[12..16] == area[..|p|][12..16] && area[16..20] == area[..|p|][16..20];
    if 40 <= |p| {
      assert area[24..40] == area[..|p|][24..40];
    }
  }

  /** What the client takes, on the packet's own bytes: IPv4 from its tun address, or IPv6 if that is on. */
  lemma ClientTakes(c: Config, p: Bytes)
    requires Valid(c) && IpPacket(c, p)
    ensures Takes(ClientSide, c, p)
            <==> || (64 <= p[0] < 80 && forall i | 0 <= i < 4 :: p[12 + i] == c.clientIp[i])
                 || (96 <= p[0] < 112 && c.ipv6)
  {
    SameAt(p, 12, c.clientIp);
  }

  /** What the server takes for the client: IPv4 or IPv6 to the client's tun address. */
  lemma ServerTakes(c: Config, p: Bytes)
    requires Valid(c) && IpPacket(c, p)
    ensures Takes(ServerSide, c, p)
            <==> || (64 <= p[0] < 80 && forall i | 0 <= i < 4 :: p[16 + i] == c.clientIp[i])
                 || (96 <= p[0] < 112 && forall i | 0 <= i < 16 :: p[24 + i] == c.clientIp6[i])
  {
    SameAt(p, 16, c.clientIp);
    if 40 <= |p| {
      SameAt(p, 24, c.clientIp6);
    }
  }

  /** What the server writes to its tun device: IPv4 from the client's tun address, or IPv6 to it. */
  lemma ServerPasses(c: Config, p: Bytes)
    requires Valid(c) && IpPacket(c, p)
    ensures Passing(c, p)
            <==> || (64 <= p[0] < 80 && forall i | 0 <= i < 4 :: p[12 + i] == c.clientIp[i])
                 || (96 <= p[0] < 112 && forall i | 0 <= i < 16 :: p[24 + i] == c.clientIp6[i])
  {
    SameAt(p, 12, c.clientIp);
    if 40 <= |p| {
      SameAt(p, 24, c.clientIp6);
    }
  }

  lemma SameAt(p: Bytes, at: nat, address: Bytes)
    requires at + |address| <= |p|
    ensures p[at..at + |address|] == address <==> forall i | 0 <= i < |address| :: p[at + i] == address[i]
  {
    var part := p[at..at + |address|];
    assert forall i | 0 <= i < |address| :: part[i] == p[at + i];
  }

  /** With IPv6 off, what the client takes, the server passes. */
  lemma TakenPass(c: Config, p: Bytes)
    requires !c.ipv6 && 20 <= |p| && Takes(ClientSide, c, p)
    ensures Version(p) == 4 && Passes(c, p)
  {
  }

  function Filter(side: Side, c: Config, packets: seq<Bytes>): (r: seq<Bytes>)
    requires forall i | 0 <= i < |packets| :: 20 <= |packets[i]|
    ensures forall i | 0 <= i < |r| :: 20 <= |r[i]| && Takes(side, c, r[i]) && r[i] in packets
  {
    if packets == [] then []
    else (if Takes(side, c, packets[0]) then [packets[0]] else []) + Filter(side, c, packets[1..])
  }

  lemma NothingFiltered(side: Side, c: Config)
    ensures Filter(side, c, []) == []
  {
  }

  lemma FilterNext(side: Side, c: Config, a: seq<Bytes>)
    requires a != [] && forall i | 0 <= i < |a| :: 20 <= |a[i]|
    ensures Filter(side, c, a) == (if Takes(side, c, a[0]) then [a[0]] else []) + Filter(side, c, a[1..])
  {
    hide Takes;
  }

  /** A filter acts on each packet by itself, and keeps the order. */
  lemma {:induction false} FilterAppend(side: Side, c: Config, a: seq<Bytes>, b: seq<Bytes>)
    requires (forall i | 0 <= i < |a| :: 20 <= |a[i]|) && forall i | 0 <= i < |b| :: 20 <= |b[i]|
    ensures Filter(side, c, a + b) == Filter(side, c, a) + Filter(side, c, b)
    decreases |a|
  {
    hide Takes, Filter;
    if a == [] {
      assert a + b == b;
      NothingFiltered(side, c);
    } else {
      assert (a + b)[0] == a[0] && (a + b)[1..] == a[1..] + b;
      FilterNext(side, c, a);
      FilterNext(side, c, a + b);
      FilterAppend(side, c, a[1..], b);
    }
  }

  lemma FilterOne(side: Side, c: Config, p: Bytes)
    requires 20 <= |p|
    ensures Filter(side, c, [p]) == if Takes(side, c, p) then [p] else []
  {
    assert [p][1..] == [];
  }

  // ----- from a tun device to the wire -----

  /** What one tun read brings: no more than the buffer given to it. */
  function TunRead(side: Side, c: Config, raw: Bytes): Bytes {
    raw[..Min(|raw|, Mtu(side, c) + Prefix(side, c))]
  }

  /** A read brings what there is, up to that end's own MTU and what its device puts before a packet. */
  lemma TunReadLength(side: Side, c: Config, raw: Bytes)
    ensures TunRead(side, c, raw) <= raw
    ensures |TunRead(ClientSide, c, raw)| == Min(|raw|, c.clientMtu + c.packetHl)
    ensures |TunRead(ServerSide, c, raw)| == Min(|raw|, c.serverMtu)
  {
  }

  /** The tun buffer after a read: the packet starts at offset 52, its prefix before it. */
  function AfterRead(side: Side, c: Config, b: Buffer, raw: Bytes): Buffer
    requires Mtu(side, c) <= MAX_BUFFSIZE && Prefix(side, c) <= SIZE
  {
    Splice(b, SIZE - Prefix(side, c), TunRead(side, c, raw))
  }

  /** The tun buffer after the frame was sealed in it. */
  function AfterSend(f: Cipher, k: Key, b: Buffer, x: Sent): Buffer
    requires Sendable(x)
  {
    SizeWindow(f, k, x);
    FrameOf(f, k, x) + b[SIZE + BodySize(x)..]
  }

  ghost predicate Readable(side: Side, c: Config, raws: seq<Bytes>, draws: seq<Draw>) {
    && |raws| == |draws|
    && (forall i | 0 <= i < |raws| :: Prefix(side, c) <= |raws[i]|)
    && (forall i | 0 <= i < |draws| :: InRange(draws[i]))
  }

  /** What a sending loop seals for one packet read, if the filter takes it: the filter sees the whole tun
      buffer, stale bytes behind a short packet included. */
  ghost function Seals(side: Side, c: Config, b: Buffer, raw: Bytes, draw: Draw): (xs: seq<Sent>)
    requires Valid(c) && Prefix(side, c) <= |raw| && InRange(draw)
    ensures AllSendable(xs)
  {
    var b1 := AfterRead(side, c, b, raw);
    if Takes(side, c, b1[SIZE..]) then [Outgoing(b1, |TunRead(side, c, raw)| - Prefix(side, c), draw)] else []
  }

  /** The tun buffer after that. */
  ghost function TunLeaves(f: Cipher, k: Key, side: Side, c: Config, b: Buffer, raw: Bytes, draw: Draw): Buffer
    requires Valid(c) && Prefix(side, c) <= |raw| && InRange(draw)
  {
    var b1 := AfterRead(side, c, b, raw);
    var xs := Seals(side, c, b, raw, draw);
    if xs == [] then b1 else AfterSend(f, k, b1, xs[0])
  }

  /** What a sending loop seals for packets read one after the other. */
  ghost function Tunneled(f: Cipher, k: Key, side: Side, c: Config, b: Buffer, raws: seq<Bytes>,
      draws: seq<Draw>): (xs: seq<Sent>)
    requires Valid(c) && Readable(side, c, raws, draws)
    ensures AllSendable(xs)
    decreases |raws|
  {
    if raws == [] then []
    else
      Seals(side, c, b, raws[0], draws[0])
      + Tunneled(f, k, side, c, TunLeaves(f, k, side, c, b, raws[0], draws[0]), raws[1..], draws[1..])
  }

  /** The packets behind the tun device's prefixes. */
  function PacketsOf(side: Side, c: Config, raws: seq<Bytes>): (ps: seq<Bytes>)
    requires forall i | 0 <= i < |raws| :: Prefix(side, c) <= |raws[i]|
    ensures |ps| == |raws|
  {
    seq(|raws|, i requires 0 <= i < |raws| => raws[i][Prefix(side, c)..])
  }

  ghost predicate IpPackets(side: Side, c: Config, raws: seq<Bytes>) {
    forall i | 0 <= i < |raws| :: Prefix(side, c) <= |raws[i]| && IpPacket(c, raws[i][Prefix(side, c)..])
  }

  lemma ReadsThePacket(side: Side, c: Config, b: Buffer, raw: Bytes, draw: Draw)
    requires Valid(c) && Prefix(side, c) <= |raw| && IpPacket(c, raw[Prefix(side, c)..]) && InRange(draw)
    ensures var p := raw[Prefix(side, c)..];
            Seals(side, c, b, raw, draw) == if Takes(side, c, p) then [Sent(draw, p)] else []
  {
    var p := raw[Prefix(side, c)..];
    var b1 := AfterRead(side, c, b, raw);
    assert TunRead(side, c, raw) == raw;
    assert b1[SIZE - Prefix(side, c)..SIZE - Prefix(side, c) + |raw|] == raw;
    assert b1[SIZE..SIZE + |p|] == raw[Prefix(side, c)..];
    assert b1[SIZE..][..|p|] == p;
    FiltersSeeThePacket(side, c, p, b1[SIZE..]);
  }

  lemma PacketsStep(side: Side, c: Config, raws: seq<Bytes>)
    requires IpPackets(side, c, raws) && raws != []
    ensures IpPackets(side, c, raws[1..])
    ensures var ps := PacketsOf(side, c, raws);
            && (forall i | 0 <= i < |ps| :: 20 <= |ps[i]|)
            && ps[0] == raws[0][Prefix(side, c)..] && ps[1..] == PacketsOf(side, c, raws[1..])
  {
    hide Version;
  }

  /** What one tun read of an IP packet seals at the server, on the packet's own bytes. */
  lemma ServerSeals(c: Config, b: Buffer, p: Bytes, draw: Draw)
    requires Valid(c) && IpPacket(c, p) && InRange(draw)
    ensures Seals(ServerSide, c, b, p, draw)
            == if || (64 <= p[0] < 80 && forall i | 0 <= i < 4 :: p[16 + i] == c.clientIp[i])
                  || (96 <= p[0] < 112 && forall i | 0 <= i < 16 :: p[24 + i] == c.clientIp6[i])
               then [Sent(draw, p)] else []
  {
    assert p[0..] == p;
    hide Seals, Takes, Version, IpPacket;
    ReadsThePacket(ServerSide, c, b, p, draw);
    ServerTakes(c, p);
  }

  /** The same at the client, behind its device's prefix. */
  lemma ClientSeals(c: Config, b: Buffer, prefix: Bytes, p: Bytes, draw: Draw)
    requires Valid(c) && IpPacket(c, p) && InRange(draw) && |prefix| == c.packetHl
    ensures Seals(ClientSide, c, b, prefix + p, draw)
            == if || (64 <= p[0] < 80 && forall i | 0 <= i < 4 :: p[12 + i] == c.clientIp[i])
                  || (96 <= p[0] < 112 && c.ipv6)
               then [Sent(draw, p)] else []
  {
    assert (prefix + p)[c.packetHl..] == p;
    hide Seals, Takes, Version, IpPacket;
    ReadsThePacket(ClientSide, c, b, prefix + p, draw);
    ClientTakes(c, p);
  }

  /** An IPv4 packet of 20 bytes. */
  function Ipv4(source: Bytes, destination: Bytes): (p: Bytes)
    requires |source| == 4 && |destination| == 4
    ensures |p| == 20
  {
    [69] + Zeros(11) + source + destination
  }

  /** At each end a packet that is taken and one that is not: to the client and to somebody else at the server,
      from the client and from somebody else at the client; and at the server's tun device, from the network,
      one of the client's and one of somebody else's. */
  lemma TakenAndNot(c: Config, cb: Buffer, sb: Buffer, prefix: Bytes, other: Bytes, draw: Draw)
    requires Valid(c) && InRange(draw) && |prefix| == c.packetHl && 20 <= c.clientMtu && 20 <= c.serverMtu
    requires |other| == 4 && other != c.clientIp
    ensures Seals(ServerSide, c, sb, Ipv4(other, c.clientIp), draw) == [Sent(draw, Ipv4(other, c.clientIp))]
    ensures Seals(ServerSide, c, sb, Ipv4(c.clientIp, other), draw) == []
    ensures Seals(ClientSide, c, cb, prefix + Ipv4(c.clientIp, other), draw) == [Sent(draw, Ipv4(c.clientIp, other))]
    ensures Seals(ClientSide, c, cb, prefix + Ipv4(other, c.clientIp), draw) == []
    ensures Passing(c, Ipv4(c.clientIp, other)) && !Passing(c, Ipv4(other, c.clientIp))
  {
    var to, from := Ipv4(other, c.clientIp), Ipv4(c.clientIp, other);
    assert to[16..20] == c.clientIp && to[12..16] == other && from[16..20] == other && from[12..16] == c.clientIp;
    SameAt(to, 16, c.clientIp);
    SameAt(to, 12, c.clientIp);
    SameAt(from, 16, c.clientIp);
    SameAt(from, 12, c.clientIp);
    ServerPasses(c, to);
    ServerPasses(c, from);
    hide Seals, Ipv4, Passing;
    ServerSeals(c, sb, to, draw);
    ServerSeals(c, sb, from, draw);
    ClientSeals(c, cb, prefix, to, draw);
    ClientSeals(c, cb, prefix, from, draw);
  }

  /** On IP packets, the frames sealed carry exactly the packets that the filter takes, in order. */
  lemma {:induction false} TunneledPayloads(f: Cipher, k: Key, side: Side, c: Config, b: Buffer, raws: seq<Bytes>,
      draws: seq<Draw>)
    requires Valid(c) && Readable(side, c, raws, draws) && IpPackets(side, c, raws)
    ensures Payloads(Tunneled(f, k, side, c, b, raws, draws)) == Filter(side, c, PacketsOf(side, c, raws))
    decreases |raws|
  {
    if raws == [] { return; }
    hide Seals, TunLeaves, Takes, Prefix, PacketsOf, InRange;
    PacketsStep(side, c, raws);
    var ps, b1 := PacketsOf(side, c, raws), TunLeaves(f, k, side, c, b, raws[0], draws[0]);
    TunneledPayloads(f, k, side, c, b1, raws[1..], draws[1..]);
    ReadsThePacket(side, c, b, raws[0], draws[0]);
    hide IpPackets, IpPacket, Readable, Payloads;
    PayloadsAppend(Seals(side, c, b, raws[0], draws[0]), Tunneled(f, k, side, c, b1, raws[1..], draws[1..]));
    OnePayload(draws[0], ps[0]);
  }

  lemma PayloadsAppend(xs: seq<Sent>, ys: seq<Sent>)
    ensures Payloads(xs + ys) == Payloads(xs) + Payloads(ys)
  {
  }

  lemma OnePayload(draw: Draw, p: Bytes)
    ensures Payloads([Sent(draw, p)]) == [p] && Payloads([]) == []
  {
  }

  function Datagrams(f: Cipher, k: Key, xs: seq<Sent>): (ds: seq<Bytes>)
    requires AllSendable(xs)
    ensures |ds| == |xs|
  {
    seq(|xs|, i requires 0 <= i < |xs| => FrameOf(f, k, xs[i]))
  }

  // ----- from the wire to the server's tun device -----

  /** What the server does with one datagram: the packet to write, if any. */
  function Accepted(f: Cipher, k: Key, c: Config, b: Buffer): seq<Bytes> {
    match OpenBuffer(f, k, b)
    case None => []
    case Some(p) => if p != [] && Passes(c, Processed(f, k, b)[SIZE..]) then [p] else []
  }

  /** What the server writes to its tun device for datagrams that come in one after the other. */
  function Written(f: Cipher, k: Key, c: Config, b: Buffer, datagrams: seq<Bytes>): seq<Bytes>
    requires c.serverMtu <= MAX_BUFFSIZE
    decreases |datagrams|
  {
    if datagrams == [] then []
    else
      var b1 := Landed(b, datagrams[0], c.serverMtu + SIZE);
      Accepted(f, k, c, b1) + Written(f, k, c, Processed(f, k, b1), datagrams[1..])
  }

  /** One frame, landing over any stale bytes: its packet is written exactly when the server's filter passes it. */
  lemma AcceptsFrame(f: Cipher, k: Key, c: Config, b: Buffer, x: Sent)
    requires Valid(c) && Sendable(x) && Opens(f, k, x) && IpPacket(c, x.payload)
    ensures Accepted(f, k, c, Landed(b, FrameOf(f, k, x), c.serverMtu + SIZE))
            == if Passes(c, x.payload) then [x.payload] else []
  {
    hide FrameOf, Opens, Landed, OpenBuffer, Processed;
    SizeWindow(f, k, x);
    var b1 := Landed(b, FrameOf(f, k, x), c.serverMtu + SIZE);
    GenuineDatagramOpens(f, k, x, b, FrameOf(f, k, x), c.serverMtu + SIZE);
    AcceptedArea(f, k, b1);
    var area := Processed(f, k, b1)[SIZE..];
    assert area[..|x.payload|] == Processed(f, k, b1)[SIZE..SIZE + |x.payload|];
    FiltersSeeThePacket(ServerSide, c, x.payload, area);
  }

  /** The packets that the server's filter passes. */
  function PassFilter(c: Config, packets: seq<Bytes>): seq<Bytes> {
    if packets == [] then []
    else (if Passing(c, packets[0]) then [packets[0]] else []) + PassFilter(c, packets[1..])
  }

  predicate Passing(c: Config, p: Bytes) {
    20 <= |p| && Passes(c, p)
  }

  lemma {:induction false} PassesSome(c: Config, packets: seq<Bytes>)
    ensures |PassFilter(c, packets)| <= |packets|
    decreases |packets|
  {
    if packets != [] {
      PassesSome(c, packets[1..]);
    }
  }

  /** The server's filter loses nothing exactly when every packet passes. */
  lemma {:induction false} AllPassIff(c: Config, packets: seq<Bytes>)
    ensures PassFilter(c, packets) == packets <==> forall i | 0 <= i < |packets| :: Passing(c, packets[i])
    decreases |packets|
  {
    if packets != [] {
      AllPassIff(c, packets[1..]);
      PassesSome(c, packets[1..]);
      var rest := PassFilter(c, packets[1..]);
      if Passing(c, packets[0]) {
        assert PassFilter(c, packets)[1..] == rest;
        assert packets == [packets[0]] + packets[1..];
        assert forall i | 0 <= i < |packets| - 1 :: packets[1..][i] == packets[i + 1];
      } else {
        assert |PassFilter(c, packets)| < |packets|;
      }
    }
  }

  lemma DatagramsTail(f: Cipher, k: Key, xs: seq<Sent>)
    requires AllSendable(xs) && xs != []
    ensures Datagrams(f, k, xs)[0] == FrameOf(f, k, xs[0])
    ensures Datagrams(f, k, xs)[1..] == Datagrams(f, k, xs[1..])
  {
  }

  lemma PassFilterOne(c: Config, p: Bytes)
    ensures PassFilter(c, [p]) == if Passing(c, p) then [p] else []
  {
    assert [p][1..] == [];
  }

  /** One frame at the server, on its packet's own bytes: what is written. */
  lemma ServerWrites(f: Cipher, k: Key, c: Config, b: Buffer, x: Sent)
    requires Valid(c) && Sendable(x) && Opens(f, k, x) && IpPacket(c, x.payload)
    ensures var p := x.payload;
            Accepted(f, k, c, Landed(b, FrameOf(f, k, x), c.serverMtu + SIZE))
            == if || (64 <= p[0] < 80 && forall i | 0 <= i < 4 :: p[12 + i] == c.clientIp[i])
                  || (96 <= p[0] < 112 && forall i | 0 <= i < 16 :: p[24 + i] == c.clientIp6[i])
               then [p] else []
  {
    hide Accepted, Landed, FrameOf, Opens, Version;
    ServerPasses(c, x.payload);
    AcceptsFrame(f, k, c, b, x);
  }

  /** A frame with a packet of a foreign source opens, and is not written. */
  lemma ForeignSourceNotWritten(f: Cipher, k: Key, c: Config, b: Buffer, draw: Draw, other: Bytes, to: Bytes)
    requires Valid(c) && InRange(draw) && 20 <= c.clientMtu && 20 <= c.serverMtu
    requires |other| == 4 && |to| == 4 && other != c.clientIp && Opens(f, k, Sent(draw, Ipv4(other, to)))
    ensures Accepted(f, k, c, Landed(b, FrameOf(f, k, Sent(draw, Ipv4(other, to))), c.serverMtu + SIZE)) == []
  {
    var p := Ipv4(other, to);
    assert p[12..16] == other;
    SameAt(p, 12, c.clientIp);
    hide Accepted, Landed, FrameOf, Opens;
    ServerWrites(f, k, c, b, Sent(draw, p));
  }

  /** Frames that arrive one after the other: what is written is their packets, as far as they pass. */
  lemma {:induction false} WritesPassing(f: Cipher, k: Key, c: Config, b: Buffer, xs: seq<Sent>)
    requires Valid(c) && AllSendable(xs) && AllOpen(f, k, xs)
    requires forall i | 0 <= i < |xs| :: IpPacket(c, xs[i].payload)
    ensures Written(f, k, c, b, Datagrams(f, k, xs)) == PassFilter(c, Payloads(xs))
    decreases |xs|
  {
    hide Accepted, Landed, Processed, FrameOf, Passes, Opens, Datagrams, OpenBuffer;
    if xs != [] {
      DatagramsTail(f, k, xs);
      assert Sendable(xs[0]) && Opens(f, k, xs[0]);
      AcceptsFrame(f, k, c, b, xs[0]);
      var b1 := Landed(b, FrameOf(f, k, xs[0]), c.serverMtu + SIZE);
      WritesPassing(f, k, c, Processed(f, k, b1), xs[1..]);
      assert Payloads(xs)[1..] == Payloads(xs[1..]);
    }
  }

  lemma IpPacketsOf(side: Side, c: Config, raws: seq<Bytes>)
    requires IpPackets(side, c, raws)
    ensures forall i | 0 <= i < |raws| :: IpPacket(c, PacketsOf(side, c, raws)[i])
  {
  }

  ghost predicate AllTaken(side: Side, c: Config, xs: seq<Sent>) {
    forall i | 0 <= i < |xs| :: IpPacket(c, xs[i].payload) && Takes(side, c, xs[i].payload)
  }

  /** What an end tunnels is IP packets that its filter takes. */
  lemma TunneledTaken(f: Cipher, k: Key, side: Side, c: Config, b: Buffer, raws: seq<Bytes>, draws: seq<Draw>)
    requires Valid(c) && Readable(side, c, raws, draws) && IpPackets(side, c, raws)
    ensures AllTaken(side, c, Tunneled(f, k, side, c, b, raws, draws))
  {
    hide Tunneled, IpPackets, PacketsOf, Version;
    var xs, ps := Tunneled(f, k, side, c, b, raws, draws), PacketsOf(side, c, raws);
    TunneledPayloads(f, k, side, c, b, raws, draws);
    IpPacketsOf(side, c, raws);
    forall i | 0 <= i < |xs| ensures IpPacket(c, xs[i].payload) && Takes(side, c, xs[i].payload) {
      var p := Payloads(xs)[i];
      assert p == Filter(side, c, ps)[i] && p in ps && Takes(side, c, p);
    }
  }

  lemma AllLawfulOpen(f: Cipher, k: Key, xs: seq<Sent>)
    requires Lawful(f) && AllSendable(xs)
    ensures AllOpen(f, k, xs)
  {
    forall i | 0 <= i < |xs| ensures Opens(f, k, xs[i]) {
      LawfulOpens(f, k, xs[i]);
    }
  }

  /**
   End to end over UDP, a lossless ordered channel: whatever the two ends' buffers held and whatever is
   drawn, the packets written to the server's tun device are exactly the client's tun packets that its
   filter takes and the server's filter passes, in order.
  */
  lemma EndToEndUdp(f: Cipher, k: Key, c: Config, client: Buffer, server: Buffer, raws: seq<Bytes>, draws: seq<Draw>)
    requires Lawful(f) && Valid(c) && Readable(ClientSide, c, raws, draws) && IpPackets(ClientSide, c, raws)
    ensures Written(f, k, c, server, Datagrams(f, k, Tunneled(f, k, ClientSide, c, client, raws, draws)))
            == PassFilter(c, Filter(ClientSide, c, PacketsOf(ClientSide, c, raws)))
  {
    hide Tunneled, Opens, Written, Filter, PassFilter;
    TunneledPayloads(f, k, ClientSide, c, client, raws, draws);
    var xs := Tunneled(f, k, ClientSide, c, client, raws, draws);
    TunneledTaken(f, k, ClientSide, c, client, raws, draws);
    AllLawfulOpen(f, k, xs);
    WritesPassing(f, k, c, server, xs);
  }

  /** Nothing that the client takes is lost at the server exactly when all of it passes there, which with IPv6
      off it does; an IPv6 packet passes only if its destination is the client's own address. */
  lemma NothingLostIff(f: Cipher, k: Key, c: Config, client: Buffer, server: Buffer, raws: seq<Bytes>, draws: seq<Draw>)
    requires Lawful(f) && Valid(c) && Readable(ClientSide, c, raws, draws) && IpPackets(ClientSide, c, raws)
    ensures var taken := Filter(ClientSide, c, PacketsOf(ClientSide, c, raws));
            && (Written(f, k, c, server, Datagrams(f, k, Tunneled(f, k, ClientSide, c, client, raws, draws))) == taken
                <==> forall i | 0 <= i < |taken| :: Version(taken[i]) == 6 ==> Passing(c, taken[i]))
            && (!c.ipv6 ==> forall i | 0 <= i < |taken| :: Version(taken[i]) == 4)
  {
    hide Tunneled, Written, Datagrams;
    var taken := Filter(ClientSide, c, PacketsOf(ClientSide, c, raws));
    EndToEndUdp(f, k, c, client, server, raws, draws);
    AllPassIff(c, taken);
    assert forall i | 0 <= i < |taken| :: Takes(ClientSide, c, taken[i]);
  }

  /** An IPv6 packet that the client sends to anybody but itself: taken, sealed, opened, and not written. */
  lemma Ipv6PacketIsLost(f: Cipher, k: Key, c: Config, server: Buffer, x: Sent)
    requires Valid(c) && c.ipv6 && Sendable(x) && Opens(f, k, x) && IpPacket(c, x.payload)
    requires Version(x.payload) == 6 && x.payload[24..40] != c.clientIp6
    ensures Takes(ClientSide, c, x.payload)
    ensures Written(f, k, c, server, [FrameOf(f, k, x)]) == []
  {
    var xs := [x];
    assert Datagrams(f, k, xs) == [FrameOf(f, k, x)] && Payloads(xs) == [x.payload];
    hide Written, FrameOf, Opens;
    assert AllOpen(f, k, xs);
    WritesPassing(f, k, c, server, xs);
    assert PassFilter(c, Payloads(xs)) == [];
  }

  /** One such packet, of 40 bytes, under the stand-in cipher. */
  lemma Ipv6Input(f: Cipher, k: Key, c: Config, server: Buffer) returns (x: Sent)
    requires f == STAND_IN && Valid(c) && c.ipv6 && 40 <= c.clientMtu && 40 <= c.serverMtu
    ensures |x.payload| == 40 && Sendable(x) && Takes(ClientSide, c, x.payload)
    ensures Written(f, k, c, server, [FrameOf(f, k, x)]) == []
  {
    var other: byte := if c.clientIp6[0] == 0 then 1 else 0;
    var p: Bytes := [96] + Zeros(23) + [other] + Zeros(15);
    assert p[24..40][0] == other;
    x := Sent(Draw(Zeros(12), Zeros(OBF_MINPADDLE)), p);
    Ipv6PacketIsLost(f, k, c, server, x);
  }

  /** Loss, duplication and reordering: whichever of the client's frames arrive, in whatever order and however
      often, exactly their packets are written, as far as they pass, and with IPv6 off all of them. */
  lemma LossyChannel(f: Cipher, k: Key, c: Config, client: Buffer, server: Buffer, raws: seq<Bytes>, draws: seq<Draw>,
                     ys: seq<Sent>)
    requires Lawful(f) && Valid(c) && Readable(ClientSide, c, raws, draws) && IpPackets(ClientSide, c, raws)
    requires forall y | y in ys :: y in Tunneled(f, k, ClientSide, c, client, raws, draws)
    ensures AllSendable(ys) && Written(f, k, c, server, Datagrams(f, k, ys)) == PassFilter(c, Payloads(ys))
    ensures !c.ipv6 ==> PassFilter(c, Payloads(ys)) == Payloads(ys)
  {
    hide Tunneled, Opens, Written, IpPackets, IpPacket, Passes, Takes;
    var xs := Tunneled(f, k, ClientSide, c, client, raws, draws);
    TunneledTaken(f, k, ClientSide, c, client, raws, draws);
    AllLawfulOpen(f, k, xs);
    forall i | 0 <= i < |ys|
      ensures Sendable(ys[i]) && Opens(f, k, ys[i]) && IpPacket(c, ys[i].payload)
      ensures 20 <= |ys[i].payload| && Takes(ClientSide, c, ys[i].payload)
    {
      assert ys[i] in ys;
      var j :| 0 <= j < |xs| && xs[j] == ys[i];
      assert IpPacket(c, xs[j].payload);
      IsLongEnough(c, ys[i].payload);
    }
    WritesPassing(f, k, c, server, ys);
    if !c.ipv6 {
      forall i | 0 <= i < |ys| ensures Passing(c, Payloads(ys)[i]) {
        IsLongEnough(c, ys[i].payload);
        TakenPass(c, ys[i].payload);
      }
      AllPassIff(c, Payloads(ys));
    }
  }

  lemma IsLongEnough(c: Config, p: Bytes)
    requires IpPacket(c, p)
    ensures 20 <= |p|
  {
  }

  /** Loss, duplication, reordering and forged datagrams: every packet written is one that was sealed. */
  lemma {:induction false} OnlySealedIsWritten(f: Cipher, k: Key, c: Config, all: seq<Sent>, b: Buffer,
      datagrams: seq<Bytes>, w: Bytes) returns (i: nat)
    requires Separable(all) && OnlySealed(f, k, all) && c.serverMtu <= MAX_BUFFSIZE
    requires w in Written(f, k, c, b, datagrams)
    ensures i < |all| && all[i].payload == w
    decreases |datagrams|
  {
    hide Landed, OpenBuffer, Processed, OnlySealed, Separable, Passes, FrameOf;
    var b1 := Landed(b, datagrams[0], c.serverMtu + SIZE);
    if w in Accepted(f, k, c, b1) {
      i := NoFabrication(f, k, all, b, datagrams[0], c.serverMtu + SIZE);
    } else {
      i := OnlySealedIsWritten(f, k, c, all, Processed(f, k, b1), datagrams[1..], w);
    }
  }

  /** If in addition all that was sealed is IP packets, what is written is one of them, and passes. */
  lemma {:induction false} WrittenPasses(f: Cipher, k: Key, c: Config, all: seq<Sent>, b: Buffer,
      datagrams: seq<Bytes>, w: Bytes)
    requires Valid(c) && Separable(all) && OnlySealed(f, k, all)
    requires forall i | 0 <= i < |all| :: IpPacket(c, all[i].payload)
    requires w in Written(f, k, c, b, datagrams)
    ensures w in Payloads(all) && Passing(c, w)
    decreases |datagrams|
  {
    hide Landed, OpenBuffer, Processed, OnlySealed, Separable, Passes, FrameOf, IpPacket;
    var b1 := Landed(b, datagrams[0], c.serverMtu + SIZE);
    if w in Accepted(f, k, c, b1) {
      var i := NoFabrication(f, k, all, b, datagrams[0], c.serverMtu + SIZE);
      assert Payloads(all)[i] == w && IpPacket(c, w);
      AcceptedArea(f, k, b1);
      var area := Processed(f, k, b1)[SIZE..];
      assert area[..|w|] == Processed(f, k, b1)[SIZE..SIZE + |w|];
      FiltersSeeThePacket(ServerSide, c, w, area);
      IsLongEnough(c, w);
    } else {
      WrittenPasses(f, k, c, all, Processed(f, k, b1), datagrams[1..], w);
    }
  }

  /** A frame the server sealed for the client, sent back to the server: if it passes there, it is written to
      the server's own tun device. For IPv6 the two filters of the server are the same. */
  lemma ReflectedFrameIsWritten(f: Cipher, k: Key, c: Config, b: Buffer, y: Sent)
    requires Valid(c) && Sendable(y) && Opens(f, k, y) && IpPacket(c, y.payload)
    ensures Written(f, k, c, b, [FrameOf(f, k, y)]) == if Passing(c, y.payload) then [y.payload] else []
    ensures Takes(ServerSide, c, y.payload) && Version(y.payload) == 6 ==> Passing(c, y.payload)
  {
    var ys := [y];
    assert Datagrams(f, k, ys) == [FrameOf(f, k, y)] && Payloads(ys) == [y.payload];
    hide Written, FrameOf, Opens;
    assert AllOpen(f, k, ys);
    WritesPassing(f, k, c, b, ys);
    assert ys[1..] == [] && Payloads(ys)[1..] == [];
  }

  /** Whatever datagrams reach the server, over whatever bytes in its buffer, it writes only packets of `xs`. */
  ghost predicate WritesOnly(f: Cipher, k: Key, c: Config, xs: seq<Sent>)
    requires c.serverMtu <= MAX_BUFFSIZE
  {
    forall b: Buffer, datagrams: seq<Bytes>, w: Bytes | w in Written(f, k, c, b, datagrams) :: w in Payloads(xs)
  }

  /**
   Both ends seal under one key, so a frame of the server's may come back to it. If all that was ever sealed
   are the client's frames `xs` and the server's frames `ys`, then, whatever datagrams arrive, the server
   writes packets of the client only, exactly when every packet the server sealed that would pass its own
   filter for packets from the client is one the client sealed as well.
  */
  lemma WritesOnlyClientsIff(f: Cipher, k: Key, c: Config, xs: seq<Sent>, ys: seq<Sent>)
    requires Valid(c) && Separable(xs + ys) && OnlySealed(f, k, xs + ys)
    requires forall i | 0 <= i < |xs + ys| :: IpPacket(c, (xs + ys)[i].payload)
    ensures WritesOnly(f, k, c, xs) <==> forall p | p in Payloads(ys) && Passing(c, p) :: p in Payloads(xs)
  {
    var all := xs + ys;
    hide Written, OnlySealed, Separable, IpPacket, Passing, FrameOf;
    if WritesOnly(f, k, c, xs) {
      forall p | p in Payloads(ys) && Passing(c, p) ensures p in Payloads(xs) {
        var i :| 0 <= i < |ys| && Payloads(ys)[i] == p;
        assert all[|xs| + i] == ys[i];
        SealedOpens(f, k, all, |xs| + i);
        var b: Buffer := Zeros(BUFFER_SIZE);
        ReflectedFrameIsWritten(f, k, c, b, ys[i]);
        assert p in Written(f, k, c, b, [FrameOf(f, k, ys[i])]);
      }
    }
    if forall p | p in Payloads(ys) && Passing(c, p) :: p in Payloads(xs) {
      forall b: Buffer, datagrams: seq<Bytes>, w: Bytes | w in Written(f, k, c, b, datagrams)
        ensures w in Payloads(xs)
      {
        WrittenPasses(f, k, c, all, b, datagrams, w);
        var i :| 0 <= i < |all| && Payloads(all)[i] == w;
        if i < |xs| {
          assert Payloads(xs)[i] == w;
        } else {
          assert Payloads(ys)[i - |xs|] == w;
        }
      }
    }
  }

  lemma SealedOpens(f: Cipher, k: Key, all: seq<Sent>, i: nat)
    requires Separable(all) && OnlySealed(f, k, all) && i < |all|
    ensures Sendable(all[i]) && Opens(f, k, all[i])
  {
    OnlySealedOpens(f, k, all, i);
  }

  /** The same of two ends' tunnels: if nothing the server sealed passes its filter for packets from the client,
      then, whatever datagrams arrive, every packet the server writes to its tun device is one of the client's
      tun packets that it took, and with IPv6 off an IPv4 packet with the client's tun IP as source. */
  lemma HostileChannelIsSafe(f: Cipher, k: Key, c: Config, client: Buffer, craws: seq<Bytes>, cdraws: seq<Draw>,
                             server: Buffer, sraws: seq<Bytes>, sdraws: seq<Draw>,
                             b: Buffer, datagrams: seq<Bytes>, w: Bytes)
    requires Valid(c)
    requires Readable(ClientSide, c, craws, cdraws) && IpPackets(ClientSide, c, craws)
    requires Readable(ServerSide, c, sraws, sdraws) && IpPackets(ServerSide, c, sraws)
    requires var all := Tunneled(f, k, ClientSide, c, client, craws, cdraws)
                        + Tunneled(f, k, ServerSide, c, server, sraws, sdraws);
             Separable(all) && OnlySealed(f, k, all)
    requires forall i | 0 <= i < |sraws| && 20 <= |sraws[i]| && Takes(ServerSide, c, sraws[i]) :: !Passing(c, sraws[i])
    requires w in Written(f, k, c, b, datagrams)
    ensures w in Payloads(Tunneled(f, k, ClientSide, c, client, craws, cdraws))
    ensures w in PacketsOf(ClientSide, c, craws) && Passing(c, w)
    ensures !c.ipv6 ==> Version(w) == 4 && w[12..16] == c.clientIp
  {
    hide Tunneled, Written, OnlySealed, Separable, FrameOf;
    var xs := Tunneled(f, k, ClientSide, c, client, craws, cdraws);
    var ys := Tunneled(f, k, ServerSide, c, server, sraws, sdraws);
    TunneledTaken(f, k, ClientSide, c, client, craws, cdraws);
    TunneledTaken(f, k, ServerSide, c, server, sraws, sdraws);
    TunneledPayloads(f, k, ClientSide, c, client, craws, cdraws);
    TunneledPayloads(f, k, ServerSide, c, server, sraws, sdraws);
    ServerPackets(c, sraws);
    var ps := Payloads(ys);
    forall i | 0 <= i < |ps| ensures !Passing(c, ps[i]) {
      assert ps[i] == Filter(ServerSide, c, PacketsOf(ServerSide, c, sraws))[i];
      assert ps[i] in PacketsOf(ServerSide, c, sraws) && Takes(ServerSide, c, ps[i]);
    }
    WritesOnlyClientsIff(f, k, c, xs, ys);
    assert WritesOnly(f, k, c, xs) && w in Payloads(xs);
    WrittenPasses(f, k, c, xs + ys, b, datagrams, w);
    var i :| 0 <= i < |xs| && Payloads(xs)[i] == w;
    assert w == Filter(ClientSide, c, PacketsOf(ClientSide, c, craws))[i];
  }

  /** The server's tun device puts nothing before a packet. */
  lemma ServerPackets(c: Config, raws: seq<Bytes>)
    requires IpPackets(ServerSide, c, raws)
    ensures PacketsOf(ServerSide, c, raws) == raws && forall i | 0 <= i < |raws| :: 20 <= |raws[i]|
  {
    forall i | 0 <= i < |raws| ensures raws[i][0..] == raws[i] {
    }
  }

  /**
   End to end over TCP: the client's packets go into one byte stream, cut up in any way on arrival;
   tryReceive takes the first frame, and what ReceiveFrom returns and the filter passes is exactly the
   client's tun packets after the first, as far as they pass; with IPv6 off, all of them.
  */
  lemma EndToEndTcp(f: Cipher, k: Key, c: Config, client: Buffer, server: Buffer, raws: seq<Bytes>, draws: seq<Draw>,
                    chunks: seq<Bytes>)
    requires Lawful(f) && Valid(c)
    requires Readable(ClientSide, c, raws, draws) && IpPackets(ClientSide, c, raws)
    requires var xs := Tunneled(f, k, ClientSide, c, client, raws, draws);
             xs != [] && Flatten(chunks) == StreamOf(f, k, xs[1..])
    ensures var taken := Filter(ClientSide, c, PacketsOf(ClientSide, c, raws));
            && taken != []
            && TakeFirst(f, k, StreamOf(f, k, Tunneled(f, k, ClientSide, c, client, raws, draws)))
               == Some(Flatten(chunks))
            && FeedAll(f, k, Start(server), chunks).out == taken[1..]
            && (!c.ipv6 ==> PassFilter(c, taken[1..]) == taken[1..])
  {
    hide FeedAll, Tunneled, StreamOf, TakeFirst, Start, Flatten, FrameOf, Opens, Passes;
    var xs := Tunneled(f, k, ClientSide, c, client, raws, draws);
    TunneledPayloads(f, k, ClientSide, c, client, raws, draws);
    assert |Payloads(xs)| == |xs|;
    TcpRoundTrip(f, k, xs, chunks, server);
    var taken := Filter(ClientSide, c, PacketsOf(ClientSide, c, raws));
    if !c.ipv6 {
      var rest := taken[1..];
      forall i | 0 <= i < |rest| ensures Passing(c, rest[i]) {
        assert rest[i] == taken[i + 1] && Takes(ClientSide, c, taken[i + 1]);
        TakenPass(c, rest[i]);
      }
      AllPassIff(c, rest);
    }
  }

  // ----- from the wire to the client's tun device -----

  datatype Arriving = Arriving(from: Endpoint, datagram: Bytes)

  /** The address family that goes before a packet where the tun device wants one: AF_INET or AF_INET6. */
  function Family(version: nat): (r: Bytes)
    ensures |r| == 4
  {
    if version == 4 then [0, 0, 0, 2] else [0, 0, 0, 30]
  }

  /** A packet as the client's tun device takes it. */
  function Framed(c: Config, p: Bytes): Bytes {
    (if c.packetHl == 4 && p != [] then Family(Version(p)) else []) + p
  }

  /** Without a prefix the packet as it is; with one, AF_INET or AF_INET6 in network byte order before it. */
  lemma FramedBytes(c: Config, p: Bytes)
    requires 0 < |p|
    ensures c.packetHl == 0 ==> Framed(c, p) == p
    ensures c.packetHl == 4 && 64 <= p[0] < 80 ==> Framed(c, p) == [0, 0, 0, 2] + p
    ensures c.packetHl == 4 && 96 <= p[0] < 112 ==> Framed(c, p) == [0, 0, 0, 30] + p
  {
  }

  function FramedAll(c: Config, ps: seq<Bytes>): seq<Bytes> {
    seq(|ps|, i requires 0 <= i < |ps| => Framed(c, ps[i]))
  }

  /** The connection buffer once the address family is in the bytes before an IP packet. */
  function WithFamily(c: Config, b: Buffer): Buffer {
    var v := Version(b[SIZE..]);
    if c.packetHl == 4 && (v == 4 || v == 6) then Splice(b, SIZE - 4, Family(v)) else b
  }

  /** What the client writes to its tun device: nothing that does not come from its server. */
  function ClientWritten(f: Cipher, k: Key, c: Config, server: Endpoint, b: Buffer, arrivals: seq<Arriving>): seq<Bytes>
    requires c.clientMtu <= MAX_BUFFSIZE && c.packetHl <= SIZE
    decreases |arrivals|
  {
    if arrivals == [] then []
    else
      var b1 := Landed(b, arrivals[0].datagram, c.clientMtu + SIZE);
      if arrivals[0].from != server then ClientWritten(f, k, c, server, b1, arrivals[1..])
      else ClientWrites(f, k, c, b1) + ClientWritten(f, k, c, server, ClientLeaves(f, k, c, b1), arrivals[1..])
  }

  /** What the client writes for one datagram of its server. */
  function ClientWrites(f: Cipher, k: Key, c: Config, b: Buffer): seq<Bytes>
    requires c.packetHl <= SIZE
  {
    match OpenBuffer(f, k, b)
    case None => []
    case Some(p) =>
      if 0 < |p| <= MAX_BUFFSIZE then [ClientLeaves(f, k, c, b)[SIZE - c.packetHl..SIZE + |p|]] else []
  }

  /** The connection buffer after that. */
  function ClientLeaves(f: Cipher, k: Key, c: Config, b: Buffer): Buffer {
    match OpenBuffer(f, k, b)
    case None => Processed(f, k, b)
    case Some(p) => if p == [] then Processed(f, k, b) else WithFamily(c, Processed(f, k, b))
  }

  function FromServer(server: Endpoint, arrivals: seq<Arriving>): seq<Bytes> {
    if arrivals == [] then []
    else (if arrivals[0].from == server then [arrivals[0].datagram] else []) + FromServer(server, arrivals[1..])
  }

  lemma FramesInPlace(c: Config, b: Buffer, p: Bytes)
    requires Valid(c) && 0 < |p| <= MAX_BUFFSIZE && (Version(p) == 4 || Version(p) == 6)
    requires b[SIZE..SIZE + |p|] == p
    ensures WithFamily(c, b)[SIZE - c.packetHl..SIZE + |p|] == Framed(c, p)
  {
    var out := WithFamily(c, b);
    assert b[SIZE..][0] == b[SIZE..SIZE + |p|][0];
    if c.packetHl == 4 {
      var fam := Family(Version(p));
      assert out[SIZE - 4..SIZE - 4 + |fam|] == fam;
      assert out[SIZE..SIZE + |p|] == b[SIZE..SIZE + |p|];
      assert out[SIZE - 4..SIZE + |p|] == out[SIZE - 4..SIZE] + out[SIZE..SIZE + |p|];
    }
  }

  /** An IP packet goes to the client's tun device framed as the device wants it, and unaltered. */
  lemma ClientAccepts(f: Cipher, k: Key, c: Config, b: Buffer, x: Sent)
    requires Valid(c) && Sendable(x) && Opens(f, k, x)
    requires IpPacket(c, x.payload) && (Version(x.payload) == 4 || Version(x.payload) == 6)
    ensures ClientWrites(f, k, c, Landed(b, FrameOf(f, k, x), c.clientMtu + SIZE)) == [Framed(c, x.payload)]
  {
    hide Processed, OpenBuffer, Landed, WithFamily, Framed, FrameOf, Opens;
    SizeWindow(f, k, x);
    var b1 := Landed(b, FrameOf(f, k, x), c.clientMtu + SIZE);
    GenuineDatagramOpens(f, k, x, b, FrameOf(f, k, x), c.clientMtu + SIZE);
    AcceptedArea(f, k, b1);
    FramesInPlace(c, Processed(f, k, b1), x.payload);
  }

  /** Datagrams from elsewhere, anywhere in between, change nothing about what the client writes. */
  lemma {:induction false} ForeignersIgnored(f: Cipher, k: Key, c: Config, server: Endpoint, b: Buffer,
      arrivals: seq<Arriving>, xs: seq<Sent>)
    requires Valid(c) && AllSendable(xs) && AllOpen(f, k, xs)
    requires forall i | 0 <= i < |xs| :: IpPacket(c, xs[i].payload) && Version(xs[i].payload) in {4, 6}
    requires FromServer(server, arrivals) == Datagrams(f, k, xs)
    ensures ClientWritten(f, k, c, server, b, arrivals) == FramedAll(c, Payloads(xs))
    decreases |arrivals|
  {
    hide Landed, ClientWrites, ClientLeaves, FrameOf, Opens, Datagrams, OpenBuffer, Framed;
    if arrivals == [] {
      assert |Datagrams(f, k, xs)| == |xs|;
    } else {
      var b1 := Landed(b, arrivals[0].datagram, c.clientMtu + SIZE);
      var rest := FromServer(server, arrivals[1..]);
      if arrivals[0].from != server {
        assert FromServer(server, arrivals) == rest;
        ForeignersIgnored(f, k, c, server, b1, arrivals[1..], xs);
      } else {
        assert FromServer(server, arrivals) == [arrivals[0].datagram] + rest;
        DatagramsTail(f, k, xs);
        assert Opens(f, k, xs[0]) && IpPacket(c, xs[0].payload);
        ClientAccepts(f, k, c, b, xs[0]);
        ForeignersIgnored(f, k, c, server, ClientLeaves(f, k, c, b1), arrivals[1..], xs[1..]);
        PayloadsStep([], xs);
      }
    }
  }

  /**
   The reverse path over UDP: the server's frames arrive in order, datagrams from other endpoints mixed in
   at will. The packets written to the client's tun device are exactly the server's tun packets that its
   filter takes: IPv4 with the client's tun IP as destination, or IPv6 with the client's address.
  */
  lemma ReversePath(f: Cipher, k: Key, c: Config, server: Endpoint, sb: Buffer, cb: Buffer, raws: seq<Bytes>,
                    draws: seq<Draw>, arrivals: seq<Arriving>)
    requires Lawful(f) && Valid(c) && Readable(ServerSide, c, raws, draws) && IpPackets(ServerSide, c, raws)
    requires FromServer(server, arrivals) == Datagrams(f, k, Tunneled(f, k, ServerSide, c, sb, raws, draws))
    ensures ClientWritten(f, k, c, server, cb, arrivals)
            == FramedAll(c, Filter(ServerSide, c, PacketsOf(ServerSide, c, raws)))
  {
    hide FrameOf, Opens, Tunneled, Datagrams, FromServer, ClientWritten, FramedAll;
    var xs := Tunneled(f, k, ServerSide, c, sb, raws, draws);
    var ps := PacketsOf(ServerSide, c, raws);
    TunneledPayloads(f, k, ServerSide, c, sb, raws, draws);
    IpPacketsOf(ServerSide, c, raws);
    forall i | 0 <= i < |xs|
      ensures Opens(f, k, xs[i]) && IpPacket(c, xs[i].payload) && Version(xs[i].payload) in {4, 6}
    {
      LawfulOpens(f, k, xs[i]);
      var p := Filter(ServerSide, c, ps)[i];
      assert Payloads(xs)[i] == p && p in ps && Takes(ServerSide, c, p);
    }
    ForeignersIgnored(f, k, c, server, cb, arrivals, xs);
  }
}
