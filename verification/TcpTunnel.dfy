/** What the server's receive loop hands to its tun device over a whole run of the TCP selection machine. */
module TcpTunnel {
  import opened ByteStrings
  import opened Aead
  import opened Frames
  import opened Streams
  import opened Selection
  import opened Delivery
  import opened Tunnel

  /** A client that seals only packets its own filter takes. */
  ghost predicate Filtered(c: Config, xs: seq<Sent>) {
    forall i | 0 <= i < |xs| :: IpPacket(c, xs[i].payload) && Takes(ClientSide, c, xs[i].payload)
  }

  lemma {:induction false} PassFilterAppend(c: Config, a: seq<Bytes>, b: seq<Bytes>)
    ensures PassFilter(c, a + b) == PassFilter(c, a) + PassFilter(c, b)
    decreases |a|
  {
    hide Passing;
    if a == [] {
      assert a + b == b;
    } else {
      assert (a + b)[0] == a[0] && (a + b)[1..] == a[1..] + b;
      PassFilterAppend(c, a[1..], b);
    }
  }

  function PassEach(c: Config, segs: seq<seq<Bytes>>): (r: seq<seq<Bytes>>)
    ensures |r| == |segs|
  {
    seq(|segs|, i requires 0 <= i < |segs| => PassFilter(c, segs[i]))
  }

  /** The filter works on the whole log as it does on each segment. */
  lemma {:induction false} PassFilterFlatten(c: Config, segs: seq<seq<Bytes>>)
    ensures PassFilter(c, Flatten(segs)) == Flatten(PassEach(c, segs))
    decreases |segs|
  {
    hide PassFilter;
    if segs == [] {
      assert PassFilter(c, []) == [] by { NothingPasses(c); }
    } else {
      PassFilterAppend(c, segs[0], Flatten(segs[1..]));
      PassFilterFlatten(c, segs[1..]);
      assert PassEach(c, segs)[1..] == PassEach(c, segs[1..]);
    }
  }

  lemma NothingPasses(c: Config)
    ensures PassFilter(c, []) == []
  {
  }

  /** With IPv6 off, every packet of a client's segment passes. */
  lemma ClientPasses(f: Cipher, k: Key, c: Config, xs: seq<Sent>, seg: seq<Bytes>, exact: bool)
    requires AllSendable(xs) && AllOpen(f, k, xs) && Filtered(c, xs) && !c.ipv6
    requires ReadFrom(f, k, Client(xs), seg, exact)
    ensures xs != [] && PassFilter(c, seg) == seg <= Payloads(xs)[1..] && (exact ==> seg == Payloads(xs)[1..])
  {
    hide ReadFrom, Opens, PassFilter, Passes;
    ClientSegment(f, k, xs, seg, exact);
    forall i | 0 <= i < |seg| ensures Passing(c, seg[i]) {
      assert seg[i] == Payloads(xs)[1..][i] == xs[i + 1].payload;
      assert IpPacket(c, xs[i + 1].payload);
      TakenPass(c, seg[i]);
    }
    AllPassIff(c, seg);
  }

  /**
   Over a whole run, under the same conditions as whole-run delivery: what the receive loop hands to the tun
   device is, socket by socket in the order of choosing, what passes of that socket's segment. With IPv6 off,
   a client's segment passes as it is, and is a prefix of what that client sent minus its first packet; all of
   that, once the client's bytes are used up and no body read ended early. Whether the device takes a packet is
   another matter: its refusal is what `LoopEnds` stands for.
  */
  lemma ForwardsWholeRun(f: Cipher, k: Key, c: Config, evs: seq<Event>, st: State) returns (segments: seq<seq<Bytes>>)
    requires Run(f, k, evs) == Some(st) && Clean(st) && AllSane(f, k, st)
    ensures PassFilter(c, st.delivered) == Flatten(PassEach(c, segments)) && |segments| == |st.chosen|
    ensures forall i | 0 <= i < |st.chosen| ::
              && st.chosen[i] < |st.sockets|
              && var peer := st.sockets[st.chosen[i]].peer;
              && ReadFrom(f, k, peer, segments[i], ReadWhole(st, st.chosen[i]))
              && (peer.Client? && AllSendable(peer.xs) && AllOpen(f, k, peer.xs) && Filtered(c, peer.xs) && !c.ipv6 ==>
                    && peer.xs != []
                    && PassEach(c, segments)[i] == segments[i] <= Payloads(peer.xs)[1..]
                    && (ReadWhole(st, st.chosen[i]) ==> segments[i] == Payloads(peer.xs)[1..]))
  {
    segments := WholeRunDelivery(f, k, evs, st);
    hide Run, Flatten, Clean, AllSane, ReadFrom, ReadWhole, PassFilter, Filtered, Opens;
    PassFilterFlatten(c, segments);
    forall i | 0 <= i < |st.chosen|
      ensures var peer := st.sockets[st.chosen[i]].peer;
              peer.Client? && AllSendable(peer.xs) && AllOpen(f, k, peer.xs) && Filtered(c, peer.xs) && !c.ipv6 ==>
                && peer.xs != []
                && PassEach(c, segments)[i] == segments[i] <= Payloads(peer.xs)[1..]
                && (ReadWhole(st, st.chosen[i]) ==> segments[i] == Payloads(peer.xs)[1..])
    {
      var peer := st.sockets[st.chosen[i]].peer;
      if peer.Client? && AllSendable(peer.xs) && AllOpen(f, k, peer.xs) && Filtered(c, peer.xs) && !c.ipv6 {
        ClientPasses(f, k, c, peer.xs, segments[i], ReadWhole(st, st.chosen[i]));
      }
    }
  }
}
