/** Frames as datagrams: connection/UDPConnection.cpp. */
module Udp {
  import opened ByteStrings
  import opened Aead
  import opened ProtocolHeader
  import opened Frames
  import opened Protocols

  datatype Endpoint = Endpoint(address: nat, port: nat)

  /** The connection buffer after a datagram came in: `cap` bytes of it at most, over what was there. */
  function Landed(b: Buffer, datagram: Bytes, cap: nat): Buffer
    requires cap <= BUFFER_SIZE
  {
    Splice(b, 0, datagram[..Min(|datagram|, cap)])
  }

  /** What comes in is the datagram's first `cap` bytes, if it has as many; the bytes behind stay as they were. */
  lemma LandsUpToRoom(b: Buffer, datagram: Bytes, cap: nat, i: nat)
    requires cap <= BUFFER_SIZE && i < BUFFER_SIZE
    ensures Landed(b, datagram, cap)[i] == if i < cap && i < |datagram| then datagram[i] else b[i]
  {
  }

  /** The connection buffer after the decrypt pair. */
  function Processed(f: Cipher, k: Key, b: Buffer): Buffer {
    if HeaderTotal(f, k, Head(b)) == 0 then HeaderDecrypted(f, k, b)
    else PayloadDecrypted(f, k, HeaderDecrypted(f, k, b))
  }

  /** An accepted payload is left at offset 52. */
  lemma AcceptedArea(f: Cipher, k: Key, b: Buffer)
    requires OpenBuffer(f, k, b).Some?
    ensures var p := OpenBuffer(f, k, b).value;
            |p| <= MAX_BUFFSIZE && Processed(f, k, b)[SIZE..SIZE + |p|] == p
  {
    DecryptPairIsOpenBuffer(f, k, b);
    SpliceArea(HeaderDecrypted(f, k, b), OpenBuffer(f, k, b).value);
  }

  /** A datagram that starts with a frame, cut anywhere behind its cipher text or not at all, and received
      with room for that much, opens to the frame's payload, whatever the buffer held. */
  lemma GenuineDatagramOpens(f: Cipher, k: Key, x: Sent, b: Buffer, datagram: Bytes, cap: nat)
    requires Sendable(x) && Opens(f, k, x) && SIZE + |x.payload| <= cap <= BUFFER_SIZE
    requires SIZE + |x.payload| <= |datagram|
    requires datagram[..SIZE + |x.payload|] == FrameOf(f, k, x)[..SIZE + |x.payload|]
    ensures OpenBuffer(f, k, Landed(b, datagram, cap)) == Some(x.payload)
  {
    var n := SIZE + |x.payload|;
    var r := Landed(b, datagram, cap);
    assert r[..n] == datagram[..n];
    GenuinePrefix(f, k, x, r);
    OpensGenuine(f, k, x, r);
  }

  /** No fabrication over UDP: whatever datagram comes in, over whatever the buffer held, a payload is
      accepted only if it is one that some sender sealed, and then of one frame only. */
  lemma NoFabrication(f: Cipher, k: Key, all: seq<Sent>, b: Buffer, datagram: Bytes, cap: nat) returns (i: nat)
    requires Separable(all) && OnlySealed(f, k, all) && cap <= BUFFER_SIZE
    requires OpenBuffer(f, k, Landed(b, datagram, cap)).Some?
    ensures i < |all| && OpenBuffer(f, k, Landed(b, datagram, cap)).value == all[i].payload
    ensures forall j | 0 <= j < |all| && FrameOf(f, k, all[j])[..SIZE] <= Landed(b, datagram, cap) :: j == i
  {
    hide Landed, OpenBuffer, OnlySealed, FrameOf, Sendable;
    var r := Landed(b, datagram, cap);
    var p := OpenBuffer(f, k, r).value;
    AcceptsExactlyGenuine(f, k, all, r, p);
    forall j | 0 <= j < |all| ensures SIZE + |all[j].payload| <= |FrameOf(f, k, all[j])| {
      SizeWindow(f, k, all[j]);
    }
    i :| 0 <= i < |all| && all[i].payload == p && FrameOf(f, k, all[i])[..SIZE + |p|] <= r;
    assert FrameOf(f, k, all[i])[..SIZE] == FrameOf(f, k, all[i])[..SIZE + |p|][..SIZE] == r[..SIZE];
    forall j | 0 <= j < |all| && FrameOf(f, k, all[j])[..SIZE] <= r ensures j == i {
      GenuineIsUnique(f, k, all, r, i, j);
    }
  }

  class UDPConnection {
    const protocol: Protocol
    const tunBuffer: array<byte>
    const connBuffer: array<byte>
    var lastRecvEp: Endpoint
    var remoteSendEp: Endpoint

    ghost predicate Valid()
    {
      && protocol.Accepts(tunBuffer) && protocol.Accepts(connBuffer) && tunBuffer != connBuffer
    }

    function Ops(): Cipher { protocol.Ops() }

    function Key(): Aead.Key
      requires Valid()
      reads protocol.aes.key
    {
      protocol.Key()
    }

    constructor (ops: Cipher, connKey: Bytes)
      ensures Valid() && fresh(protocol) && fresh(protocol.aes) && fresh(protocol.aes.key)
      ensures fresh(protocol.encryptedData) && fresh(protocol.decryptedData)
      ensures fresh(tunBuffer) && fresh(connBuffer)
      ensures Ops() == ops && Key() == KeyOf(connKey)
      ensures tunBuffer[..] == Zeros(BUFFER_SIZE) && connBuffer[..] == Zeros(BUFFER_SIZE)
    {
      protocol := new Protocol(ops, connKey);
      tunBuffer := new byte[BUFFER_SIZE](i => 0);
      connBuffer := new byte[BUFFER_SIZE](i => 0);
      lastRecvEp, remoteSendEp := Endpoint(0, 0), Endpoint(0, 0);
    }

    method Connect(remote: Endpoint)
      modifies this`remoteSendEp
      ensures remoteSendEp == remote
    {
      remoteSendEp := remote;
    }

    /** The client's send: to the server it was connected to. */
    method Send(len: nat, draw: Draw) returns (datagram: Bytes, to: Endpoint)
      requires Valid() && len <= MAX_BUFFSIZE && InRange(draw)
      modifies tunBuffer, protocol.encryptedData
      ensures var x := Outgoing(old(tunBuffer[..]), len, draw);
              && datagram == FrameOf(Ops(), Key(), x) && SIZE + BodySize(x) <= BUFFER_SIZE
              && tunBuffer[..] == datagram + old(tunBuffer[..])[SIZE + BodySize(x)..]
      ensures to == remoteSendEp
    {
      var payloadLen := protocol.SealFrame(tunBuffer, len, draw);
      datagram, to := tunBuffer[..SIZE + payloadLen], remoteSendEp;
      assert tunBuffer[..] == tunBuffer[..SIZE + payloadLen] + tunBuffer[SIZE + payloadLen..];
    }

    /** The server's send: to wherever the last datagram came from, authentic or not. */
    method SendTo(len: nat, draw: Draw) returns (datagram: Bytes, to: Endpoint)
      requires Valid() && len <= MAX_BUFFSIZE && InRange(draw)
      modifies tunBuffer, protocol.encryptedData
      ensures var x := Outgoing(old(tunBuffer[..]), len, draw);
              && datagram == FrameOf(Ops(), Key(), x) && SIZE + BodySize(x) <= BUFFER_SIZE
              && tunBuffer[..] == datagram + old(tunBuffer[..])[SIZE + BodySize(x)..]
      ensures to == lastRecvEp
    {
      var payloadLen := protocol.SealFrame(tunBuffer, len, draw);
      datagram, to := tunBuffer[..SIZE + payloadLen], lastRecvEp;
      assert tunBuffer[..] == tunBuffer[..SIZE + payloadLen] + tunBuffer[SIZE + payloadLen..];
    }

    /** The decrypt pair on the connection buffer. */
    method Open() returns (len: nat)
      requires Valid()
      modifies connBuffer, protocol.decryptedData
      ensures connBuffer[..] == Processed(Ops(), Key(), old(connBuffer[..]))
      ensures match OpenBuffer(Ops(), Key(), old(connBuffer[..]))
              case None => len == 0
              case Some(p) => len == |p| <= MAX_BUFFSIZE && connBuffer[SIZE..SIZE + len] == p
    {
      ghost var f, k, b := Ops(), Key(), connBuffer[..];
      DecryptPairIsOpenBuffer(f, k, b);
      if OpenBuffer(f, k, b).Some? {
        AcceptedArea(f, k, b);
      }
      hide HeaderDecrypted, OpenBuffer, HeaderTotal, Head;
      var payloadLen := protocol.DecryptHeader(connBuffer);
      if payloadLen == 0 { return 0; }
      ghost var plain: Buffer := connBuffer[..];
      var ok := protocol.DecryptPayload(connBuffer);
      if !ok { return 0; }
      DecryptedPacket(f, k, plain);
      len := FromLe32(connBuffer[44..48]);
      PayloadLengthField(connBuffer[..]);
      assert connBuffer[44..48] == connBuffer[..][44..48];
      assert connBuffer[SIZE..SIZE + len] == connBuffer[..][SIZE..SIZE + len];
    }

    /** The client's receive: -1 for a datagram from anyone but its server, else the payload's length or 0. */
    method Receive(datagram: Bytes, from: Endpoint, cap: nat) returns (r: int)
      requires Valid() && cap <= BUFFER_SIZE
      modifies this`lastRecvEp, connBuffer, protocol.decryptedData
      ensures lastRecvEp == from
      ensures var b := Landed(old(connBuffer[..]), datagram, cap);
              if from != remoteSendEp then r == -1 && connBuffer[..] == b
              else
                && connBuffer[..] == Processed(Ops(), Key(), b)
                && match OpenBuffer(Ops(), Key(), b)
                   case None => r == 0
                   case Some(p) => r == |p| <= MAX_BUFFSIZE && connBuffer[SIZE..SIZE + |p|] == p
    {
      hide Processed, OpenBuffer, Splice;
      Write(connBuffer, 0, datagram[..Min(|datagram|, cap)]);
      lastRecvEp := from;
      if lastRecvEp != remoteSendEp {
        return -1;
      }
      r := Open();
    }

    /** The server's receive: from anyone. */
    method ReceiveFrom(datagram: Bytes, from: Endpoint, cap: nat) returns (len: nat)
      requires Valid() && cap <= BUFFER_SIZE
      modifies this`lastRecvEp, connBuffer, protocol.decryptedData
      ensures lastRecvEp == from
      ensures var b := Landed(old(connBuffer[..]), datagram, cap);
              && connBuffer[..] == Processed(Ops(), Key(), b)
              && match OpenBuffer(Ops(), Key(), b)
                 case None => len == 0
                 case Some(p) => len == |p| <= MAX_BUFFSIZE && connBuffer[SIZE..SIZE + len] == p
    {
      hide Processed, OpenBuffer, Splice;
      Write(connBuffer, 0, datagram[..Min(|datagram|, cap)]);
      lastRecvEp := from;
      len := Open();
    }
  }
}
