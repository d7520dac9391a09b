/** The data path of connection/TCPConnection.h on one connected socket: `Send`, `Receive`, `ReceiveFrom`. */
module TcpDataPath {
  import opened ByteStrings
  import opened Aead
  import opened ProtocolHeader
  import opened Frames
  import opened Protocols
  import opened Streams

  /** What one ReceiveFrom call comes to. `cut` is the error code left set when the body read was cut
      short; `Closed` closes and resets the socket; `TooLong` is a body beyond the connection buffer. */
  datatype Outcome = Packet(len: nat, cut: bool) | Closed | TooLong

  /** `rest` is what is left of the stream `s`. */
  ghost predicate Left(s: Bytes, rest: Bytes) {
    |rest| <= |s| && rest == s[|s| - |rest|..]
  }

  /** The stream reader, started with buffer `b`, after everything of `s` but `rest`. */
  ghost function Fed(f: Cipher, k: Key, b: Buffer, s: Bytes, rest: Bytes): (r: Reader)
    requires |rest| <= |s|
    ensures Ready(r)
  {
    Feed(f, k, Start(b), s[..|s| - |rest|])
  }

  lemma FedNothing(f: Cipher, k: Key, b: Buffer, s: Bytes)
    ensures Left(s, s) && Fed(f, k, b, s, s) == Reader(b, InHeader, 0, [])
  {
  }

  lemma LeftMore(s: Bytes, rest: Bytes, n: nat)
    requires Left(s, rest) && n <= |rest|
    ensures Left(s, rest[n..])
  {
  }

  /** `n` more bytes: either they complete the read in progress, or they are stored. */
  lemma FedMore(f: Cipher, k: Key, b: Buffer, s: Bytes, rest: Bytes, n: nat, r: Reader)
    requires Left(s, rest) && n <= |rest| && !r.stage.Overrun?
    requires Fed(f, k, b, s, rest) == r
    ensures r.have + n == Goal(r.stage) ==>
              Fed(f, k, b, s, rest[n..]) == Completed(f, k, Filled(r, rest[..n]), r.stage, r.out)
    ensures r.have + n < Goal(r.stage) ==>
              Fed(f, k, b, s, rest[n..]) == r.(buf := Filled(r, rest[..n]), have := r.have + n)
  {
    hide Feed, Completed, Filled;
    var from := |s| - |rest|;
    FeedAppend(f, k, Start(b), s[..from], rest[..n]);
    assert s[..from] + rest[..n] == s[..from + n];
    if r.have + n == Goal(r.stage) {
      FeedLong(f, k, r, rest[..n], []);
      assert rest[..n] + [] == rest[..n];
      FeedNothing(f, k, Completed(f, k, Filled(r, rest[..n]), r.stage, r.out));
    } else if r.have + n < Goal(r.stage) {
      FeedShort(f, k, r, rest[..n]);
    }
  }

  lemma FeedNothing(f: Cipher, k: Key, r: Reader)
    requires Ready(r)
    ensures Feed(f, k, r, []) == r
  {
  }

  /** The header read is cut short by the end of the stream. */
  lemma HeaderCut(f: Cipher, k: Key, b: Buffer, s: Bytes, rest: Bytes, start: Reader)
    requires Left(s, rest) && |rest| < SIZE && start.stage == InHeader && start.have == 0
    requires Fed(f, k, b, s, rest) == start
    ensures Finish(f, k, Fed(f, k, b, s, [])) == start.out
  {
    FedMore(f, k, b, s, rest, |rest|, start);
  }

  /** The header read completes into `full`, and DecryptHeader acts on it. */
  lemma HeaderRead(f: Cipher, k: Key, b: Buffer, s: Bytes, rest: Bytes, start: Reader, full: Buffer)
    requires Left(s, rest) && SIZE <= |rest| && start.stage == InHeader && start.have == 0
    requires Fed(f, k, b, s, rest) == start && full == Splice(start.buf, 0, rest[..SIZE])
    ensures var total := HeaderTotal(f, k, Head(full));
            && Fed(f, k, b, s, rest[SIZE..]) == Reader(HeaderDecrypted(f, k, full), NextStage(total), 0, start.out)
            && (total == 0 ==> NextStage(total) == InHeader)
            && (total > BODY_ROOM ==> NextStage(total) == Overrun)
            && (0 < total <= BODY_ROOM ==> NextStage(total) == InBody(total))
  {
    FedMore(f, k, b, s, rest, SIZE, start);
    assert Filled(start, rest[..SIZE]) == full;
  }

  /** The body read completes into `body` and DecryptPayload acts on it, or it is cut short by the end. */
  lemma BodyRead(f: Cipher, k: Key, b: Buffer, s: Bytes, rest: Bytes, n: nat, next: Reader, body: Buffer)
    requires Left(s, rest) && next.stage.InBody? && next.have == 0
    requires Fed(f, k, b, s, rest) == next
    requires n == Min(next.stage.total, |rest|) && SIZE + n <= BUFFER_SIZE && body == Splice(next.buf, SIZE, rest[..n])
    ensures var done := Fed(f, k, b, s, rest[n..]);
            var got := next.out + if PayloadIn(f, k, body).Some? then [PayloadIn(f, k, body).value] else [];
            && (n == next.stage.total ==> done == Reader(PayloadDecrypted(f, k, body), InHeader, 0, got))
            && (n < next.stage.total ==> rest[n..] == [] && Finish(f, k, done) == if n == 0 then next.out else got)
  {
    FedMore(f, k, b, s, rest, n, next);
    assert Filled(next, rest[..n]) == body;
  }

  class TCPConnection {
    const protocol: Protocol
    const tunBuffer: array<byte>
    const connBuffer: array<byte>
    /** The bytes this socket still delivers before it ends, and those written to it. */
    var incoming: Bytes
    var outgoing: Bytes

    ghost predicate Valid()
    {
      protocol.Accepts(tunBuffer) && protocol.Accepts(connBuffer) && tunBuffer != connBuffer
    }

    function Ops(): Cipher { protocol.Ops() }

    function Key(): Aead.Key
      requires Valid()
      reads protocol.aes.key
    {
      protocol.Key()
    }

    constructor (ops: Cipher, connKey: Bytes, incoming: Bytes)
      ensures Valid() && fresh(protocol) && fresh(tunBuffer) && fresh(connBuffer)
      ensures Ops() == ops && Key() == KeyOf(connKey)
      ensures this.incoming == incoming && outgoing == []
      ensures tunBuffer[..] == Zeros(BUFFER_SIZE) && connBuffer[..] == Zeros(BUFFER_SIZE)
    {
      protocol := new Protocol(ops, connKey);
      tunBuffer := new byte[BUFFER_SIZE](i => 0);
      connBuffer := new byte[BUFFER_SIZE](i => 0);
      this.incoming := incoming;
      outgoing := [];
    }

    /** async_read of exactly `want` bytes into the connection buffer: all of them, or fewer and an error
        when the socket ends first. */
    method AsyncRead(at: nat, want: nat) returns (bytesRead: nat)
      requires Valid() && at + want <= BUFFER_SIZE
      modifies this`incoming, connBuffer
      ensures bytesRead == Min(want, |old(incoming)|)
      ensures incoming == old(incoming)[bytesRead..]
      ensures connBuffer[..] == Splice(old(connBuffer[..]), at, old(incoming)[..bytesRead])
    {
      bytesRead := Min(want, |incoming|);
      Write(connBuffer, at, incoming[..bytesRead]);
      incoming := incoming[bytesRead..];
    }

    /** Seals the `len` payload bytes at offset 52 of the tun buffer and writes the frame to the socket. */
    method Send(len: nat, draw: Draw) returns (bytesSent: nat)
      requires Valid() && len <= MAX_BUFFSIZE && InRange(draw)
      modifies this`outgoing, tunBuffer, protocol.encryptedData
      ensures var x := Outgoing(old(tunBuffer[..]), len, draw);
              && outgoing == old(outgoing) + FrameOf(Ops(), Key(), x)
              && bytesSent == SIZE + BodySize(x) <= BUFFER_SIZE
              && tunBuffer[bytesSent..] == old(tunBuffer[..])[bytesSent..]
    {
      var payloadLen := protocol.SealFrame(tunBuffer, len, draw);
      outgoing := outgoing + tunBuffer[..SIZE + payloadLen];
      bytesSent := SIZE + payloadLen;
    }

    /** The server's read loop on one socket: what the stream reader of `Streams` returns first, having
        consumed exactly the bytes up to there, or the whole rest of the stream when nothing more comes. */
    method ReceiveFrom() returns (r: Outcome)
      requires Valid()
      modifies this`incoming, connBuffer, protocol.decryptedData
      ensures Left(old(incoming), incoming)
      ensures var done := Fed(Ops(), Key(), old(connBuffer[..]), old(incoming), incoming);
              match r
              case Packet(len, false) =>
                len <= MAX_BUFFSIZE && done == Reader(connBuffer[..], InHeader, 0, [connBuffer[SIZE..SIZE + len]])
              case Packet(len, true) =>
                len <= MAX_BUFFSIZE && incoming == [] && Finish(Ops(), Key(), done) == [connBuffer[SIZE..SIZE + len]]
              case Closed => incoming == [] && Finish(Ops(), Key(), done) == []
              case TooLong => done.stage == Overrun && done.out == []
    {
      hide Feed, Fed, Completed, Splice, HeaderDecrypted, PayloadDecrypted, PayloadIn, Finish, HeaderTotal,
           NextStage, Left;
      ghost var f, k, b0, s := Ops(), Key(), connBuffer[..], incoming;
      FedNothing(f, k, b0, s);
      while true
        invariant |incoming| <= |s| && Left(s, incoming)
        invariant var done := Fed(f, k, b0, s, incoming);
                  || done == Reader(connBuffer[..], InHeader, 0, [])
                  || (incoming == [] && Finish(f, k, done) == [])
        decreases |incoming|
      {
        ghost var rest, start, buf := incoming, Fed(f, k, b0, s, incoming), connBuffer[..];
        var bytesRead := AsyncRead(0, SIZE);
        LeftMore(s, rest, bytesRead);
        if bytesRead < SIZE {
          if start == Reader(buf, InHeader, 0, []) {
            HeaderCut(f, k, b0, s, rest, start);
          }
          return Closed;
        }
        HeaderRead(f, k, b0, s, rest, start, connBuffer[..]);
        var total := protocol.DecryptHeader(connBuffer);
        if total == 0 {
          continue;
        }
        if total > BODY_ROOM {
          return TooLong;
        }
        var ok, len;
        bytesRead, ok, len := ReadBody(total, b0, s);
        if bytesRead == 0 {
          continue;
        }
        if ok {
          return Packet(len, bytesRead < total);
        }
      }
    }

    /** The second half of a round: the body read, and DecryptPayload unless not a single byte came. */
    method ReadBody(total: nat, ghost b0: Buffer, ghost s: Bytes) returns (bytesRead: nat, ok: bool, len: nat)
      requires Valid() && 0 < total <= BODY_ROOM && |incoming| <= |s| && Left(s, incoming)
      requires Fed(Ops(), Key(), b0, s, incoming) == Reader(connBuffer[..], InBody(total), 0, [])
      modifies this`incoming, connBuffer, protocol.decryptedData
      ensures bytesRead == Min(total, |old(incoming)|) && incoming == old(incoming)[bytesRead..]
      ensures Left(s, incoming)
      ensures ok ==> 0 < bytesRead && len <= MAX_BUFFSIZE
      ensures var done := Fed(Ops(), Key(), b0, s, incoming);
              var got := if ok then [connBuffer[SIZE..SIZE + len]] else [];
              && (bytesRead == total ==> done == Reader(connBuffer[..], InHeader, 0, got))
              && (bytesRead < total ==> incoming == [] && Finish(Ops(), Key(), done) == got)
    {
      hide Feed, Fed, Completed, Splice, PayloadDecrypted, PayloadIn, Finish, Left;
      ghost var rest, next := incoming, Fed(Ops(), Key(), b0, s, incoming);
      bytesRead := AsyncRead(SIZE, total);
      LeftMore(s, rest, bytesRead);
      ghost var body: Buffer := connBuffer[..];
      BodyRead(Ops(), Key(), b0, s, rest, bytesRead, next, body);
      ok, len := false, 0;
      if bytesRead == 0 { return; }
      ok := protocol.DecryptPayload(connBuffer);
      if ok {
        DecryptedPacket(Ops(), Key(), body);
        len := PayloadLength();
      }
    }

    /** header->PAYLOAD_LENGTH of the connection buffer. */
    method PayloadLength() returns (len: nat)
      requires Valid()
      ensures len == DecodeLengths(Head(connBuffer[..]).lengths).payload
      ensures SIZE + len <= BUFFER_SIZE ==> connBuffer[SIZE..SIZE + len] == connBuffer[..][SIZE..SIZE + len]
    {
      len := FromLe32(connBuffer[44..48]);
      assert connBuffer[44..52][..4] == connBuffer[44..48];
    }

    /** The client's `Receive`: one round. Without an error code it has consumed one whole round of the
        stream, and returns the length of the packet now at offset 52, or 0; with one, what it returns is what
        the end of the stream comes to. */
    method Receive() returns (len: nat, ec: bool, tooLong: bool)
      requires Valid()
      modifies this`incoming, connBuffer, protocol.decryptedData
      ensures Left(old(incoming), incoming) && len <= MAX_BUFFSIZE && (ec ==> incoming == [])
      ensures var done := Fed(Ops(), Key(), old(connBuffer[..]), old(incoming), incoming);
              && (tooLong ==> done.stage == Overrun)
              && (!ec && !tooLong ==> done.stage == InHeader && done.have == 0 && done.buf == connBuffer[..])
              && (!ec && !tooLong && len > 0 ==> done.out == [connBuffer[SIZE..SIZE + len]])
              && (!ec && !tooLong && len == 0 ==> done.out == [] || done.out == [[]])
              && (ec && len > 0 ==> Finish(Ops(), Key(), done) == [connBuffer[SIZE..SIZE + len]])
              && (ec && len == 0 ==> Finish(Ops(), Key(), done) == [] || Finish(Ops(), Key(), done) == [[]])
    {
      hide Feed, Fed, Completed, Splice, HeaderDecrypted, PayloadDecrypted, PayloadIn, Finish, HeaderTotal,
           NextStage, Left;
      ghost var f, k, b0, s := Ops(), Key(), connBuffer[..], incoming;
      FedNothing(f, k, b0, s);
      len, ec, tooLong := 0, false, false;
      var bytesRead := AsyncRead(0, SIZE);
      LeftMore(s, s, bytesRead);
      ec := bytesRead < SIZE;
      assert ec ==> incoming == [];
      if ec {
        HeaderCut(f, k, b0, s, s, Fed(f, k, b0, s, s));
      } else {
        HeaderRead(f, k, b0, s, s, Fed(f, k, b0, s, s), connBuffer[..]);
      }
      if bytesRead == 0 { return; }
      var total := protocol.DecryptHeader(connBuffer);
      if total == 0 { return; }
      if total > BODY_ROOM {
        tooLong := !ec;
        return;
      }
      if ec {
        // the socket has ended: no body byte can follow
        ghost var rest := incoming;
        bytesRead := AsyncRead(SIZE, total);
        LeftMore(s, rest, bytesRead);
        return;
      }
      var ok, n;
      bytesRead, ok, n := ReadBody(total, b0, s);
      ec := bytesRead < total;
      len := if ok then n else 0;
      assert connBuffer[SIZE..SIZE] == [];
    }
  }
}
