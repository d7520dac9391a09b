/**
 Frames over a TCP byte stream: the alternating header/body reader of `Receive` and `ReceiveFrom`
 (connection/TCPConnection.h), fed with whatever pieces the socket hands over.
 */
module Streams {
  import opened ByteStrings
  import opened Aead
  import opened ProtocolHeader
  import opened Frames
  import opened Protocols

  /** The room for a body in the connection buffer. */
  const BODY_ROOM: nat := BUFFER_SIZE - SIZE

  /** What the reader is waiting for; `Overrun` is a body that would not fit in the buffer. */
  datatype Stage = InHeader | InBody(total: nat) | Overrun

  /** The connection buffer, the read in progress (`have` bytes of it are in), and the packets returned. */
  datatype Reader = Reader(buf: Buffer, stage: Stage, have: nat, out: seq<Bytes>)

  function Base(s: Stage): nat {
    if s.InBody? then SIZE else 0
  }

  function Goal(s: Stage): nat {
    match s
    case InHeader => SIZE
    case InBody(total) => total
    case Overrun => 0
  }

  ghost predicate Ready(r: Reader) {
    || (r.stage.Overrun? && r.have == 0)
    || (r.have < Goal(r.stage) && Base(r.stage) + Goal(r.stage) <= BUFFER_SIZE)
  }

  function Start(b: Buffer): Reader {
    Reader(b, InHeader, 0, [])
  }

  /** What DecryptHeader's return value leads to. */
  function NextStage(total: nat): Stage {
    if total == 0 then InHeader else if total > BODY_ROOM then Overrun else InBody(total)
  }

  /** What follows a completed read: DecryptHeader and the next body, or DecryptPayload and the next header. */
  function Completed(f: Cipher, k: Key, buf: Buffer, stage: Stage, out: seq<Bytes>): (r: Reader)
    requires !stage.Overrun?
    ensures Ready(r) && r.have == 0
  {
    match stage
    case InHeader =>
      Reader(HeaderDecrypted(f, k, buf), NextStage(HeaderTotal(f, k, Head(buf))), 0, out)
    case InBody(_) =>
      match PayloadIn(f, k, buf)
      case None => Reader(buf, InHeader, 0, out)
      case Some(p) => Reader(PayloadDecrypted(f, k, buf), InHeader, 0, out + [p])
  }

  /** The reader after one more piece of the stream. */
  function Feed(f: Cipher, k: Key, r: Reader, chunk: Bytes): (r': Reader)
    requires Ready(r)
    ensures Ready(r')
    decreases |chunk|
  {
    if chunk == [] || r.stage.Overrun? then r
    else
      var n := Min(Goal(r.stage) - r.have, |chunk|);
      var buf := Splice(r.buf, Base(r.stage) + r.have, chunk[..n]);
      if r.have + n < Goal(r.stage) then r.(buf := buf, have := r.have + n)
      else Feed(f, k, Completed(f, k, buf, r.stage, r.out), chunk[n..])
  }

  function FeedAll(f: Cipher, k: Key, r: Reader, chunks: seq<Bytes>): (r': Reader)
    requires Ready(r)
    ensures Ready(r')
    decreases |chunks|
  {
    if chunks == [] then r else FeedAll(f, k, Feed(f, k, r, chunks[0]), chunks[1..])
  }

  function Flatten<T>(ss: seq<seq<T>>): seq<T> {
    if ss == [] then [] else ss[0] + Flatten(ss[1..])
  }

  /** The read in progress with `piece` put where its next bytes go. */
  function Filled(r: Reader, piece: Bytes): Buffer
    requires Ready(r) && r.have + |piece| <= Goal(r.stage)
  {
    Splice(r.buf, Base(r.stage) + r.have, piece)
  }

  /** A piece too short to complete the read is only stored. */
  lemma FeedShort(f: Cipher, k: Key, r: Reader, piece: Bytes)
    requires Ready(r) && r.have + |piece| < Goal(r.stage)
    ensures Feed(f, k, r, piece) == r.(buf := Filled(r, piece), have := r.have + |piece|)
  {
    assert piece[..|piece|] == piece;
  }

  /** A piece that completes the read is stored, acted on, and what is left of it goes on. */
  lemma FeedLong(f: Cipher, k: Key, r: Reader, piece: Bytes, rest: Bytes)
    requires Ready(r) && !r.stage.Overrun? && r.have + |piece| == Goal(r.stage)
    ensures Feed(f, k, r, piece + rest) == Feed(f, k, Completed(f, k, Filled(r, piece), r.stage, r.out), rest)
  {
    assert (piece + rest)[..|piece|] == piece;
    assert (piece + rest)[|piece|..] == rest;
  }

  /** Storing two pieces one after the other is storing them together. */
  lemma FilledAppend(r: Reader, x: Bytes, y: Bytes)
    requires Ready(r) && r.have + |x| < Goal(r.stage) && r.have + |x| + |y| <= Goal(r.stage)
    ensures var mid := r.(buf := Filled(r, x), have := r.have + |x|);
            Ready(mid) && Filled(mid, y) == Filled(r, x + y)
  {
    SpliceAppend(r.buf, Base(r.stage) + r.have, x, y);
  }

  /** A piece that does not complete the read, and what comes after it. */
  lemma FeedAppendShort(f: Cipher, k: Key, r: Reader, x: Bytes, y: Bytes)
    requires Ready(r) && r.have + |x| < Goal(r.stage)
    ensures Feed(f, k, Feed(f, k, r, x), y) == Feed(f, k, r, x + y)
  {
    FeedShort(f, k, r, x);
    var mid := r.(buf := Filled(r, x), have := r.have + |x|);
    if r.have + |x| + |y| < Goal(r.stage) {
      FilledAppend(r, x, y);
      FeedShort(f, k, mid, y);
      FeedShort(f, k, r, x + y);
    } else {
      var n := Goal(r.stage) - r.have - |x|;
      var p, q := y[..n], y[n..];
      assert y == p + q && x + y == (x + p) + q;
      FilledAppend(r, x, p);
      hide Feed, Completed, Filled;
      FeedLong(f, k, mid, p, q);
      FeedLong(f, k, r, x + p, q);
    }
  }

  lemma {:induction false} FeedAppend(f: Cipher, k: Key, r: Reader, x: Bytes, y: Bytes)
    requires Ready(r)
    ensures Feed(f, k, Feed(f, k, r, x), y) == Feed(f, k, r, x + y)
    decreases |x|
  {
    if r.stage.Overrun? {
    } else if r.have + |x| < Goal(r.stage) {
      FeedAppendShort(f, k, r, x, y);
    } else {
      hide Feed, Completed, Filled;
      var n := Goal(r.stage) - r.have;
      var p, q := x[..n], x[n..];
      assert x == p + q && x + y == p + (q + y);
      FeedLong(f, k, r, p, q);
      FeedLong(f, k, r, p, q + y);
      FeedAppend(f, k, Completed(f, k, Filled(r, p), r.stage, r.out), q, y);
    }
  }

  /** Chunk independence: for any byte stream, any way of cutting it up gives the same packets, the
      same buffer and the same residual state as the stream in one piece. */
  lemma {:induction false} ChunkIndependence(f: Cipher, k: Key, r: Reader, chunks: seq<Bytes>)
    requires Ready(r)
    ensures FeedAll(f, k, r, chunks) == Feed(f, k, r, Flatten(chunks))
    decreases |chunks|
  {
    if chunks != [] {
      FeedAppend(f, k, r, chunks[0], Flatten(chunks[1..]));
      ChunkIndependence(f, k, Feed(f, k, r, chunks[0]), chunks[1..]);
    }
  }

  /** Bytes of the round in progress that are already in. */
  function BytesIn(r: Reader): nat {
    if r.stage.InBody? then SIZE + r.have else r.have
  }

  /** Every returned packet has cost a header and at least one body byte, so no stream makes the loop
      run for ever: it returns to the start of a round only after 52 bytes or more. */
  lemma {:induction false} RoundsConsume(f: Cipher, k: Key, r: Reader, x: Bytes)
    requires Ready(r)
    ensures var r' := Feed(f, k, r, x);
            && r.out <= r'.out
            && 53 * (|r'.out| - |r.out|) <= BytesIn(r) + |x|
            && (r.stage.InHeader? && r.have == 0 && x != [] && r'.stage.InHeader? && r'.have == 0 ==> SIZE <= |x|)
    decreases |x|
  {
    if x != [] && !r.stage.Overrun? {
      var need := Goal(r.stage) - r.have;
      if need <= |x| {
        var p, q := x[..need], x[need..];
        assert x == p + q;
        FeedLong(f, k, r, p, q);
        var next := Completed(f, k, Filled(r, p), r.stage, r.out);
        CompletedCosts(f, k, r, p);
        hide Feed, Completed, Splice;
        RoundsConsume(f, k, next, q);
      } else {
        FeedShort(f, k, r, x);
      }
    }
  }

  lemma CompletedCosts(f: Cipher, k: Key, r: Reader, piece: Bytes)
    requires Ready(r) && !r.stage.Overrun? && r.have + |piece| == Goal(r.stage)
    ensures var next := Completed(f, k, Filled(r, piece), r.stage, r.out);
            && r.out <= next.out && next.have == 0
            && 53 * (|next.out| - |r.out|) + BytesIn(next) <= BytesIn(r) + |piece|
            && (r.stage.InHeader? && r.have == 0 ==> |piece| == SIZE)
  {
  }

  /** The connection ends: a header read that is cut short closes it; a body read that is cut short, with
      at least one byte in, still goes to DecryptPayload on whatever the buffer then holds. */
  function Finish(f: Cipher, k: Key, r: Reader): seq<Bytes> {
    if r.stage.InBody? && r.have > 0 && PayloadIn(f, k, r.buf).Some?
    then r.out + [PayloadIn(f, k, r.buf).value]
    else r.out
  }

  /** A frame as it may arrive: header sealed fields intact, payload tag and body bytes maybe altered. */
  datatype Arrival = Arrival(sent: Sent, tag: Tag, body: Bytes)

  ghost predicate Arrives(a: Arrival) {
    Sendable(a.sent) && |a.body| == BodySize(a.sent)
  }

  function ArrivalHeader(f: Cipher, k: Key, a: Arrival): (h: Header)
    requires Sendable(a.sent)
    ensures |h.lengths| == LENGTHS_BYTES
  {
    HeaderOf(f, k, a.sent).(payloadTag := a.tag)
  }

  function Wire(f: Cipher, k: Key, a: Arrival): Bytes
    requires Sendable(a.sent)
  {
    Encode(ArrivalHeader(f, k, a)) + a.body
  }

  /** What DecryptPayload makes of it. */
  function Received(f: Cipher, k: Key, a: Arrival): seq<Bytes>
    requires Arrives(a)
  {
    match f.open(k, a.sent.draw.nonce, a.body[..|a.sent.payload|], a.tag)
    case None => []
    case Some(p) => [p]
  }

  /** Payload bytes and payload tag as sent; padding bytes do not count. */
  ghost predicate Unaltered(f: Cipher, k: Key, a: Arrival) {
    a.tag == SealedPayload(f, k, a.sent).tag && SealedPayload(f, k, a.sent).cipher <= a.body
  }

  function Undamaged(f: Cipher, k: Key, x: Sent): (a: Arrival)
    requires Sendable(x)
    ensures a.sent == x && Arrives(a) && Wire(f, k, a) == FrameOf(f, k, x) && Unaltered(f, k, a)
  {
    Arrival(x, SealedPayload(f, k, x).tag, BodyOf(f, k, x))
  }

  /** From the start of a round, the reader takes the header, decrypts it and knows the body to expect. */
  lemma ReadsHeader(f: Cipher, k: Key, r: Reader, a: Arrival, rest: Bytes) returns (buf: Buffer)
    requires r.stage == InHeader && r.have == 0 && Sendable(a.sent) && Opens(f, k, a.sent)
    ensures Feed(f, k, r, Encode(ArrivalHeader(f, k, a)) + rest)
            == Feed(f, k, Reader(buf, InBody(BodySize(a.sent)), 0, r.out), rest)
    ensures Head(buf) == ArrivalHeader(f, k, a).(lengths := EncodeLengths(LengthsOf(a.sent)))
  {
    var h := ArrivalHeader(f, k, a);
    var s := Encode(h) + rest;
    var b := Splice(r.buf, 0, Encode(h));
    var tail := r.buf[SIZE..];
    assert b == Encode(h) + tail;
    HeadOfEncode(h, tail);
    DecodeOfEncodeLengths(LengthsOf(a.sent));
    SizeWindow(f, k, a.sent);
    var plain := h.(lengths := EncodeLengths(LengthsOf(a.sent)));
    HeadOfEncode(plain, tail);
    buf := HeaderDecrypted(f, k, b);
    assert s[..SIZE] == Encode(h) && s[SIZE..] == rest;
    assert Completed(f, k, b, InHeader, r.out) == Reader(buf, InBody(BodySize(a.sent)), 0, r.out);
  }

  /** DecryptPayload under a plain header, on any payload area. */
  lemma PayloadUnder(f: Cipher, k: Key, b: Buffer, a: Arrival)
    requires Sendable(a.sent)
    requires Head(b) == ArrivalHeader(f, k, a).(lengths := EncodeLengths(LengthsOf(a.sent)))
    ensures PayloadIn(f, k, b) == OpenPayload(f, k, a.sent.draw.nonce, a.tag, |a.sent.payload|, b[SIZE..])
  {
    DecodeOfEncodeLengths(LengthsOf(a.sent));
  }

  /** The body read completes, and DecryptPayload decides. */
  lemma CompletesBody(f: Cipher, k: Key, b: Buffer, a: Arrival, out: seq<Bytes>) returns (buf: Buffer)
    requires Arrives(a) && Head(b) == ArrivalHeader(f, k, a).(lengths := EncodeLengths(LengthsOf(a.sent)))
    requires SIZE + |a.body| <= BUFFER_SIZE
    ensures Completed(f, k, Splice(b, SIZE, a.body), InBody(|a.body|), out)
            == Reader(buf, InHeader, 0, out + Received(f, k, a))
  {
    var full := Splice(b, SIZE, a.body);
    SpliceArea(b, a.body);
    PayloadUnder(f, k, full, a);
    assert full[SIZE..][..|a.sent.payload|] == a.body[..|a.sent.payload|];
    buf := Completed(f, k, full, InBody(|a.body|), out).buf;
  }

  /** One arrival, intact or damaged, is one round: framing is kept and only the payload's fate differs. */
  lemma ReadsArrival(f: Cipher, k: Key, r: Reader, a: Arrival, rest: Bytes) returns (buf: Buffer)
    requires r.stage == InHeader && r.have == 0 && Arrives(a) && Opens(f, k, a.sent)
    ensures Feed(f, k, r, Wire(f, k, a) + rest)
            == Feed(f, k, Reader(buf, InHeader, 0, r.out + Received(f, k, a)), rest)
  {
    SizeWindow(f, k, a.sent);
    assert Wire(f, k, a) + rest == Encode(ArrivalHeader(f, k, a)) + (a.body + rest);
    var b := ReadsHeader(f, k, r, a, a.body + rest);
    buf := CompletesBody(f, k, b, a, r.out);
    var reading := Reader(b, InBody(|a.body|), 0, r.out);
    assert Filled(reading, a.body) == Splice(b, SIZE, a.body);
    hide Feed, Completed, Splice, Wire;
    FeedLong(f, k, reading, a.body, rest);
  }

  ghost predicate AllArrive(arrivals: seq<Arrival>) {
    forall i | 0 <= i < |arrivals| :: Arrives(arrivals[i])
  }

  function WireAll(f: Cipher, k: Key, arrivals: seq<Arrival>): Bytes
    requires AllArrive(arrivals)
  {
    if arrivals == [] then [] else Wire(f, k, arrivals[0]) + WireAll(f, k, arrivals[1..])
  }

  function ReceivedAll(f: Cipher, k: Key, arrivals: seq<Arrival>): seq<Bytes>
    requires AllArrive(arrivals)
  {
    if arrivals == [] then [] else Received(f, k, arrivals[0]) + ReceivedAll(f, k, arrivals[1..])
  }

  /** Taking the first arrival off a wire. */
  lemma WireStep(f: Cipher, k: Key, arrivals: seq<Arrival>, out: seq<Bytes>, rest: Bytes)
    requires AllArrive(arrivals) && arrivals != []
    ensures Arrives(arrivals[0]) && AllArrive(arrivals[1..])
    ensures WireAll(f, k, arrivals) + rest == Wire(f, k, arrivals[0]) + (WireAll(f, k, arrivals[1..]) + rest)
    ensures out + Received(f, k, arrivals[0]) + ReceivedAll(f, k, arrivals[1..]) == out + ReceivedAll(f, k, arrivals)
  {
  }

  lemma {:induction false} ReadsAll(f: Cipher, k: Key, r: Reader, arrivals: seq<Arrival>, rest: Bytes)
      returns (buf: Buffer)
    requires r.stage == InHeader && r.have == 0 && AllArrive(arrivals)
    requires forall i | 0 <= i < |arrivals| :: Sendable(arrivals[i].sent) && Opens(f, k, arrivals[i].sent)
    ensures Feed(f, k, r, WireAll(f, k, arrivals) + rest)
            == Feed(f, k, Reader(buf, InHeader, 0, r.out + ReceivedAll(f, k, arrivals)), rest)
    decreases |arrivals|
  {
    if arrivals == [] {
      buf := r.buf;
      assert WireAll(f, k, arrivals) + rest == rest;
      assert r.out + ReceivedAll(f, k, arrivals) == r.out;
    } else {
      hide *;
      WireStep(f, k, arrivals, r.out, rest);
      var b := ReadsArrival(f, k, r, arrivals[0], WireAll(f, k, arrivals[1..]) + rest);
      buf := ReadsAll(f, k, Reader(b, InHeader, 0, r.out + Received(f, k, arrivals[0])), arrivals[1..], rest);
    }
  }

  /** The payloads of the arrivals whose payload bytes and payload tag are as sent. */
  ghost function UnalteredPayloads(f: Cipher, k: Key, arrivals: seq<Arrival>): seq<Bytes> {
    if arrivals == [] then []
    else (if Unaltered(f, k, arrivals[0]) then [arrivals[0].sent.payload] else [])
         + UnalteredPayloads(f, k, arrivals[1..])
  }

  lemma ReceivedIffUnaltered(f: Cipher, k: Key, xs: seq<Sent>, i: nat, a: Arrival)
    requires Separable(xs) && OnlySealed(f, k, xs) && i < |xs| && a.sent == xs[i] && Arrives(a)
    ensures Received(f, k, a) == if Unaltered(f, k, a) then [a.sent.payload] else []
  {
    SizeWindow(f, k, a.sent);
    var area := a.body + Zeros(MAX_BUFFSIZE);
    PayloadIsGenuine(f, k, xs, i, a.tag, area);
    assert area[..|a.sent.payload|] == a.body[..|a.sent.payload|];
    var c := SealedPayload(f, k, a.sent).cipher;
    assert c <= area <==> c <= a.body by {
      assert area[..|c|] == a.body[..|c|];
    }
  }

  lemma {:induction false} ReceivesUnaltered(f: Cipher, k: Key, xs: seq<Sent>, arrivals: seq<Arrival>)
    requires Separable(xs) && OnlySealed(f, k, xs)
    requires AllArrive(arrivals) && forall a | a in arrivals :: a.sent in xs
    ensures ReceivedAll(f, k, arrivals) == UnalteredPayloads(f, k, arrivals)
    decreases |arrivals|
  {
    if arrivals != [] {
      var a := arrivals[0];
      var i :| 0 <= i < |xs| && xs[i] == a.sent;
      SizeWindow(f, k, a.sent);
      ReceivedIffUnaltered(f, k, xs, i, a);
      WireStep(f, k, arrivals, [], []);
      hide Unaltered, Received, Separable, OnlySealed, Wire;
      ReceivesUnaltered(f, k, xs, arrivals[1..]);
    }
  }

  /** Damaged payloads do not lose framing: when the headers are intact and any subset of frames has
      payload bytes or payload tag altered (in any order, repeated or not), the packets returned are
      exactly the payloads of the unaltered ones, in order, and the reader ends at the start of a round. */
  lemma DamagedPayloadsKeepFraming(f: Cipher, k: Key, xs: seq<Sent>, arrivals: seq<Arrival>, b: Buffer)
    requires Separable(xs) && OnlySealed(f, k, xs)
    requires AllArrive(arrivals) && forall a | a in arrivals :: a.sent in xs
    ensures var r := Feed(f, k, Start(b), WireAll(f, k, arrivals));
            r.stage == InHeader && r.have == 0 && r.out == UnalteredPayloads(f, k, arrivals)
  {
    forall i | 0 <= i < |arrivals| ensures Opens(f, k, arrivals[i].sent) {
      assert arrivals[i] in arrivals;
      var j :| 0 <= j < |xs| && xs[j] == arrivals[i].sent;
      OnlySealedOpens(f, k, xs, j);
    }
    var buf := ReadsAll(f, k, Start(b), arrivals, []);
    assert WireAll(f, k, arrivals) + [] == WireAll(f, k, arrivals);
    ReceivesUnaltered(f, k, xs, arrivals);
  }

  /** What a client's repeated `Send` writes to its socket. */
  function StreamOf(f: Cipher, k: Key, xs: seq<Sent>): Bytes
    requires AllSendable(xs)
  {
    if xs == [] then [] else FrameOf(f, k, xs[0]) + StreamOf(f, k, xs[1..])
  }

  function Payloads(xs: seq<Sent>): (ps: seq<Bytes>)
    ensures |ps| == |xs|
  {
    seq(|xs|, i requires 0 <= i < |xs| => xs[i].payload)
  }

  ghost predicate AllOpen(f: Cipher, k: Key, xs: seq<Sent>)
    requires AllSendable(xs)
  {
    forall i | 0 <= i < |xs| :: Opens(f, k, xs[i])
  }

  /** A frame's own bytes are received as its payload. */
  lemma ReceivesWhole(f: Cipher, k: Key, x: Sent)
    requires Sendable(x) && Opens(f, k, x)
    ensures Received(f, k, Undamaged(f, k, x)) == [x.payload]
  {
    assert BodyOf(f, k, x)[..|x.payload|] == SealedPayload(f, k, x).cipher;
  }

  lemma PayloadsStep(out: seq<Bytes>, xs: seq<Sent>)
    requires xs != []
    ensures out + [xs[0].payload] + Payloads(xs[1..]) == out + Payloads(xs)
  {
  }

  lemma {:induction false} ReadsFrames(f: Cipher, k: Key, r: Reader, xs: seq<Sent>, rest: Bytes) returns (buf: Buffer)
    requires r.stage == InHeader && r.have == 0 && AllSendable(xs) && AllOpen(f, k, xs)
    ensures Feed(f, k, r, StreamOf(f, k, xs) + rest) == Feed(f, k, Reader(buf, InHeader, 0, r.out + Payloads(xs)), rest)
    decreases |xs|
  {
    if xs == [] {
      buf := r.buf;
      assert StreamOf(f, k, xs) + rest == rest;
      assert r.out + Payloads(xs) == r.out;
    } else {
      var a := Undamaged(f, k, xs[0]);
      var more := StreamOf(f, k, xs[1..]) + rest;
      assert StreamOf(f, k, xs) + rest == Wire(f, k, a) + more;
      assert Opens(f, k, xs[0]) && AllSendable(xs[1..]) && AllOpen(f, k, xs[1..]);
      hide *;
      var b := ReadsArrival(f, k, r, a, more);
      ReceivesWhole(f, k, xs[0]);
      buf := ReadsFrames(f, k, Reader(b, InHeader, 0, r.out + [xs[0].payload]), xs[1..], rest);
      PayloadsStep(r.out, xs);
    }
  }

  /** tryReceive on a stream: the first frame is consumed whatever its payload decrypts to; `None` when
      the socket is not selected. */
  function TakeFirst(f: Cipher, k: Key, s: Bytes): Option<Bytes> {
    if |s| < SIZE then None
    else
      var total := HeaderTotal(f, k, Head(s));
      if total == 0 || |s| < SIZE + total then None else Some(s[SIZE + total..])
  }

  lemma TakesFirstFrame(f: Cipher, k: Key, x: Sent, rest: Bytes)
    requires Sendable(x) && Opens(f, k, x)
    ensures TakeFirst(f, k, FrameOf(f, k, x) + rest) == Some(rest)
  {
    var h, body := HeaderOf(f, k, x), BodyOf(f, k, x);
    var s := FrameOf(f, k, x) + rest;
    assert s == Encode(h) + (body + rest);
    HeadOfEncode(h, body + rest);
    DecodeOfEncodeLengths(LengthsOf(x));
    SizeWindow(f, k, x);
    assert s[SIZE + |body|..] == rest;
  }

  /** TCP round trip: the frames of any payloads under any draws, concatenated and cut into any pieces,
      read by tryReceive and then by ReceiveFrom, give back every payload after the first, in order,
      exactly once. */
  lemma TcpRoundTrip(f: Cipher, k: Key, xs: seq<Sent>, chunks: seq<Bytes>, b: Buffer)
    requires Lawful(f) && AllSendable(xs) && xs != []
    requires Flatten(chunks) == StreamOf(f, k, xs[1..])
    ensures TakeFirst(f, k, StreamOf(f, k, xs)) == Some(Flatten(chunks))
    ensures var r := FeedAll(f, k, Start(b), chunks);
            r.out == Payloads(xs)[1..] && r.stage == InHeader && r.have == 0
  {
    forall i | 0 <= i < |xs| ensures Opens(f, k, xs[i]) {
      LawfulOpens(f, k, xs[i]);
    }
    var rest := StreamOf(f, k, xs[1..]);
    assert StreamOf(f, k, xs) == FrameOf(f, k, xs[0]) + rest;
    TakesFirstFrame(f, k, xs[0], rest);
    ChunkIndependence(f, k, Start(b), chunks);
    var buf := ReadsFrames(f, k, Start(b), xs[1..], []);
    assert Payloads(xs[1..]) == Payloads(xs)[1..];
    assert rest + [] == rest;
    var done := Reader(buf, InHeader, 0, [] + Payloads(xs[1..]));
    assert Feed(f, k, done, []) == done;
    hide *;
  }

  /** How many frames the first `n` bytes of a stream pay for: those whose payload is complete, with at
      least one body byte; padding may be missing. */
  function Due(f: Cipher, k: Key, xs: seq<Sent>, n: nat): (j: nat)
    requires AllSendable(xs)
    ensures j <= |xs|
  {
    if xs == [] then 0
    else if n >= |FrameOf(f, k, xs[0])| then 1 + Due(f, k, xs[1..], n - |FrameOf(f, k, xs[0])|)
    else if n > SIZE && n >= SIZE + |xs[0].payload| then 1
    else 0
  }

  /** A body read that is cut short: the frame's payload or nothing, and its payload for sure once the
      payload bytes (and one body byte) are in; whatever stale bytes the buffer held behind them. */
  lemma ReadsCutBody(f: Cipher, k: Key, xs: seq<Sent>, i: nat, b: Buffer, out: seq<Bytes>, part: Bytes)
    requires Separable(xs) && OnlySealed(f, k, xs) && i < |xs|
    requires Head(b) == HeaderOf(f, k, xs[i]).(lengths := EncodeLengths(LengthsOf(xs[i])))
    requires part <= BodyOf(f, k, xs[i]) && |part| < BodySize(xs[i])
    ensures var got := Finish(f, k, Feed(f, k, Reader(b, InBody(BodySize(xs[i])), 0, out), part));
            && (got == out || got == out + [xs[i].payload])
            && (0 < |part| && |xs[i].payload| <= |part| ==> got == out + [xs[i].payload])
  {
    var x := xs[i];
    var a := Undamaged(f, k, x);
    var r := Reader(b, InBody(BodySize(x)), 0, out);
    FeedShort(f, k, r, part);
    var cut := Splice(b, SIZE, part);
    assert Filled(r, part) == cut;
    SpliceArea(b, part);
    PayloadUnder(f, k, cut, a);
    PayloadIsGenuine(f, k, xs, i, a.tag, cut[SIZE..]);
    if |x.payload| <= |part| {
      var c := SealedPayload(f, k, x).cipher;
      assert part[..|c|] == BodyOf(f, k, x)[..|c|] == c;
      assert cut[SIZE..][..|c|] == part[..|c|];
    }
  }

  /** The header of a frame that is cut after it. */
  lemma CutAfterHeader(f: Cipher, k: Key, x: Sent, part: Bytes)
    requires Sendable(x) && SIZE <= |part| && part <= FrameOf(f, k, x)
    ensures part == Encode(ArrivalHeader(f, k, Undamaged(f, k, x))) + part[SIZE..]
    ensures part[SIZE..] <= BodyOf(f, k, x)
    ensures ArrivalHeader(f, k, Undamaged(f, k, x)) == HeaderOf(f, k, x)
  {
    var frame, body := FrameOf(f, k, x), BodyOf(f, k, x);
    assert part == frame[..|part|];
    assert frame[SIZE..] == body;
    assert part[SIZE..] == body[..|part| - SIZE];
  }

  lemma CutInHeader(f: Cipher, k: Key, r: Reader, part: Bytes)
    requires r.stage == InHeader && r.have == 0 && |part| < SIZE
    ensures Finish(f, k, Feed(f, k, r, part)) == r.out
  {
    FeedShort(f, k, r, part);
  }

  /** A last frame of which only the first bytes arrive. */
  lemma ReadsCutFrame(f: Cipher, k: Key, xs: seq<Sent>, i: nat, r: Reader, part: Bytes)
    requires Separable(xs) && OnlySealed(f, k, xs) && i < |xs|
    requires r.stage == InHeader && r.have == 0
    requires part <= FrameOf(f, k, xs[i]) && |part| < |FrameOf(f, k, xs[i])|
    ensures var got := Finish(f, k, Feed(f, k, r, part));
            && (got == r.out || got == r.out + [xs[i].payload])
            && (SIZE < |part| && SIZE + |xs[i].payload| <= |part| ==> got == r.out + [xs[i].payload])
  {
    SizeWindow(f, k, xs[i]);
    assert Sendable(xs[i]);
    hide *;
    if |part| < SIZE {
      CutInHeader(f, k, r, part);
    } else {
      OnlySealedOpens(f, k, xs, i);
      CutAfterHeader(f, k, xs[i], part);
      var b := ReadsHeader(f, k, r, Undamaged(f, k, xs[i]), part[SIZE..]);
      ReadsCutBody(f, k, xs, i, b, r.out, part[SIZE..]);
    }
  }

  /** Taking the first frame off a stream that is cut after `n` bytes. */
  lemma CutStep(f: Cipher, k: Key, xs: seq<Sent>, n: nat)
    requires AllSendable(xs) && xs != [] && n <= |StreamOf(f, k, xs)|
    ensures Sendable(xs[0]) && AllSendable(xs[1..])
    ensures var frame, s := FrameOf(f, k, xs[0]), StreamOf(f, k, xs);
            && (n < |frame| ==>
                  && s[..n] == frame[..n]
                  && Due(f, k, xs, n) == if n > SIZE && n >= SIZE + |xs[0].payload| then 1 else 0)
            && (n >= |frame| ==>
                  && n - |frame| <= |StreamOf(f, k, xs[1..])|
                  && s[..n] == Wire(f, k, Undamaged(f, k, xs[0])) + StreamOf(f, k, xs[1..])[..n - |frame|]
                  && Due(f, k, xs, n) == 1 + Due(f, k, xs[1..], n - |frame|))
  {
    var frame, more := FrameOf(f, k, xs[0]), StreamOf(f, k, xs[1..]);
    assert StreamOf(f, k, xs) == frame + more;
  }

  /** The cut falls within the first frame. */
  lemma EndsInFirst(f: Cipher, k: Key, all: seq<Sent>, xs: seq<Sent>, r: Reader, n: nat) returns (j: nat)
    requires Separable(all) && OnlySealed(f, k, all) && AllSendable(xs) && xs != [] && xs[0] in all
    requires r.stage == InHeader && r.have == 0
    requires n < |FrameOf(f, k, xs[0])| && n <= |StreamOf(f, k, xs)|
    ensures Due(f, k, xs, n) <= j <= Due(f, k, xs, n) + 1 && j <= |xs|
    ensures Finish(f, k, Feed(f, k, r, StreamOf(f, k, xs)[..n])) == r.out + Payloads(xs[..j])
  {
    var i :| 0 <= i < |all| && all[i] == xs[0];
    hide *;
    CutStep(f, k, xs, n);
    var part := FrameOf(f, k, xs[0])[..n];
    ReadsCutFrame(f, k, all, i, r, part);
    FirstPayloads(r.out, xs);
    j := if Finish(f, k, Feed(f, k, r, part)) == r.out then 0 else 1;
  }

  /** The first frame is complete: it is one round, and the rest of the stream follows. */
  lemma ReadsFirst(f: Cipher, k: Key, all: seq<Sent>, xs: seq<Sent>, r: Reader, n: nat) returns (b: Buffer)
    requires Separable(all) && OnlySealed(f, k, all) && AllSendable(xs) && xs != [] && xs[0] in all
    requires r.stage == InHeader && r.have == 0
    requires |FrameOf(f, k, xs[0])| <= n <= |StreamOf(f, k, xs)|
    ensures AllSendable(xs[1..]) && n - |FrameOf(f, k, xs[0])| <= |StreamOf(f, k, xs[1..])|
    ensures Due(f, k, xs, n) == 1 + Due(f, k, xs[1..], n - |FrameOf(f, k, xs[0])|)
    ensures Feed(f, k, r, StreamOf(f, k, xs)[..n])
            == Feed(f, k, Reader(b, InHeader, 0, r.out + [xs[0].payload]),
                    StreamOf(f, k, xs[1..])[..n - |FrameOf(f, k, xs[0])|])
  {
    var i :| 0 <= i < |all| && all[i] == xs[0];
    hide *;
    CutStep(f, k, xs, n);
    OnlySealedOpens(f, k, all, i);
    ReceivesWhole(f, k, xs[0]);
    b := ReadsArrival(f, k, r, Undamaged(f, k, xs[0]), StreamOf(f, k, xs[1..])[..n - |FrameOf(f, k, xs[0])|]);
  }

  /** End of stream: a connection cut at any byte delivers a prefix of the payloads sent, and that prefix
      holds every frame whose payload is complete, padding cut short or not; whatever the buffer held.
      `all` is everything sealed under the key. */
  lemma {:induction false} EndOfStream(f: Cipher, k: Key, all: seq<Sent>, xs: seq<Sent>, r: Reader, n: nat)
      returns (j: nat)
    requires Separable(all) && OnlySealed(f, k, all) && AllSendable(xs) && forall i | 0 <= i < |xs| :: xs[i] in all
    requires r.stage == InHeader && r.have == 0
    requires n <= |StreamOf(f, k, xs)|
    ensures Due(f, k, xs, n) <= j <= Due(f, k, xs, n) + 1 && j <= |xs|
    ensures Finish(f, k, Feed(f, k, r, StreamOf(f, k, xs)[..n])) == r.out + Payloads(xs[..j])
    decreases |xs|
  {
    hide *;
    if xs == [] {
      EmptyStream(f, k, xs, r);
      j := 0;
      return;
    }
    CutStep(f, k, xs, n);
    if n < |FrameOf(f, k, xs[0])| {
      j := EndsInFirst(f, k, all, xs, r, n);
    } else {
      var b := ReadsFirst(f, k, all, xs, r, n);
      j := EndOfStream(f, k, all, xs[1..], Reader(b, InHeader, 0, r.out + [xs[0].payload]), n - |FrameOf(f, k, xs[0])|);
      PayloadsStep(r.out, xs[..j + 1]);
      assert xs[..j + 1][1..] == xs[1..][..j];
      j := j + 1;
    }
  }

  lemma EmptyStream(f: Cipher, k: Key, xs: seq<Sent>, r: Reader)
    requires xs == [] && r.stage == InHeader && r.have == 0
    ensures AllSendable(xs) && StreamOf(f, k, xs) == [] && Due(f, k, xs, 0) == 0
    ensures Ready(r) && Finish(f, k, Feed(f, k, r, [])) == r.out == r.out + Payloads(xs[..0])
  {
  }

  lemma FirstPayloads(out: seq<Bytes>, xs: seq<Sent>)
    requires xs != []
    ensures out + Payloads(xs[..0]) == out && Payloads(xs[..1]) == [xs[0].payload]
  {
  }
}
