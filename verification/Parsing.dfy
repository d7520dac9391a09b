/**
 What the read loop of connection/TCPConnection.h makes of a peer's bytes, on values alone: no buffer, and
 so no stale bytes. It agrees with the reader of `Streams` as long as no header that opens announces a
 payload longer than payload and padding together, which only a sum beyond 32 bits can bring about.
*/
module Parsing {
  import opened ByteStrings
  import opened Aead
  import opened ProtocolHeader
  import opened Frames
  import opened Protocols
  import opened Streams
  import opened Selection

  /** The bytes behind `n` body bytes, as far as DecryptPayload may look. */
  function Behind(b: Buffer, n: nat): (stale: Bytes)
    requires SIZE + n <= BUFFER_SIZE
    ensures |stale| == MAX_BUFFSIZE
  {
    (b[SIZE + n..] + Zeros(MAX_BUFFSIZE))[..MAX_BUFFSIZE]
  }

  /** DecryptPayload on the buffer sees the body bytes read and the stale bytes behind them. */
  lemma DecryptsInPlace(f: Cipher, k: Key, b: Buffer, h: Header, len: nat, inbox: Bytes, n: nat)
    requires SIZE + n <= BUFFER_SIZE && n <= |inbox|
    requires Holds(b, h, len)
    ensures PayloadIn(f, k, Splice(b, SIZE, inbox[..n])) == Decrypted(f, k, h, len, inbox, n, Behind(b, n))
  {
    var body := inbox[..n];
    SpliceArea(b, body);
    var area, other := Splice(b, SIZE, body)[SIZE..], body + Behind(b, n);
    if len <= MAX_BUFFSIZE {
      assert area[..len] == other[..len];
    }
  }

  /** The buffer holds a header whose lengths have been decrypted. */
  ghost predicate Holds(b: Buffer, h: Header, len: nat) {
    && Head(b).nonce == h.nonce && Head(b).payloadTag == h.payloadTag
    && DecodeLengths(Head(b).lengths).payload == len
  }

  /** DecryptHeader in place on 52 bytes that were read. */
  lemma HeaderInPlace(f: Cipher, k: Key, b: Buffer, inbox: Bytes)
    requires SIZE <= |inbox|
    ensures var full := Splice(b, 0, inbox[..SIZE]);
            && Head(full) == Head(inbox)
            && (HeaderTotal(f, k, Head(inbox)) != 0 ==>
                  Holds(HeaderDecrypted(f, k, full), Head(inbox), PlainLength(f, k, Head(inbox))))
  {
    var full := Splice(b, 0, inbox[..SIZE]);
    assert full == inbox[..SIZE] + b[SIZE..];
    assert Head(full) == Head(inbox);
    if OpenHeader(f, k, Head(full)).Some? {
      var l := OpenHeader(f, k, Head(full)).value;
      HeadOfEncode(Head(full).(lengths := EncodeLengths(l)), full[SIZE..]);
      DecodeOfEncodeLengths(l);
    }
  }

  /** What DecryptPayload makes of a whole body. */
  function Opened(f: Cipher, k: Key, h: Header, len: nat, body: Bytes): seq<Bytes> {
    match Decrypted(f, k, h, len, body, |body|, Zeros(MAX_BUFFSIZE))
    case None => []
    case Some(p) => [p]
  }

  /** The packets in a stream, read from the start of a round. */
  function Parsed(f: Cipher, k: Key, s: Bytes): seq<Bytes>
    decreases |s|
  {
    if |s| < SIZE then []
    else
      var h := Head(s);
      var total := HeaderTotal(f, k, h);
      if total == 0 then Parsed(f, k, s[SIZE..])
      else if total > BODY_ROOM then []
      else ParsedBody(f, k, h, PlainLength(f, k, h), total, s[SIZE..])
  }

  /** The packets in a stream, read from the start of a body. */
  function ParsedBody(f: Cipher, k: Key, h: Header, len: nat, total: nat, s: Bytes): seq<Bytes>
    requires 0 < total
    decreases |s|
  {
    if |s| < total then []
    else Opened(f, k, h, len, s[..total]) + Parsed(f, k, s[total..])
  }

  /** No header that the reader meets announces more payload than there is body. */
  predicate Sane(f: Cipher, k: Key, s: Bytes)
    decreases |s|
  {
    |s| < SIZE
    || (var h := Head(s);
        var total := HeaderTotal(f, k, h);
        if total == 0 then Sane(f, k, s[SIZE..])
        else PlainLength(f, k, h) <= total && (SIZE + total <= |s| ==> Sane(f, k, s[SIZE..][total..])))
  }

  /** A whole body's fate does not depend on the stale bytes behind it. */
  lemma OpenedWhole(f: Cipher, k: Key, h: Header, len: nat, inbox: Bytes, total: nat, stale: Bytes)
    requires len <= total <= |inbox| && |stale| == MAX_BUFFSIZE
    ensures Opened(f, k, h, len, inbox[..total])
            == match Decrypted(f, k, h, len, inbox, total, stale) case None => [] case Some(p) => [p]
  {
    var body := inbox[..total];
    if len <= MAX_BUFFSIZE {
      assert (body[..total] + Zeros(MAX_BUFFSIZE))[..len] == body[..len] == (body + stale)[..len];
    }
  }

  /** The reader, from the start of a round, returns exactly the packets parsed, over any buffer. */
  lemma {:induction false} ReaderParses(f: Cipher, k: Key, r: Reader, s: Bytes)
    requires r.stage == InHeader && r.have == 0 && Sane(f, k, s)
    ensures Feed(f, k, r, s).out == r.out + Parsed(f, k, s)
    decreases |s|, 1
  {
    hide Feed, Completed, Filled, Head, HeaderTotal, PlainLength, Holds, HeaderDecrypted, ParsedBody;
    if |s| < SIZE {
      FeedShort(f, k, r, s);
    } else {
      var next := HeaderFed(f, k, r, s);
      var h := Head(s);
      var total := HeaderTotal(f, k, h);
      if total == 0 {
        ReaderParses(f, k, next, s[SIZE..]);
      } else if total > BODY_ROOM {
        OverrunStays(f, k, next, s[SIZE..]);
      } else {
        ReaderParsesBody(f, k, next, h, PlainLength(f, k, h), total, s[SIZE..]);
      }
    }
  }

  lemma OverrunStays(f: Cipher, k: Key, r: Reader, s: Bytes)
    requires r.stage == Overrun && Ready(r)
    ensures Feed(f, k, r, s) == r
  {
  }

  /** The first round's header. */
  lemma HeaderFed(f: Cipher, k: Key, r: Reader, s: Bytes) returns (next: Reader)
    requires r.stage == InHeader && r.have == 0 && SIZE <= |s|
    ensures Ready(next) && Feed(f, k, r, s) == Feed(f, k, next, s[SIZE..])
    ensures next == Reader(next.buf, NextStage(HeaderTotal(f, k, Head(s))), 0, r.out)
    ensures HeaderTotal(f, k, Head(s)) != 0 ==> Holds(next.buf, Head(s), PlainLength(f, k, Head(s)))
  {
    HeaderInPlace(f, k, r.buf, s);
    hide Feed, Head, HeaderTotal, PlainLength, Holds, HeaderDecrypted;
    var full := Splice(r.buf, 0, s[..SIZE]);
    FeedLong(f, k, r, s[..SIZE], s[SIZE..]);
    assert s == s[..SIZE] + s[SIZE..];
    next := Completed(f, k, full, InHeader, r.out);
  }

  lemma {:induction false} ReaderParsesBody(f: Cipher, k: Key, r: Reader, h: Header, len: nat, total: nat, s: Bytes)
    requires r.stage == InBody(total) && r.have == 0 && 0 < total <= BODY_ROOM && len <= total && Holds(r.buf, h, len)
    requires total <= |s| ==> Sane(f, k, s[total..])
    ensures Feed(f, k, r, s).out == r.out + ParsedBody(f, k, h, len, total, s)
    decreases |s|, 0
  {
    hide Feed, Holds, Decrypted, Sane, Parsed;
    if |s| < total {
      FeedShort(f, k, r, s);
    } else {
      var next := BodyFed(f, k, r, h, len, total, s);
      ReaderParses(f, k, next, s[total..]);
    }
  }

  /** The first round's body. */
  lemma BodyFed(f: Cipher, k: Key, r: Reader, h: Header, len: nat, total: nat, s: Bytes) returns (next: Reader)
    requires r.stage == InBody(total) && r.have == 0 && 0 < total <= BODY_ROOM && len <= total <= |s|
    requires Holds(r.buf, h, len)
    ensures next == Reader(next.buf, InHeader, 0, r.out + Opened(f, k, h, len, s[..total]))
    ensures Feed(f, k, r, s) == Feed(f, k, next, s[total..])
  {
    DecryptsInPlace(f, k, r.buf, h, len, s, total);
    OpenedWhole(f, k, h, len, s, total, Behind(r.buf, total));
    hide Feed, Holds, Decrypted, Behind, PayloadIn, PayloadDecrypted, Opened;
    var full := Splice(r.buf, SIZE, s[..total]);
    FeedLong(f, k, r, s[..total], s[total..]);
    assert s == s[..total] + s[total..];
    next := Completed(f, k, full, r.stage, r.out);
  }

  /** If only senders of frames hold the key, every stream is sane. */
  lemma {:induction false} IdealIsSane(f: Cipher, k: Key, all: seq<Sent>, s: Bytes)
    requires Separable(all) && OnlySealed(f, k, all)
    ensures Sane(f, k, s)
    decreases |s|
  {
    hide OnlySealed, Head;
    if SIZE <= |s| {
      var h := Head(s);
      if OpenHeader(f, k, h).Some? {
        var i := HeaderIsGenuine(f, k, all, h);
        SizeWindow(f, k, all[i]);
      }
      var total := HeaderTotal(f, k, h);
      if total == 0 {
        IdealIsSane(f, k, all, s[SIZE..]);
      } else if SIZE + total <= |s| {
        IdealIsSane(f, k, all, s[SIZE..][total..]);
      }
    }
  }

  lemma FrameParses(f: Cipher, k: Key, x: Sent, rest: Bytes)
    requires Sendable(x) && Opens(f, k, x)
    ensures var s := FrameOf(f, k, x) + rest;
            && Parsed(f, k, s) == [x.payload] + Parsed(f, k, rest)
            && (Sane(f, k, rest) ==> Sane(f, k, s))
  {
    var h, body := HeaderOf(f, k, x), BodyOf(f, k, x);
    var s := FrameOf(f, k, x) + rest;
    assert s == Encode(h) + (body + rest);
    HeadOfEncode(h, body + rest);
    DecodeOfEncodeLengths(LengthsOf(x));
    SizeWindow(f, k, x);
    assert (body + rest)[..|body|] == body && (body + rest)[|body|..] == rest;
    var c := SealedPayload(f, k, x).cipher;
    assert (body[..|body|] + Zeros(MAX_BUFFSIZE))[..|c|] == c;
    assert Opened(f, k, h, |x.payload|, body) == [x.payload];
    hide Encode, FrameOf, BodyOf, HeaderOf, Opens, Opened;
  }

  /** A client's frames are sane, and parse to their payloads. */
  lemma {:induction false} StreamParses(f: Cipher, k: Key, xs: seq<Sent>)
    requires AllSendable(xs) && AllOpen(f, k, xs)
    ensures Sane(f, k, StreamOf(f, k, xs)) && Parsed(f, k, StreamOf(f, k, xs)) == Payloads(xs)
    decreases |xs|
  {
    hide FrameOf, Opens;
    if xs != [] {
      assert Sendable(xs[0]) && Opens(f, k, xs[0]);
      FrameParses(f, k, xs[0], StreamOf(f, k, xs[1..]));
      StreamParses(f, k, xs[1..]);
      PayloadsStep([], xs);
    }
  }
}
