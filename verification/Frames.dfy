/**
 The dsvpn frame as a byte string: what the sender's EncryptPayload and EncryptHeader
 (connection/Protocol.cpp) put on the wire, and what the receiver's DecryptHeader and
 DecryptPayload make of any bytes at all.
 */
module Frames {
  import opened ByteStrings
  import opened Aead
  import opened ProtocolHeader

  const MAX_BUFFSIZE: nat := 1500
  const OBF_THRESHOLD: nat := 250
  const OBF_MINPADDLE: nat := 250
  const OBF_MAXPADDLE: nat := 700

  /** The random draws of one EncryptPayload call. */
  datatype Draw = Draw(nonce: Nonce, padding: Bytes)

  /** A payload as handed to a sender, with the draws made for it. */
  datatype Sent = Sent(draw: Draw, payload: Bytes)

  predicate InRange(d: Draw) {
    OBF_MINPADDLE <= |d.padding| <= OBF_MAXPADDLE
  }

  predicate Sendable(x: Sent) {
    |x.payload| <= MAX_BUFFSIZE && InRange(x.draw)
  }

  function Padding(x: Sent): Bytes {
    if |x.payload| > OBF_THRESHOLD then [] else x.draw.padding
  }

  function LengthsOf(x: Sent): Lengths {
    Lengths(|x.payload|, |Padding(x)|)
  }

  /** EncryptHeader's uint32 sum, and the 0 that DecryptHeader returns on failure. */
  function Announced(l: Lengths): nat
    requires l.payload < U32 && l.padding < U32
  {
    Add32(l.payload, l.padding)
  }

  /** The number of body bytes that follow the header on the wire. */
  function BodySize(x: Sent): nat {
    |x.payload| + |Padding(x)|
  }

  function SealedLengths(f: Cipher, k: Key, x: Sent): (s: Sealed)
    requires Sendable(x)
    ensures |s.cipher| == LENGTHS_BYTES
  {
    f.seal(k, x.draw.nonce, EncodeLengths(LengthsOf(x)))
  }

  function SealedPayload(f: Cipher, k: Key, x: Sent): (s: Sealed)
    ensures |s.cipher| == |x.payload|
  {
    f.seal(k, x.draw.nonce, x.payload)
  }

  function HeaderOf(f: Cipher, k: Key, x: Sent): (h: Header)
    requires Sendable(x)
    ensures |h.lengths| == LENGTHS_BYTES
  {
    var s := SealedLengths(f, k, x);
    Header(x.draw.nonce, s.tag, SealedPayload(f, k, x).tag, s.cipher)
  }

  function BodyOf(f: Cipher, k: Key, x: Sent): Bytes {
    SealedPayload(f, k, x).cipher + Padding(x)
  }

  function FrameOf(f: Cipher, k: Key, x: Sent): Bytes
    requires Sendable(x)
  {
    Encode(HeaderOf(f, k, x)) + BodyOf(f, k, x)
  }

  /** Payload plus padding lies in [250, 1500]: the uint32 sum never wraps, is never the 0 that
      means failure, and is the exact size of the body on the wire. */
  lemma SizeWindow(f: Cipher, k: Key, x: Sent)
    requires Sendable(x)
    ensures 250 <= Announced(LengthsOf(x)) <= 1500
    ensures Announced(LengthsOf(x)) == BodySize(x) == |BodyOf(f, k, x)|
    ensures |FrameOf(f, k, x)| == SIZE + BodySize(x)
    ensures |x.payload| <= MAX_BUFFSIZE - SIZE ==> |FrameOf(f, k, x)| <= MAX_BUFFSIZE
  {
  }

  /** Padding goes behind a payload of at most 250 bytes and no other: 250 to 700 bytes of it. */
  lemma PaddedIff(x: Sent)
    requires Sendable(x)
    ensures |x.payload| < BodySize(x) <==> |x.payload| <= 250
    ensures |x.payload| < BodySize(x) ==> 250 <= BodySize(x) - |x.payload| <= 700
  {
  }

  /** Where things lie in a frame, byte by byte: the nonce, the tag of the lengths, the tag of the payload, the
      sealed lengths, the sealed payload, the padding in the clear. */
  lemma FrameLayout(f: Cipher, k: Key, x: Sent)
    requires Sendable(x)
    ensures var frame := FrameOf(f, k, x);
            var l, p := f.seal(k, x.draw.nonce, EncodeLengths(LengthsOf(x))), f.seal(k, x.draw.nonce, x.payload);
            && |frame| == SIZE + BodySize(x)
            && frame[0..12] == x.draw.nonce && frame[12..28] == l.tag && frame[28..44] == p.tag
            && frame[44..52] == l.cipher && frame[52..52 + |x.payload|] == p.cipher
            && (|x.payload| <= 250 ==> frame[52 + |x.payload|..] == x.draw.padding)
  {
  }

  /** The lengths as they are sealed: payload, then padding, each with its least significant byte first. */
  lemma LengthsAreLittleEndian(x: Sent)
    requires Sendable(x)
    ensures var t := EncodeLengths(LengthsOf(x));
            && |t| == 8 && t[0] as nat == |x.payload| % 256 && t[1] as nat == |x.payload| / 256 && t[2..4] == [0, 0]
            && t[4] as nat == |Padding(x)| % 256 && t[5] as nat == |Padding(x)| / 256 && t[6..8] == [0, 0]
    ensures |x.payload| < 256 ==> EncodeLengths(LengthsOf(x))[..4] == [|x.payload| as byte, 0, 0, 0]
  {
    LittleEndianTwo(|x.payload|);
    LittleEndianTwo(|Padding(x)|);
    var t := EncodeLengths(LengthsOf(x));
    assert t[..4] == Le32(|x.payload|) && t[4..] == Le32(|Padding(x)|);
    assert t[2..4] == t[..4][2..4] && t[6..8] == t[4..][2..4];
    if |x.payload| < 256 {
      SmallNumber(|x.payload|);
    }
  }

  /** A payload of 100 bytes, under the stand-in cipher: its length as it lies in the frame. */
  lemma HundredBytes(f: Cipher, k: Key, x: Sent)
    requires f == STAND_IN && Sendable(x) && |x.payload| == 100
    ensures 48 <= |FrameOf(f, k, x)| && FrameOf(f, k, x)[44..48] == [100, 0, 0, 0]
  {
    FrameLayout(f, k, x);
    LengthsAreLittleEndian(x);
    assert FrameOf(f, k, x)[44..48] == FrameOf(f, k, x)[44..52][..4];
  }

  lemma LittleEndianTwo(n: nat)
    requires n < 65536
    ensures Le32(n)[0] as nat == n % 256 && Le32(n)[1] as nat == n / 256 && Le32(n)[2..4] == [0, 0]
  {
    LowByteFirst(n);
    LowByteFirst(n / 256);
    SmallNumber(n / 256);
  }

  /** DecryptHeader's decision on a header: the decoded lengths, or nothing. */
  function OpenHeader(f: Cipher, k: Key, h: Header): (r: Option<Lengths>)
    requires |h.lengths| == LENGTHS_BYTES
    ensures r.Some? ==> r.value.payload < U32 && r.value.padding < U32
  {
    match f.open(k, h.nonce, h.lengths, h.lenTag)
    case None => None
    case Some(plain) => Some(DecodeLengths(plain))
  }

  /** The number DecryptHeader returns. */
  function HeaderTotal(f: Cipher, k: Key, h: Header): (n: nat)
    requires |h.lengths| == LENGTHS_BYTES
    ensures n < U32
  {
    match OpenHeader(f, k, h)
    case None => 0
    case Some(l) => Announced(l)
  }

  /** DecryptPayload's decision, once the lengths are known; `area` is the buffer from byte 52 on. */
  function OpenPayload(f: Cipher, k: Key, n: Nonce, t: Tag, len: nat, area: Bytes): (r: Option<Bytes>)
    requires MAX_BUFFSIZE <= |area|
    ensures r.Some? ==> |r.value| == len <= MAX_BUFFSIZE
  {
    if len > MAX_BUFFSIZE then None else f.open(k, n, area[..len], t)
  }

  /** Both decryptions in a row on a received buffer, as UDP does them. */
  function OpenBuffer(f: Cipher, k: Key, b: Bytes): (r: Option<Bytes>)
    requires SIZE + MAX_BUFFSIZE <= |b|
    ensures r.Some? ==> |r.value| <= MAX_BUFFSIZE
  {
    var h := Head(b);
    match OpenHeader(f, k, h)
    case None => None
    case Some(l) =>
      if Announced(l) == 0 then None else OpenPayload(f, k, h.nonce, h.payloadTag, l.payload, b[SIZE..])
  }

  /** The receiver's cipher opens what the sender of `x` sealed. */
  ghost predicate Opens(f: Cipher, k: Key, x: Sent)
    requires Sendable(x)
  {
    var l, p := SealedLengths(f, k, x), SealedPayload(f, k, x);
    && f.open(k, x.draw.nonce, l.cipher, l.tag) == Some(EncodeLengths(LengthsOf(x)))
    && f.open(k, x.draw.nonce, p.cipher, p.tag) == Some(x.payload)
  }

  lemma LawfulOpens(f: Cipher, k: Key, x: Sent)
    requires Lawful(f) && Sendable(x)
    ensures Opens(f, k, x)
  {
  }

  /** The two entries one frame adds to the log of sealed texts. */
  function LengthsEntry(f: Cipher, k: Key, x: Sent): Entry
    requires Sendable(x)
  {
    var s := SealedLengths(f, k, x);
    Entry(x.draw.nonce, EncodeLengths(LengthsOf(x)), s.cipher, s.tag)
  }

  function PayloadEntry(f: Cipher, k: Key, x: Sent): Entry {
    var s := SealedPayload(f, k, x);
    Entry(x.draw.nonce, x.payload, s.cipher, s.tag)
  }

  ghost predicate AllSendable(xs: seq<Sent>) {
    forall i | 0 <= i < |xs| :: Sendable(xs[i])
  }

  function LogOf(f: Cipher, k: Key, xs: seq<Sent>): set<Entry>
    requires AllSendable(xs)
  {
    (set i | 0 <= i < |xs| :: LengthsEntry(f, k, xs[i])) + (set i | 0 <= i < |xs| :: PayloadEntry(f, k, xs[i]))
  }

  /** No nonce drawn twice, and no payload of exactly 8 bytes: lengths and payload are sealed under
      one key and nonce with no associated data, so only their lengths tell the two apart. */
  ghost predicate Separable(xs: seq<Sent>) {
    && AllSendable(xs)
    && (forall i, j | 0 <= i < |xs| && 0 <= j < |xs| && xs[i].draw.nonce == xs[j].draw.nonce :: i == j)
    && (forall i | 0 <= i < |xs| :: |xs[i].payload| != LENGTHS_BYTES)
  }

  /** The only sealed texts that open are those of the frames `xs`. */
  ghost predicate OnlySealed(f: Cipher, k: Key, xs: seq<Sent>)
    requires AllSendable(xs)
  {
    Ideal(f, k, LogOf(f, k, xs))
  }

  lemma OnlySealedOpens(f: Cipher, k: Key, xs: seq<Sent>, i: nat)
    requires AllSendable(xs) && OnlySealed(f, k, xs) && i < |xs|
    ensures Opens(f, k, xs[i])
  {
    assert LengthsEntry(f, k, xs[i]) in LogOf(f, k, xs);
    assert PayloadEntry(f, k, xs[i]) in LogOf(f, k, xs);
  }

  /** Why 8 is excluded: the sealed text of an 8-byte payload, put where the lengths go, opens as lengths. */
  lemma EightBytesOpenAsLengths(f: Cipher, k: Key, x: Sent, t: Tag)
    requires Sendable(x) && Opens(f, k, x) && |x.payload| == LENGTHS_BYTES
    ensures var s := SealedPayload(f, k, x);
            OpenHeader(f, k, Header(x.draw.nonce, s.tag, t, s.cipher)) == Some(DecodeLengths(x.payload))
  {
    assert |SealedPayload(f, k, x).cipher| == LENGTHS_BYTES;
  }

  /** A set of separable frames always has a cipher under which only they open. */
  lemma OnlySealedIsRealizable(f: Cipher, k: Key, xs: seq<Sent>) returns (g: Cipher)
    requires Separable(xs)
    ensures OnlySealed(g, k, xs) && g.seal == f.seal
  {
    var log := LogOf(f, k, xs);
    forall e | e in log ensures |e.text| == |e.cipher| {
    }
    g := IdealIsRealizable(f, k, log);
    assert LogOf(g, k, xs) == log by {
      forall i | 0 <= i < |xs|
        ensures LengthsEntry(g, k, xs[i]) == LengthsEntry(f, k, xs[i])
        ensures PayloadEntry(g, k, xs[i]) == PayloadEntry(f, k, xs[i])
      {
      }
    }
  }

  /** A header that opens is the header of a frame some sender sealed, never a payload in its place. */
  lemma HeaderIsGenuine(f: Cipher, k: Key, xs: seq<Sent>, h: Header) returns (i: nat)
    requires Separable(xs) && OnlySealed(f, k, xs)
    requires |h.lengths| == LENGTHS_BYTES && OpenHeader(f, k, h).Some?
    ensures i < |xs| && OpenHeader(f, k, h).value == LengthsOf(xs[i])
    ensures h == HeaderOf(f, k, xs[i]).(payloadTag := h.payloadTag)
  {
    var e := Entry(h.nonce, f.open(k, h.nonce, h.lengths, h.lenTag).value, h.lengths, h.lenTag);
    assert e in LogOf(f, k, xs);
    i :| 0 <= i < |xs| && (e == LengthsEntry(f, k, xs[i]) || e == PayloadEntry(f, k, xs[i]));
    DecodeOfEncodeLengths(LengthsOf(xs[i]));
  }

  /** Under the header of frame `i`, the only bytes DecryptPayload accepts are that frame's own. */
  lemma PayloadIsGenuine(f: Cipher, k: Key, xs: seq<Sent>, i: nat, t: Tag, area: Bytes)
    requires Separable(xs) && OnlySealed(f, k, xs) && i < |xs| && MAX_BUFFSIZE <= |area|
    ensures var r := OpenPayload(f, k, xs[i].draw.nonce, t, |xs[i].payload|, area);
            var s := SealedPayload(f, k, xs[i]);
            && (r.Some? <==> t == s.tag && s.cipher <= area)
            && (r.Some? ==> r.value == xs[i].payload)
  {
    OnlySealedOpens(f, k, xs, i);
    var r := OpenPayload(f, k, xs[i].draw.nonce, t, |xs[i].payload|, area);
    if r.Some? {
      var e := Entry(xs[i].draw.nonce, r.value, area[..|xs[i].payload|], t);
      assert e in LogOf(f, k, xs);
      var j :| 0 <= j < |xs| && (e == LengthsEntry(f, k, xs[j]) || e == PayloadEntry(f, k, xs[j]));
      assert j == i;
    }
    var s := SealedPayload(f, k, xs[i]);
    if s.cipher <= area {
      assert area[..|xs[i].payload|] == s.cipher;
    }
  }

  /**
   No fabrication, and tolerance of truncation, for any buffer at all (spliced, replayed, cut,
   arbitrary, with any stale bytes in it): the receiver accepts payload `p` exactly when the
   buffer starts with the header and cipher text of a frame whose payload is `p`. The padding
   plays no part.
   */
  lemma AcceptsExactlyGenuine(f: Cipher, k: Key, xs: seq<Sent>, b: Bytes, p: Bytes)
    requires Separable(xs) && OnlySealed(f, k, xs) && SIZE + MAX_BUFFSIZE <= |b|
    ensures OpenBuffer(f, k, b) == Some(p) <==>
            exists i :: 0 <= i < |xs| && xs[i].payload == p && FrameOf(f, k, xs[i])[..SIZE + |p|] <= b
  {
    EncodeOfHead(b);
    if OpenBuffer(f, k, b) == Some(p) {
      var i := HeaderIsGenuine(f, k, xs, Head(b));
      PayloadIsGenuine(f, k, xs, i, Head(b).payloadTag, b[SIZE..]);
      GenuinePrefix(f, k, xs[i], b);
    }
    if i :| 0 <= i < |xs| && xs[i].payload == p && FrameOf(f, k, xs[i])[..SIZE + |p|] <= b {
      OnlySealedOpens(f, k, xs, i);
      GenuinePrefix(f, k, xs[i], b);
      OpensGenuine(f, k, xs[i], b);
    }
  }

  /** At most one frame can be behind an accepted buffer. */
  lemma GenuineIsUnique(f: Cipher, k: Key, xs: seq<Sent>, b: Bytes, i: nat, j: nat)
    requires Separable(xs) && i < |xs| && j < |xs|
    requires FrameOf(f, k, xs[i])[..SIZE] <= b && FrameOf(f, k, xs[j])[..SIZE] <= b
    ensures i == j
  {
    EncodeOfHead(FrameOf(f, k, xs[i]));
    EncodeOfHead(FrameOf(f, k, xs[j]));
    HeadOfEncode(HeaderOf(f, k, xs[i]), BodyOf(f, k, xs[i]));
    HeadOfEncode(HeaderOf(f, k, xs[j]), BodyOf(f, k, xs[j]));
    assert FrameOf(f, k, xs[i])[..SIZE] == b[..SIZE] == FrameOf(f, k, xs[j])[..SIZE];
  }

  /** A buffer starts with a frame up to its padding iff it shows that header and that cipher text. */
  lemma GenuinePrefix(f: Cipher, k: Key, x: Sent, b: Bytes)
    requires Sendable(x) && SIZE + |x.payload| <= |b|
    ensures FrameOf(f, k, x)[..SIZE + |x.payload|] <= b <==>
            Head(b) == HeaderOf(f, k, x) && SealedPayload(f, k, x).cipher <= b[SIZE..]
  {
    var h, c := HeaderOf(f, k, x), SealedPayload(f, k, x).cipher;
    var front := FrameOf(f, k, x)[..SIZE + |x.payload|];
    assert front == Encode(h) + c;
    EncodeOfHead(b);
    HeadOfEncode(h, c);
    if front <= b {
      assert b[..SIZE] == front[..SIZE] == Encode(h);
      HeadOfEncode(h, b[SIZE..]);
      assert b == Encode(h) + b[SIZE..];
      assert b[SIZE..][..|c|] == b[..SIZE + |c|][SIZE..] == front[SIZE..] == c;
    }
    if Head(b) == h && c <= b[SIZE..] {
      assert b[..SIZE + |c|] == b[..SIZE] + b[SIZE..][..|c|];
    }
  }

  /** Round trip of one frame, whatever follows its cipher text in the buffer. */
  lemma OpensGenuine(f: Cipher, k: Key, x: Sent, b: Bytes)
    requires Sendable(x) && Opens(f, k, x) && SIZE + MAX_BUFFSIZE <= |b|
    requires Head(b) == HeaderOf(f, k, x) && SealedPayload(f, k, x).cipher <= b[SIZE..]
    ensures OpenHeader(f, k, Head(b)) == Some(LengthsOf(x))
    ensures OpenBuffer(f, k, b) == Some(x.payload)
  {
    DecodeOfEncodeLengths(LengthsOf(x));
    SizeWindow(f, k, x);
    var c := SealedPayload(f, k, x).cipher;
    assert b[SIZE..][..|c|] == c;
  }
}
