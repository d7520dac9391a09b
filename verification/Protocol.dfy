/** The in-place frame codec of connection/Protocol.cpp, over a buffer and two scratch arrays. */
module Protocols {
  import opened ByteStrings
  import opened Aead
  import opened ProtocolHeader
  import opened Frames

  /** The size of tun_recv_buffer and conn_recv_buffer. */
  const BUFFER_SIZE: nat := MAX_BUFFSIZE + 500

  type Buffer = b: Bytes | |b| == BUFFER_SIZE witness Zeros(BUFFER_SIZE)

  /** The frame that a sender's buffer with `len` payload bytes at offset 52 stands for. */
  function Outgoing(b: Buffer, len: nat, draw: Draw): Sent
    requires len <= MAX_BUFFSIZE
  {
    Sent(draw, b[SIZE..SIZE + len])
  }

  /** The buffer once EncryptPayload is done with it. */
  function PayloadEncrypted(f: Cipher, k: Key, b: Buffer, draw: Draw): Buffer
    requires DecodeLengths(Head(b).lengths).payload <= MAX_BUFFSIZE && InRange(draw)
  {
    var len := DecodeLengths(Head(b).lengths).payload;
    var x := Outgoing(b, len, draw);
    var s := SealedPayload(f, k, x);
    var body := BodyOf(f, k, x);
    Encode(Header(draw.nonce, Head(b).lenTag, s.tag, EncodeLengths(Lengths(len, |Padding(x)|))))
    + body + b[SIZE + |body|..]
  }

  /** The buffer once EncryptHeader is done with it. */
  function HeaderEncrypted(f: Cipher, k: Key, b: Buffer): Buffer {
    var s := f.seal(k, Head(b).nonce, Head(b).lengths);
    Encode(Head(b).(lenTag := s.tag, lengths := s.cipher)) + b[SIZE..]
  }

  /** The buffer once DecryptHeader is done with it: untouched unless the lengths open. */
  function HeaderDecrypted(f: Cipher, k: Key, b: Buffer): Buffer {
    match OpenHeader(f, k, Head(b))
    case None => b
    case Some(l) => Encode(Head(b).(lengths := EncodeLengths(l))) + b[SIZE..]
  }

  /** DecryptPayload's verdict on a buffer whose lengths are already plain. */
  function PayloadIn(f: Cipher, k: Key, b: Buffer): Option<Bytes> {
    OpenPayload(f, k, Head(b).nonce, Head(b).payloadTag, DecodeLengths(Head(b).lengths).payload, b[SIZE..])
  }

  /** The buffer once DecryptPayload is done with it: untouched unless the payload opens. */
  function PayloadDecrypted(f: Cipher, k: Key, b: Buffer): Buffer {
    match PayloadIn(f, k, b)
    case None => b
    case Some(p) => Splice(b, SIZE, p)
  }

  /** A buffer with the payload length filled in and the padding length cleared, as every sender does first. */
  function Prepared(b: Buffer, len: nat): Buffer
    requires len < U32
  {
    Encode(Head(b).(lengths := EncodeLengths(Lengths(len, 0)))) + b[SIZE..]
  }

  /** A buffer prepared for its `len` payload bytes still holds them, and nothing else has changed. */
  lemma PreparedParts(b: Buffer, len: nat, draw: Draw)
    requires len <= MAX_BUFFSIZE
    ensures var p := Prepared(b, len);
            && DecodeLengths(Head(p).lengths) == Lengths(len, 0) && p[SIZE..] == b[SIZE..]
            && Outgoing(p, len, draw) == Outgoing(b, len, draw)
  {
    var p := Prepared(b, len);
    HeadOfEncode(Head(b).(lengths := EncodeLengths(Lengths(len, 0))), b[SIZE..]);
    DecodeOfEncodeLengths(Lengths(len, 0));
    assert p[SIZE..] == b[SIZE..];
    assert p[SIZE..SIZE + len] == p[SIZE..][..len] == b[SIZE..][..len] == b[SIZE..SIZE + len];
  }

  /** EncryptPayload on a prepared buffer: lengths and padding length plain, the frame's body in place. */
  lemma EncryptsBody(f: Cipher, k: Key, b: Buffer, len: nat, draw: Draw)
    requires len <= MAX_BUFFSIZE && InRange(draw)
    ensures var x, p := Outgoing(b, len, draw), Prepared(b, len);
            && DecodeLengths(Head(p).lengths) == Lengths(len, 0) && SIZE + BodySize(x) <= BUFFER_SIZE
            && PayloadEncrypted(f, k, p, draw)
               == Encode(Header(draw.nonce, Head(p).lenTag, SealedPayload(f, k, x).tag, EncodeLengths(LengthsOf(x))))
                  + (BodyOf(f, k, x) + b[SIZE + BodySize(x)..])
  {
    var x, p := Outgoing(b, len, draw), Prepared(b, len);
    PreparedParts(b, len, draw);
    SizeWindow(f, k, x);
    hide Prepared, Outgoing, BodyOf, Encode, Head, Padding;
    var body := BodyOf(f, k, x);
    assert p[SIZE + |body|..] == p[SIZE..][|body|..] == b[SIZE..][|body|..] == b[SIZE + |body|..];
  }

  /** Preparing, EncryptPayload and EncryptHeader lay out exactly the frame of the payload that was in
      the buffer, and change no byte beyond payload plus padding. */
  lemma EncryptsToFrame(f: Cipher, k: Key, b: Buffer, len: nat, draw: Draw)
    requires len <= MAX_BUFFSIZE && InRange(draw)
    ensures var x := Outgoing(b, len, draw);
            var p := Prepared(b, len);
            && DecodeLengths(Head(p).lengths) == Lengths(len, 0)
            && var q := PayloadEncrypted(f, k, p, draw);
            && DecodeLengths(Head(q).lengths) == LengthsOf(x)
            && HeaderEncrypted(f, k, q) == FrameOf(f, k, x) + b[SIZE + BodySize(x)..]
  {
    var x, p := Outgoing(b, len, draw), Prepared(b, len);
    EncryptsBody(f, k, b, len, draw);
    DecodeOfEncodeLengths(LengthsOf(x));
    hide Prepared, Outgoing, BodyOf, Encode, PayloadEncrypted, DecodeLengths;
    var rest := BodyOf(f, k, x) + b[SIZE + BodySize(x)..];
    var h := Header(draw.nonce, Head(p).lenTag, SealedPayload(f, k, x).tag, EncodeLengths(LengthsOf(x)));
    var q := PayloadEncrypted(f, k, p, draw);
    assert q == Encode(h) + rest;
    HeadOfEncode(h, rest);
    assert HeaderEncrypted(f, k, q) == Encode(HeaderOf(f, k, x)) + rest;
  }

  /** What the decrypt pair does to a buffer that starts with a genuine frame: same total, both length
      fields and the payload restored, nothing else changed. */
  lemma DecryptsFrame(f: Cipher, k: Key, x: Sent, rest: Bytes)
    requires Sendable(x) && Opens(f, k, x) && |FrameOf(f, k, x) + rest| == BUFFER_SIZE
    ensures var b := FrameOf(f, k, x) + rest;
            && HeaderTotal(f, k, Head(b)) == BodySize(x)
            && PayloadIn(f, k, HeaderDecrypted(f, k, b)) == Some(x.payload)
            && PayloadDecrypted(f, k, HeaderDecrypted(f, k, b))
               == Encode(HeaderOf(f, k, x).(lengths := EncodeLengths(LengthsOf(x)))) + x.payload + Padding(x) + rest
  {
    var h, c := HeaderOf(f, k, x), SealedPayload(f, k, x).cipher;
    var tail := BodyOf(f, k, x) + rest;
    assert FrameOf(f, k, x) + rest == Encode(h) + tail;
    assert tail[..|c|] == c && tail[|c|..] == Padding(x) + rest;
    DecryptsHeader(f, k, x, tail);
    var plain := h.(lengths := EncodeLengths(LengthsOf(x)));
    HeadOfEncode(plain, tail);
    DecodeOfEncodeLengths(LengthsOf(x));
    hide Encode, Padding, BodyOf, FrameOf, HeaderDecrypted, HeaderTotal, HeaderOf, DecodeLengths, EncodeLengths;
    assert (Encode(plain) + tail)[SIZE + |c|..] == tail[|c|..];
  }

  /** The header part: the lengths are opened in place, and the total is the size of the body. */
  lemma DecryptsHeader(f: Cipher, k: Key, x: Sent, tail: Bytes)
    requires Sendable(x) && Opens(f, k, x) && SIZE + |tail| == BUFFER_SIZE
    ensures var b := Encode(HeaderOf(f, k, x)) + tail;
            && HeaderTotal(f, k, Head(b)) == BodySize(x)
            && HeaderDecrypted(f, k, b)
               == Encode(HeaderOf(f, k, x).(lengths := EncodeLengths(LengthsOf(x)))) + tail
  {
    HeadOfEncode(HeaderOf(f, k, x), tail);
    DecodeOfEncodeLengths(LengthsOf(x));
    SizeWindow(f, k, x);
    hide Encode, Padding;
  }

  /** The codec round trip on one buffer: whatever the buffer held, after the encrypt pair and the
      decrypt pair the payload is back in place, the lengths are readable, and the bytes past payload
      plus padding were never touched. */
  lemma CodecRoundTrip(f: Cipher, k: Key, b: Buffer, len: nat, draw: Draw) returns (sent: Buffer, back: Buffer)
    requires Lawful(f) && len <= MAX_BUFFSIZE && InRange(draw)
    ensures DecodeLengths(Head(Prepared(b, len)).lengths).payload == len
    ensures sent == HeaderEncrypted(f, k, PayloadEncrypted(f, k, Prepared(b, len), draw))
    ensures back == PayloadDecrypted(f, k, HeaderDecrypted(f, k, sent))
    ensures HeaderTotal(f, k, Head(sent)) == BodySize(Outgoing(b, len, draw))
    ensures DecodeLengths(Head(back).lengths) == LengthsOf(Outgoing(b, len, draw))
    ensures back[SIZE..SIZE + len] == b[SIZE..SIZE + len]
    ensures var total := BodySize(Outgoing(b, len, draw));
            sent[SIZE + total..] == back[SIZE + total..] == b[SIZE + total..]
  {
    var x := Outgoing(b, len, draw);
    EncryptsToFrame(f, k, b, len, draw);
    LawfulOpens(f, k, x);
    SizeWindow(f, k, x);
    var total := BodySize(x);
    var rest := b[SIZE + total..];
    sent := FrameOf(f, k, x) + rest;
    DecryptsFrame(f, k, x, rest);
    back := PayloadDecrypted(f, k, HeaderDecrypted(f, k, sent));
    RestoredParts(back, HeaderOf(f, k, x).(lengths := EncodeLengths(LengthsOf(x))), x.payload, Padding(x), rest);
    DecodeOfEncodeLengths(LengthsOf(x));
    assert sent[SIZE + total..] == rest;
  }

  lemma RestoredParts(b: Buffer, h: Header, payload: Bytes, padding: Bytes, rest: Bytes)
    requires |h.lengths| == LENGTHS_BYTES && b == Encode(h) + payload + padding + rest
    ensures Head(b) == h && b[SIZE..SIZE + |payload|] == payload && b[SIZE + |payload| + |padding|..] == rest
  {
    assert b == Encode(h) + (payload + padding + rest);
    HeadOfEncode(h, payload + padding + rest);
  }

  /** Decrypting a buffer in place accepts what `OpenBuffer` accepts, and leaves the payload at offset 52. */
  lemma DecryptPairIsOpenBuffer(f: Cipher, k: Key, b: Buffer)
    ensures OpenBuffer(f, k, b)
            == if HeaderTotal(f, k, Head(b)) == 0 then None else PayloadIn(f, k, HeaderDecrypted(f, k, b))
    ensures OpenHeader(f, k, Head(b)).Some? ==>
              DecodeLengths(Head(HeaderDecrypted(f, k, b)).lengths) == OpenHeader(f, k, Head(b)).value
  {
    if OpenHeader(f, k, Head(b)).Some? {
      var l := OpenHeader(f, k, Head(b)).value;
      HeadOfEncode(Head(b).(lengths := EncodeLengths(l)), b[SIZE..]);
      DecodeOfEncodeLengths(l);
    }
  }

  class Protocol {
    const aes: AES256GCM
    const encryptedData: array<byte>
    const decryptedData: array<byte>

    ghost predicate Valid()
    {
      && aes.Valid()
      && encryptedData.Length == MAX_BUFFSIZE && decryptedData.Length == MAX_BUFFSIZE
      && aes.key != encryptedData && aes.key != decryptedData && encryptedData != decryptedData
    }

    /** `header` is a buffer that shares no memory with the codec's own arrays. */
    ghost predicate Accepts(header: array<byte>)
    {
      Valid() && header.Length == BUFFER_SIZE && header != aes.key && header != encryptedData && header != decryptedData
    }

    function Ops(): Cipher { aes.ops }

    function Key(): Aead.Key
      requires Valid()
      reads aes.key
    {
      aes.KeyBytes()
    }

    constructor (ops: Cipher, connKey: Bytes)
      ensures Valid() && Ops() == ops && Key() == KeyOf(connKey)
      ensures fresh(aes) && fresh(aes.key) && fresh(encryptedData) && fresh(decryptedData)
    {
      aes := new AES256GCM(ops, connKey);
      encryptedData := new byte[MAX_BUFFSIZE](i => 0);
      decryptedData := new byte[MAX_BUFFSIZE](i => 0);
    }

    method EncryptPayload(header: array<byte>, draw: Draw)
      requires Accepts(header) && InRange(draw)
      requires DecodeLengths(Head(header[..]).lengths).payload <= MAX_BUFFSIZE
      modifies header, encryptedData
      ensures header[..] == PayloadEncrypted(Ops(), Key(), old(header[..]), draw)
    {
      ghost var b: Buffer := header[..];
      var len := FromLe32(header[44..48]);
      assert header[44..52][..4] == header[44..48];
      ghost var x := Outgoing(b, len, draw);
      Write(header, 0, draw.nonce);
      assert header[..12] == draw.nonce;
      SpliceOutside(b, 0, draw.nonce, SIZE, SIZE + len);
      var tag := aes.EncryptData(header[..12], header[SIZE..SIZE + len], encryptedData);
      ghost var cipher := SealedPayload(Ops(), Key(), x).cipher;
      assert encryptedData[..len] == cipher;
      Write(header, 28, tag);
      Write(header, SIZE, encryptedData[..len]);
      SpliceOutside(b, 0, draw.nonce, 44, 48);
      SpliceOutside(Splice(b, 0, draw.nonce), 28, tag, 44, 48);
      SpliceOutside(Splice(Splice(b, 0, draw.nonce), 28, tag), SIZE, cipher, 44, 48);
      AddObfuscation(header, len, draw);
      PayloadSteps(b, draw.nonce, tag, cipher, len, Padding(x));
    }

    /** Padding drawn at random, sent in the clear. */
    method AddObfuscation(header: array<byte>, len: nat, draw: Draw)
      requires Accepts(header) && InRange(draw) && len <= MAX_BUFFSIZE
      requires len == FromLe32(header[44..48])
      modifies header
      ensures var pad := if len > OBF_THRESHOLD then [] else draw.padding;
              header[..] == Splice(Splice(old(header[..]), SIZE + len, pad), 48, Le32(|pad|))
    {
      if len > OBF_THRESHOLD {
        ghost var b := header[..];
        Write(header, 48, Le32(0));
        assert Splice(b, SIZE + len, []) == b;
        return;
      }
      Write(header, SIZE + len, draw.padding);
      Write(header, 48, Le32(|draw.padding|));
    }

    method EncryptHeader(header: array<byte>) returns (originalLen: nat)
      requires Accepts(header)
      modifies header
      ensures originalLen == Announced(DecodeLengths(Head(old(header[..])).lengths))
      ensures header[..] == HeaderEncrypted(Ops(), Key(), old(header[..]))
    {
      ghost var b: Buffer := header[..];
      originalLen := Add32(FromLe32(header[44..48]), FromLe32(header[48..52]));
      assert header[44..52][..4] == header[44..48] && header[44..52][4..] == header[48..52];
      var encryptedLength := new byte[LENGTHS_BYTES];
      var tag := aes.EncryptData(header[..12], header[44..52], encryptedLength);
      Write(header, 12, tag);
      Write(header, 44, encryptedLength[..]);
      ghost var s := Ops().seal(Key(), Head(b).nonce, Head(b).lengths);
      assert encryptedLength[..] == s.cipher;
      SpliceLenTag(b, tag);
      SpliceLengths(Splice(b, 12, tag), s.cipher);
      Assemble(header[..], Head(b).(lenTag := tag, lengths := s.cipher), b[SIZE..]);
    }

    /** What every sender does with the `len` payload bytes at offset 52: fill in the lengths, seal the
        payload, seal the header. */
    method SealFrame(buffer: array<byte>, len: nat, draw: Draw) returns (payloadLen: nat)
      requires Accepts(buffer) && len <= MAX_BUFFSIZE && InRange(draw)
      modifies buffer, encryptedData
      ensures var x := Outgoing(old(buffer[..]), len, draw);
              && payloadLen == BodySize(x) && SIZE + payloadLen <= BUFFER_SIZE
              && buffer[..SIZE + payloadLen] == FrameOf(Ops(), Key(), x)
              && buffer[SIZE + payloadLen..] == old(buffer[..])[SIZE + payloadLen..]
    {
      ghost var b: Buffer := buffer[..];
      ghost var x := Outgoing(b, len, draw);
      ghost var l := EncodeLengths(Lengths(len, 0));
      EncryptsToFrame(Ops(), Key(), b, len, draw);
      SizeWindow(Ops(), Key(), x);
      SpliceLengths(b, l);
      hide PayloadEncrypted, HeaderEncrypted, FrameOf, Head, Encode, Splice;
      Write(buffer, 44, EncodeLengths(Lengths(len, 0)));
      Assemble(buffer[..], Head(b).(lengths := l), b[SIZE..]);
      EncryptPayload(buffer, draw);
      payloadLen := EncryptHeader(buffer);
      ghost var frame := FrameOf(Ops(), Key(), x);
      assert buffer[..] == frame + b[SIZE + BodySize(x)..];
      assert buffer[..SIZE + payloadLen] == buffer[..][..SIZE + payloadLen] == frame;
      assert buffer[SIZE + payloadLen..] == buffer[..][SIZE + payloadLen..];
    }

    method DecryptHeader(header: array<byte>) returns (total: nat)
      requires Accepts(header)
      modifies header
      ensures total == HeaderTotal(Ops(), Key(), Head(old(header[..])))
      ensures header[..] == HeaderDecrypted(Ops(), Key(), old(header[..]))
    {
      ghost var b: Buffer := header[..];
      var len := new byte[LENGTHS_BYTES];
      var ok := aes.DecryptData(header[..12], header[44..52], len, header[12..28]);
      if ok {
        var plain := len[..];
        assert plain == len[..LENGTHS_BYTES];
        Write(header, 44, plain);
        EncodeOfDecodeLengths(plain);
        SpliceLengths(b, plain);
        Assemble(header[..], Head(b).(lengths := plain), b[SIZE..]);
        return Add32(FromLe32(plain[..4]), FromLe32(plain[4..]));
      }
      return 0;
    }

    method DecryptPayload(header: array<byte>) returns (ok: bool)
      requires Accepts(header)
      modifies header, decryptedData
      ensures ok <==> PayloadIn(Ops(), Key(), old(header[..])).Some?
      ensures header[..] == PayloadDecrypted(Ops(), Key(), old(header[..]))
    {
      ghost var b: Buffer := header[..];
      var len := FromLe32(header[44..48]);
      assert header[44..52][..4] == header[44..48];
      if len > MAX_BUFFSIZE {
        return false;
      }
      assert header[SIZE..SIZE + len] == header[SIZE..][..len];
      ok := aes.DecryptData(header[..12], header[SIZE..SIZE + len], decryptedData, header[28..44]);
      if ok {
        Write(header, SIZE, decryptedData[..len]);
      }
    }
  }

  /** The writes of EncryptPayload and AddObfuscation, put together. */
  lemma PayloadSteps(b: Buffer, nonce: Nonce, tag: Tag, cipher: Bytes, len: nat, pad: Bytes)
    requires len == |cipher| == DecodeLengths(Head(b).lengths).payload
    requires SIZE + len + |pad| <= BUFFER_SIZE
    ensures var s := Splice(Splice(Splice(b, 0, nonce), 28, tag), SIZE, cipher);
            Splice(Splice(s, SIZE + len, pad), 48, Le32(|pad|))
            == Encode(Header(nonce, Head(b).lenTag, tag, EncodeLengths(Lengths(len, |pad|))))
               + (cipher + pad) + b[SIZE + len + |pad|..]
  {
    var b1 := Splice(b, 0, nonce);
    var b2 := Splice(b1, 28, tag);
    var body := cipher + pad;
    SpliceAppend(b2, SIZE, cipher, pad);
    var b4 := Splice(b2, SIZE, body);
    var b5 := Splice(b4, 48, Le32(|pad|));
    SpliceNonce(b, nonce);
    SplicePayloadTag(b1, tag);
    SpliceArea(b2, body);
    SplicePaddingLength(b4, Le32(|pad|));
    Le32OfFromLe32(Head(b).lengths[..4]);
    SpliceOutside(b, 0, nonce, SIZE + |body|, |b|);
    SpliceOutside(b1, 28, tag, SIZE + |body|, |b|);
    var h := Header(nonce, Head(b).lenTag, tag, EncodeLengths(Lengths(len, |pad|)));
    Assemble(b5, h, body + b[SIZE + |body|..]);
  }

  /** A successful DecryptPayload leaves the packet at offset 52 and the lengths as they were. */
  lemma DecryptedPacket(f: Cipher, k: Key, b: Buffer)
    requires PayloadIn(f, k, b).Some?
    ensures var r, p := PayloadDecrypted(f, k, b), PayloadIn(f, k, b).value;
            && Head(r) == Head(b) && DecodeLengths(Head(r).lengths).payload == |p| <= MAX_BUFFSIZE
            && r[SIZE..SIZE + |p|] == p
  {
    SpliceArea(b, PayloadIn(f, k, b).value);
  }

  /** PAYLOAD_LENGTH in the buffer. */
  lemma PayloadLengthField(b: Buffer)
    ensures FromLe32(b[44..48]) == DecodeLengths(Head(b).lengths).payload
  {
    assert b[44..52][..4] == b[44..48];
  }
}
