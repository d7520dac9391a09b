/** The 52-byte frame header of connection/ProtocolHeader.h: field layout over a byte buffer. */
module ProtocolHeader {
  import opened ByteStrings
  import opened Aead

  const SIZE: nat := 52
  const LENGTHS_BYTES: nat := 8

  /** NONCE, LEN_TAG, PAYLOAD_TAG, and the two uint32 lengths (plain or sealed) as 8 bytes. */
  datatype Header = Header(nonce: Nonce, lenTag: Tag, payloadTag: Tag, lengths: Bytes)

  /** The two length fields, decoded. */
  datatype Lengths = Lengths(payload: nat, padding: nat)

  /** The header at the front of a buffer. */
  function Head(b: Bytes): (h: Header)
    requires SIZE <= |b|
    ensures |h.lengths| == LENGTHS_BYTES
  {
    Header(b[..12], b[12..28], b[28..44], b[44..52])
  }

  function Encode(h: Header): (b: Bytes)
    requires |h.lengths| == LENGTHS_BYTES
    ensures |b| == SIZE
  {
    h.nonce + h.lenTag + h.payloadTag + h.lengths
  }

  function EncodeLengths(l: Lengths): (b: Bytes)
    requires l.payload < U32 && l.padding < U32
    ensures |b| == LENGTHS_BYTES
  {
    Le32(l.payload) + Le32(l.padding)
  }

  function DecodeLengths(b: Bytes): (l: Lengths)
    requires |b| == LENGTHS_BYTES
    ensures l.payload < U32 && l.padding < U32
  {
    Lengths(FromLe32(b[..4]), FromLe32(b[4..]))
  }

  lemma SameHead(b: Bytes)
    requires SIZE <= |b|
    ensures Head(b[..SIZE]) == Head(b)
  {
  }

  lemma HeadOfEncode(h: Header, rest: Bytes)
    requires |h.lengths| == LENGTHS_BYTES
    ensures Head(Encode(h) + rest) == h && (Encode(h) + rest)[SIZE..] == rest
  {
    var b := Encode(h) + rest;
    assert b[..12] == h.nonce;
    assert b[12..28] == h.lenTag;
    assert b[28..44] == h.payloadTag;
    assert b[44..52] == h.lengths;
    assert b[52..] == rest;
  }

  /** A buffer is its header followed by its payload area. */
  lemma EncodeOfHead(b: Bytes)
    requires SIZE <= |b|
    ensures Encode(Head(b)) == b[..SIZE]
    ensures Encode(Head(b)) + b[SIZE..] == b
  {
  }

  lemma DecodeOfEncodeLengths(l: Lengths)
    requires l.payload < U32 && l.padding < U32
    ensures DecodeLengths(EncodeLengths(l)) == l
  {
    assert EncodeLengths(l)[..4] == Le32(l.payload);
    assert EncodeLengths(l)[4..] == Le32(l.padding);
    FromLe32OfLe32(l.payload);
    FromLe32OfLe32(l.padding);
  }

  lemma EncodeOfDecodeLengths(b: Bytes)
    requires |b| == LENGTHS_BYTES
    ensures EncodeLengths(DecodeLengths(b)) == b
  {
    Le32OfFromLe32(b[..4]);
    Le32OfFromLe32(b[4..]);
  }

  /** A buffer with this header and this payload area is their concatenation. */
  lemma Assemble(b: Bytes, h: Header, area: Bytes)
    requires SIZE <= |b| && Head(b) == h && b[SIZE..] == area
    ensures b == Encode(h) + area
  {
    EncodeOfHead(b);
  }

  /** What an overwrite of one field of the buffer does to the header view. */
  lemma SpliceNonce(b: Bytes, n: Nonce)
    requires SIZE <= |b|
    ensures Head(Splice(b, 0, n)) == Head(b).(nonce := n)
    ensures Splice(b, 0, n)[SIZE..] == b[SIZE..]
  {
  }

  lemma SpliceLenTag(b: Bytes, t: Tag)
    requires SIZE <= |b|
    ensures Head(Splice(b, 12, t)) == Head(b).(lenTag := t)
    ensures Splice(b, 12, t)[SIZE..] == b[SIZE..]
  {
  }

  lemma SplicePayloadTag(b: Bytes, t: Tag)
    requires SIZE <= |b|
    ensures Head(Splice(b, 28, t)) == Head(b).(payloadTag := t)
    ensures Splice(b, 28, t)[SIZE..] == b[SIZE..]
  {
  }

  lemma SpliceLengths(b: Bytes, l: Bytes)
    requires SIZE <= |b| && |l| == LENGTHS_BYTES
    ensures Head(Splice(b, 44, l)) == Head(b).(lengths := l)
    ensures Splice(b, 44, l)[SIZE..] == b[SIZE..]
  {
  }

  lemma SplicePaddingLength(b: Bytes, l: Bytes)
    requires SIZE <= |b| && |l| == 4
    ensures Head(Splice(b, 48, l)) == Head(b).(lengths := Head(b).lengths[..4] + l)
    ensures Splice(b, 48, l)[SIZE..] == b[SIZE..]
  {
  }

  lemma SpliceArea(b: Bytes, p: Bytes)
    requires SIZE + |p| <= |b|
    ensures Head(Splice(b, SIZE, p)) == Head(b)
    ensures Splice(b, SIZE, p)[SIZE..] == p + b[SIZE + |p|..]
  {
  }
}
