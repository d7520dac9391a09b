/**
 The authenticated cipher of connection/AES-256-GCM.h: its detached interface, the laws the
 rest of the program relies on, and the key derivation. AES-256-GCM itself stays abstract.
 */
module Aead {
  import opened ByteStrings

  const KEY_BYTES: nat := 32
  const NONCE_BYTES: nat := 12
  const TAG_BYTES: nat := 16

  type Key = k: Bytes | |k| == 32 witness Zeros(32)
  type Nonce = n: Bytes | |n| == 12 witness Zeros(12)
  type Tag = t: Bytes | |t| == 16 witness Zeros(16)

  datatype Sealed = Sealed(cipher: Bytes, tag: Tag)

  datatype Ops = Ops(seal: (Key, Nonce, Bytes) -> Sealed,
                     open: (Key, Nonce, Bytes, Tag) -> Option<Bytes>)

  /** Detached mode: text and cipher text have one length. */
  ghost predicate LengthPreserving(f: Ops) {
    && (forall k, n, m :: |f.seal(k, n, m).cipher| == |m|)
    && (forall k, n, c, t :: f.open(k, n, c, t).Some? ==> |f.open(k, n, c, t).value| == |c|)
  }

  /** A stand-in that meets every law below: the laws do not contradict each other. */
  const STAND_IN: Ops :=
    Ops((k, n, m) => Sealed(m, Zeros(16)), (k, n, c, t) => if t == Zeros(16) then Some(c) else None)

  type Cipher = f: Ops | LengthPreserving(f) ghost witness STAND_IN

  /** Open inverts Seal, and accepts nothing that Seal does not produce. */
  ghost predicate Lawful(f: Cipher) {
    && (forall k, n, m :: f.open(k, n, f.seal(k, n, m).cipher, f.seal(k, n, m).tag) == Some(m))
    && (forall k, n, c, t :: f.open(k, n, c, t).Some? ==> f.seal(k, n, f.open(k, n, c, t).value) == Sealed(c, t))
  }

  lemma StandInIsLawful()
    ensures LengthPreserving(STAND_IN) && Lawful(STAND_IN)
  {
  }

  /** One use of the key: what was sealed under which nonce, and what came out. */
  datatype Entry = Entry(nonce: Nonce, text: Bytes, cipher: Bytes, tag: Tag)

  /** The ideal cipher: Open accepts exactly what the key holders have sealed so far. */
  ghost predicate Ideal(f: Cipher, k: Key, log: set<Entry>) {
    && (forall e | e in log :: f.open(k, e.nonce, e.cipher, e.tag) == Some(e.text))
    && (forall n, c, t :: f.open(k, n, c, t).Some? ==> Entry(n, f.open(k, n, c, t).value, c, t) in log)
  }

  /** The log names one text per sealed triple, and texts have the length of their cipher text. */
  ghost predicate Functional(log: set<Entry>) {
    && (forall e | e in log :: |e.text| == |e.cipher|)
    && (forall e, e' | e in log && e' in log && e.nonce == e'.nonce && e.cipher == e'.cipher && e.tag == e'.tag ::
          e.text == e'.text)
  }

  /** The text logged for a triple, if there is one. */
  ghost function Lookup(log: set<Entry>, n: Nonce, c: Bytes, t: Tag): Option<Bytes> {
    if exists e :: e in log && e.nonce == n && e.cipher == c && e.tag == t then
      var e :| e in log && e.nonce == n && e.cipher == c && e.tag == t;
      Some(e.text)
    else
      None
  }

  /** For every log of a real cipher's work there is an ideal cipher: `Ideal` can always be met. */
  lemma IdealIsRealizable(f: Cipher, k: Key, log: set<Entry>) returns (g: Cipher)
    requires Functional(log)
    ensures Ideal(g, k, log) && g.seal == f.seal
  {
    ghost var lookup := (k: Key, n: Nonce, c: Bytes, t: Tag) => Lookup(log, n, c, t);
    ghost var ops := Ops(f.seal, lookup);
    assert LengthPreserving(ops) by {
      forall k, n, m ensures |ops.seal(k, n, m).cipher| == |m| {
        assert ops.seal(k, n, m) == f.seal(k, n, m);
      }
    }
    g := ops;
  }

  /** The derived key: at most 30 bytes of the configured string, zero-filled to 32. */
  function KeyOf(connKey: Bytes): Key {
    var n := Min(KEY_BYTES - 2, |connKey|);
    connKey[..n] + Zeros(KEY_BYTES - n)
  }

  function ByteOr0(s: Bytes, i: nat): byte {
    if i < |s| then s[i] else 0
  }

  /** Byte by byte: the string's own for the first 30, zero beyond its end, and zero in the last two. */
  lemma KeyBytesAre(connKey: Bytes, i: nat)
    requires i < KEY_BYTES
    ensures KeyOf(connKey)[i] == if i < 30 && i < |connKey| then connKey[i] else 0
  {
  }

  /** Two configured strings give one key exactly when their first 30 bytes, zero-extended, agree. */
  lemma SameKeyIff(a: Bytes, b: Bytes)
    ensures KeyOf(a) == KeyOf(b) <==> forall i | 0 <= i < 30 :: ByteOr0(a, i) == ByteOr0(b, i)
  {
    forall s: Bytes, i: nat | i < 32 ensures KeyOf(s)[i] == if i < 30 then ByteOr0(s, i) else 0 {
      KeyBytesAre(s, i);
    }
    if forall i | 0 <= i < 30 :: ByteOr0(a, i) == ByteOr0(b, i) {
      forall i: nat | i < 32 ensures KeyOf(a)[i] == KeyOf(b)[i] {
      }
    } else {
      var i: nat :| i < 30 && ByteOr0(a, i) != ByteOr0(b, i);
      assert KeyOf(a)[i] != KeyOf(b)[i];
    }
  }

  class AES256GCM {
    const ops: Cipher
    const key: array<byte>

    ghost predicate Valid()
    {
      key.Length == KEY_BYTES
    }

    function KeyBytes(): Key
      requires Valid()
      reads key
    {
      key[..]
    }

    constructor (ops: Cipher, connKey: Bytes)
      ensures Valid() && fresh(key)
      ensures this.ops == ops
      ensures KeyBytes() == KeyOf(connKey)
    {
      this.ops := ops;
      key := new byte[KEY_BYTES](i => 0);
      new;
      var maxCopyLen := KEY_BYTES - 2;
      var len := if |connKey| > maxCopyLen then maxCopyLen else |connKey|;
      ghost var was := key[..];
      Write(key, 0, connKey[..len]);
      assert was[len..] == Zeros(KEY_BYTES - len);
    }

    /** Seals `data` into the front of `out`; the rest of `out` stays. */
    method EncryptData(nonce: Nonce, data: Bytes, out: array<byte>) returns (tag: Tag)
      requires Valid() && |data| <= out.Length && out != key
      modifies out
      ensures out[..] == Splice(old(out[..]), 0, ops.seal(KeyBytes(), nonce, data).cipher)
      ensures tag == ops.seal(KeyBytes(), nonce, data).tag
    {
      var sealed := ops.seal(KeyBytes(), nonce, data);
      Write(out, 0, sealed.cipher);
      tag := sealed.tag;
    }

    /** Opens `data` into the front of `out`; on failure `out` holds nothing of use. */
    method DecryptData(nonce: Nonce, data: Bytes, out: array<byte>, tag: Tag) returns (ok: bool)
      requires Valid() && |data| <= out.Length && out != key
      modifies out
      ensures ok <==> ops.open(KeyBytes(), nonce, data, tag).Some?
      ensures ok ==> out[..|data|] == ops.open(KeyBytes(), nonce, data, tag).value
    {
      var result := ops.open(KeyBytes(), nonce, data, tag);
      ok := result.Some?;
      if ok {
        Write(out, 0, result.value);
      }
    }
  }
}
