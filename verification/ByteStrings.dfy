/** Octet strings, little-endian 32-bit fields and in-place overwrites of a byte buffer. */
module ByteStrings {

  newtype byte = x: int | 0 <= x < 256

  type Bytes = seq<byte>

  datatype Option<+T> = None | Some(value: T)

  /** The number of values of the source's uint32_t. */
  const U32: nat := 0x1_0000_0000

  function Zeros(n: nat): (z: Bytes)
    ensures |z| == n && forall i | 0 <= i < n :: z[i] == 0
  {
    seq(n, i => 0 as byte)
  }

  function Min(a: nat, b: nat): (m: nat)
    ensures m <= a && m <= b && (m == a || m == b)
  {
    if a <= b then a else b
  }

  /** uint32_t addition: the sum, or what is left of it beyond 32 bits. */
  function Add32(a: nat, b: nat): (n: nat)
    requires a < U32 && b < U32
    ensures n < U32 && (a + b == n || a + b == n + U32)
  {
    (a + b) % U32
  }

  /** A uint32_t as it lies in memory on the little-endian hosts the program targets. */
  function Le32(n: nat): (r: Bytes)
    requires n < U32
    ensures |r| == 4
  {
    [(n % 256) as byte, (n / 256 % 256) as byte, (n / 65536 % 256) as byte, (n / 16777216) as byte]
  }

  function FromLe32(b: Bytes): (n: nat)
    requires |b| == 4
    ensures n < U32
  {
    b[0] as nat + 256 * b[1] as nat + 65536 * b[2] as nat + 16777216 * b[3] as nat
  }

  /** The least significant byte comes first, and the others are those of the number without it. */
  lemma LowByteFirst(n: nat)
    requires n < U32
    ensures Le32(n)[0] as nat == n % 256
    ensures Le32(n)[1..] + [0] == Le32(n / 256)
  {
    assert n / 256 / 256 == n / 65536;
    assert n / 65536 / 256 == n / 16777216;
    assert n / 256 / 16777216 == 0;
    assert n / 256 / 65536 % 256 == n / 16777216;
  }

  /** A number below 256 is its byte and three zeros. */
  lemma SmallNumber(n: nat)
    requires n < 256
    ensures Le32(n) == [n as byte, 0, 0, 0]
  {
    LowByteFirst(n);
    LowByteFirst(0);
  }

  lemma LowByte(a: nat, q: nat)
    requires a < 256
    ensures (a + 256 * q) % 256 == a && (a + 256 * q) / 256 == q
  {
  }

  lemma FromLe32OfLe32(n: nat)
    requires n < U32
    ensures FromLe32(Le32(n)) == n
  {
    assert n / 256 / 256 == n / 65536;
    assert n / 65536 / 256 == n / 16777216;
  }

  /** Every four bytes are the encoding of the number they decode to. */
  lemma Le32OfFromLe32(b: Bytes)
    requires |b| == 4
    ensures Le32(FromLe32(b)) == b
  {
    var n := FromLe32(b);
    var q3 := b[3] as nat;
    var q2 := b[2] as nat + 256 * q3;
    var q1 := b[1] as nat + 256 * q2;
    assert n == b[0] as nat + 256 * q1;
    LowByte(b[0] as nat, q1);
    LowByte(b[1] as nat, q2);
    LowByte(b[2] as nat, q3);
    assert n / 65536 == n / 256 / 256;
    assert n / 16777216 == n / 65536 / 256;
  }

  /** `s` with the bytes from position `at` on overwritten by `piece`. */
  function Splice(s: Bytes, at: nat, piece: Bytes): (r: Bytes)
    requires at + |piece| <= |s|
    ensures |r| == |s|
  {
    s[..at] + piece + s[at + |piece|..]
  }

  /** An overwrite puts the piece where it says. */
  lemma SpliceInside(s: Bytes, at: nat, p: Bytes)
    requires at + |p| <= |s|
    ensures Splice(s, at, p)[at..at + |p|] == p
  {
  }

  /** Two overwrites side by side are one overwrite by the concatenation. */
  lemma SpliceAppend(s: Bytes, at: nat, p: Bytes, q: Bytes)
    requires at + |p| + |q| <= |s|
    ensures Splice(Splice(s, at, p), at + |p|, q) == Splice(s, at, p + q)
  {
    var one := Splice(s, at, p);
    assert one[..at + |p|] == s[..at] + p;
    assert one[at + |p| + |q|..] == s[at + |p| + |q|..];
  }

  /** An overwrite leaves every range beside it alone. */
  lemma SpliceOutside(s: Bytes, at: nat, p: Bytes, lo: nat, hi: nat)
    requires at + |p| <= |s| && lo <= hi <= |s|
    requires hi <= at || at + |p| <= lo
    ensures Splice(s, at, p)[lo..hi] == s[lo..hi]
  {
  }

  /** memcpy into a buffer. */
  method Write(buffer: array<byte>, at: nat, piece: Bytes)
    requires at + |piece| <= buffer.Length
    modifies buffer
    ensures buffer[..] == Splice(old(buffer[..]), at, piece)
  {
    ghost var was := buffer[..];
    var i := 0;
    while i < |piece|
      invariant 0 <= i <= |piece|
      invariant buffer[..] == Splice(was, at, piece[..i])
    {
      buffer[at + i] := piece[i];
      assert piece[..i + 1] == piece[..i] + [piece[i]];
      i := i + 1;
    }
    assert piece[..i] == piece;
  }
}
