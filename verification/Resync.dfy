/**
 What a header that does not open costs on a TCP stream. The reader of connection/TCPConnection.h then
 takes the 52 bytes after it for a header, and so on: it is back in step when a later frame starts a
 multiple of 52 bytes behind the damage.
*/
module Resync {
  import opened ByteStrings
  import opened Aead
  import opened ProtocolHeader
  import opened Frames
  import opened Protocols
  import opened Streams

  /** None of the first `n` blocks of 52 bytes opens as a header. */
  ghost predicate NoBlockOpens(f: Cipher, k: Key, s: Bytes, n: nat)
    requires SIZE * n <= |s|
  {
    forall m | 0 <= m < n :: HeaderTotal(f, k, Head(s[SIZE * m..])) == 0
  }

  /** One block that does not open is skipped. */
  lemma SkipsBlock(f: Cipher, k: Key, r: Reader, block: Bytes, rest: Bytes) returns (buf: Buffer)
    requires r.stage == InHeader && r.have == 0 && |block| == SIZE && HeaderTotal(f, k, Head(block)) == 0
    ensures Feed(f, k, r, block + rest) == Feed(f, k, Reader(buf, InHeader, 0, r.out), rest)
  {
    FeedLong(f, k, r, block, rest);
    var full := Filled(r, block);
    assert full == block + r.buf[SIZE..];
    assert Head(full) == Head(block);
    buf := HeaderDecrypted(f, k, full);
  }

  lemma BlocksStep(f: Cipher, k: Key, s: Bytes, n: nat)
    requires 0 < n && SIZE * n <= |s| && NoBlockOpens(f, k, s, n)
    ensures HeaderTotal(f, k, Head(s[..SIZE])) == 0
    ensures SIZE * (n - 1) <= |s[SIZE..]| && NoBlockOpens(f, k, s[SIZE..], n - 1)
  {
    assert s[SIZE * 0..] == s && Head(s[..SIZE]) == Head(s);
    forall m | 0 <= m < n - 1 ensures HeaderTotal(f, k, Head(s[SIZE..][SIZE * m..])) == 0 {
      assert s[SIZE..][SIZE * m..] == s[SIZE * (m + 1)..];
    }
  }

  /** Blocks that do not open leave nothing behind but stale bytes. */
  lemma {:induction false} SkipsBlocks(f: Cipher, k: Key, r: Reader, s: Bytes, n: nat) returns (buf: Buffer)
    requires r.stage == InHeader && r.have == 0 && SIZE * n <= |s| && NoBlockOpens(f, k, s, n)
    ensures Feed(f, k, r, s) == Feed(f, k, Reader(buf, InHeader, 0, r.out), s[SIZE * n..])
    decreases n
  {
    if n == 0 {
      buf := r.buf;
      assert s[SIZE * 0..] == s;
    } else {
      hide Feed, NoBlockOpens, HeaderTotal, Head;
      BlocksStep(f, k, s, n);
      assert s == s[..SIZE] + s[SIZE..];
      var b := SkipsBlock(f, k, r, s[..SIZE], s[SIZE..]);
      buf := SkipsBlocks(f, k, Reader(b, InHeader, 0, r.out), s[SIZE..], n - 1);
      assert s[SIZE..][SIZE * (n - 1)..] == s[SIZE * n..];
    }
  }

  /** Behind `lead` bytes that are out of step: where frame `j` starts; for the last, where the stream ends. */
  function Boundary(f: Cipher, k: Key, lead: nat, post: seq<Sent>, j: nat): nat
    requires AllSendable(post) && j <= |post|
  {
    lead + |StreamOf(f, k, post[..j])|
  }

  /** The reader gets back in step at frame `j`: its start is the first that is a multiple of 52 bytes away. */
  ghost predicate ResumesAt(f: Cipher, k: Key, lead: nat, post: seq<Sent>, j: nat)
    requires AllSendable(post)
  {
    && j < |post|
    && Boundary(f, k, lead, post, j) % SIZE == 0
    && forall i | 0 <= i < j :: Boundary(f, k, lead, post, i) % SIZE != 0
  }

  /** Until it is in step again, the reader finds no header: neither by chance nor by design does a block of
      52 bytes that is not a frame's header open. */
  ghost predicate NothingOpensBetween(f: Cipher, k: Key, lead: Bytes, post: seq<Sent>)
    requires AllSendable(post)
  {
    var s := lead + StreamOf(f, k, post);
    && (forall j: nat | ResumesAt(f, k, |lead|, post, j) && Boundary(f, k, |lead|, post, j) <= |s| ::
          NoBlockOpens(f, k, s, Boundary(f, k, |lead|, post, j) / SIZE))
    && ((forall j: nat :: !ResumesAt(f, k, |lead|, post, j)) ==> NoBlockOpens(f, k, s, |s| / SIZE))
  }

  lemma {:induction false} StreamSplits(f: Cipher, k: Key, xs: seq<Sent>, j: nat)
    requires AllSendable(xs) && j <= |xs|
    ensures StreamOf(f, k, xs) == StreamOf(f, k, xs[..j]) + StreamOf(f, k, xs[j..])
    decreases j
  {
    hide FrameOf;
    if j == 0 {
      assert xs[..0] == [] && xs[0..] == xs;
    } else {
      StreamSplits(f, k, xs[1..], j - 1);
      assert xs[..j][1..] == xs[1..][..j - 1] && xs[1..][j - 1..] == xs[j..];
    }
  }

  lemma StreamAt(f: Cipher, k: Key, lead: Bytes, post: seq<Sent>, j: nat)
    requires AllSendable(post) && j <= |post|
    ensures Boundary(f, k, |lead|, post, j) <= |lead + StreamOf(f, k, post)|
    ensures (lead + StreamOf(f, k, post))[Boundary(f, k, |lead|, post, j)..] == StreamOf(f, k, post[j..])
  {
    StreamSplits(f, k, post, j);
  }

  /** If any later frame starts a multiple of 52 bytes away, there is a first one. */
  lemma {:induction false} FirstInStep(f: Cipher, k: Key, lead: nat, post: seq<Sent>, n: nat) returns (j: nat)
    requires AllSendable(post) && n < |post| && Boundary(f, k, lead, post, n) % SIZE == 0
    ensures j <= n && ResumesAt(f, k, lead, post, j)
    decreases n
  {
    hide StreamOf, Boundary;
    if i: nat :| i < n && Boundary(f, k, lead, post, i) % SIZE == 0 {
      j := FirstInStep(f, k, lead, post, i);
    } else {
      j := n;
    }
  }

  /** Back in step at frame `j`: everything from there on is returned. */
  lemma ResumesThere(f: Cipher, k: Key, r: Reader, lead: Bytes, post: seq<Sent>, j: nat)
    requires r.stage == InHeader && r.have == 0 && AllSendable(post) && AllOpen(f, k, post)
    requires NothingOpensBetween(f, k, lead, post) && ResumesAt(f, k, |lead|, post, j)
    ensures var done := Feed(f, k, r, lead + StreamOf(f, k, post));
            done.out == r.out + Payloads(post[j..]) && done.stage == InHeader && done.have == 0
  {
    hide Feed, StreamOf, Boundary, NoBlockOpens, Opens, Sendable, Payloads;
    var s, at := lead + StreamOf(f, k, post), Boundary(f, k, |lead|, post, j);
    StreamAt(f, k, lead, post, j);
    var b := SkipsBlocks(f, k, r, s, at / SIZE);
    assert SIZE * (at / SIZE) == at;
    var buf := ReadsFrames(f, k, Reader(b, InHeader, 0, r.out), post[j..], []);
    assert StreamOf(f, k, post[j..]) + [] == StreamOf(f, k, post[j..]);
    NothingFed(f, k, Reader(buf, InHeader, 0, r.out + Payloads(post[j..])));
  }

  /** Never back in step: nothing is returned. */
  lemma NeverResumes(f: Cipher, k: Key, r: Reader, s: Bytes)
    requires r.stage == InHeader && r.have == 0 && NoBlockOpens(f, k, s, |s| / SIZE)
    ensures Feed(f, k, r, s).out == r.out
  {
    hide Feed, NoBlockOpens;
    var b := SkipsBlocks(f, k, r, s, |s| / SIZE);
    FeedShort(f, k, Reader(b, InHeader, 0, r.out), s[SIZE * (|s| / SIZE)..]);
  }

  /**
   Out of step, exactly: behind `lead` bytes that are no frames, everything up to the first frame that starts
   a multiple of 52 bytes away is lost, and everything from that frame on is returned; if there is no such
   frame, everything is lost.
  */
  lemma OutOfStepCosts(f: Cipher, k: Key, r: Reader, lead: Bytes, post: seq<Sent>)
    requires r.stage == InHeader && r.have == 0
    requires AllSendable(post) && AllOpen(f, k, post) && NothingOpensBetween(f, k, lead, post)
    ensures var done := Feed(f, k, r, lead + StreamOf(f, k, post));
            && (forall j: nat | ResumesAt(f, k, |lead|, post, j) ::
                  done.out == r.out + Payloads(post[j..]) && done.stage == InHeader && done.have == 0)
            && ((forall j: nat :: !ResumesAt(f, k, |lead|, post, j)) ==> done.out == r.out)
  {
    var s := lead + StreamOf(f, k, post);
    hide Feed, StreamOf, Boundary, NoBlockOpens, ResumesAt, Payloads, Opens;
    forall j: nat | ResumesAt(f, k, |lead|, post, j)
      ensures var done := Feed(f, k, r, s);
              done.out == r.out + Payloads(post[j..]) && done.stage == InHeader && done.have == 0
    {
      ResumesThere(f, k, r, lead, post, j);
    }
    if forall j: nat :: !ResumesAt(f, k, |lead|, post, j) {
      NeverResumes(f, k, r, s);
    }
  }

  lemma NothingFed(f: Cipher, k: Key, r: Reader)
    requires Ready(r)
    ensures Feed(f, k, r, []) == r
  {
  }

  /** A frame that has lost its header: 52 bytes that do not open, and the frame's body. */
  function Damaged(f: Cipher, k: Key, header: Bytes, x: Sent): (lead: Bytes)
    ensures |lead| == |header| + BodySize(x)
  {
    header + BodyOf(f, k, x)
  }

  lemma FirstBoundary(f: Cipher, k: Key, lead: nat, post: seq<Sent>)
    requires AllSendable(post) && post != []
    ensures ResumesAt(f, k, lead, post, 0) <==> lead % SIZE == 0
  {
    assert post[..0] == [];
    assert Boundary(f, k, lead, post, 0) == lead;
  }

  /** No later frame is lost exactly when the bytes out of step are a multiple of 52: for a damaged header,
      when its frame's body is. */
  lemma NoLaterFrameLost(f: Cipher, k: Key, r: Reader, lead: Bytes, post: seq<Sent>)
    requires r.stage == InHeader && r.have == 0 && post != []
    requires AllSendable(post) && AllOpen(f, k, post) && NothingOpensBetween(f, k, lead, post)
    ensures Feed(f, k, r, lead + StreamOf(f, k, post)).out == r.out + Payloads(post) <==> |lead| % SIZE == 0
  {
    OutOfStepCosts(f, k, r, lead, post);
    FirstBoundary(f, k, |lead|, post);
    hide Feed, StreamOf, NothingOpensBetween, ResumesAt, Payloads, AllOpen, AllSendable;
    var done := Feed(f, k, r, lead + StreamOf(f, k, post));
    assert post[0..] == post;
    if |lead| % SIZE != 0 {
      if j: nat :| ResumesAt(f, k, |lead|, post, j) {
        assert 0 < j < |post| by { ResumesInside(f, k, |lead|, post, j); }
        assert |done.out| == |r.out| + |Payloads(post[j..])|;
      }
      assert |done.out| < |r.out| + |Payloads(post)|;
    }
  }

  lemma ResumesInside(f: Cipher, k: Key, lead: nat, post: seq<Sent>, j: nat)
    requires AllSendable(post) && post != [] && ResumesAt(f, k, lead, post, j) && !ResumesAt(f, k, lead, post, 0)
    ensures 0 < j < |post|
  {
  }

  /** A damaged header in the middle of a stream: the frames before it are not concerned, the frames behind it
      are lost up to the first in step, and only its own frame is exactly when 52 divides that frame's body. */
  lemma DamagedHeaderInStream(f: Cipher, k: Key, b: Buffer, pre: seq<Sent>, header: Bytes, x: Sent, post: seq<Sent>)
    requires |header| == SIZE && AllSendable(pre) && AllOpen(f, k, pre)
    requires AllSendable(post) && AllOpen(f, k, post) && NothingOpensBetween(f, k, Damaged(f, k, header, x), post)
    ensures var lead := Damaged(f, k, header, x);
            var out := Feed(f, k, Start(b), StreamOf(f, k, pre) + (lead + StreamOf(f, k, post))).out;
            && (forall j: nat | ResumesAt(f, k, |lead|, post, j) :: out == Payloads(pre) + Payloads(post[j..]))
            && ((forall j: nat :: !ResumesAt(f, k, |lead|, post, j)) ==> out == Payloads(pre))
            && (post != [] ==> (out == Payloads(pre) + Payloads(post) <==> BodySize(x) % SIZE == 0))
  {
    var lead := Damaged(f, k, header, x);
    hide Feed, StreamOf, Damaged, NothingOpensBetween, ResumesAt, BodySize, Payloads;
    var buf := ReadsFrames(f, k, Start(b), pre, lead + StreamOf(f, k, post));
    var r := Reader(buf, InHeader, 0, [] + Payloads(pre));
    assert [] + Payloads(pre) == Payloads(pre);
    OutOfStepCosts(f, k, r, lead, post);
    if post != [] {
      NoLaterFrameLost(f, k, r, lead, post);
    }
  }

  // ----- one input of each kind, under the stand-in cipher -----

  function Ones(n: nat): (r: Bytes)
    ensures |r| == n && forall i | 0 <= i < n :: r[i] == 1
  {
    seq(n, i => 1 as byte)
  }

  /** A frame without padding whose payload is `n` bytes, all 1. */
  function Plainly(n: nat): (x: Sent)
    requires OBF_THRESHOLD < n <= MAX_BUFFSIZE
    ensures Sendable(x) && BodySize(x) == n
  {
    Sent(Draw(Ones(12), Zeros(OBF_MINPADDLE)), Ones(n))
  }

  /** The stand-in cipher's tags are all 0, and it leaves texts as they are. */
  lemma StandInBytes(f: Cipher, k: Key, x: Sent)
    requires f == STAND_IN && Sendable(x)
    ensures Opens(f, k, x)
    ensures BodyOf(f, k, x) == x.payload + Padding(x)
    ensures FrameOf(f, k, x)
            == x.draw.nonce + Zeros(16) + Zeros(16) + EncodeLengths(LengthsOf(x)) + x.payload + Padding(x)
  {
  }

  /** A block whose thirteenth byte is not 0 has no stand-in tag there. */
  lemma StandInRejects(f: Cipher, k: Key, block: Bytes)
    requires f == STAND_IN && SIZE <= |block| && block[12] != 0
    ensures HeaderTotal(f, k, Head(block)) == 0
  {
    assert Head(block).lenTag[0] == block[12];
    assert Head(block).lenTag != Zeros(16);
  }

  /** Out of step by a damaged header of 1s and a body of `n` 1s. */
  function Lead(f: Cipher, k: Key, n: nat): (lead: Bytes)
    requires OBF_THRESHOLD < n <= MAX_BUFFSIZE
    ensures |lead| == SIZE + n
  {
    Damaged(f, k, Ones(SIZE), Plainly(n))
  }

  /** The stream of both inputs: all 1 but for the second frame's tags and lengths. */
  lemma StreamBytes(f: Cipher, k: Key, n: nat)
    requires f == STAND_IN && OBF_THRESHOLD < n <= MAX_BUFFSIZE
    ensures AllSendable([Plainly(260)]) && AllOpen(f, k, [Plainly(260)])
    ensures var s := Lead(f, k, n) + StreamOf(f, k, [Plainly(260)]);
            && |s| == SIZE + n + SIZE + 260
            && forall i | 0 <= i < |s| && (i < SIZE + n + NONCE_BYTES || SIZE + n + SIZE <= i) :: s[i] == 1
  {
    StandInBytes(f, k, Plainly(n));
    StandInBytes(f, k, Plainly(260));
    assert [Plainly(260)][1..] == [];
    assert StreamOf(f, k, [Plainly(260)]) == FrameOf(f, k, Plainly(260)) + StreamOf(f, k, []);
    assert Lead(f, k, n) + StreamOf(f, k, [Plainly(260)]) == Lead(f, k, n) + FrameOf(f, k, Plainly(260));
  }

  /** Whether the only later frame starts a multiple of 52 bytes away. */
  lemma OneLaterFrame(f: Cipher, k: Key, lead: nat, y: Sent, j: nat)
    requires Sendable(y) && AllSendable([y]) && ResumesAt(f, k, lead, [y], j)
    ensures j == 0 && Boundary(f, k, lead, [y], j) == lead && lead % SIZE == 0
  {
    assert [y][..0] == [];
  }

  /** The first blocks of the stream do not open. */
  lemma BlocksReject(f: Cipher, k: Key, n: nat, s: Bytes, blocks: nat)
    requires f == STAND_IN && 260 <= n <= 261 && |s| == SIZE + n + SIZE + 260 && blocks <= if n == 260 then 6 else 12
    requires forall i | 0 <= i < |s| && (i < SIZE + n + NONCE_BYTES || SIZE + n + SIZE <= i) :: s[i] == 1
    ensures NoBlockOpens(f, k, s, blocks)
  {
    hide HeaderTotal, Head;
    forall m: nat | m < blocks ensures HeaderTotal(f, k, Head(s[SIZE * m..])) == 0 {
      assert s[SIZE * m..][12] == s[SIZE * m + 12] == 1;
      StandInRejects(f, k, s[SIZE * m..]);
    }
  }

  lemma NothingOpens(f: Cipher, k: Key, n: nat)
    requires f == STAND_IN && (n == 260 || n == 261)
    ensures AllSendable([Plainly(260)])
    ensures NothingOpensBetween(f, k, Lead(f, k, n), [Plainly(260)])
  {
    StreamBytes(f, k, n);
    var post := [Plainly(260)];
    var s := Lead(f, k, n) + StreamOf(f, k, post);
    hide Lead, ResumesAt, Boundary, Plainly, StreamOf, NoBlockOpens;
    BlocksReject(f, k, n, s, if n == 260 then 6 else 12);
    forall j: nat | ResumesAt(f, k, |Lead(f, k, n)|, post, j)
      ensures n == 260 && Boundary(f, k, |Lead(f, k, n)|, post, j) / SIZE == 6
    {
      OneLaterFrame(f, k, SIZE + n, Plainly(260), j);
    }
    if n == 260 {
      FirstBoundary(f, k, SIZE + n, post);
    }
  }

  /** With one frame behind the bytes out of step, it all depends on their number. */
  lemma OneFrameBehind(f: Cipher, k: Key, b: Buffer, lead: Bytes, y: Sent)
    requires AllSendable([y]) && AllOpen(f, k, [y]) && NothingOpensBetween(f, k, lead, [y])
    ensures Feed(f, k, Start(b), lead + StreamOf(f, k, [y])).out == if |lead| % SIZE == 0 then [y.payload] else []
  {
    assert Payloads([y]) == [y.payload] && [y][0..] == [y];
    hide Feed, NothingOpensBetween, StreamOf, Payloads, Boundary, Opens;
    OutOfStepCosts(f, k, Start(b), lead, [y]);
    if |lead| % SIZE == 0 {
      FirstBoundary(f, k, |lead|, [y]);
    } else {
      forall j: nat ensures !ResumesAt(f, k, |lead|, [y], j) {
        if ResumesAt(f, k, |lead|, [y], j) {
          OneLaterFrame(f, k, |lead|, y, j);
        }
      }
    }
  }

  /** A payload of 260 bytes, five blocks of 52: the frame after the damaged one is returned. */
  lemma RecoveringInput(f: Cipher, k: Key, b: Buffer)
    requires f == STAND_IN
    ensures AllSendable([Plainly(260)])
    ensures Feed(f, k, Start(b), Lead(f, k, 260) + StreamOf(f, k, [Plainly(260)])).out == [Ones(260)]
  {
    hide Feed, StreamOf, Lead, Plainly, Ones, NothingOpensBetween, Opens, Sendable, Start;
    StreamBytes(f, k, 260);
    NothingOpens(f, k, 260);
    OneFrameBehind(f, k, b, Lead(f, k, 260), Plainly(260));
    PlainPayload(260);
  }

  lemma PlainPayload(n: nat)
    requires OBF_THRESHOLD < n <= MAX_BUFFSIZE
    ensures Plainly(n).payload == Ones(n)
  {
  }

  /** One byte more, and the frame after the damaged one is lost as well. */
  lemma LosingInput(f: Cipher, k: Key, b: Buffer)
    requires f == STAND_IN
    ensures AllSendable([Plainly(260)])
    ensures Feed(f, k, Start(b), Lead(f, k, 261) + StreamOf(f, k, [Plainly(260)])).out == []
  {
    hide Feed, StreamOf, Lead, Plainly, Ones, NothingOpensBetween, Opens, Sendable, Start;
    StreamBytes(f, k, 261);
    NothingOpens(f, k, 261);
    OneFrameBehind(f, k, b, Lead(f, k, 261), Plainly(260));
  }
}
