/** The DGTCP wire format, its reference reader, and the relations that say
    what one Read does to the connection and its incoming stream. */
module Framing {
  import opened Errors
  import opened Header
  import opened Streams

  /** One packet on the wire: its header, then its payload. */
  function Frame(p: seq<byte>): (f: seq<byte>)
    ensures |f| == 2 + |p| && f[2..] == p
  {
    Encode(|p|) + p
  }

  /** Packets sent one after another. */
  function Frames(ps: seq<seq<byte>>): (s: seq<byte>)
  {
    if ps == [] then [] else Frame(ps[0]) + Frames(ps[1..])
  }

  /** Every packet has a length a header can announce. */
  predicate Fit(ps: seq<seq<byte>>) {
    forall i :: 0 <= i < |ps| ==> |ps[i]| <= MaxLength
  }

  /** The reference reading of a byte stream as packets: None when the stream
      stops inside a frame. Whatever it reads back frames to the same stream. */
  function Deframe(s: seq<byte>): (r: Option<seq<seq<byte>>>)
    ensures r.Some? ==> Fit(r.value) && Frames(r.value) == s
    decreases |s|
  {
    if s == [] then Some([])
    else if |s| < 2 then None
    else
      var n := Decode(s[0], s[1]);
      if |s| < 2 + n then None
      else
        match Deframe(s[2 + n..])
        case None => None
        case Some(rest) =>
          FramesOfFirst(s, rest);
          Some([s[2..2 + n]] + rest)
  }

  /** A stream that starts with a whole frame, followed by the frames of
      `rest`, is the frames of that frame's payload and `rest`. */
  lemma FramesOfFirst(s: seq<byte>, rest: seq<seq<byte>>)
    requires |s| >= 2 && |s| >= 2 + Decode(s[0], s[1])
    requires Fit(rest) && Frames(rest) == s[2 + Decode(s[0], s[1])..]
    ensures Fit([s[2..2 + Decode(s[0], s[1])]] + rest)
    ensures Frames([s[2..2 + Decode(s[0], s[1])]] + rest) == s
  {
    var n := Decode(s[0], s[1]);
    var ps := [s[2..2 + n]] + rest;
    EncodeDecode(s[0], s[1]);
    assert ps[1..] == rest;
    assert Frame(ps[0]) == s[..2 + n];
    assert s == s[..2 + n] + s[2 + n..];
    forall i | 0 <= i < |ps| ensures |ps[i]| <= MaxLength {
      if i > 0 {
        assert ps[i] == rest[i - 1];
      }
    }
  }

  /** Frames of packets a header can announce are read back exactly. */
  lemma {:induction false} DeframeFrames(ps: seq<seq<byte>>)
    requires Fit(ps)
    ensures Deframe(Frames(ps)) == Some(ps)
  {
    if ps != [] {
      var p, s := ps[0], Frames(ps);
      DecodeEncodeInRange(|p|);
      assert s == Frame(p) + Frames(ps[1..]);
      assert s[2..2 + |p|] == p;
      assert s[2 + |p|..] == Frames(ps[1..]);
      assert Fit(ps[1..]) by {
        forall i | 0 <= i < |ps[1..]| ensures |ps[1..][i]| <= MaxLength {
          assert ps[1..][i] == ps[i + 1];
        }
      }
      DeframeFrames(ps[1..]);
      assert [p] + ps[1..] == ps;
    }
  }

  /** The first packet Deframe reads is the one announced by the first header. */
  lemma DeframeFirst(s: seq<byte>)
    requires s != [] && Deframe(s).Some?
    ensures |s| >= 2 + Decode(s[0], s[1])
    ensures Deframe(s).value != [] && Deframe(s).value[0] == s[2..2 + Decode(s[0], s[1])]
  {
  }

  /** The frame Write emits for a 65536-byte payload announces length 0: it is
      read back as an empty packet, and the payload is then taken for headers. */
  lemma OversizeFrameMisread(p: seq<byte>)
    requires |p| == 65536
    ensures Decode(Frame(p)[0], Frame(p)[1]) == 0
    ensures Deframe(Frame(p)) != Some([p])
  {
    EncodeWraps(0);
    var f := Frame(p);
    assert f[..2] == [0, 0];
    if Deframe(f) == Some([p]) {
      DeframeFirst(f);
      assert false;
    }
  }

  /** The read side of a connection: the pending length (`readLen`) and how
      far reading has got into the incoming stream. */
  datatype ReadSide = ReadSide(readLen: int, cursor: nat)

  /** What one Read returns: the count, the error, and the caller's buffer afterwards. */
  datatype ReadReply = ReadReply(n: int, err: Option<Error>, buf: seq<byte>)

  /** The length a Read works with and where its body starts in the stream:
      the pending length and no header I/O, or the header found at `at`. */
  function Announced(readLen: int, input: seq<byte>, at: nat): (int, nat)
    requires readLen == 0 ==> at + 2 <= |input|
  {
    if readLen != 0 then (readLen, at) else (Decode(input[at], input[at + 1]), at + 2)
  }

  /** One Read on `input`, from read side `s` with a buffer holding `before`,
      leaves read side `s'` and returns `r`. Bytes past the returned count are
      never touched. Either the header read fails (only when nothing is
      pending), or the announced length does not fit the buffer (ErrOverflow,
      the length is kept pending, no body byte is consumed), or the body is
      read into the front of the buffer, the rest of the buffer is untouched,
      the count is the announced length even when the body read fails, and
      nothing is left pending. */
  ghost predicate ReadStep(input: seq<byte>, s: ReadSide, before: seq<byte>, s': ReadSide, r: ReadReply)
  {
    |r.buf| == |before| && 0 <= r.n <= |before| && r.buf[r.n..] == before[r.n..] &&
    s.cursor <= s'.cursor <= |input| &&
    if s.readLen == 0 && s'.cursor < s.cursor + 2 then
      r.n == 0 && r.err.Some? && IsTransport(r.err.value) && s'.readLen == 0
    else
      var (ilen, body) := Announced(s.readLen, input, s.cursor);
      if ilen > |before| then
        r.n == 0 && r.err == Some(ErrOverflow) && s' == ReadSide(ilen, body)
      else
        BodyRead(input, before, ilen, body, s', r)
  }

  /** The body of `ilen` bytes starting at `body` in the stream was read
      into the front of a buffer that held `before`, up to where the stream
      left off: what was read is in front, the rest of the buffer is
      untouched, the count is `ilen` whether or not the read completed, and
      nothing is left pending. */
  ghost predicate BodyRead(input: seq<byte>, before: seq<byte>, ilen: int, body: nat,
                           s': ReadSide, r: ReadReply)
  {
    |r.buf| == |before| && r.n == ilen <= |before| && s'.readLen == 0 &&
    body <= s'.cursor <= body + ilen && s'.cursor <= |input| &&
    r.buf[..s'.cursor - body] == input[body..s'.cursor] &&
    r.buf[s'.cursor - body..] == before[s'.cursor - body..] &&
    (r.err.None? <==> s'.cursor == body + ilen) &&
    (r.err.Some? ==> IsTransport(r.err.value))
  }

  /** The stream reads `io` one Read from read side `s` makes when it returns
      `r`: they stop at the first failure, whose error is the one returned,
      and a Read that reports ErrOverflow for a length already pending makes
      none. */
  ghost predicate ReadCallsMade(s: ReadSide, r: ReadReply, io: seq<ReadCall>)
  {
    StopsAtFailure(io, r.err) && (s.readLen != 0 && r.err == Some(ErrOverflow) ==> io == [])
  }

  /** The two header bytes read from position `at` announce what Announced says. */
  lemma HeaderAnnounces(h: seq<byte>, input: seq<byte>, at: nat)
    requires |h| >= 2 && at + 2 <= |input| && h[..2] == input[at..at + 2]
    ensures Announced(0, input, at) == (Decode(h[0], h[1]), at + 2)
  {
    assert h[0] == h[..2][0] && h[1] == h[..2][1];
  }

  /** The header read failed: its error comes back with count 0, the buffer
      is untouched, and nothing is pending. */
  lemma HeaderFailedStep(input: seq<byte>, s: ReadSide, before: seq<byte>, s': ReadSide, r: ReadReply)
    requires s.readLen == 0 && s.cursor <= s'.cursor < s.cursor + 2 && s'.cursor <= |input|
    requires s'.readLen == 0 && r.n == 0 && r.err.Some? && IsTransport(r.err.value) && r.buf == before
    ensures ReadStep(input, s, before, s', r)
  {
  }

  /** The announced length does not fit: ErrOverflow, the buffer is
      untouched, the length is kept pending, and the stream stays where the
      body begins. */
  lemma OverflowStep(input: seq<byte>, s: ReadSide, before: seq<byte>, s': ReadSide, r: ReadReply)
    requires s.readLen == 0 ==> s.cursor + 2 <= |input|
    requires Announced(s.readLen, input, s.cursor) == (s'.readLen, s'.cursor) && s'.cursor <= |input|
    requires s'.readLen > |before| && r == ReadReply(0, Some(ErrOverflow), before)
    ensures ReadStep(input, s, before, s', r)
  {
  }

  /** The body was read up to position `s'.cursor`: the front of the buffer
      holds what was read and the rest of the buffer is untouched. */
  lemma BodyStep(input: seq<byte>, s: ReadSide, before: seq<byte>, body: nat, s': ReadSide, r: ReadReply)
    requires s.readLen == 0 ==> s.cursor + 2 <= |input|
    requires Announced(s.readLen, input, s.cursor) == (r.n, body)
    requires 0 <= r.n <= |before| && body <= s'.cursor <= body + r.n
    requires s'.cursor <= |input| && s'.readLen == 0
    requires |r.buf| == |before| && r.buf[..s'.cursor - body] == input[body..s'.cursor]
    requires r.buf[s'.cursor - body..] == before[s'.cursor - body..]
    requires (r.err.None? <==> s'.cursor == body + r.n) && (r.err.Some? ==> IsTransport(r.err.value))
    ensures ReadStep(input, s, before, s', r)
  {
    assert r.buf[r.n..] == r.buf[s'.cursor - body..][r.n - (s'.cursor - body)..];
  }

  /** A transport error did not occur. */
  predicate NoTransportError(err: Option<Error>) {
    err.None? || !IsTransport(err.value)
  }

  /** A Read with nothing pending, at the start of a frame: if the packet does
      not fit, ErrOverflow, only the header is consumed and it is remembered;
      if it fits, the whole payload is delivered and the cursor is past the frame. */
  lemma ReadFreshFrame(input: seq<byte>, at: nat, p: seq<byte>,
                       before: seq<byte>, s': ReadSide, r: ReadReply)
    requires |p| <= MaxLength && at + 2 + |p| <= |input| && input[at..at + 2 + |p|] == Frame(p)
    requires ReadStep(input, ReadSide(0, at), before, s', r) && NoTransportError(r.err)
    ensures |p| > |before| ==> r.n == 0 && r.err == Some(ErrOverflow) && r.buf == before
    ensures |p| > |before| ==> s' == ReadSide(|p|, at + 2)
    ensures |p| <= |before| ==> r.n == |p| && r.err.None? && r.buf[..r.n] == p
    ensures |p| <= |before| ==> s' == ReadSide(0, at + 2 + |p|)
  {
    var f := input[at..at + 2 + |p|];
    assert input[at] == f[0] && input[at + 1] == f[1];
    DecodeEncodeInRange(|p|);
    assert input[at + 2..at + 2 + |p|] == f[2..];
  }

  /** A Read with length L pending: a buffer shorter than L changes nothing and
      reports ErrOverflow again; otherwise the next L stream bytes are delivered. */
  lemma ReadPending(input: seq<byte>, at: nat, p: seq<byte>,
                    before: seq<byte>, s': ReadSide, r: ReadReply)
    requires 0 < |p| && at + |p| <= |input| && input[at..at + |p|] == p
    requires ReadStep(input, ReadSide(|p|, at), before, s', r) && NoTransportError(r.err)
    ensures |p| > |before| ==> r.n == 0 && r.err == Some(ErrOverflow) && r.buf == before
    ensures |p| > |before| ==> s' == ReadSide(|p|, at)
    ensures |p| <= |before| ==> r.n == |p| && r.err.None? && r.buf[..r.n] == p && s' == ReadSide(0, at + |p|)
  {
  }

  /** Overflow then retry: a too-small buffer gets ErrOverflow and nothing else;
      the retry with a large enough buffer gets the whole payload, no byte lost
      or repeated, and the stream is left at the next frame. */
  lemma OverflowThenRetry(input: seq<byte>, at: nat, p: seq<byte>,
                          small: seq<byte>, s1: ReadSide, r1: ReadReply,
                          big: seq<byte>, s2: ReadSide, r2: ReadReply)
    requires |p| <= MaxLength && at + 2 + |p| <= |input| && input[at..at + 2 + |p|] == Frame(p)
    requires |small| < |p| <= |big|
    requires ReadStep(input, ReadSide(0, at), small, s1, r1) && NoTransportError(r1.err)
    requires ReadStep(input, s1, big, s2, r2) && NoTransportError(r2.err)
    ensures r1 == ReadReply(0, Some(ErrOverflow), small)
    ensures r2.n == |p| && r2.err.None? && r2.buf[..r2.n] == p
    ensures s2 == ReadSide(0, at + |Frame(p)|)
  {
    ReadFreshFrame(input, at, p, small, s1, r1);
    assert input[at + 2..at + 2 + |p|] == input[at..at + 2 + |p|][2..];
    ReadPending(input, at + 2, p, big, s2, r2);
  }

  /** Reading packets sent back to back yields them in the order they were
      sent: a successful Read at the start of `ps` delivers `ps[0]` and leaves
      the cursor at the start of the rest. */
  lemma ReadNextOfFrames(input: seq<byte>, at: nat, ps: seq<seq<byte>>,
                         before: seq<byte>, s': ReadSide, r: ReadReply)
    requires ps != [] && Fit(ps)
    requires at + |Frames(ps)| <= |input| && input[at..at + |Frames(ps)|] == Frames(ps)
    requires ReadStep(input, ReadSide(0, at), before, s', r) && r.err.None?
    ensures r.buf[..r.n] == ps[0] && s' == ReadSide(0, at + |Frame(ps[0])|)
    ensures s'.cursor + |Frames(ps[1..])| <= |input|
    ensures input[s'.cursor..s'.cursor + |Frames(ps[1..])|] == Frames(ps[1..])
  {
    FramesSplit(input, at, ps);
    ReadFrameThenRest(input, at, ps[0], Frames(ps[1..]), before, s', r);
  }

  /** A successful Read at a frame followed by `rest` delivers the frame's
      packet and leaves the cursor at the start of `rest`. */
  lemma ReadFrameThenRest(input: seq<byte>, at: nat, p: seq<byte>, rest: seq<byte>,
                          before: seq<byte>, s': ReadSide, r: ReadReply)
    requires |p| <= MaxLength && at + |Frame(p)| + |rest| <= |input|
    requires input[at..at + 2 + |p|] == Frame(p) && input[at + |Frame(p)|..at + |Frame(p)| + |rest|] == rest
    requires ReadStep(input, ReadSide(0, at), before, s', r) && r.err.None?
    ensures r.buf[..r.n] == p && s' == ReadSide(0, at + |Frame(p)|)
    ensures input[s'.cursor..s'.cursor + |rest|] == rest
  {
    ReadFreshFrame(input, at, p, before, s', r);
  }

  /** A stretch of the stream holding the frames of `ps` holds the frame of
      `ps[0]` and then the frames of the others. */
  lemma FramesSplit(input: seq<byte>, at: nat, ps: seq<seq<byte>>)
    requires ps != [] && Fit(ps)
    requires at + |Frames(ps)| <= |input| && input[at..at + |Frames(ps)|] == Frames(ps)
    ensures |ps[0]| <= MaxLength
    ensures at + |Frame(ps[0])| + |Frames(ps[1..])| <= |input|
    ensures input[at..at + 2 + |ps[0]|] == Frame(ps[0])
    ensures input[at + |Frame(ps[0])|..at + |Frame(ps[0])| + |Frames(ps[1..])|] == Frames(ps[1..])
  {
    var f, first, others := Frames(ps), Frame(ps[0]), Frames(ps[1..]);
    var m := |first|;
    assert f == first + others;
    SliceOfSlice(input, at, f, 0, m);
    assert f[..m] == first;
    SliceOfSlice(input, at, f, m, |f|);
    assert f[m..|f|] == others;
  }

  /** Part of a stretch of the stream that is known is the same part of what it is known to be. */
  lemma SliceOfSlice(input: seq<byte>, at: nat, f: seq<byte>, i: nat, j: nat)
    requires at + |f| <= |input| && input[at..at + |f|] == f && i <= j <= |f|
    ensures input[at + i..at + j] == f[i..j]
  {
    forall k | 0 <= k < j - i ensures input[at + i..at + j][k] == f[i..j][k] {
      assert input[at..at + |f|][i + k] == f[i + k];
    }
  }

  /** A stream that ends inside a frame whose payload would fit: the Read
      fails with a transport error, which is the failure of the last stream
      read it made, and nothing is left pending. The count is 0 when the
      stream ends inside the header, and the announced length whenever the
      header was read (the body read then failed). */
  lemma ReadTruncatedFrame(input: seq<byte>, at: nat, p: seq<byte>,
                           before: seq<byte>, s': ReadSide, r: ReadReply, io: seq<ReadCall>)
    requires |p| <= MaxLength && |p| <= |before|
    requires at <= |input| < at + 2 + |p| && input[at..] == Frame(p)[..|input| - at]
    requires ReadStep(input, ReadSide(0, at), before, s', r) && ReadCallsMade(ReadSide(0, at), r, io)
    ensures r.err.Some? && IsTransport(r.err.value) && s'.readLen == 0
    ensures io != [] && io[|io| - 1].err == r.err
    ensures |input| < at + 2 ==> r.n == 0
    ensures s'.cursor >= at + 2 ==> r.n == |p|
  {
    if s'.cursor >= at + 2 {
      assert input[at] == Frame(p)[0] && input[at + 1] == Frame(p)[1];
      DecodeEncodeInRange(|p|);
    }
  }

  /** A frame written in full is read back, with nothing pending and the
      reader at the end of what the writer sent. */
  lemma WriteThenRead(p: seq<byte>, o0: seq<byte>, o1: seq<byte>,
                      before: seq<byte>, s': ReadSide, r: ReadReply)
    requires |p| <= MaxLength && |p| <= |before|
    requires Sent(Frame(p), o0, None, o1)
    requires ReadStep(o1, ReadSide(0, |o0|), before, s', r) && r.err.None?
    ensures r.n == |p| && r.buf[..r.n] == p && s' == ReadSide(0, |o1|)
  {
    assert o1[|o0|..|o0| + 2 + |p|] == Frame(p);
    ReadFreshFrame(o1, |o0|, p, before, s', r);
  }
}
