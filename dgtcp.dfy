/** The DGTCP connection: a TCP connection whose Read and Write move whole
    length-prefixed packets instead of bytes. Calls are modelled one at a
    time; the two locks that serialise them are not part of this model. */
module Dgtcp {
  import opened Errors
  import opened Header
  import opened Framing
  import opened Streams
  import opened Transport

  /** The largest payload Write accepts as the source has it: only lengths
      above 65536 are refused, one more than a header can announce. */
  const WriteLimit: nat := 65536

  /** The Write calls one frame makes on the stream: the header, and the
      payload only when the header went out; the error returned is the last
      call's own. */
  ghost predicate FrameWrites(buf: seq<byte>, before: seq<WriteCall>, err: Option<Error>,
                              after: seq<WriteCall>)
  {
    (err.Some? && after == before + [WriteCall(Encode(|buf|), err)])
    || after == before + [WriteCall(Encode(|buf|), None), WriteCall(buf, err)]
  }

  class Conn {
    /** The embedded TCP connection. */
    const tcp: Stream
    /** Length announced by a header already consumed whose body is still in
        the stream because the caller's buffer was too small; 0 when none. */
    var readLen: int

    ghost predicate Valid()
      reads this, tcp
    {
      tcp.Valid() && 0 <= readLen <= MaxLength
    }

    /** A fresh connection has nothing pending. */
    constructor (tcp: Stream)
      requires tcp.Valid()
      ensures Valid() && this.tcp == tcp && readLen == 0
    {
      this.tcp := tcp;
      readLen := 0;
    }

    /** Fills `buf[..len]` from the stream, reading again after every short
        read. Succeeds only when all `len` bytes have arrived, and they are
        then the next `len` stream bytes in order; the first transport error
        is returned at once, with whatever was consumed before it left in the
        front of `buf`: it is the failure of the last stream read made, and
        every read before it succeeded. A stream too short for `len` bytes
        always fails. */
    method FillBuf(buf: array<byte>, len: nat) returns (err: Option<Error>, ghost io: seq<ReadCall>)
      requires tcp.Valid() && len <= buf.Length
      modifies tcp, buf
      ensures tcp.Valid() && tcp.output == old(tcp.output) && tcp.writes == old(tcp.writes)
      ensures old(tcp.cursor) <= tcp.cursor <= old(tcp.cursor) + len
      ensures buf[..tcp.cursor - old(tcp.cursor)] == tcp.input[old(tcp.cursor)..tcp.cursor]
      ensures buf[tcp.cursor - old(tcp.cursor)..] == old(buf[..])[tcp.cursor - old(tcp.cursor)..]
      ensures err.None? <==> tcp.cursor == old(tcp.cursor) + len
      ensures err.Some? ==> IsTransport(err.value)
      ensures old(tcp.cursor) + len > |tcp.input| ==> err.Some?
      ensures tcp.readCalls == old(tcp.readCalls) + io && StopsAtFailure(io, err)
    {
      var pos := 0;
      io := [];
      while pos != len
        invariant 0 <= pos <= len
        invariant tcp.Valid() && tcp.output == old(tcp.output) && tcp.writes == old(tcp.writes)
        invariant tcp.cursor == old(tcp.cursor) + pos
        invariant buf[..pos] == tcp.input[old(tcp.cursor)..tcp.cursor]
        invariant buf[pos..] == old(buf[pos..])
        invariant tcp.readCalls == old(tcp.readCalls) + io && StopsAtFailure(io, None)
        decreases len - pos
      {
        ghost var c := tcp.cursor;
        var size, e := tcp.Read(buf, pos, len);
        StopsAtFailureThen(io, [ReadCall(size, e)], e);
        io := io + [ReadCall(size, e)];
        if e.Some? {
          return e, io;
        }
        assert buf[..pos + size] == buf[..pos] + buf[pos..pos + size];
        assert tcp.input[old(tcp.cursor)..tcp.cursor]
            == tcp.input[old(tcp.cursor)..c] + tcp.input[c..tcp.cursor];
        pos := pos + size;
      }
      err := None;
    }

    /** Reads the two-byte header of the next frame into a buffer of its own
        and decodes the length it announces; on a transport error the
        length is 0 and the header is cut short. */
    method ReadHeader() returns (ilen: int, err: Option<Error>, ghost io: seq<ReadCall>)
      requires tcp.Valid()
      modifies tcp
      ensures tcp.Valid() && tcp.output == old(tcp.output) && tcp.writes == old(tcp.writes)
      ensures tcp.readCalls == old(tcp.readCalls) + io && StopsAtFailure(io, err)
      ensures err.Some? ==> IsTransport(err.value) && ilen == 0
      ensures err.Some? ==> old(tcp.cursor) <= tcp.cursor < old(tcp.cursor) + 2
      ensures err.None? ==> tcp.cursor == old(tcp.cursor) + 2
      ensures err.None? ==> Announced(0, tcp.input, old(tcp.cursor)) == (ilen, tcp.cursor)
    {
      var plen := new byte[2];
      err, io := FillBuf(plen, 2);
      if err.Some? {
        return 0, err, io;
      }
      ilen := Decode(plen[0], plen[1]);
      HeaderAnnounces(plen[..], tcp.input, old(tcp.cursor));
    }

    /** Receives one packet into `buf`; see ReadStep for the whole outcome and
        ReadCallsMade for the stream reads it makes. Afterwards the pending
        length is 0, or larger than this buffer and at most what a header can
        announce. */
    method Read(buf: array<byte>) returns (n: int, err: Option<Error>, ghost io: seq<ReadCall>)
      requires Valid()
      modifies this, tcp, buf
      ensures Valid() && tcp.output == old(tcp.output) && tcp.writes == old(tcp.writes)
      ensures readLen == 0 || buf.Length < readLen
      ensures ReadStep(tcp.input, ReadSide(old(readLen), old(tcp.cursor)), old(buf[..]),
                       ReadSide(readLen, tcp.cursor), ReadReply(n, err, buf[..]))
      ensures tcp.readCalls == old(tcp.readCalls) + io
      ensures ReadCallsMade(ReadSide(old(readLen), old(tcp.cursor)), ReadReply(n, err, buf[..]), io)
    {
      var ilen: int;
      io := [];

      if readLen == 0 {
        var e;
        ilen, e, io := ReadHeader();
        if e.Some? {
          n, err := 0, e;
          HeaderFailedStep(tcp.input, ReadSide(old(readLen), old(tcp.cursor)), old(buf[..]),
                           ReadSide(readLen, tcp.cursor), ReadReply(n, err, buf[..]));
          return;
        }
      } else {
        ilen := readLen;
      }
      ghost var body: nat := tcp.cursor;
      assert Announced(old(readLen), tcp.input, old(tcp.cursor)) == (ilen, body);

      if ilen > buf.Length {
        readLen := ilen;
        n, err := 0, Some(ErrOverflow);
        OverflowStep(tcp.input, ReadSide(old(readLen), old(tcp.cursor)), old(buf[..]),
                     ReadSide(readLen, tcp.cursor), ReadReply(n, err, buf[..]));
        return;
      }
      ghost var bio;
      err, bio := FillBuf(buf, ilen);
      readLen := 0;
      n := ilen;
      StopsAtFailureThen(io, bio, err);
      io := io + bio;
      BodyStep(tcp.input, ReadSide(old(readLen), old(tcp.cursor)), old(buf[..]), body,
               ReadSide(readLen, tcp.cursor), ReadReply(n, err, buf[..]));
    }

    /** The two writes of a frame: the header, then the payload only if the
        header went out; the error is that of the last write made. The
        outgoing stream shows a prefix of the frame. */
    method SendFrame(buf: seq<byte>) returns (err: Option<Error>)
      requires tcp.Valid()
      modifies tcp
      ensures tcp.Valid() && tcp.cursor == old(tcp.cursor) && tcp.readCalls == old(tcp.readCalls)
      ensures Sent(Frame(buf), old(tcp.output), err, tcp.output)
      ensures FrameWrites(buf, old(tcp.writes), err, tcp.writes)
    {
      var plen := Encode(|buf|);
      ghost var o0 := tcp.output;
      err := tcp.Write(plen);
      if err.Some? {
        SentInOrder(plen, buf, o0, err, tcp.output, err, tcp.output);
        return;
      }
      ghost var o1 := tcp.output;
      err := tcp.Write(buf);
      SentInOrder(plen, buf, o0, None, o1, err, tcp.output);
    }

    /** Sends one packet, as the source does: a payload longer than WriteLimit
        is refused with nothing written; any other is sent as a frame, whose
        header is its length modulo 65536. */
    method Write(buf: seq<byte>) returns (err: Option<Error>)
      requires Valid()
      modifies tcp
      ensures Valid() && tcp.cursor == old(tcp.cursor) && tcp.readCalls == old(tcp.readCalls)
      ensures |buf| > WriteLimit ==> err == Some(ErrOverflow)
      ensures |buf| > WriteLimit ==> tcp.output == old(tcp.output) && tcp.writes == old(tcp.writes)
      ensures |buf| <= WriteLimit ==> Sent(Frame(buf), old(tcp.output), err, tcp.output)
      ensures |buf| <= WriteLimit ==> FrameWrites(buf, old(tcp.writes), err, tcp.writes)
    {
      var ilen := |buf|;
      if ilen > WriteLimit {
        return Some(ErrOverflow);
      }
      err := SendFrame(buf);
    }

    /** Write with the limit a header can announce: a payload longer than
        MaxLength is refused, and a frame that goes out in full reads back as
        exactly this one packet. */
    method WriteChecked(buf: seq<byte>) returns (err: Option<Error>)
      requires Valid()
      modifies tcp
      ensures Valid() && tcp.cursor == old(tcp.cursor) && tcp.readCalls == old(tcp.readCalls)
      ensures |buf| > MaxLength ==> err == Some(ErrOverflow)
      ensures |buf| > MaxLength ==> tcp.output == old(tcp.output) && tcp.writes == old(tcp.writes)
      ensures |buf| <= MaxLength ==> Sent(Frame(buf), old(tcp.output), err, tcp.output)
      ensures |buf| <= MaxLength ==> FrameWrites(buf, old(tcp.writes), err, tcp.writes)
      ensures err.None? ==> Deframe(tcp.output[|old(tcp.output)|..]) == Some([buf])
    {
      if |buf| > MaxLength {
        return Some(ErrOverflow);
      }
      err := SendFrame(buf);
      if err.None? {
        assert Frames([buf]) == Frame(buf);
        DeframeFrames([buf]);
      }
    }
  }
}
