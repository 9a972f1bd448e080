/** What a sequence of calls on a byte stream leaves behind: the record of
    the reads made, and what an append-only outgoing stream shows. */
module Streams {
  import opened Errors
  import opened Header

  /** One call of a stream's Read: how many bytes it delivered and its error. */
  datatype ReadCall = ReadCall(size: nat, err: Option<Error>)

  /** One call of a stream's Write: what it was asked to send and its error. */
  datatype WriteCall = WriteCall(bytes: seq<byte>, err: Option<Error>)

  /** The reads `io` were made by a caller that stops at the first failure:
      every read but the last succeeded; a transport error `err` is the
      failure of the last read; any other outcome means no read failed. */
  ghost predicate StopsAtFailure(io: seq<ReadCall>, err: Option<Error>)
  {
    (forall i :: 0 <= i < |io| - 1 ==> io[i].err.None?) &&
    if err.Some? && IsTransport(err.value) then io != [] && io[|io| - 1].err == err
    else forall i :: 0 <= i < |io| ==> io[i].err.None?
  }

  /** Reads that all succeeded, followed by reads that stop at the first
      failure, stop at the first failure. */
  lemma StopsAtFailureThen(io1: seq<ReadCall>, io2: seq<ReadCall>, err: Option<Error>)
    requires StopsAtFailure(io1, None) && StopsAtFailure(io2, err)
    ensures StopsAtFailure(io1 + io2, err)
  {
    var io := io1 + io2;
    forall i | 0 <= i < |io| - 1 ensures io[i].err.None? {
      if i >= |io1| {
        assert io[i] == io2[i - |io1|];
      }
    }
    if err.Some? && IsTransport(err.value) {
      assert io[|io| - 1] == io2[|io2| - 1];
    } else {
      forall i | 0 <= i < |io| ensures io[i].err.None? {
        if i >= |io1| {
          assert io[i] == io2[i - |io1|];
        }
      }
    }
  }

  /** What an append-only outgoing stream shows after an attempt to send
      `bytes`: all of them on success, a prefix of them on a transport error. */
  ghost predicate Sent(bytes: seq<byte>, before: seq<byte>, err: Option<Error>, after: seq<byte>)
  {
    |before| <= |after| <= |before| + |bytes| &&
    after == before + bytes[..|after| - |before|] &&
    (err.None? ==> |after| == |before| + |bytes|) &&
    (err.Some? ==> IsTransport(err.value))
  }

  /** Two sends in a row, the second made only when the first succeeded, show
      as one send of both: the bytes of `a` always come before those of `b`. */
  lemma SentInOrder(a: seq<byte>, b: seq<byte>, o0: seq<byte>, e1: Option<Error>, o1: seq<byte>,
                    e2: Option<Error>, o2: seq<byte>)
    requires Sent(a, o0, e1, o1)
    requires e1.None? ==> Sent(b, o1, e2, o2)
    ensures Sent(a + b, o0, if e1.Some? then e1 else e2, if e1.Some? then o1 else o2)
  {
    if e1.None? {
      assert o1 == o0 + a;
      var k := |o2| - |o1|;
      assert (a + b)[..|a| + k] == a + b[..k];
    } else {
      assert (a + b)[..|o1| - |o0|] == a[..|o1| - |o0|];
    }
  }
}
