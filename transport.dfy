/** The TCP connection under the framing layer, reduced to what DGTCP uses of
    it: a Read that may return fewer bytes than asked for, and a Write. */
module Transport {
  import opened Errors
  import opened Header
  import opened Streams

  /** A duplex byte stream. `input` is everything the peer sends, of which
      the first `cursor` bytes have been read; `output` is everything written;
      `readCalls` and `writes` are the Read and Write calls made, in order. */
  class Stream {
    const input: seq<byte>
    var cursor: nat
    var output: seq<byte>
    ghost var readCalls: seq<ReadCall>
    ghost var writes: seq<WriteCall>

    ghost predicate Valid()
      reads this
    {
      cursor <= |input|
    }

    constructor (input: seq<byte>)
      ensures Valid() && this.input == input && cursor == 0 && output == [] && readCalls == [] && writes == []
    {
      this.input := input;
      cursor := 0;
      output := [];
      readCalls := [];
      writes := [];
    }

    /** Reads into `buf[from..to]`: either an error and no byte consumed, or
        at least one and at most `to - from` of the next stream bytes. At the
        end of the stream the error is EOF. How many bytes come, and whether
        the connection fails, is up to the transport. */
    method Read(buf: array<byte>, from: nat, to: nat) returns (size: nat, err: Option<Error>)
      requires Valid() && from < to <= buf.Length
      modifies this, buf
      ensures Valid() && output == old(output) && writes == old(writes)
      ensures readCalls == old(readCalls) + [ReadCall(size, err)]
      ensures err.Some? ==> size == 0 && cursor == old(cursor) && buf[..] == old(buf[..])
      ensures err.Some? ==> err.value == if old(cursor) == |input| then EOF else ConnectionError
      ensures err.None? ==> 1 <= size <= to - from && cursor == old(cursor) + size
      ensures err.None? ==> buf[from..from + size] == input[old(cursor)..cursor]
      ensures buf[..from] == old(buf[..from]) && buf[from + size..] == old(buf[from + size..])
    {
      var avail := if to - from < |input| - cursor then to - from else |input| - cursor;
      var k: nat :| k <= avail;
      if k == 0 {
        size, err := 0, Some(if cursor == |input| then EOF else ConnectionError);
        readCalls := readCalls + [ReadCall(size, err)];
        return;
      }
      forall i | from <= i < from + k {
        buf[i] := input[cursor + (i - from)];
      }
      cursor := cursor + k;
      size, err := k, None;
      readCalls := readCalls + [ReadCall(size, err)];
    }

    /** Writes `p`: all of it, or a prefix of it and an error. */
    method Write(p: seq<byte>) returns (err: Option<Error>)
      requires Valid()
      modifies this
      ensures Valid() && cursor == old(cursor) && readCalls == old(readCalls)
      ensures Sent(p, old(output), err, output)
      ensures writes == old(writes) + [WriteCall(p, err)]
    {
      var k: nat :| k <= |p|;
      var ok: bool :| ok ==> k == |p|;
      output := output + p[..k];
      err := if ok then None else Some(ConnectionError);
      writes := writes + [WriteCall(p, err)];
    }
  }
}
