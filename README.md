# DGTCP framed connection, modelled in Dafny

DGTCP turns a TCP byte stream into a stream of packets. On the wire every
packet is a frame: a two-byte big-endian length, then that many payload
bytes. `DGTCPConn.Read` receives one packet into the caller's buffer and
`DGTCPConn.Write` sends one. When the caller's buffer is too small for the
announced packet, Read returns `ErrOverflow` and keeps the announced length
in the field `readLen`. The body stays in the stream. A later Read with a
large enough buffer delivers it without reading another header, and a Read
with a buffer that is still too small returns `ErrOverflow` again.

The model has six modules:

- `Errors` (errors.dfy): Go `error` values. `Option<Error>` is a Go `error`,
  and `None` is nil. `ErrOverflow` is the package's own error; `EOF` and
  `ConnectionError` stand for what the TCP connection reports.
- `Header` (header.dfy): the length codec, as pure functions with lemmas.
  `byte` is a newtype over 0..255.
- `Streams` (streams.dfy): what calls on a byte stream leave behind. It
  holds the records of single read and write calls, and `StopsAtFailure`,
  which says a run of reads stopped at the first failure and returned that
  failure's error. It also holds `Sent`, which says what an attempt to send
  bytes shows on the outgoing stream.
- `Framing` (framing.dfy): the wire format and the reference reader
  `Deframe`. It also holds the relations that state what one Read does:
  `ReadStep` for the buffer, the count, the error and the read side, and
  `ReadCallsMade` for the stream reads it makes. `FrameWrites` (in `Dgtcp`)
  gives the Write calls one frame makes. The lemmas about packets read and
  written are stated over these relations.
- `Transport` (transport.dfy): the embedded `*net.TCPConn`, as a class
  `Stream`. The incoming stream is a fixed `input` with a `cursor`. A read
  returns between one byte and the space offered, or an error with nothing
  consumed. At the end of the input the error is always EOF. The outgoing
  stream `output` only grows: a write appends all its bytes, or a prefix of
  them and an error. The ghost fields `readCalls` and `writes` record each
  read and write call and its outcome. The transport picks the chunk sizes
  and failures with `:|`, so every proof holds for every choice.
- `Dgtcp` (dgtcp.dfy): the class `Conn` with the field `readLen` and the
  methods `FillBuf`, `Read` and `Write` of the source. The header read at
  the start of Read is a method of its own, `ReadHeader`, with its two-byte
  array. Read fills its `array<byte>` in place. Each method's postcondition ties the new state of
  the connection and its stream to the old one through the relations in
  `Framing`.

## Model

| member | source | states |
|---|---|---|
| `Header.Decode` | wrapper.go:57 | the decoded length is at most 65535; its high byte is the first header byte and its low byte the second |
| `Header.Encode` | wrapper.go:80-82 | every header is exactly two bytes |
| `Header.DecodeEncode` | wrapper.go:81-82 | decoding the header of any length n gives n modulo 65536 |
| `Header.DecodeEncodeInRange` | wrapper.go:81-82 | for lengths 0..65535, decoding undoes encoding |
| `Header.EncodeDecode` | wrapper.go:57 | every pair of header bytes is the encoding of the length it decodes to, so the codec is a bijection on 0..65535 |
| `Header.EncodeInjective` | wrapper.go:81-82 | two lengths in 0..65535 with the same header are equal |
| `Header.EncodeWraps` | wrapper.go:77-82 | lengths 65536 apart share a header, and 65536 gets `00 00`, the header of an empty packet |
| `Framing.Frame` | wrapper.go:8-11 | a frame is two bytes longer than its payload and ends with the payload |
| `Framing.Deframe` | wrapper.go:8-11 | whatever the reference reader reads from a stream is a list of packets of at most 65535 bytes whose frames, put together, are that stream |
| `Framing.DeframeFrames` | wrapper.go:8-11 | frames of packets of at most 65535 bytes, sent back to back, are read back as exactly those packets |
| `Framing.OversizeFrameMisread` | wrapper.go:77-82 | the frame Write emits for a 65536-byte payload announces length 0 and is not read back as that payload |
| `Framing.ReadFreshFrame` | wrapper.go:52-68 | a Read with nothing pending at the start of a frame either returns ErrOverflow, having consumed only the header and kept the length pending, or delivers the whole payload and leaves the cursor past the frame |
| `Framing.ReadPending` | wrapper.go:58-68 | a Read with length L pending does no header I/O: with a buffer shorter than L it changes nothing and reports ErrOverflow again, and otherwise it delivers the next L stream bytes |
| `Framing.OverflowThenRetry` | wrapper.go:62-66 | a too-small buffer gets (0, ErrOverflow) and is left untouched; a retry with a buffer of at least the packet's length gets the whole payload, with no byte lost or repeated, and the stream is left at the next frame |
| `Framing.ReadFrameThenRest` | wrapper.go:45-68 | a successful Read with nothing pending, at a frame followed by given bytes, delivers the frame's packet and leaves the cursor at the start of those bytes |
| `Framing.ReadNextOfFrames` | wrapper.go:45-68 | on packets sent back to back, a successful Read delivers the first one and leaves the cursor at the start of the others, so packets are read in the order they were sent |
| `Framing.ReadTruncatedFrame` | wrapper.go:45-68 | when the stream ends inside a frame whose payload would fit, Read fails with a transport error, that error is the failure of the last stream read it made, and nothing is pending. The count is 0 when the stream ends inside the header. It is the announced length whenever the header was read, because the failure then came in the body read |
| `Streams.StopsAtFailureThen` | wrapper.go:52-66 | reads that all succeeded, followed by reads that stop at the first failure, stop at the first failure; this is how the header read and the body read of one Read chain up |
| `Streams.SentInOrder` | wrapper.go:83-88 | a second send made only after the first succeeded shows on the stream as one send of both, so the first's bytes come first |
| `Framing.WriteThenRead` | wrapper.go:76-88 | a frame of at most 65535 bytes that Write sends in full is read back by Read as the same payload, with nothing pending and the reader at the end of what was written |
| `Transport.Stream.Read` | wrapper.go:35 | a TCP read delivers 1 up to the requested number of the next stream bytes into the requested part of the buffer, or fails having consumed nothing; at the end of the stream it fails with EOF; the call is recorded with its count and outcome |
| `Transport.Stream.Write` | wrapper.go:83 | a TCP write appends all of its bytes, or a prefix of them with an error, and is recorded with the error it returned |
| `Dgtcp.Conn.constructor` | wrapper.go:94 | a new connection has nothing pending |
| `Dgtcp.Conn.FillBuf` | wrapper.go:32-42 | succeeds exactly when the next `len` stream bytes have been consumed, and they are then in `buf[..len]` in order; the fill position never passes `len`; the first transport error is returned at once: every TCP read it made succeeded except the last, and on an error the last one failed with that very error; a stream too short always fails; bytes of `buf` not filled are unchanged |
| `Dgtcp.Conn.ReadHeader` | wrapper.go:49-57 | reads the two header bytes into an array of its own: on success exactly two stream bytes are consumed and the length is what they announce; on a transport error fewer than two are consumed; the TCP reads stop at the first failure |
| `Dgtcp.Conn.Read` | wrapper.go:45-69 | the call satisfies `ReadStep`. A header error with nothing pending returns (0, err) and keeps `readLen` at 0. An overflow returns (0, ErrOverflow), stores the announced length and consumes no body byte. Otherwise the body is read into the front of the buffer, the rest of the buffer is untouched, the announced length is returned even when the body read fails, and `readLen` is reset. The call also satisfies `ReadCallsMade`: the TCP reads it made stop at the first failure and any transport error returned is that failure's own, and an overflow with a length already pending makes no TCP read. Afterwards `readLen` is 0 or lies in (len(buf), 65535], and nothing is written |
| `Dgtcp.Conn.SendFrame` | wrapper.go:80-88 | the header write comes first and the body write only if the header write succeeded; the error returned is the last TCP write's own error, recorded with that write; the outgoing stream shows a prefix of the frame |
| `Dgtcp.Conn.Write` | wrapper.go:72-89 | a payload longer than 65536 bytes gets ErrOverflow with no write made; any other is sent as header then body, with the header holding the length modulo 65536, and the error returned is the failed TCP write's own |
| `Dgtcp.Conn.WriteChecked` | wrapper.go:77 | like Write, but the cap is 65535; a frame that goes out in full is read back by the reference reader as exactly this one packet |

## Left out

- The locks `wl` and `rl` and their Lock and Unlock calls (wrapper.go:25, 46-47, 73-74) are not modelled. They only serialise concurrent calls, so calls are modelled one at a time.
- The methods of `*net.TCPConn` that DGTCP passes through unchanged (close, deadlines, addresses) are not modelled. `Read` and `Write` of the TCP connection are replaced by the abstract `Transport.Stream`.
- `New` and its run-time type check on `net.Conn` (wrapper.go:92-97) are left out. Only the struct literal it builds is modelled, as `Dgtcp.Conn.constructor`.
- Transport.Stream.Read: a read never returns `0, nil`, and a failed read consumes nothing. Go allows both of these, but `net.TCPConn` does neither, and `FillBuf` could not terminate with `0, nil` reads.
- Header.Encode: the masks `& 0xff00 >> 8` and `& 0xff` are written as division and remainder by 256. The two agree because the length of a Go slice is never negative.
- Go's fixed-width `int` is not modelled. Every length here is at most a slice length, and `readLen` is at most 65535.

Two behaviours of the code are stated as they are:

- When the body read fails, Read returns `(ilen, err)`, not `(0, err)`. The buffer then holds only the bytes read before the failure, and nothing stays pending. `Dgtcp.Conn.Read` and `Framing.ReadTruncatedFrame` state this.
- `readLen` only ever holds a decoded header, so it stays at or below 65535, although Write accepts payloads of 65536 bytes.

## Findings

| source | as written | input that shows it | evidently intended | confidence | as-written member | corrected member |
|---|---|---|---|---|---|---|
| wrapper.go:77 | `Write` refuses a payload only when `ilen > 65536`, but the two-byte header holds the length modulo 65536 | a 65536-byte payload: Write sends header `00 00` and then 65536 bytes, so the peer reads an empty packet and then takes payload bytes for headers | refuse payloads longer than 65535 bytes, the largest length a header can announce | medium (the package comment at wrapper.go:3-4 also says 65536); not executed | `Dgtcp.Conn.Write`, `Framing.OversizeFrameMisread` | `Dgtcp.Conn.WriteChecked`, `Framing.DeframeFrames` |
