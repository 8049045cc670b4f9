# Serial framing core of Meshtastic-C, in Dafny

This project models the byte-stream framing layer of the Meshtastic-C serial
interface (`src/serial_interface.cpp`): the reader loop that separates device
log text from binary packets and reassembles packets from arbitrarily split
reads, and `serial_write`, which frames an outgoing payload.

A frame on the wire is `START1 START2 len_hi len_lo` followed by `len` payload
bytes (the length is big-endian and at most `MAX_PACKET_SIZE`).

- `Wire` holds the frame constants, the header `serial_write` builds
  (`HeaderFor`) and the length the reader decodes (`DecodeLength`).
- `LogLines` is the log accumulator. Carriage returns are dropped. A newline
  flushes the line. Other bytes are kept while the line has fewer than
  `MAX_LOG_SIZE - 1` bytes. It also defines an independent reference
  (`Lines`, `Pending`) for the lines a byte stream carries.
- `FrameReader` is one iteration of the reader loop as a pure function,
  `Step(state, chunk)`. `chunk` is what that iteration's `read` returned: at
  most `Request(state)` bytes, possibly none. `Step` returns the next state and
  the events produced: `Packet(frame)` for the packet handler or
  `LogLine(text)` for the log sink. `Run` folds `Step` over a sequence of
  reads. `FeedBytes` is the reference reading, one byte per read.
- `ReaderProperties` proves facts about whole streams:
  - the result does not depend on how the stream is split into reads;
  - a frame is delivered exactly once and consumes exactly its own bytes;
  - an oversize header is skipped;
  - a zero-length frame stalls the reader;
  - bytes outside frames become log lines;
  - there are bounds on where in the packet buffer the reader writes.
- `FrameWriter` is `serial_write`. The replies of its two `write` calls are
  parameters. Its lemma `WriteThenRead` is the round trip from writer to
  reader.

The blocking `read` and `write`, the reader thread and the callbacks are left
to the caller. A read result is a byte sequence no longer than the count
requested, so a read always returns a non-negative count.

The constants come from `serial_interface.h`, which is not part of this
model. The model uses the Meshtastic serial-protocol values: `START1 = 0x94`,
`START2 = 0xC3`, `HEADER_SIZE = 4` and `MAX_PACKET_SIZE = 512`. It takes
`MAX_LOG_SIZE = 256`. The proofs rely on these facts about the values:
- `HEADER_SIZE` is 4;
- `MAX_PACKET_SIZE` is below 2^16, which the header round trip needs, and at
  least 3, which the five-read example needs;
- `START1` is neither CR nor LF, which the log-line clause of `Step` needs;
- `START1` is none of the text bytes of the concrete log examples;
- `MAX_LOG_SIZE` is positive, and leaves room for the five-byte lines of the
  concrete examples.

Behaviour the model keeps as the code has it:
- **Rejected second byte.** When the byte after `START1` is not `START2`, the
  reader goes back to searching. That byte is neither logged nor re-examined
  as a new `START1`.
- **Zero-length frames stall.** After a header declaring length 0, the reader
  asks `read` for 0 bytes forever and never delivers the frame
  (`ZeroLengthFrameStalls`, `StalledStaysStalled`). The round trip therefore
  needs a non-empty payload.
- **No separate frame cursor.** The code leaves `packet_index` stale while
  searching and sets it to 1 when it sees `START1`. The model clears the frame
  on returning to searching. This cannot be observed.

The log path tests the variable `byte`, which is never assigned. The reader
model uses the byte that was actually read, `packet_buffer[0]`, and the code
as written is kept beside it (see Findings).

## Model

| member | source | states |
|---|---|---|
| `Wire.HeaderFor` | src/serial_interface.cpp:140-145 | The header is START1, START2, then the payload length modulo 2^16 as two big-endian bytes |
| `Wire.DecodeLength` | src/serial_interface.cpp:60 | The decoded length is below 2^16, with byte 2 as its high base-256 digit and byte 3 as its low digit |
| `Wire.HeaderRoundTrip` | src/serial_interface.cpp:140-145 | Decoding the header built for `len` gives `len mod 2^16`, which is `len` itself for every acceptable length |
| `Wire.DecodeThenEncode` | src/serial_interface.cpp:60 | The header built for a decoded length repeats the two length bytes it was decoded from |
| `LogLines.PushByte` | src/serial_interface.cpp:28-38 | CR leaves the line as it is. LF flushes exactly the line and empties it. Any other byte is appended unless the line already holds MAX_LOG_SIZE-1 bytes. The line stays within capacity and free of CR and LF |
| `LogLines.PushAll` | src/serial_interface.cpp:35-37 | After any byte stream the line still fits MAX_LOG_SIZE-1 bytes, and at most one line is flushed per byte |
| `LogLines.PushAllAppend` | src/serial_interface.cpp:28-38 | Pushing `a + b` leaves the same buffer as pushing `a` and then `b`, and flushes `a`'s lines followed by `b`'s |
| `LogLines.LinePushedWhole` | src/serial_interface.cpp:35-37 | Bytes other than CR and LF that fit in the buffer are appended in order, and nothing is flushed |
| `LogLines.PushAllMatchesLines` | src/serial_interface.cpp:28-38 | Starting empty, the accumulator flushes exactly the reference lines: the newline-terminated segments with CRs removed, each cut to MAX_LOG_SIZE-1 bytes, in order. It ends holding the cleaned, clipped unterminated tail, which fits the buffer and has no CR or LF |
| `LogLines.FlushedLinesAreClean` | src/serial_interface.cpp:29-37 | No flushed line contains CR or LF, and none is longer than MAX_LOG_SIZE-1 bytes |
| `LogLines.SinkText` | src/serial_interface.cpp:31-32 | The text the sink reads from a NUL-terminated line is its longest prefix without 0x00: a prefix of the line, free of NUL, and either the whole line or stopped at a 0x00 |
| `LogLines.PushByteAsWritten` | src/serial_interface.cpp:29-36 | Code as written, which tests the stale `byte`: with a stale CR nothing ever changes; with a stale value other than CR or LF nothing is ever flushed |
| `LogLines.PushAllAsWritten` | src/serial_interface.cpp:28-38 | Code as written over a stream. A stale CR leaves the buffer untouched. A stale LF flushes on every byte: first the old line, then empty lines, and the buffer ends empty. Any other stale value flushes nothing and appends every byte, CR and LF included, until the buffer holds MAX_LOG_SIZE-1 bytes |
| `LogLines.StaleByteLosesLines` | src/serial_interface.cpp:29-36 | With a stale value other than CR or LF, the stream "a\r\n" flushes nothing and leaves CR and LF in the buffer; the intended accumulator flushes "a" |
| `FrameReader.Request` | src/serial_interface.cpp:21-73 | The contract bounds the count each iteration passes to `read`: only the payload state can ask for 0 bytes, and no request reaches past HEADER_SIZE + MAX_PACKET_SIZE. The counts themselves (1, 1, `HEADER_SIZE - packet_index`, `bytes_needed`) are in the body |
| `FrameReader.LogEvents` | src/serial_interface.cpp:30-33 | Each flushed line becomes one log event for `handle_log`: same number, same order, each event carrying its line |
| `FrameReader.OnStart1` | src/serial_interface.cpp:20-40 | START1 moves to SEARCH_START2 with packet index 1 and no event. Any other byte stays in SEARCH_START1 and goes through the log accumulator, whose flushed lines become the events |
| `FrameReader.OnStart2` | src/serial_interface.cpp:42-52 | START2 moves to READ_HEADER with packet index 2. Any other byte returns to SEARCH_START1 with no event and the log line unchanged |
| `FrameReader.OnHeader` | src/serial_interface.cpp:54-70 | The header bytes are appended. On completion, a decoded length above MAX_PACKET_SIZE returns to searching; otherwise the countdown starts at the decoded length. No event either way |
| `FrameReader.OnPayload` | src/serial_interface.cpp:72-84 | `bytes_needed` falls by exactly the bytes read. When it reaches 0, exactly one packet is emitted: header plus declared-length payload. The reader then returns to searching with the log line kept |
| `FrameReader.Step` | src/serial_interface.cpp:19-85 | Validity is preserved, so packet index + bytes_needed = HEADER_SIZE + length. An empty read changes nothing. At most one event. A packet is emitted iff the read completes the countdown. A log line is emitted iff a newline is read while searching. Every event is well formed |
| `FrameReader.Run` | src/serial_interface.cpp:17-86 | Over any legal sequence of reads the state stays valid. Every packet delivered is a whole, accepted, non-empty frame, and every log line is clean and within capacity |
| `FrameReader.FeedBytes` | src/serial_interface.cpp:17-86 | Byte-at-a-time reading keeps the state valid and emits only well-formed events |
| `ReaderProperties.FeedAppend` | src/serial_interface.cpp:17-86 | Reading `a + b` is reading `a` and then `b`, with the events concatenated |
| `ReaderProperties.StepIsBytewise` | src/serial_interface.cpp:55-77 | One read of up to the requested count has the same effect as reading its bytes one at a time |
| `ReaderProperties.RunIsBytewise` | src/serial_interface.cpp:17-86 | Any legal split of a stream into reads gives the same events and final state as byte-at-a-time reading |
| `ReaderProperties.FragmentationInvariance` | src/serial_interface.cpp:17-86 | Two legal splits of the same byte stream give identical events and final states |
| `ReaderProperties.FeedHeader` | src/serial_interface.cpp:20-70 | While searching, a header with a length within MAX_PACKET_SIZE starts the countdown at that length. A larger length returns to searching. No event is produced |
| `ReaderProperties.FeedPayload` | src/serial_interface.cpp:72-84 | During the countdown, exactly the outstanding bytes deliver the packet once and return the reader to searching |
| `ReaderProperties.FrameDeliveredOnce` | src/serial_interface.cpp:17-86 | A frame with 1..MAX_PACKET_SIZE payload bytes, followed by any bytes, gives exactly one packet (that frame) and then the events of the following bytes read from searching. Exactly the frame's bytes are consumed |
| `ReaderProperties.OversizeFrameSkipped` | src/serial_interface.cpp:59-65 | A header declaring more than MAX_PACKET_SIZE bytes produces nothing, and reading continues at the next byte as if the header had never come |
| `ReaderProperties.ZeroLengthFrameStalls` | src/serial_interface.cpp:67-74 | After a header of length 0 the reader is stalled in the payload state, whatever follows, and produces no event |
| `ReaderProperties.StalledStaysStalled` | src/serial_interface.cpp:73-74 | In the stalled state, every legal sequence of reads leaves the state unchanged and produces nothing |
| `ReaderProperties.StrayBytesAreLogged` | src/serial_interface.cpp:20-40 | While searching, bytes other than START1 go only through the log accumulator, one read each |
| `ReaderProperties.StrayBytesYieldLines` | src/serial_interface.cpp:28-38 | From the initial state, a stream without START1 yields one log event per reference line, in order |
| `ReaderProperties.NulCutsSinkText` | src/serial_interface.cpp:31-36 | A 0x00 stray byte is appended to the log buffer like any other byte: "a", NUL, "b", LF gives the line a NUL b, and the sink reads only "a" |
| `ReaderProperties.HelloWorld` | src/serial_interface.cpp:28-38 | "hello\r\nworld\n" yields the log lines "hello" and "world" |
| `ReaderProperties.WriteStart` | src/serial_interface.cpp:21-73 | `read` stores at position 0 in SEARCH_START1, 1 in SEARCH_START2 and `packet_index` in the header and payload states (lines 21, 43, 55, 73). In every state this is just past the occupied part of the buffer |
| `ReaderProperties.WriteEnd` | src/serial_interface.cpp:21-76 | A read ends at the write start plus the bytes read. A payload read ends where the frame it extends now ends, or where the completed packet ends |
| `ReaderProperties.WritesStayInFrameBuffer` | src/serial_interface.cpp:55-76 | No legal read writes beyond position HEADER_SIZE + MAX_PACKET_SIZE. The header state writes no further than the header |
| `ReaderProperties.MaxFrameOverrunsAllocatedBuffer` | src/serial_interface.cpp:73-76 | After a maximum-length header, a legal payload read writes up to position MAX_PACKET_SIZE + 4, past the MAX_PACKET_SIZE bytes allocated |
| `FrameWriter.SerialWrite` | src/serial_interface.cpp:136-169 | The code is -1 iff a header was requested and its write was short. It is -2 iff the header (if any) was written but the payload write was short. It is 0 otherwise. The wire always holds a prefix of header+payload (payload only without a header); on 0 it holds all of it. A header failure, or a payload failure whose reply is not -1, leaves fewer bytes on the wire |
| `FrameWriter.WriteThenRead` | src/serial_interface.cpp:140-164 | A successful framed write of 1..MAX_PACKET_SIZE bytes, read back in any legal split, gives exactly one packet. That packet is the wire bytes, its payload is the original and its declared length is the payload size |
| `FrameWriter.ThreeByteFrameInFiveReads` | src/serial_interface.cpp:17-86 | START1, START2, 00 03, AA, BB CC read in five reads is legal and gives exactly one packet with those seven bytes. START2 comes in a read of its own because SEARCH_START2 asks for one byte |
| `FrameWriter.StartMarkersReadAlone` | src/serial_interface.cpp:42-44 | SEARCH_START2 reads exactly one byte, so a read that returns START2 together with a length byte is not a legal sequence of reads |

## Left out

- The reader thread, the `running` flag, `pthread_create` and `pthread_join`, and `serial_close`. This is concurrency and shutdown; the model covers one loop iteration and folds over finitely many.
- `open`, termios baud and HUPCL setup, `fsync` and `close`. These are operating-system calls. `read` becomes the chunk handed to `Step` and `write` becomes the reply parameters of `SerialWrite`.
- A `read` that fails with -1. `bytes_read` is a `size_t`, so `bytes_read <= 0` does not catch it. The model only has non-negative read counts.
- `malloc` and `free`, including the `free(buffer)` on a failed write. Buffer capacity is covered by the bounds lemmas instead.
- `serial_open`'s handshake: the 32-byte START1 priming write, the random `want_config_id` and the `NODELESS_WANT_CONFIG_ID` check. This is randomness and set-up glue.
- `send_to_radio` and protobuf encoding. The codec is an external library that is not part of this model.
- `printf` diagnostics and the empty `handle_log`. Flushed lines are events instead.
- `FrameReader.LogEvents`: a `LogLine` event carries the whole log buffer, including any 0x00 bytes. `handle_log` receives it as a NUL-terminated C string, so the sink sees only `SinkText(text)`, the part before the first 0x00. The model does not feed events through that view, because `handle_log` is empty and the C-string reading belongs to the sink.
- `FrameWriter.SerialWrite`: a `write` reply is taken to be -1 or at most the count offered. Lengths above 0xFFFF are framed with the truncated 16-bit length, as `HeaderFor` states, and nothing further is said about them.

## Findings

| source | as written | input that shows it | evidently intended | confidence | as-written member | corrected member |
|---|---|---|---|---|---|---|
| src/serial_interface.cpp:29-36 | The CR and LF tests read the local `byte`, which is never assigned. The append stores `packet_buffer[0]` | a stale `byte` other than CR or LF, then the stream "a\r\n": no line is flushed, and CR and LF land in the log buffer | Test the byte just read, so that "a\r\n" flushes the line "a" | high (not executed) | `LogLines.StaleByteLosesLines` | `LogLines.PushAllMatchesLines` |
| src/serial_interface.cpp:104 | `packet_buffer` has MAX_PACKET_SIZE bytes, but header plus payload are stored in it | a header declaring MAX_PACKET_SIZE bytes, then a payload read of MAX_PACKET_SIZE bytes: it writes up to position MAX_PACKET_SIZE + 4 | Allocate HEADER_SIZE + MAX_PACKET_SIZE bytes (`PACKET_BUFFER_SIZE`) | high (not executed) | `ReaderProperties.MaxFrameOverrunsAllocatedBuffer` | `ReaderProperties.WritesStayInFrameBuffer` |
