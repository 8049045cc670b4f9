/**
  serial_write: the outgoing half of the link. With a header requested it
  writes the four-byte header and then the payload, as two `write` calls that
  must each transfer every byte; without one it writes the payload alone.
  The transport is a parameter: the counts the two `write` calls return.
*/
module FrameWriter {
  import opened Wire
  import opened LogLines
  import opened FrameReader
  import opened ReaderProperties

  /** serial_write's return codes. */
  const WRITE_OK: int := 0
  const HEADER_WRITE_FAILED: int := -1
  const PAYLOAD_WRITE_FAILED: int := -2

  /** The return code and the bytes that reached the transport. */
  datatype WriteOutcome = WriteOutcome(code: int, wire: seq<byte>)

  /** What a complete call puts on the wire. */
  function Intended(payload: seq<byte>, header: bool): seq<byte> {
    (if header then HeaderFor(|payload|) else []) + payload
  }

  /** Bytes a `write` reply says were transferred; -1 (failure) is none. */
  function Transferred(reply: int): nat {
    if reply < 0 then 0 else reply
  }

  /** serial_write, given the replies of its `write` calls: `headerReply` for
      the header (not consulted without a header) and `payloadReply` for the
      payload. A reply is -1 or a count of at most the bytes offered; the C
      code compares it, as a `size_t`, for equality with the count offered,
      so -1 reads as a short write. */
  function SerialWrite(payload: seq<byte>, header: bool, headerReply: int, payloadReply: int): (w: WriteOutcome)
    requires -1 <= headerReply <= HEADER_SIZE
    requires -1 <= payloadReply <= |payload|
    ensures w.code == WRITE_OK || w.code == HEADER_WRITE_FAILED || w.code == PAYLOAD_WRITE_FAILED
    ensures w.code == HEADER_WRITE_FAILED <==> header && headerReply != HEADER_SIZE
    ensures w.code == PAYLOAD_WRITE_FAILED <==>
              (!header || headerReply == HEADER_SIZE) && payloadReply != |payload|
    ensures w.wire <= Intended(payload, header)
    ensures w.code == WRITE_OK ==> w.wire == Intended(payload, header)
    ensures w.code != WRITE_OK && payloadReply >= 0 ==> |w.wire| < |Intended(payload, header)|
    ensures w.code == HEADER_WRITE_FAILED ==> |w.wire| < HEADER_SIZE
    ensures !header ==> w.wire <= payload
  {
    var h := HeaderFor(|payload|);
    if header && headerReply != HEADER_SIZE then
      assert h[..Transferred(headerReply)] <= h + payload;
      WriteOutcome(HEADER_WRITE_FAILED, h[..Transferred(headerReply)])
    else
      var sent: seq<byte> := if header then h else [];
      if payloadReply != |payload| then
        assert sent + payload[..Transferred(payloadReply)] <= sent + payload;
        WriteOutcome(PAYLOAD_WRITE_FAILED, sent + payload[..Transferred(payloadReply)])
      else
        WriteOutcome(WRITE_OK, sent + payload)
  }

  /** Round trip: whatever a successful framed write put on the wire, read
      back by a searching reader in any legal split into reads, is delivered
      as one packet whose payload is the original, and the reader is
      searching again with its log line as it was. */
  lemma WriteThenRead(payload: seq<byte>, headerReply: int, payloadReply: int,
                      line: seq<byte>, chunks: seq<seq<byte>>)
    requires 0 < |payload| <= MAX_PACKET_SIZE
    requires -1 <= headerReply <= HEADER_SIZE && -1 <= payloadReply <= |payload|
    requires SerialWrite(payload, true, headerReply, payloadReply).code == WRITE_OK
    requires LineOk(line)
    requires Legal(Searching(line), chunks)
    requires Flatten(chunks) == SerialWrite(payload, true, headerReply, payloadReply).wire
    ensures
      var wire := SerialWrite(payload, true, headerReply, payloadReply).wire;
      && Run(Searching(line), chunks) == StepResult(Searching(line), [Packet(wire)])
      && wire[HEADER_SIZE..] == payload
      && DeclaredLength(wire) == |payload|
  {
    var wire := SerialWrite(payload, true, headerReply, payloadReply).wire;
    assert wire == HeaderFor(|payload|) + payload;
    RunIsBytewise(Searching(line), chunks);
    FrameDeliveredOnce(line, payload, []);
    assert wire + [] == wire;
    HeaderRoundTrip(|payload|);
  }

  /** The three-byte frame 0xAA 0xBB 0xCC arriving as the reads
      [START1], [START2], [0x00, 0x03], [0xAA], [0xBB, 0xCC] is delivered once.
      START2 arrives alone because SEARCH_START2 asks `read` for exactly one
      byte; a read returning START2 together with the first length byte cannot
      happen (`StartMarkersReadAlone`). */
  lemma ThreeByteFrameInFiveReads()
    ensures
      var chunks: seq<seq<byte>> := [[START1], [START2], [0x00, 0x03], [0xAA], [0xBB, 0xCC]];
      && Legal(Init, chunks)
      && Run(Init, chunks).events == [Packet([START1, START2, 0x00, 0x03, 0xAA, 0xBB, 0xCC])]
  {
    var payload: seq<byte> := [0xAA, 0xBB, 0xCC];
    var chunks: seq<seq<byte>> := [[START1], [START2], [0x00, 0x03], [0xAA], [0xBB, 0xCC]];
    var r1 := ReaderState(SearchStart2, [START1], 0, []);
    var r2 := ReaderState(ReadHeader, [START1, START2], 0, []);
    var r3 := ReaderState(ReadPayload, [START1, START2, 0x00, 0x03], 3, []);
    var r4 := ReaderState(ReadPayload, [START1, START2, 0x00, 0x03, 0xAA], 2, []);
    assert Legal(r4, chunks[4..]) by {
      assert chunks[4..][1..] == [];
    }
    assert Legal(r3, chunks[3..]) by {
      assert Step(r3, [0xAA]).next == r4;
      assert chunks[3..][1..] == chunks[4..];
    }
    assert Legal(r2, chunks[2..]) by {
      assert Step(r2, [0x00, 0x03]).next == r3;
      assert chunks[2..][1..] == chunks[3..];
    }
    assert Legal(r1, chunks[1..]) by {
      assert Step(r1, [START2]).next == r2;
      assert chunks[1..][1..] == chunks[2..];
    }
    assert Legal(Init, chunks) by {
      assert Step(Init, [START1]).next == r1;
    }
    var frame := [START1, START2, 0x00, 0x03] + payload;
    assert Flatten(chunks) == frame by {
      assert Flatten(chunks[4..]) == [0xBB, 0xCC];
      assert Flatten(chunks[3..]) == [0xAA, 0xBB, 0xCC];
      assert Flatten(chunks[2..]) == [0x00, 0x03, 0xAA, 0xBB, 0xCC];
      assert Flatten(chunks[1..]) == [START2, 0x00, 0x03, 0xAA, 0xBB, 0xCC];
    }
    assert HeaderFor(3) == [START1, START2, 0x00, 0x03];
    RunIsBytewise(Init, chunks);
    FrameDeliveredOnce([], payload, []);
    assert frame + [] == frame;
    assert Init == Searching([]);
    assert FeedBytes(Init, []) == StepResult(Init, []);
    assert FeedBytes(Init, frame) == StepResult(Init, [Packet(frame)] + []);
    assert Run(Init, chunks) == FeedBytes(Init, frame);
    assert frame == [START1, START2, 0x00, 0x03, 0xAA, 0xBB, 0xCC];
  }

  /** The split [START1], [START2, 0x00], [0x03, 0xAA], [0xBB, 0xCC] of the
      same frame is not a possible sequence of reads: after START1 the reader
      asks for one byte only. */
  lemma StartMarkersReadAlone()
    ensures !Legal(Init, [[START1], [START2, 0x00], [0x03, 0xAA], [0xBB, 0xCC]])
  {
  }
}
