/**
  What the frame reader guarantees over whole streams: it does not matter how
  the transport splits the bytes into reads, a well-formed frame is delivered
  exactly once and consumes exactly its own bytes, an oversize frame is
  skipped at its header, a zero-length frame stalls the reader, and bytes
  outside frames come out as log lines.
*/
module ReaderProperties {
  import opened Wire
  import opened LogLines
  import opened FrameReader

  // ---------------------------------------------------------------------------
  // Fragmentation invariance.

  /** Feeding the concatenation of two streams is feeding one after the other. */
  lemma {:induction false} FeedAppend(r: ReaderState, a: seq<byte>, b: seq<byte>)
    requires Valid(r)
    ensures FeedBytes(r, a + b) ==
              var x := FeedBytes(r, a);
              var y := FeedBytes(x.next, b);
              StepResult(y.next, x.events + y.events)
    decreases |a|
  {
    if a == [] {
      assert a + b == b;
    } else if Stalled(r) {
    } else {
      assert (a + b)[..1] == a[..1];
      assert (a + b)[1..] == a[1..] + b;
      var first := Step(r, a[..1]);
      FeedAppend(first.next, a[1..], b);
      var x := FeedBytes(first.next, a[1..]);
      var y := FeedBytes(x.next, b);
      calc {
        FeedBytes(r, a + b);
        StepResult(FeedBytes(first.next, a[1..] + b).next, first.events + FeedBytes(first.next, a[1..] + b).events);
        StepResult(y.next, first.events + (x.events + y.events));
        { assert first.events + (x.events + y.events) == (first.events + x.events) + y.events; }
        StepResult(y.next, (first.events + x.events) + y.events);
      }
    }
  }

  /** One read of several bytes has the effect of reading them one at a time,
      because no state asks for more bytes than it can take in one go. */
  lemma {:induction false} StepIsBytewise(r: ReaderState, chunk: seq<byte>)
    requires Valid(r) && |chunk| <= Request(r)
    ensures Step(r, chunk) == FeedBytes(r, chunk)
    decreases |chunk|
  {
    if chunk == [] {
    } else if |chunk| == 1 {
      assert chunk[..1] == chunk;
      assert FeedBytes(Step(r, chunk).next, chunk[1..]) == StepResult(Step(r, chunk).next, []);
    } else {
      var first := Step(r, chunk[..1]);
      var tail := chunk[1..];
      assert r.frame + chunk == (r.frame + chunk[..1]) + tail;
      match r.phase
      case ReadHeader =>
        assert first.next == r.(frame := r.frame + chunk[..1]);
        StepIsBytewise(first.next, tail);
        assert Step(first.next, tail) == Step(r, chunk);
      case ReadPayload =>
        assert first.next == r.(frame := r.frame + chunk[..1], needed := r.needed - 1);
        StepIsBytewise(first.next, tail);
        assert Step(first.next, tail) == Step(r, chunk);
    }
  }

  /** Any legal way of splitting a stream into reads produces the same events
      and the same final state as reading it one byte at a time. */
  lemma {:induction false} RunIsBytewise(r: ReaderState, chunks: seq<seq<byte>>)
    requires Valid(r) && Legal(r, chunks)
    ensures Run(r, chunks) == FeedBytes(r, Flatten(chunks))
    decreases |chunks|
  {
    if chunks != [] {
      var first := Step(r, chunks[0]);
      StepIsBytewise(r, chunks[0]);
      RunIsBytewise(first.next, chunks[1..]);
      FeedAppend(r, chunks[0], Flatten(chunks[1..]));
    }
  }

  /** Two legal splittings of the same stream cannot be told apart. */
  lemma FragmentationInvariance(r: ReaderState, c1: seq<seq<byte>>, c2: seq<seq<byte>>)
    requires Valid(r) && Legal(r, c1) && Legal(r, c2)
    requires Flatten(c1) == Flatten(c2)
    ensures Run(r, c1) == Run(r, c2)
  {
    RunIsBytewise(r, c1);
    RunIsBytewise(r, c2);
  }

  // ---------------------------------------------------------------------------
  // Frames.

  /** Feeding a single byte to a reader that is not stalled is one read of
      that byte. */
  lemma FeedOne(r: ReaderState, b: byte)
    requires Valid(r) && !Stalled(r)
    ensures FeedBytes(r, [b]) == Step(r, [b])
  {
    StepIsBytewise(r, [b]);
  }

  /** A header read from a searching state: lengths within MAX_PACKET_SIZE
      lead to the payload countdown, larger ones back to searching, and no
      event is produced either way. */
  lemma FeedHeader(line: seq<byte>, hi: byte, lo: byte)
    requires LineOk(line)
    ensures
      var len := DecodeLength(hi, lo);
      FeedBytes(Searching(line), [START1, START2, hi, lo]) ==
        if len > MAX_PACKET_SIZE then StepResult(Searching(line), [])
        else StepResult(ReaderState(ReadPayload, [START1, START2, hi, lo], len, line), [])
  {
    var r0 := Searching(line);
    var r1 := Step(r0, [START1]).next;
    var r2 := Step(r1, [START2]).next;
    assert r2 == ReaderState(ReadHeader, [START1, START2], 0, line);
    FeedAppend(r0, [START1], [START2, hi, lo]);
    FeedOne(r0, START1);
    FeedAppend(r1, [START2], [hi, lo]);
    FeedOne(r1, START2);
    StepIsBytewise(r2, [hi, lo]);
    assert [START1] + [START2, hi, lo] == [START1, START2, hi, lo];
    assert [START2] + [hi, lo] == [START2, hi, lo];
  }

  /** During the countdown, the outstanding payload bytes complete the packet
      and return the reader to searching, whatever the read sizes. */
  lemma FeedPayload(r: ReaderState, payload: seq<byte>)
    requires Valid(r) && r.phase == ReadPayload
    requires 0 < |payload| == r.needed
    ensures FeedBytes(r, payload) == StepResult(Searching(r.line), [Packet(r.frame + payload)])
  {
    StepIsBytewise(r, payload);
  }

  /** A well-formed frame with a non-empty payload of at most MAX_PACKET_SIZE
      bytes, met while searching, is delivered as exactly one packet holding
      exactly the frame, and reading resumes at the byte after it with the
      log line untouched. */
  lemma FrameDeliveredOnce(line: seq<byte>, payload: seq<byte>, rest: seq<byte>)
    requires LineOk(line)
    requires 0 < |payload| <= MAX_PACKET_SIZE
    ensures
      var frame := HeaderFor(|payload|) + payload;
      var after := FeedBytes(Searching(line), rest);
      FeedBytes(Searching(line), frame + rest) ==
        StepResult(after.next, [Packet(frame)] + after.events)
  {
    var h := HeaderFor(|payload|);
    var frame := h + payload;
    var r := ReaderState(ReadPayload, h, |payload|, line);
    assert FeedBytes(Searching(line), h) == StepResult(r, []) by {
      HeaderRoundTrip(|payload|);
      FeedHeader(line, h[2], h[3]);
      assert [START1, START2, h[2], h[3]] == h;
    }
    assert FeedBytes(Searching(line), frame) == StepResult(Searching(line), [Packet(frame)]) by {
      FeedAppend(Searching(line), h, payload);
      FeedPayload(r, payload);
      assert [] + [Packet(frame)] == [Packet(frame)];
    }
    FeedAppend(Searching(line), frame, rest);
  }

  /** A header declaring more than MAX_PACKET_SIZE bytes is dropped on its
      own: no event, and the very next byte is examined as a possible start
      of frame or log byte. */
  lemma OversizeFrameSkipped(line: seq<byte>, len: nat, rest: seq<byte>)
    requires LineOk(line)
    requires MAX_PACKET_SIZE < len < LENGTH_RANGE
    ensures FeedBytes(Searching(line), HeaderFor(len) + rest) == FeedBytes(Searching(line), rest)
  {
    var h := HeaderFor(len);
    HeaderRoundTrip(len);
    FeedHeader(line, h[2], h[3]);
    assert [START1, START2, h[2], h[3]] == h;
    FeedAppend(Searching(line), h, rest);
  }

  /** A zero-length frame never completes: after its header the reader asks
      for zero bytes, so every later read returns nothing and no further
      event, packet or log line, is ever produced. */
  lemma ZeroLengthFrameStalls(line: seq<byte>, rest: seq<byte>)
    requires LineOk(line)
    ensures
      var res := FeedBytes(Searching(line), HeaderFor(0) + rest);
      && res.events == []
      && res.next == ReaderState(ReadPayload, HeaderFor(0), 0, line)
      && Stalled(res.next)
  {
    var h := HeaderFor(0);
    FeedHeader(line, h[2], h[3]);
    assert [START1, START2, h[2], h[3]] == h;
    FeedAppend(Searching(line), h, rest);
  }

  /** Once stalled, no legal sequence of reads changes anything. */
  lemma {:induction false} StalledStaysStalled(r: ReaderState, chunks: seq<seq<byte>>)
    requires Valid(r) && Stalled(r) && Legal(r, chunks)
    ensures Run(r, chunks) == StepResult(r, [])
    decreases |chunks|
  {
    if chunks != [] {
      StalledStaysStalled(r, chunks[1..]);
    }
  }

  // ---------------------------------------------------------------------------
  // Log text.

  /** Bytes other than START1 read while searching go through the log
      accumulator one by one and nowhere else. */
  lemma {:induction false} StrayBytesAreLogged(line: seq<byte>, s: seq<byte>)
    requires LineOk(line)
    requires forall i :: 0 <= i < |s| ==> s[i] != START1
    ensures FeedBytes(Searching(line), s) ==
              StepResult(Searching(PushAll(line, s).line), LogEvents(PushAll(line, s).flushed))
    decreases |s|
  {
    if s != [] {
      var p := PushByte(line, s[0]);
      assert s[..1] == [s[0]];
      StrayBytesAreLogged(p.line, s[1..]);
      LogEventsAppend(p.flushed, PushAll(p.line, s[1..]).flushed);
    }
  }

  /** From a fresh reader, a marker-free stream yields one log event per
      newline-terminated line, carriage returns removed and each cut to the
      log buffer's capacity, in stream order. */
  lemma StrayBytesYieldLines(s: seq<byte>)
    requires forall i :: 0 <= i < |s| ==> s[i] != START1
    ensures FeedBytes(Init, s) == StepResult(Searching(Pending(s)), LogEvents(Lines(s)))
  {
    StrayBytesAreLogged([], s);
    PushAllMatchesLines(s);
  }

  /** A 0x00 among stray bytes is kept in the log buffer, but it ends the
      string the sink reads: "a", NUL, "b", LF gives a line whose sink text
      is just "a". */
  lemma NulCutsSinkText()
    ensures
      var events := FeedBytes(Init, [0x61, 0x00, 0x62, LF]).events;
      && events == [LogLine([0x61, 0x00, 0x62])]
      && SinkText(events[0].text) == [0x61]
  {
    var text: seq<byte> := [0x61, 0x00, 0x62];
    var s := text + [LF];
    assert s == [0x61, 0x00, 0x62, LF];
    assert PushAll([], s) == Pushed([], [text]) by {
      LinePushedWhole([], text);
      assert [] + text == text;
      PushAllAppend([], text, [LF]);
      assert PushAll(text, [LF]) == Pushed([], [text]) by {
        assert [LF][1..] == [];
      }
      assert [] + [text] == [text];
    }
    StrayBytesAreLogged([], s);
    assert SinkText(text[1..]) == [];
  }

  /** "hello\r\nworld\n" gives the lines "hello" and "world". */
  lemma HelloWorld()
    ensures
      var hello: seq<byte> := [0x68, 0x65, 0x6C, 0x6C, 0x6F];
      var world: seq<byte> := [0x77, 0x6F, 0x72, 0x6C, 0x64];
      FeedBytes(Init, hello + [CR, LF] + world + [LF]).events == [LogLine(hello), LogLine(world)]
  {
    var hello: seq<byte> := [0x68, 0x65, 0x6C, 0x6C, 0x6F];
    var world: seq<byte> := [0x77, 0x6F, 0x72, 0x6C, 0x64];
    var s := hello + [CR, LF] + world + [LF];
    assert PushAll([], hello + [CR, LF]) == Pushed([], [hello]) by {
      LinePushedWhole([], hello);
      assert [] + hello == hello;
      assert PushAll([], hello) == Pushed(hello, []);
      PushAllAppend([], hello, [CR, LF]);
      assert PushAll(hello, [CR, LF]) == Pushed([], [hello]) by {
        assert [CR, LF][1..] == [LF] && [LF][1..] == [];
        assert PushAll(hello, [LF]) == Pushed([], [hello]);
      }
      assert [] + [hello] == [hello];
    }
    assert PushAll([], world + [LF]) == Pushed([], [world]) by {
      LinePushedWhole([], world);
      assert [] + world == world;
      assert PushAll([], world) == Pushed(world, []);
      PushAllAppend([], world, [LF]);
      assert PushAll(world, [LF]) == Pushed([], [world]) by {
        assert [LF][1..] == [];
      }
      assert [] + [world] == [world];
    }
    assert PushAll([], s) == Pushed([], [hello, world]) by {
      assert s == (hello + [CR, LF]) + (world + [LF]);
      PushAllAppend([], hello + [CR, LF], world + [LF]);
    }
    StrayBytesAreLogged([], s);
  }

  // ---------------------------------------------------------------------------
  // Packet buffer bounds.

  /** The packet buffer position at which an iteration's `read` stores its
      bytes: 0 and 1 in the two marker states, packet_index afterwards. In
      every state this is just past the occupied part of the buffer. */
  function WriteStart(r: ReaderState): (i: nat)
    requires Valid(r)
    ensures i == |r.frame|
  {
    match r.phase
    case SearchStart1 => 0
    case SearchStart2 => 1
    case ReadHeader => |r.frame|
    case ReadPayload => |r.frame|
  }

  /** One past the last buffer position an iteration writes to. A payload
      read ends where the frame it extends now ends, or where the packet it
      completes ends. */
  function WriteEnd(r: ReaderState, chunk: seq<byte>): (e: nat)
    requires Valid(r)
    ensures e == |r.frame| + |chunk|
    ensures r.phase == ReadPayload && 0 < |chunk| <= r.needed ==>
              e == (if |chunk| == r.needed then |Step(r, chunk).events[0].bytes|
                    else |Step(r, chunk).next.frame|)
  {
    WriteStart(r) + |chunk|
  }

  /** The buffer a frame needs: a full header plus the largest payload. */
  const PACKET_BUFFER_SIZE: nat := HEADER_SIZE + MAX_PACKET_SIZE

  /** No legal read writes past HEADER_SIZE + MAX_PACKET_SIZE bytes, and the
      header phase never writes past the header. */
  lemma WritesStayInFrameBuffer(r: ReaderState, chunk: seq<byte>)
    requires Valid(r) && |chunk| <= Request(r)
    ensures WriteEnd(r, chunk) <= PACKET_BUFFER_SIZE
    ensures r.phase == ReadHeader ==> WriteEnd(r, chunk) <= HEADER_SIZE
  {
  }

  /** The buffer the reader thread actually gets holds MAX_PACKET_SIZE bytes.
      A frame of the largest accepted size, read in one payload read, writes
      up to position HEADER_SIZE + MAX_PACKET_SIZE: four bytes past its end. */
  lemma MaxFrameOverrunsAllocatedBuffer(payload: seq<byte>)
    requires |payload| == MAX_PACKET_SIZE
    ensures
      var h := HeaderFor(MAX_PACKET_SIZE);
      var r := FeedBytes(Init, h).next;
      && r.phase == ReadPayload
      && |payload| <= Request(r)
      && WriteEnd(r, payload) == MAX_PACKET_SIZE + HEADER_SIZE
      && WriteEnd(r, payload) > MAX_PACKET_SIZE
  {
    var h := HeaderFor(MAX_PACKET_SIZE);
    HeaderRoundTrip(MAX_PACKET_SIZE);
    FeedHeader([], h[2], h[3]);
    assert [START1, START2, h[2], h[3]] == h;
  }
}
