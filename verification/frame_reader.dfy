/**
  The frame reader of the serial link as a pure step function. One loop
  iteration of the reader thread issues one `read` whose byte count depends on
  the state; `Step` takes the state and the bytes that read returned (at most
  the count asked for, possibly none) and gives the next state together with
  the events that iteration produced: a complete packet for the packet
  handler, or a flushed line for the log sink.
*/
module FrameReader {
  import opened Wire
  import opened LogLines

  /** The four states of the reader loop. */
  datatype Phase = SearchStart1 | SearchStart2 | ReadHeader | ReadPayload

  /** What one iteration hands to the outside world. A packet carries the
      whole frame (header and payload), as the packet buffer holds it when the
      handler is called. A log line carries the log buffer's contents when
      the newline arrives; the sink, which reads it as a C string, sees
      `SinkText(text)`. */
  datatype Event = Packet(bytes: seq<byte>) | LogLine(text: seq<byte>)

  /** The reader's state. `frame` is the occupied part of the packet buffer,
      so `|frame|` is the packet index; `needed` is the remaining payload
      count; `line` is the log buffer up to the log index. */
  datatype ReaderState = ReaderState(phase: Phase, frame: seq<byte>, needed: nat, line: seq<byte>)

  datatype StepResult = StepResult(next: ReaderState, events: seq<Event>)

  /** The state when the reader thread starts. */
  const Init: ReaderState := ReaderState(SearchStart1, [], 0, [])

  /** A searching state that keeps the log line `line`. */
  function Searching(line: seq<byte>): ReaderState {
    ReaderState(SearchStart1, [], 0, line)
  }

  /** The payload length a header declares. */
  function DeclaredLength(frame: seq<byte>): nat
    requires |frame| >= HEADER_SIZE
  {
    DecodeLength(frame[2], frame[3])
  }

  /** The states the reader can be in between two iterations. The payload
      countdown keeps `|frame| + needed` equal to the frame's full size. */
  predicate Valid(r: ReaderState) {
    && LineOk(r.line)
    && match r.phase
       case SearchStart1 => r.frame == [] && r.needed == 0
       case SearchStart2 => r.frame == [START1] && r.needed == 0
       case ReadHeader =>
         && 2 <= |r.frame| < HEADER_SIZE
         && r.frame[0] == START1 && r.frame[1] == START2
         && r.needed == 0
       case ReadPayload =>
         && HEADER_SIZE <= |r.frame|
         && r.frame[0] == START1 && r.frame[1] == START2
         && DeclaredLength(r.frame) <= MAX_PACKET_SIZE
         && |r.frame| + r.needed == HEADER_SIZE + DeclaredLength(r.frame)
         && (r.needed == 0 ==> |r.frame| == HEADER_SIZE)
  }

  /** A frame the packet handler may be given: both markers, an accepted
      length, and exactly that many payload bytes, at least one. */
  predicate Deliverable(frame: seq<byte>) {
    && |frame| > HEADER_SIZE
    && frame[0] == START1 && frame[1] == START2
    && DeclaredLength(frame) <= MAX_PACKET_SIZE
    && |frame| == HEADER_SIZE + DeclaredLength(frame)
  }

  /** Every packet event carries a deliverable frame and every log event a
      line free of CR and LF that fits the log buffer. */
  predicate EventsOk(es: seq<Event>) {
    forall k :: 0 <= k < |es| ==>
      match es[k]
      case Packet(bytes) => Deliverable(bytes)
      case LogLine(text) => LineOk(text)
  }

  lemma EventsOkAppend(a: seq<Event>, b: seq<Event>)
    requires EventsOk(a) && EventsOk(b)
    ensures EventsOk(a + b)
  {
    forall k | 0 <= k < |a + b|
      ensures match (a + b)[k]
              case Packet(bytes) => Deliverable(bytes)
              case LogLine(text) => LineOk(text)
    {
      if k < |a| { assert (a + b)[k] == a[k]; } else { assert (a + b)[k] == b[k - |a|]; }
    }
  }

  /** The byte count the iteration passes to `read`. */
  function Request(r: ReaderState): (n: nat)
    requires Valid(r)
    ensures r.phase != ReadPayload ==> n > 0
    ensures |r.frame| + n <= HEADER_SIZE + MAX_PACKET_SIZE
  {
    match r.phase
    case SearchStart1 => 1
    case SearchStart2 => 1
    case ReadHeader => HEADER_SIZE - |r.frame|
    case ReadPayload => r.needed
  }

  /** The events for the lines the log accumulator flushed. */
  function LogEvents(lines: seq<seq<byte>>): (es: seq<Event>)
    ensures |es| == |lines|
    ensures forall k :: 0 <= k < |es| ==> es[k] == LogLine(lines[k])
  {
    if lines == [] then [] else [LogLine(lines[0])] + LogEvents(lines[1..])
  }

  lemma LogEventsAppend(a: seq<seq<byte>>, b: seq<seq<byte>>)
    ensures LogEvents(a + b) == LogEvents(a) + LogEvents(b)
  {
  }

  /** SEARCH_START1 with one byte read: START1 opens a frame, anything else
      goes to the log accumulator. */
  function OnStart1(r: ReaderState, b: byte): (res: StepResult)
    requires Valid(r) && r.phase == SearchStart1
    ensures Valid(res.next)
    ensures res.next.line == (if b == START1 then r.line else PushByte(r.line, b).line)
    ensures b == START1 <==> res.next.phase == SearchStart2
    ensures b == START1 ==> res.next.frame == [START1] && res.events == []
    ensures b != START1 ==>
              res.next == Searching(res.next.line) && res.events == LogEvents(PushByte(r.line, b).flushed)
  {
    if b == START1 then
      StepResult(ReaderState(SearchStart2, [START1], 0, r.line), [])
    else
      var p := PushByte(r.line, b);
      StepResult(Searching(p.line), LogEvents(p.flushed))
  }

  /** SEARCH_START2 with one byte read: START2 moves on to the header; any
      other byte abandons the frame and is neither logged nor looked at again. */
  function OnStart2(r: ReaderState, b: byte): (res: StepResult)
    requires Valid(r) && r.phase == SearchStart2
    ensures Valid(res.next) && res.events == [] && res.next.line == r.line
    ensures b == START2 <==> res.next.phase == ReadHeader
    ensures b == START2 ==> res.next.frame == [START1, START2]
    ensures b != START2 ==> res.next == Searching(r.line)
  {
    if b == START2 then
      StepResult(ReaderState(ReadHeader, r.frame + [START2], 0, r.line), [])
    else
      StepResult(Searching(r.line), [])
  }

  /** READ_HEADER with a non-empty read of at most the missing header bytes.
      A complete header whose length exceeds MAX_PACKET_SIZE drops the frame. */
  function OnHeader(r: ReaderState, chunk: seq<byte>): (res: StepResult)
    requires Valid(r) && r.phase == ReadHeader
    requires 0 < |chunk| <= HEADER_SIZE - |r.frame|
    ensures Valid(res.next) && res.events == [] && res.next.line == r.line
    ensures |r.frame + chunk| < HEADER_SIZE ==>
              res.next == r.(frame := r.frame + chunk)
    ensures |r.frame + chunk| == HEADER_SIZE ==>
              var len := DeclaredLength(r.frame + chunk);
              && (len > MAX_PACKET_SIZE ==> res.next == Searching(r.line))
              && (len <= MAX_PACKET_SIZE ==>
                    res.next == ReaderState(ReadPayload, r.frame + chunk, len, r.line))
  {
    var frame := r.frame + chunk;
    if |frame| == HEADER_SIZE then
      var len := DeclaredLength(frame);
      if len > MAX_PACKET_SIZE then StepResult(Searching(r.line), [])
      else StepResult(ReaderState(ReadPayload, frame, len, r.line), [])
    else
      StepResult(r.(frame := frame), [])
  }

  /** READ_PAYLOAD with a non-empty read of at most the outstanding count:
      the count falls by the bytes read, and the packet is handed over the
      moment it reaches zero. */
  function OnPayload(r: ReaderState, chunk: seq<byte>): (res: StepResult)
    requires Valid(r) && r.phase == ReadPayload
    requires 0 < |chunk| <= r.needed
    ensures Valid(res.next) && res.next.line == r.line
    ensures |chunk| < r.needed ==>
              && res.events == []
              && res.next == r.(frame := r.frame + chunk, needed := r.needed - |chunk|)
    ensures |chunk| == r.needed ==>
              && res.events == [Packet(r.frame + chunk)]
              && |r.frame + chunk| == HEADER_SIZE + DeclaredLength(r.frame)
              && res.next == Searching(r.line)
  {
    var frame := r.frame + chunk;
    var left := r.needed - |chunk|;
    assert frame[..HEADER_SIZE] == r.frame[..HEADER_SIZE];
    if left == 0 then StepResult(Searching(r.line), [Packet(frame)])
    else StepResult(ReaderState(ReadPayload, frame, left, r.line), [])
  }

  /** One iteration of the reader loop, given what `read` returned. An empty
      read is a retry: nothing changes. */
  function Step(r: ReaderState, chunk: seq<byte>): (res: StepResult)
    requires Valid(r) && |chunk| <= Request(r)
    ensures Valid(res.next)
    ensures chunk == [] ==> res == StepResult(r, [])
    ensures |res.events| <= 1
    ensures EventsOk(res.events)
    ensures (exists p :: res.events == [Packet(p)]) <==>
              r.phase == ReadPayload && 0 < |chunk| == r.needed
    ensures r.phase == ReadPayload && 0 < |chunk| == r.needed ==>
              res.events == [Packet(r.frame + chunk)]
    ensures (exists t :: res.events == [LogLine(t)]) <==>
              r.phase == SearchStart1 && chunk == [LF]
  {
    if chunk == [] then StepResult(r, [])
    else
      match r.phase
      case SearchStart1 => OnStart1(r, chunk[0])
      case SearchStart2 => OnStart2(r, chunk[0])
      case ReadHeader => OnHeader(r, chunk)
      case ReadPayload => OnPayload(r, chunk)
  }

  /** The reader is stuck: it asks `read` for zero bytes, gets zero back and
      retries forever. This is where a zero-length frame leaves it. */
  predicate Stalled(r: ReaderState)
    requires Valid(r)
  {
    Request(r) == 0
  }

  // ---------------------------------------------------------------------------
  // Runs over many reads.

  /** The concatenation of the bytes of several reads. */
  function Flatten(chunks: seq<seq<byte>>): seq<byte> {
    if chunks == [] then [] else chunks[0] + Flatten(chunks[1..])
  }

  /** Every read returns at most the count that iteration asked for. */
  predicate Legal(r: ReaderState, chunks: seq<seq<byte>>)
    requires Valid(r)
    decreases |chunks|
  {
    chunks == [] || (|chunks[0]| <= Request(r) && Legal(Step(r, chunks[0]).next, chunks[1..]))
  }

  /** The reader loop over a sequence of read results. */
  function Run(r: ReaderState, chunks: seq<seq<byte>>): (res: StepResult)
    requires Valid(r) && Legal(r, chunks)
    ensures Valid(res.next)
    ensures EventsOk(res.events)
    decreases |chunks|
  {
    if chunks == [] then StepResult(r, [])
    else
      var first := Step(r, chunks[0]);
      var rest := Run(first.next, chunks[1..]);
      EventsOkAppend(first.events, rest.events);
      StepResult(rest.next, first.events + rest.events)
  }

  /** The reference reading of a byte stream: every read returns one byte,
      until the reader stalls and reads nothing more. */
  function FeedBytes(r: ReaderState, s: seq<byte>): (res: StepResult)
    requires Valid(r)
    ensures Valid(res.next)
    ensures EventsOk(res.events)
    decreases |s|
  {
    if s == [] || Stalled(r) then StepResult(r, [])
    else
      var first := Step(r, s[..1]);
      var rest := FeedBytes(first.next, s[1..]);
      EventsOkAppend(first.events, rest.events);
      StepResult(rest.next, first.events + rest.events)
  }
}
