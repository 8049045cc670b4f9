/**
  The log accumulator of the frame reader. Bytes read while searching for the
  first marker that are not START1 are device diagnostics: a carriage return
  is dropped, a newline hands the accumulated line to the log sink and starts
  a new one, and any other byte is appended while the line buffer has room
  (MAX_LOG_SIZE bytes, one of them kept for the terminating NUL).
*/
module LogLines {
  import opened Wire

  const CR: byte := 0x0D
  const LF: byte := 0x0A

  /** Size of the log buffer. The header that defines it is not part of this
      model; the general proofs only use that it is positive, and the concrete
      examples that it leaves room for a five-byte line. */
  const MAX_LOG_SIZE: nat := 256

  /** Bytes a line can hold before the NUL terminator: MAX_LOG_SIZE - 1. */
  const LINE_CAPACITY: nat := MAX_LOG_SIZE - 1

  /** What the accumulator can hold between two bytes: within capacity and
      free of carriage returns and newlines. */
  predicate LineOk(line: seq<byte>) {
    && |line| <= LINE_CAPACITY
    && forall i :: 0 <= i < |line| ==> line[i] != CR && line[i] != LF
  }

  /** The accumulator after one byte, and the lines (none or one) it flushed. */
  datatype Pushed = Pushed(line: seq<byte>, flushed: seq<seq<byte>>)

  function Min(a: nat, b: nat): nat {
    if a <= b then a else b
  }

  /** One byte through the log path of SEARCH_START1 (the byte tested and the
      byte appended are both the byte just read). */
  function PushByte(line: seq<byte>, b: byte): (p: Pushed)
    requires LineOk(line)
    ensures LineOk(p.line)
    ensures b == LF <==> p.flushed != []
    ensures b == LF ==> p.flushed == [line] && p.line == []
    ensures b == CR ==> p.line == line
    ensures b != LF && b != CR ==>
              p.line == (line + [b])[..Min(|line| + 1, LINE_CAPACITY)]
  {
    if b == CR then Pushed(line, [])
    else if b == LF then Pushed([], [line])
    else if |line| < LINE_CAPACITY then Pushed(line + [b], [])
    else Pushed(line, [])
  }

  /** Bytes pushed one after the other: the final accumulator and every line
      flushed on the way, in order. */
  function PushAll(line: seq<byte>, s: seq<byte>): (p: Pushed)
    requires LineOk(line)
    ensures LineOk(p.line)
    ensures |p.flushed| <= |s|
    decreases |s|
  {
    if s == [] then Pushed(line, [])
    else
      var first := PushByte(line, s[0]);
      var rest := PushAll(first.line, s[1..]);
      Pushed(rest.line, first.flushed + rest.flushed)
  }

  // ---------------------------------------------------------------------------
  // Reference definition of the log lines a byte stream carries, written from
  // the end of the stream rather than byte by byte through the accumulator.

  /** `s` without its carriage returns. */
  function Clean(s: seq<byte>): seq<byte> {
    if s == [] then []
    else (if s[|s| - 1] == CR then Clean(s[..|s| - 1]) else Clean(s[..|s| - 1]) + [s[|s| - 1]])
  }

  /** `s` cut to what the line buffer keeps. */
  function Clip(s: seq<byte>): seq<byte> {
    if |s| <= LINE_CAPACITY then s else s[..LINE_CAPACITY]
  }

  /** The bytes after the last newline of `s`. */
  function Unterminated(s: seq<byte>): seq<byte> {
    if s == [] then []
    else if s[|s| - 1] == LF then []
    else Unterminated(s[..|s| - 1]) + [s[|s| - 1]]
  }

  /** The newline-terminated lines of `s`, carriage returns removed and each
      cut to the buffer's capacity. */
  function Lines(s: seq<byte>): seq<seq<byte>> {
    if s == [] then []
    else if s[|s| - 1] == LF then Lines(s[..|s| - 1]) + [Clip(Clean(Unterminated(s[..|s| - 1])))]
    else Lines(s[..|s| - 1])
  }

  /** What the accumulator holds after `s`: its unterminated tail, cleaned and clipped. */
  function Pending(s: seq<byte>): seq<byte> {
    Clip(Clean(Unterminated(s)))
  }

  /** Appending one byte to a line and clipping is clipping first and then
      appending only while there is room. */
  lemma ClipSnoc(x: seq<byte>, b: byte)
    ensures Clip(x + [b]) == (if |Clip(x)| < LINE_CAPACITY then Clip(x) + [b] else Clip(x))
  {
    if |x| >= LINE_CAPACITY {
      assert (x + [b])[..LINE_CAPACITY] == x[..LINE_CAPACITY];
    }
  }

  /** Pushing `a + b` is pushing `a` and then `b`, the flushed lines
      concatenated. */
  lemma {:induction false} PushAllAppend(line: seq<byte>, a: seq<byte>, b: seq<byte>)
    requires LineOk(line)
    ensures PushAll(line, a + b) ==
              var x := PushAll(line, a);
              var y := PushAll(x.line, b);
              Pushed(y.line, x.flushed + y.flushed)
    decreases |a|
  {
    if a == [] {
      assert a + b == b;
    } else {
      assert (a + b)[0] == a[0];
      assert (a + b)[1..] == a[1..] + b;
      PushAllAppend(PushByte(line, a[0]).line, a[1..], b);
    }
  }

  /** Ordinary bytes that fit are appended as they come. */
  lemma {:induction false} LinePushedWhole(line: seq<byte>, s: seq<byte>)
    requires LineOk(line) && |line| + |s| <= LINE_CAPACITY
    requires forall i :: 0 <= i < |s| ==> s[i] != CR && s[i] != LF
    ensures PushAll(line, s) == Pushed(line + s, [])
    decreases |s|
  {
    if s != [] {
      LinePushedWhole(line + [s[0]], s[1..]);
      assert line + [s[0]] + s[1..] == line + s;
    }
  }

  /** Pushing one more byte after a stream is one PushByte after it. */
  lemma PushAllSnoc(line: seq<byte>, s: seq<byte>, b: byte)
    requires LineOk(line)
    ensures PushAll(line, s + [b]) ==
              var p := PushAll(line, s);
              var q := PushByte(p.line, b);
              Pushed(q.line, p.flushed + q.flushed)
  {
    PushAllAppend(line, s, [b]);
    assert [b][1..] == [];
  }

  /** The accumulator, started empty, flushes exactly the reference lines of
      the stream and ends holding its pending tail. */
  lemma {:induction false} PushAllMatchesLines(s: seq<byte>)
    ensures PushAll([], s) == Pushed(Pending(s), Lines(s))
    ensures LineOk(Pending(s))
    decreases |s|
  {
    if s == [] {
    } else {
      var init := s[..|s| - 1];
      var b := s[|s| - 1];
      assert s == init + [b];
      PushAllMatchesLines(init);
      PushAllSnoc([], init, b);
      if b == CR {
        assert Unterminated(s) == Unterminated(init) + [CR];
        assert (Unterminated(init) + [CR])[..|Unterminated(init) + [CR]| - 1] == Unterminated(init);
      } else if b == LF {
      } else {
        assert Unterminated(s) == Unterminated(init) + [b];
        assert (Unterminated(init) + [b])[..|Unterminated(init) + [b]| - 1] == Unterminated(init);
        assert Clean(Unterminated(s)) == Clean(Unterminated(init)) + [b];
        ClipSnoc(Clean(Unterminated(init)), b);
      }
    }
  }

  /** Carriage returns never reach a flushed line and long lines are cut at
      LINE_CAPACITY bytes. */
  lemma FlushedLinesAreClean(s: seq<byte>)
    ensures forall k :: 0 <= k < |Lines(s)| ==> LineOk(Lines(s)[k])
  {
    PushAllMatchesLines(s);
    FlushedLinesOk([], s);
  }

  lemma {:induction false} FlushedLinesOk(line: seq<byte>, s: seq<byte>)
    requires LineOk(line)
    ensures forall k :: 0 <= k < |PushAll(line, s).flushed| ==> LineOk(PushAll(line, s).flushed[k])
    decreases |s|
  {
    if s != [] {
      FlushedLinesOk(PushByte(line, s[0]).line, s[1..]);
    }
  }

  /** What the log sink reads of a flushed line. The line is handed over as a
      NUL-terminated C string, so a 0x00 byte inside it (binary bytes that
      reached the log path) ends the text the sink sees. */
  function SinkText(line: seq<byte>): (t: seq<byte>)
    ensures t <= line
    ensures forall i :: 0 <= i < |t| ==> t[i] != 0
    ensures |t| < |line| ==> line[|t|] == 0
  {
    if line == [] || line[0] == 0 then [] else [line[0]] + SinkText(line[1..])
  }

  // ---------------------------------------------------------------------------
  // The log path as written: lines 29 and 30 test the local `byte`, which is
  // never assigned, while line 36 appends packet_buffer[0]. `stale` stands for
  // whatever value that variable holds; it is the same on every iteration.

  /** One byte through the log path as written: the tests look at `stale`,
      the append stores `b`. */
  function PushByteAsWritten(line: seq<byte>, stale: byte, b: byte): (p: Pushed)
    ensures stale == CR ==> p == Pushed(line, [])
    ensures stale == LF ==> p == Pushed([], [line])
    ensures stale != CR && stale != LF ==> p.flushed == [] && |p.line| <= |line| + 1
  {
    if stale == CR then Pushed(line, [])
    else if stale == LF then Pushed([], [line])
    else if |line| < LINE_CAPACITY then Pushed(line + [b], [])
    else Pushed(line, [])
  }

  /** The log path as written over a stream. A stale CR freezes the buffer;
      a stale LF flushes on every byte, so the buffer never keeps anything;
      any other stale value appends every byte, CR and LF included, until the
      buffer is full, and never flushes. */
  function PushAllAsWritten(line: seq<byte>, stale: byte, s: seq<byte>): (p: Pushed)
    ensures stale == CR ==> p == Pushed(line, [])
    ensures stale == LF ==>
              && |p.flushed| == |s|
              && (s != [] ==> p.line == [] && p.flushed[0] == line)
              && forall k :: 0 < k < |p.flushed| ==> p.flushed[k] == []
    ensures stale != CR && stale != LF ==>
              && p.flushed == []
              && p.line == (if |line| >= LINE_CAPACITY then line
                            else (line + s)[..Min(|line| + |s|, LINE_CAPACITY)])
    decreases |s|
  {
    if s == [] then Pushed(line, [])
    else
      var first := PushByteAsWritten(line, stale, s[0]);
      var rest := PushAllAsWritten(first.line, stale, s[1..]);
      Pushed(rest.line, first.flushed + rest.flushed)
  }

  /** With a stale value that is neither CR nor LF, the stream "a\r\n" flushes
      no line and leaves the CR and LF bytes inside the buffer; the intended
      accumulator flushes the single line "a". */
  lemma StaleByteLosesLines()
    ensures PushAllAsWritten([], 0x78, [0x61, CR, LF]).flushed == []
    ensures PushAllAsWritten([], 0x78, [0x61, CR, LF]).line == [0x61, CR, LF]
    ensures PushAll([], [0x61, CR, LF]) == Pushed([], [[0x61]])
  {
    var x: byte := 0x78;
    var s: seq<byte> := [0x61, CR, LF];
    assert s[1..] == [CR, LF] && s[1..][1..] == [LF] && [LF][1..] == [];
    assert PushAllAsWritten([0x61, CR, LF], x, []) == Pushed([0x61, CR, LF], []);
    assert PushByteAsWritten([0x61, CR], x, LF) == Pushed([0x61, CR, LF], []);
    var w3 := PushAllAsWritten([0x61, CR], x, [LF]);
    assert w3 == Pushed([0x61, CR, LF], []);
    assert PushByteAsWritten([0x61], x, CR) == Pushed([0x61, CR], []);
    var w2 := PushAllAsWritten([0x61], x, [CR, LF]);
    assert w2 == Pushed([0x61, CR, LF], []);
    assert PushByteAsWritten([], x, 0x61) == Pushed([0x61], []);
    assert PushAll([], []) == Pushed([], []);
    var c3 := PushAll([0x61], [LF]);
    assert c3 == Pushed([], [[0x61]]);
    var c2 := PushAll([0x61], [CR, LF]);
    assert c2 == Pushed([], [[0x61]]);
  }
}
