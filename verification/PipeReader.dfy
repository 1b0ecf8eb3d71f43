/** Capturing a hook's output: bytes arrive in arbitrary chunks and leave as lines. */
module PipeReader {
  import opened Wrappers

  const MAX_LINE_BYTES: nat := 4096
  const MAX_CAPTURED_BYTES: nat := 1024 * 1024
  const USIZE_MAX: nat := 0xFFFF_FFFF_FFFF_FFFF
  /** No slice is longer than `isize::MAX`. */
  const ISIZE_MAX: nat := 0x7FFF_FFFF_FFFF_FFFF

  datatype PipeStream = Stdout | Stderr
  datatype Level = Info | Warn

  datatype LogLine = LogLine(level: Level, text: string)

  /** Where lines go: the stream they came from, and the lossy decoding of their bytes. */
  datatype Sink = Sink(stream: PipeStream, lossy: Bytes -> string)

  const TRUNCATED: string := " \U{2026} [truncated]"

  function Min(a: nat, b: nat): nat {
    if a <= b then a else b
  }

  /** A line as handed to the log: the text of at most 4096 bytes, marked if some were cut. */
  function ToLogLine(sink: Sink, raw: Bytes): LogLine {
    var text := sink.lossy(raw[..Min(|raw|, MAX_LINE_BYTES)]);
    LogLine(if sink.stream.Stdout? then Info else Warn, if |raw| > MAX_LINE_BYTES then text + TRUNCATED else text)
  }

  function ToLog(sink: Sink, lines: seq<Bytes>): seq<LogLine> {
    seq(|lines|, i requires 0 <= i < |lines| => ToLogLine(sink, lines[i]))
  }

  lemma ToLogSnoc(sink: Sink, lines: seq<Bytes>, line: Bytes)
    ensures ToLog(sink, lines + [line]) == ToLog(sink, lines) + [ToLogLine(sink, line)]
  {
  }

  // --------------------------------------------------------- the newline split

  /** The complete lines of a byte string, and what follows its last newline. */
  datatype Split = Split(lines: seq<Bytes>, rest: Bytes)

  function FeedByte(s: Split, b: Byte): Split {
    if b == NEWLINE then Split(s.lines + [s.rest], []) else Split(s.lines, s.rest + [b])
  }

  /** Continues a split with more bytes. */
  function Feed(s: Split, bytes: Bytes): Split {
    if bytes == [] then s else FeedByte(Feed(s, bytes[..|bytes| - 1]), bytes[|bytes| - 1])
  }

  function SplitLines(bytes: Bytes): Split {
    Feed(Split([], []), bytes)
  }

  function Unsplit(s: Split): Bytes
    decreases |s.lines|
  {
    if s.lines == [] then s.rest else s.lines[0] + [NEWLINE] + Unsplit(Split(s.lines[1..], s.rest))
  }

  ghost predicate NewlineFree(s: Split) {
    NEWLINE !in s.rest && forall i :: 0 <= i < |s.lines| ==> NEWLINE !in s.lines[i]
  }

  lemma FeedSnoc(s: Split, bytes: Bytes, b: Byte)
    ensures Feed(s, bytes + [b]) == FeedByte(Feed(s, bytes), b)
  {
    assert (bytes + [b])[..|bytes|] == bytes;
  }

  lemma {:induction false} FeedAppend(s: Split, a: Bytes, b: Bytes)
    ensures Feed(s, a + b) == Feed(Feed(s, a), b)
  {
    if b == [] {
      assert a + b == a;
    } else {
      var (init, last) := (b[..|b| - 1], b[|b| - 1]);
      FeedAppend(s, a, init);
      FeedSnoc(s, a + init, last);
      assert a + b == a + init + [last];
    }
  }

  lemma {:induction false} UnsplitSnoc(lines: seq<Bytes>, line: Bytes, rest: Bytes)
    ensures Unsplit(Split(lines + [line], rest)) == Unsplit(Split(lines, line)) + [NEWLINE] + rest
  {
    if lines == [] {
      assert Unsplit(Split([line][1..], rest)) == rest;
    } else {
      UnsplitSnoc(lines[1..], line, rest);
      assert (lines + [line])[1..] == lines[1..] + [line];
    }
  }

  lemma {:induction false} UnsplitRest(lines: seq<Bytes>, rest: Bytes, more: Bytes)
    ensures Unsplit(Split(lines, rest + more)) == Unsplit(Split(lines, rest)) + more
  {
    if lines != [] {
      UnsplitRest(lines[1..], rest, more);
    }
  }

  /** The split loses nothing and its parts hold no newline. */
  lemma {:induction false} SplitRebuilds(bytes: Bytes)
    ensures Unsplit(SplitLines(bytes)) == bytes && NewlineFree(SplitLines(bytes))
  {
    if bytes != [] {
      var (init, b) := (bytes[..|bytes| - 1], bytes[|bytes| - 1]);
      assert bytes == init + [b];
      SplitRebuilds(init);
      FeedSnoc(Split([], []), init, b);
      var s := SplitLines(init);
      if b == NEWLINE {
        UnsplitSnoc(s.lines, s.rest, []);
      } else {
        UnsplitRest(s.lines, s.rest, [b]);
      }
    }
  }

  /** It is the only such split. */
  lemma {:induction false} SplitIsUnique(s: Split)
    requires NewlineFree(s)
    ensures SplitLines(Unsplit(s)) == s
    decreases |s.lines|, |s.rest|
  {
    if s.rest != [] {
      var (init, b) := (s.rest[..|s.rest| - 1], s.rest[|s.rest| - 1]);
      assert s.rest == init + [b];
      UnsplitRest(s.lines, init, [b]);
      SplitIsUnique(Split(s.lines, init));
      FeedSnoc(Split([], []), Unsplit(Split(s.lines, init)), b);
    } else if s.lines != [] {
      var (init, line) := (s.lines[..|s.lines| - 1], s.lines[|s.lines| - 1]);
      assert s.lines == init + [line];
      UnsplitSnoc(init, line, []);
      SplitIsUnique(Split(init, line));
      assert Unsplit(s) == Unsplit(Split(init, line)) + [NEWLINE];
      FeedSnoc(Split([], []), Unsplit(Split(init, line)), NEWLINE);
    }
  }

  // -------------------------------------------------------------- the reader

  function Head(stream: Bytes): Bytes {
    stream[..Min(|stream|, MAX_CAPTURED_BYTES)]
  }

  /** What the log must hold in the end, from the whole output alone. */
  function Captured(stream: Bytes): seq<Bytes> {
    var s := SplitLines(Head(stream));
    if |stream| <= MAX_CAPTURED_BYTES && s.rest != [] then s.lines + [s.rest] else s.lines
  }

  /** Lines, each with its newline again. */
  function Ended(lines: seq<Bytes>): Bytes {
    if lines == [] then [] else lines[0] + [NEWLINE] + Ended(lines[1..])
  }

  lemma {:induction false} UnsplitIsEnded(lines: seq<Bytes>, rest: Bytes)
    ensures Unsplit(Split(lines, rest)) == Ended(lines) + rest
  {
    if lines != [] {
      UnsplitIsEnded(lines[1..], rest);
      Assoc(lines[0] + [NEWLINE], Ended(lines[1..]), rest);
    }
  }

  lemma {:induction false} EndedSnoc(lines: seq<Bytes>, line: Bytes)
    ensures Ended(lines + [line]) == Ended(lines) + (line + [NEWLINE])
  {
    if lines == [] {
      assert [] + [line] == [line] && [line][1..] == [];
    } else {
      EndedSnoc(lines[1..], line);
      assert (lines + [line])[1..] == lines[1..] + [line];
      Assoc(lines[0] + [NEWLINE], Ended(lines[1..]), line + [NEWLINE]);
    }
  }

  /** The captured lines hold no newline. With their newlines they are the whole output, if that is
      at most 1 MiB (an unterminated end gets its newline), and otherwise its first 1 MiB but for an
      unterminated end. */
  lemma CapturedRejoins(stream: Bytes)
    ensures forall i :: 0 <= i < |Captured(stream)| ==> NEWLINE !in Captured(stream)[i]
    ensures |stream| <= 1_048_576 ==>
              Ended(Captured(stream)) == if stream == [] || stream[|stream| - 1] == NEWLINE then stream else stream + [NEWLINE]
    ensures |stream| > 1_048_576 ==>
              exists tail :: NEWLINE !in tail && Ended(Captured(stream)) + tail == stream[..1_048_576]
  {
    var s := SplitLines(Head(stream));
    SplitRebuilds(Head(stream));
    UnsplitIsEnded(s.lines, s.rest);
    if |stream| <= MAX_CAPTURED_BYTES {
      assert Head(stream) == stream;
      if s.rest == [] {
        LastByte(s.lines);
        assert Ended(s.lines) + [] == Ended(s.lines);
      } else {
        assert stream[|stream| - 1] == s.rest[|s.rest| - 1];
        EndedSnoc(s.lines, s.rest);
        Assoc(Ended(s.lines), s.rest, [NEWLINE]);
      }
    }
  }

  lemma {:induction false} LastByte(lines: seq<Bytes>)
    ensures Ended(lines) != [] ==> Ended(lines)[|Ended(lines)| - 1] == NEWLINE
  {
    if lines != [] {
      LastByte(lines[1..]);
    }
  }

  /** A line of standard output is logged as information and one of standard error as a warning; up
      to 4096 bytes it is decoded whole, and beyond that the rest is cut off and said to be. */
  lemma LoggedLine(sink: Sink, raw: Bytes)
    ensures ToLogLine(sink, raw).level == Info <==> sink.stream == Stdout
    ensures |raw| <= 4096 ==> ToLogLine(sink, raw).text == sink.lossy(raw)
    ensures |raw| > 4096 ==> ToLogLine(sink, raw).text == sink.lossy(raw[..4096]) + " \U{2026} [truncated]"
  {
    assert raw[..|raw|] == raw;
  }

  /** Outcome of one `read(2)` on the pipe; no data means end of file. */
  datatype ReadResult = Data(bytes: Bytes) | WouldBlock | Failed

  class Reader {
    const sink: Sink
    var partial: Bytes
    var lineCount: nat
    var bytesIngested: nat
    var capped: bool
    var log: seq<LogLine>
    ghost var stream: Bytes

    /** The fields are determined by the bytes read so far, however they were cut. */
    ghost predicate Valid()
      reads this
    {
      var s := SplitLines(Head(stream));
      && bytesIngested == Min(|stream|, USIZE_MAX)
      && capped == (|stream| > MAX_CAPTURED_BYTES)
      && partial == (if capped then [] else s.rest)
      && log == ToLog(sink, s.lines)
      && lineCount == |log|
    }

    constructor (sink: Sink)
      ensures Valid() && stream == [] && log == [] && this.sink == sink
    {
      this.sink := sink;
      partial, lineCount, bytesIngested, capped, log, stream := [], 0, 0, false, [], [];
    }

    method EmitLine(raw: Bytes)
      modifies this`lineCount, this`log
      ensures log == old(log) + [ToLogLine(sink, raw)] && lineCount == old(lineCount) + 1
    {
      var truncated := |raw| > MAX_LINE_BYTES;
      var slice := if truncated then raw[..MAX_LINE_BYTES] else raw;
      assert raw[..|raw|] == raw;
      var text := sink.lossy(slice);
      if truncated {
        text := text + TRUNCATED;
      }
      lineCount := lineCount + 1;
      match sink.stream {
        case Stdout => log := log + [LogLine(Info, text)];
        case Stderr => log := log + [LogLine(Warn, text)];
      }
    }

    /** The partial line and the log are those of a split. */
    ghost predicate Holds(s: Split)
      reads this
    {
      partial == s.rest && log == ToLog(sink, s.lines) && lineCount == |log|
    }

    method TakeByte(b: Byte, ghost s: Split)
      requires Holds(s)
      modifies this`partial, this`lineCount, this`log
      ensures Holds(FeedByte(s, b))
    {
      if b == NEWLINE {
        var take := partial;
        partial := [];
        EmitLine(take);
        ToLogSnoc(sink, s.lines, s.rest);
      } else {
        partial := partial + [b];
      }
    }

    /** Feeds bytes to the splitter one by one. */
    method Ingest(head: Bytes, ghost s: Split)
      requires Holds(s)
      modifies this`partial, this`lineCount, this`log
      ensures Holds(Feed(s, head))
    {
      for i := 0 to |head|
        invariant Holds(Feed(s, head[..i]))
      {
        FeedSnoc(s, head[..i], head[i]);
        assert head[..i] + [head[i]] == head[..i + 1];
        TakeByte(head[i], Feed(s, head[..i]));
      }
      assert head[..|head|] == head;
    }

    method ProcessChunk(chunk: Bytes)
      requires Valid() && |chunk| <= ISIZE_MAX
      modifies this
      ensures Valid() && stream == old(stream) + chunk
    {
      bytesIngested := Min(bytesIngested + |chunk|, USIZE_MAX);
      var already := if bytesIngested >= |chunk| then bytesIngested - |chunk| else 0;
      var budget := if MAX_CAPTURED_BYTES >= already then MAX_CAPTURED_BYTES - already else 0;
      var headLen := Min(|chunk|, budget);
      stream := stream + chunk;
      assert budget == if |old(stream)| <= MAX_CAPTURED_BYTES then MAX_CAPTURED_BYTES - |old(stream)| else 0;
      if |old(stream)| <= MAX_CAPTURED_BYTES {
        assert Head(old(stream)) == old(stream);
        assert Head(stream) == old(stream) + chunk[..headLen];
        FeedAppend(Split([], []), old(stream), chunk[..headLen]);
      } else {
        assert Head(stream) == Head(old(stream));
        assert chunk[..headLen] == [];
      }
      Ingest(chunk[..headLen], Split(SplitLines(Head(old(stream))).lines, partial));
      if headLen < |chunk| && !capped {
        capped := true;
        partial := [];
      }
    }

    method ReadAvailable(outcome: ReadResult) returns (r: Result<nat, ()>)
      requires Valid() && (outcome.Data? ==> |outcome.bytes| <= 4096)
      modifies this
      ensures Valid() && stream == old(stream) + if outcome.Data? then outcome.bytes else []
      ensures r == if outcome.Failed? then Err(()) else Ok(if outcome.Data? then |outcome.bytes| else 0)
    {
      match outcome {
        case Data(bytes) =>
          if bytes != [] {
            ProcessChunk(bytes);
          } else {
            assert stream + bytes == stream;
          }
          r := Ok(|bytes|);
        case WouldBlock =>
          assert stream + [] == stream;
          r := Ok(0);
        case Failed =>
          assert stream + [] == stream;
          r := Err(());
      }
    }

    /** Reads the rest up to end of file. The log then depends on the whole output
        only: it is the newline split of its first MAX_CAPTURED_BYTES bytes, plus a
        nonempty unterminated tail exactly when the output is within the cap. If the
        read fails nothing is logged, not even what it had got. */
    method Drain(remaining: Result<Bytes, ()>) returns (count: Result<nat, ()>)
      requires Valid() && (remaining.Ok? ==> |remaining.value| <= ISIZE_MAX)
      modifies this
      ensures remaining.Err? ==> count == Err(()) && unchanged(this)
      ensures remaining.Ok? ==>
                && stream == old(stream) + remaining.value
                && log == ToLog(sink, Captured(stream)) && lineCount == |log| && count == Ok(lineCount)
                && capped == (|stream| > MAX_CAPTURED_BYTES)
    {
      if remaining.Err? {
        return Err(());
      }
      ProcessChunk(remaining.value);
      if partial != [] && !capped {
        var take := partial;
        partial := [];
        EmitLine(take);
      }
      count := Ok(lineCount);
    }
  }
}
