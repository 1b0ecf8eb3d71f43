/** Newline-delimited frames between the PAM module and the monitor daemon: the encoder,
    the bounded frame reader and the read loop of one connection after its handshake. */
module Frames {
  import opened Wrappers

  const MAX_FRAME_BYTES: nat := 64 * 1024

  datatype WireError = EmbeddedNewline | FrameTooLarge(size: nat)

  /** `body` stands for the serialised message. */
  function Encode(body: Bytes): Result<Bytes, WireError> {
    if NEWLINE in body then Err(EmbeddedNewline)
    else if |body| > MAX_FRAME_BYTES then Err(FrameTooLarge(|body|))
    else Ok(body + [NEWLINE])
  }

  /** The encoder accepts exactly the newline-free bodies of at most 64 KiB, and ends them with the
      only newline of the frame. */
  lemma EncodesExactly(body: Bytes)
    ensures Encode(body).Ok? <==> NEWLINE !in body && |body| <= 65_536
    ensures Encode(body).Ok? ==>
              var frame := Encode(body).value;
              |frame| == |body| + 1 && frame[|body|] == 0x0A && forall i :: 0 <= i < |body| ==> frame[i] == body[i] != 0x0A
    ensures Encode(body) == Err(EmbeddedNewline) <==> NEWLINE in body
  {
  }

  predicate LineEnd(b: Byte) {
    b == NEWLINE || b == CARRIAGE_RETURN
  }

  function Trim(bytes: Bytes): Bytes {
    if bytes != [] && LineEnd(bytes[|bytes| - 1]) then Trim(bytes[..|bytes| - 1]) else bytes
  }

  /** Drops trailing line ends; the rest is handed to the deserialiser. */
  method DecodeBytes(bytes: Bytes) returns (r: Result<Bytes, WireError>)
    ensures r == if |bytes| > MAX_FRAME_BYTES then Err(FrameTooLarge(|bytes|)) else Ok(Trim(bytes))
  {
    if |bytes| > MAX_FRAME_BYTES {
      return Err(FrameTooLarge(|bytes|));
    }
    var end := |bytes|;
    assert bytes[..end] == bytes;
    while end > 0 && LineEnd(bytes[end - 1])
      invariant 0 <= end <= |bytes| && Trim(bytes[..end]) == Trim(bytes)
    {
      assert bytes[..end][..end - 1] == bytes[..end - 1];
      end := end - 1;
    }
    r := Ok(bytes[..end]);
  }

  /** Trimming removes line ends only, and all of the trailing ones. */
  lemma {:induction false} TrimIsMaximal(bytes: Bytes)
    ensures var t := Trim(bytes);
            && |t| <= |bytes| && t == bytes[..|t|]
            && (forall i :: |t| <= i < |bytes| ==> bytes[i] == 0x0A || bytes[i] == 0x0D)
            && (t != [] ==> t[|t| - 1] != 0x0A && t[|t| - 1] != 0x0D)
  {
    if bytes != [] && LineEnd(bytes[|bytes| - 1]) {
      TrimIsMaximal(bytes[..|bytes| - 1]);
    }
  }

  // ------------------------------------------------------------ one frame

  datatype Outcome = Frame | Eof | Oversize

  datatype ReadState = ReadState(outcome: Outcome, buf: Bytes, rest: Bytes)

  /** Reading one frame from `input` into `buf`. */
  function ReadFrame(input: Bytes, buf: Bytes, max: nat): ReadState
    decreases |input|
  {
    if input == [] then ReadState(if buf == [] then Eof else Frame, buf, [])
    else if |buf| >= max then ReadState(Oversize, buf, input[1..])
    else if input[0] == NEWLINE then ReadState(Frame, buf + [NEWLINE], input[1..])
    else ReadFrame(input[1..], buf + [input[0]], max)
  }

  /** How the connection ended. */
  datatype Close = PeerClosed | ProtocolViolation | BadRequest

  class Connection {
    /** What the peer has yet to be heard of. */
    var input: Bytes
    var buf: Bytes

    constructor (stream: Bytes)
      ensures input == stream && buf == []
    {
      input, buf := stream, [];
    }

    method ReadFrameBounded(max: nat) returns (outcome: Outcome)
      modifies this
      ensures ReadState(outcome, buf, input) == ReadFrame(old(input), old(buf), max)
      ensures |input| <= |old(input)| && (outcome.Frame? && old(buf) == [] ==> |input| < |old(input)|)
    {
      while true
        invariant ReadFrame(input, buf, max) == ReadFrame(old(input), old(buf), max)
        invariant |input| <= |old(input)| && (buf != old(buf) ==> |input| < |old(input)|)
        decreases |input|
      {
        if input == [] {
          return if buf == [] then Eof else Frame;
        }
        var b := input[0];
        input := input[1..];
        if |buf| >= max {
          return Oversize;
        }
        buf := buf + [b];
        if b == NEWLINE {
          return Frame;
        }
      }
    }

    /** The read loop: collects message bodies until the peer closes, a frame is too
        long, or a body is not `decodable`. */
    method Serve(decodable: Bytes -> bool) returns (bodies: seq<Bytes>, close: Close)
      modifies this
      ensures Served(bodies, close, input) == ReadLoop(old(input), decodable)
    {
      bodies := [];
      assert [] + ReadLoop(input, decodable).bodies == ReadLoop(input, decodable).bodies;
      while true
        invariant ReadLoop(old(input), decodable) == After(bodies, ReadLoop(input, decodable))
        decreases |input|
      {
        buf := [];
        var outcome := ReadFrameBounded(MAX_FRAME_BYTES);
        if outcome.Eof? {
          return bodies, PeerClosed;
        }
        if outcome.Oversize? {
          return bodies, ProtocolViolation;
        }
        var decoded := DecodeBytes(buf);
        if decoded.Err? || !decodable(decoded.value) {
          return bodies, BadRequest;
        }
        AfterOneMore(bodies, decoded.value, ReadLoop(input, decodable));
        bodies := bodies + [decoded.value];
      }
    }
  }

  // ------------------------------------------------------------- many frames

  datatype Served = Served(bodies: seq<Bytes>, close: Close, rest: Bytes)

  lemma {:induction false} ReadFrameShrinks(input: Bytes, buf: Bytes, max: nat)
    ensures var r := ReadFrame(input, buf, max);
            |r.rest| <= |input| && (r.outcome.Frame? && buf == [] ==> |r.rest| < |input|)
    decreases |input|
  {
    if input != [] && |buf| < max && input[0] != NEWLINE {
      ReadFrameShrinks(input[1..], buf + [input[0]], max);
    }
  }

  function After(bodies: seq<Bytes>, s: Served): Served {
    s.(bodies := bodies + s.bodies)
  }

  lemma AfterOneMore(bodies: seq<Bytes>, body: Bytes, s: Served)
    ensures After(bodies, After([body], s)) == After(bodies + [body], s)
  {
    assert bodies + ([body] + s.bodies) == bodies + [body] + s.bodies;
  }

  function ReadLoop(input: Bytes, decodable: Bytes -> bool): Served
    decreases |input|
  {
    var r := ReadFrame(input, [], MAX_FRAME_BYTES);
    ReadFrameShrinks(input, [], MAX_FRAME_BYTES);
    if r.outcome.Eof? then Served([], PeerClosed, r.rest)
    else if r.outcome.Oversize? then Served([], ProtocolViolation, r.rest)
    else if |r.buf| > MAX_FRAME_BYTES || !decodable(Trim(r.buf)) then Served([], BadRequest, r.rest)
    else
      After([Trim(r.buf)], ReadLoop(r.rest, decodable))
  }

  // ------------------------------------------------------------ conservation

  /** A frame as read: line ends with its newline, unless the peer closed first. */
  ghost predicate WellFormed(frame: Bytes) {
    |frame| <= 65_536 && forall i :: 0 <= i < |frame| - 1 ==> frame[i] != NEWLINE
  }

  /** One read takes its frame off the front of the input; only an oversize one drops a byte. */
  lemma {:induction false} ReadFrameConserves(input: Bytes, buf: Bytes, max: nat)
    requires |buf| <= max && NEWLINE !in buf
    ensures var r := ReadFrame(input, buf, max);
            && |r.buf| <= max
            && (forall i :: 0 <= i < |r.buf| - 1 ==> r.buf[i] != NEWLINE)
            && (!r.outcome.Oversize? ==> r.buf + r.rest == buf + input)
            && (r.outcome.Oversize? ==> |r.buf| == max && exists b: Byte :: r.buf + [b] + r.rest == buf + input)
            && (r.outcome.Eof? ==> r.buf == [] && r.rest == [])
    decreases |input|
  {
    if input != [] {
      assert input == [input[0]] + input[1..];
      if |buf| >= max {
        assert buf + [input[0]] + input[1..] == buf + input;
      } else if input[0] != NEWLINE {
        ReadFrameConserves(input[1..], buf + [input[0]], max);
        assert buf + [input[0]] + input[1..] == buf + input;
      } else {
        assert buf + [NEWLINE] + input[1..] == buf + input;
      }
    }
  }

  /** Every frame the read loop took off the input, the oversize or rejected last one included. */
  function FramesRead(input: Bytes, decodable: Bytes -> bool): seq<Bytes>
    decreases |input|
  {
    var r := ReadFrame(input, [], MAX_FRAME_BYTES);
    ReadFrameShrinks(input, [], MAX_FRAME_BYTES);
    if r.outcome.Eof? then []
    else if r.outcome.Oversize? || |r.buf| > MAX_FRAME_BYTES || !decodable(Trim(r.buf)) then [r.buf]
    else [r.buf] + FramesRead(r.rest, decodable)
  }

  function Flatten(parts: seq<Bytes>): Bytes {
    if parts == [] then [] else parts[0] + Flatten(parts[1..])
  }

  /** Each frame is within the cap and holds no inner newline, the bodies are the trimmed frames,
      and the frames, at most one dropped byte (only when a frame was oversize) and the unread
      rest make up the input again. */
  ghost predicate Conserves(input: Bytes, s: Served, fs: seq<Bytes>, dropped: Bytes) {
    && Flatten(fs) + dropped + s.rest == input
    && |dropped| == (if s.close.ProtocolViolation? then 1 else 0)
    && (forall i :: 0 <= i < |fs| ==> WellFormed(fs[i]))
    && |fs| == |s.bodies| + (if s.close.PeerClosed? then 0 else 1)
    && (forall i :: 0 <= i < |s.bodies| ==> s.bodies[i] == Trim(fs[i]))
    && (s.close.PeerClosed? ==> s.rest == [])
  }

  lemma ConservesCons(frame: Bytes, input: Bytes, s: Served, fs: seq<Bytes>, dropped: Bytes)
    requires Conserves(input, s, fs, dropped) && WellFormed(frame)
    ensures Conserves(frame + input, After([Trim(frame)], s), [frame] + fs, dropped)
  {
    assert ([frame] + fs)[1..] == fs;
    assert frame + Flatten(fs) + dropped + s.rest == frame + (Flatten(fs) + dropped + s.rest);
  }

  lemma ConservesLast(frame: Bytes, dropped: Bytes, rest: Bytes, close: Close)
    requires WellFormed(frame) && !close.PeerClosed? && |dropped| == if close.ProtocolViolation? then 1 else 0
    ensures Conserves(frame + dropped + rest, Served([], close, rest), [frame], dropped)
  {
    FlattenOne(frame);
  }

  /** One round of the loop, given what it read. */
  lemma ReadLoopStep(input: Bytes, r: ReadState, decodable: Bytes -> bool)
    requires r == ReadFrame(input, [], MAX_FRAME_BYTES) && |r.buf| <= MAX_FRAME_BYTES
    ensures var (s, fs) := (ReadLoop(input, decodable), FramesRead(input, decodable));
            if r.outcome.Eof? then s == Served([], PeerClosed, r.rest) && fs == []
            else if r.outcome.Oversize? then s == Served([], ProtocolViolation, r.rest) && fs == [r.buf]
            else if !decodable(Trim(r.buf)) then s == Served([], BadRequest, r.rest) && fs == [r.buf]
            else s == After([Trim(r.buf)], ReadLoop(r.rest, decodable)) && fs == [r.buf] + FramesRead(r.rest, decodable)
  {
  }

  /** For every input the read loop conserves the bytes. */
  lemma {:induction false} ReadLoopConserves(input: Bytes, decodable: Bytes -> bool)
    ensures exists dropped :: Conserves(input, ReadLoop(input, decodable), FramesRead(input, decodable), dropped)
    decreases |input|
  {
    var r := ReadFrame(input, [], MAX_FRAME_BYTES);
    ReadFrameShrinks(input, [], MAX_FRAME_BYTES);
    var dropped := FrameOffInput(input, r);
    ReadLoopStep(input, r, decodable);
    if r.outcome.Eof? {
      ConservesNothing();
    } else if r.outcome.Oversize? {
      ConservesLast(r.buf, dropped, r.rest, ProtocolViolation);
    } else if !decodable(Trim(r.buf)) {
      ConservesLast(r.buf, dropped, r.rest, BadRequest);
    } else {
      ReadLoopConserves(r.rest, decodable);
      var later :| Conserves(r.rest, ReadLoop(r.rest, decodable), FramesRead(r.rest, decodable), later);
      ConservesCons(r.buf, r.rest, ReadLoop(r.rest, decodable), FramesRead(r.rest, decodable), later);
      assert r.buf + dropped == r.buf;
    }
  }

  lemma FrameOffInput(input: Bytes, r: ReadState) returns (dropped: Bytes)
    requires r == ReadFrame(input, [], MAX_FRAME_BYTES)
    ensures WellFormed(r.buf) && r.buf + dropped + r.rest == input
    ensures |dropped| == if r.outcome.Oversize? then 1 else 0
    ensures r.outcome.Eof? ==> input == []
  {
    ReadFrameConserves(input, [], MAX_FRAME_BYTES);
    assert [] + input == input;
    if r.outcome.Oversize? {
      var b: Byte :| r.buf + [b] + r.rest == input;
      dropped := [b];
    } else {
      dropped := [];
      assert r.buf + [] == r.buf;
    }
  }

  lemma ConservesNothing()
    ensures Conserves([], Served([], PeerClosed, []), [], [])
  {
  }

  lemma FlattenOne(part: Bytes)
    ensures Flatten([part]) == part
  {
    assert [part][1..] == [];
  }

  // -------------------------------------------------------------- round trip

  /** Bodies that survive the wire. */
  predicate Sendable(body: Bytes, decodable: Bytes -> bool) {
    && NEWLINE !in body && |body| < 65_536
    && (body != [] ==> body[|body| - 1] != CARRIAGE_RETURN)
    && decodable(body)
  }

  function EncodeAll(bodies: seq<Bytes>): Bytes {
    if bodies == [] then [] else bodies[0] + [NEWLINE] + EncodeAll(bodies[1..])
  }

  lemma TailOf(body: Bytes, rest: Bytes)
    requires body != []
    ensures (body + [NEWLINE] + rest)[1..] == body[1..] + [NEWLINE] + rest
  {
  }

  lemma HeadMoved(buf: Bytes, body: Bytes)
    requires body != []
    ensures buf + [body[0]] + body[1..] == buf + body
  {
    assert body == [body[0]] + body[1..];
    Assoc(buf, [body[0]], body[1..]);
  }

  /** One byte of an encoded body goes from the input to the buffer. */
  lemma ReadByte(body: Bytes, rest: Bytes, buf: Bytes, max: nat)
    requires body != [] && body[0] != NEWLINE && |buf| < max
    ensures ReadFrame(body + [NEWLINE] + rest, buf, max) == ReadFrame(body[1..] + [NEWLINE] + rest, buf + [body[0]], max)
  {
    TailOf(body, rest);
  }

  lemma {:induction false} ReadFits(body: Bytes, rest: Bytes, buf: Bytes, max: nat)
    requires NEWLINE !in body && |buf| + |body| < max
    ensures ReadFrame(body + [NEWLINE] + rest, buf, max) == ReadState(Frame, buf + body + [NEWLINE], rest)
    decreases |body|
  {
    if body == [] {
      var input := body + [NEWLINE] + rest;
      assert input == [NEWLINE] + rest && input[1..] == rest;
      assert buf + [] == buf;
    } else {
      ReadByte(body, rest, buf, max);
      ReadFits(body[1..], rest, buf + [body[0]], max);
      HeadMoved(buf, body);
    }
  }

  lemma {:induction false} ReadTooLong(body: Bytes, rest: Bytes, buf: Bytes, max: nat)
    requires NEWLINE !in body && |buf| <= max <= |buf| + |body|
    ensures ReadFrame(body + [NEWLINE] + rest, buf, max).outcome == Oversize
    decreases |body|
  {
    if |buf| < max {
      ReadByte(body, rest, buf, max);
      ReadTooLong(body[1..], rest, buf + [body[0]], max);
    }
  }

  lemma TrimNewline(body: Bytes)
    ensures Trim(body + [NEWLINE]) == Trim(body)
  {
    assert (body + [NEWLINE])[..|body|] == body;
  }

  lemma TrimEncoded(body: Bytes)
    requires NEWLINE !in body
    ensures Trim(body + [NEWLINE]) == Trim(body)
    ensures Trim(body) == body <==> (body != [] ==> body[|body| - 1] != CARRIAGE_RETURN)
  {
    TrimNewline(body);
    if body != [] && LineEnd(body[|body| - 1]) {
      TrimIsMaximal(body[..|body| - 1]);
    }
  }

  /** What the read loop makes of one encoded body at the front of its input. */
  lemma ReadLoopOne(body: Bytes, rest: Bytes, decodable: Bytes -> bool)
    requires NEWLINE !in body
    ensures var s := ReadLoop(body + [NEWLINE] + rest, decodable);
            if |body| >= MAX_FRAME_BYTES then s.close.ProtocolViolation? && s.bodies == []
            else if !decodable(Trim(body)) then s == Served([], BadRequest, rest)
            else s == After([Trim(body)], ReadLoop(rest, decodable))
  {
    if |body| < MAX_FRAME_BYTES {
      ReadFits(body, rest, [], MAX_FRAME_BYTES);
    } else {
      ReadTooLong(body, rest, [], MAX_FRAME_BYTES);
    }
    TrimEncoded(body);
    assert [] + body + [NEWLINE] == body + [NEWLINE];
  }

  /** Reading the concatenated encodings of sendable bodies returns them in order, then end of file. */
  lemma {:induction false} RoundTrip(bodies: seq<Bytes>, decodable: Bytes -> bool)
    requires forall i :: 0 <= i < |bodies| ==> Sendable(bodies[i], decodable)
    ensures forall i :: 0 <= i < |bodies| ==> Encode(bodies[i]) == Ok(bodies[i] + [NEWLINE])
    ensures ReadLoop(EncodeAll(bodies), decodable) == Served(bodies, PeerClosed, [])
  {
    if bodies != [] {
      RoundTrip(bodies[1..], decodable);
      ReadLoopOne(bodies[0], EncodeAll(bodies[1..]), decodable);
      TrimEncoded(bodies[0]);
      assert [bodies[0]] + bodies[1..] == bodies;
    }
  }

  /** A body the encoder accepts comes back as sent exactly when it is shorter than the cap by
      one byte at least, does not end in a carriage return and is decodable: the encoder does
      not count the newline against the cap, the reader does. */
  lemma RoundTripExactly(body: Bytes, decodable: Bytes -> bool)
    requires Encode(body).Ok?
    ensures ReadLoop(Encode(body).value, decodable) == Served([body], PeerClosed, []) <==> Sendable(body, decodable)
  {
    var s := ReadLoop(body + [NEWLINE], decodable);
    assert body + [NEWLINE] + [] == body + [NEWLINE];
    ReadLoopOne(body, [], decodable);
    TrimEncoded(body);
    if |body| < MAX_FRAME_BYTES && decodable(Trim(body)) {
      assert s == Served([Trim(body)], PeerClosed, []);
    }
    if s == Served([body], PeerClosed, []) {
      assert s.bodies[0] == body;
    }
  }
}
