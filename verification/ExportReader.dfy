/** The reader of an export stream: newline-terminated frames, reassembled from arbitrary chunks. */
module ExportReader {
  import opened Wrappers
  import opened Paths

  newtype byte = x: int | 0 <= x < 256

  const NEWLINE: byte := 10
  const USIZE_MAX := 0xFFFF_FFFF_FFFF_FFFF

  /** The base64url text of a data frame, as far as the reader looks at it. */
  datatype Payload = Undecodable | Decoded(bytes: seq<byte>, canonical: bool)

  datatype Frame = Data(path: string, contentType: string, payload: Payload) | Complete(count: nat) | Failure

  /** One call of the export sink, or one accepted call of the export writer. */
  datatype Write = Write(path: string, contentType: string, bytes: seq<byte>)

  /** The JSON text of a frame, without its newline. */
  datatype Codec = Codec(parse: seq<byte> -> Option<Frame>, encode: Frame -> seq<byte>)

  datatype Limits = Limits(maxFrame: nat, maxExport: nat)

  datatype Arrival = Chunk(bytes: seq<byte>) | Broken

  datatype ReadError =
    | StreamFailed | FrameTooLarge | FrameInvalid | ExportTooLarge | SinkFailed | ExportFailed
    | FrameIncomplete | CompletionMissing | ResponseTooLarge

  datatype Outcome = Exported(count: nat) | Rejected(error: ReadError)

  /** The reader's variables between two lines, and what its sink has been given. */
  datatype Reading = Reading(rawTotal: nat, completion: Option<nat>, written: seq<Write>)

  datatype LineResult = Next(state: Reading) | Stop(error: ReadError, written: seq<Write>)

  /** A sink may refuse a write, depending on all it was given before. */
  type Acceptance = (seq<Write>, Write) -> bool

  function Min(a: nat, b: nat): nat {
    if a <= b then a else b
  }

  function SaturatingAdd(a: nat, b: nat): nat {
    Min(a + b, USIZE_MAX)
  }

  function ReaderLimit(maxFrame: nat): nat {
    SaturatingAdd(Min(maxFrame * 2, USIZE_MAX), 1024)
  }

  /** Paths are ASCII here, so one length serves both ends of the stream. */
  predicate SafePath(path: string) {
    && path != "" && |path| <= 512 && path[0] != '/' && '\\' !in path
    && PlainSegments(path)
  }

  // ----- lines -----

  function Scan(s: seq<byte>, i: nat): (n: nat)
    requires i <= |s|
    ensures i <= n <= |s| && (n < |s| ==> s[n] == NEWLINE)
    ensures forall k :: i <= k < n ==> s[k] != NEWLINE
    decreases |s| - i
  {
    if i == |s| || s[i] == NEWLINE then i else Scan(s, i + 1)
  }

  function FirstNewline(s: seq<byte>): nat {
    Scan(s, 0)
  }

  /** The lines that bytes s complete when `held` is already waiting for its newline. */
  function LinesFrom(held: seq<byte>, s: seq<byte>): seq<seq<byte>>
    decreases |s|
  {
    if s == [] then []
    else if s[0] == NEWLINE then [held] + LinesFrom([], s[1..])
    else LinesFrom(held + [s[0]], s[1..])
  }

  /** What is left waiting for a newline. */
  function RestFrom(held: seq<byte>, s: seq<byte>): seq<byte>
    decreases |s|
  {
    if s == [] then held
    else if s[0] == NEWLINE then RestFrom([], s[1..])
    else RestFrom(held + [s[0]], s[1..])
  }

  function Lines(s: seq<byte>): seq<seq<byte>> {
    LinesFrom([], s)
  }

  function Rest(s: seq<byte>): seq<byte> {
    RestFrom([], s)
  }

  function Joined(lines: seq<seq<byte>>): seq<byte> {
    if lines == [] then [] else lines[0] + [NEWLINE] + Joined(lines[1..])
  }

  /** Splitting a stream that arrives in two parts: the second part continues the rest of the first. */
  lemma {:induction false} SplitOfParts(held: seq<byte>, a: seq<byte>, b: seq<byte>)
    ensures LinesFrom(held, a + b) == LinesFrom(held, a) + LinesFrom(RestFrom(held, a), b)
    ensures RestFrom(held, a + b) == RestFrom(RestFrom(held, a), b)
    decreases |a|
  {
    if a == [] {
      assert a + b == b;
    } else {
      assert (a + b)[1..] == a[1..] + b;
      SplitOfParts(if a[0] == NEWLINE then [] else held + [a[0]], a[1..], b);
    }
  }

  lemma {:induction false} PartOfLine(held: seq<byte>, s: seq<byte>)
    requires NEWLINE !in s
    ensures LinesFrom(held, s) == [] && RestFrom(held, s) == held + s
    decreases |s|
  {
    if s != [] {
      PartOfLine(held + [s[0]], s[1..]);
      assert held + [s[0]] + s[1..] == held + s;
    }
  }

  /** The first line of a stream, and what follows it. */
  lemma SplitOfLine(held: seq<byte>, line: seq<byte>, tail: seq<byte>)
    requires NEWLINE !in line
    ensures LinesFrom(held, line + [NEWLINE] + tail) == [held + line] + LinesFrom([], tail)
    ensures RestFrom(held, line + [NEWLINE] + tail) == RestFrom([], tail)
  {
    var closing := [NEWLINE] + tail;
    assert line + [NEWLINE] + tail == line + closing;
    SplitOfParts(held, line, closing);
    PartOfLine(held, line);
    assert closing[1..] == tail;
  }

  /** Splitting undoes joining: the lines and the rest are the only way to write a stream as
    * newline-free lines, each closed by a newline, and a newline-free rest. */
  lemma {:induction false} SplitOfJoined(lines: seq<seq<byte>>, rest: seq<byte>)
    requires forall line <- lines :: NEWLINE !in line
    requires NEWLINE !in rest
    ensures Lines(Joined(lines) + rest) == lines && Rest(Joined(lines) + rest) == rest
  {
    if lines == [] {
      assert Joined(lines) + rest == rest;
      PartOfLine([], rest);
    } else {
      var tail := Joined(lines[1..]) + rest;
      assert Joined(lines) + rest == lines[0] + [NEWLINE] + tail;
      SplitOfLine([], lines[0], tail);
      assert [] + lines[0] == lines[0];
      SplitOfJoined(lines[1..], rest);
    }
  }

  lemma JoinedOfLine(line: seq<byte>, lines: seq<seq<byte>>)
    ensures Joined([line] + lines) == line + [NEWLINE] + Joined(lines)
  {
    assert ([line] + lines)[1..] == lines;
  }

  lemma {:induction false} JoinedOfSplit(held: seq<byte>, s: seq<byte>)
    ensures Joined(LinesFrom(held, s)) + RestFrom(held, s) == held + s
    decreases |s|
  {
    if s != [] {
      if s[0] == NEWLINE {
        JoinedOfSplit([], s[1..]);
        JoinedOfLine(held, LinesFrom([], s[1..]));
        assert held + s == held + [NEWLINE] + ([] + s[1..]);
      } else {
        JoinedOfSplit(held + [s[0]], s[1..]);
        assert held + s == held + [s[0]] + s[1..];
      }
    }
  }

  lemma {:induction false} SplitHoldsNoNewline(held: seq<byte>, s: seq<byte>)
    requires NEWLINE !in held
    ensures forall line <- LinesFrom(held, s) :: NEWLINE !in line
    ensures NEWLINE !in RestFrom(held, s)
    decreases |s|
  {
    if s != [] {
      SplitHoldsNoNewline(if s[0] == NEWLINE then [] else held + [s[0]], s[1..]);
    }
  }

  // ----- one line, and all lines of a stream -----

  /** What the reader does with one line, its newline removed. */
  function OnLine(c: Codec, accepts: Acceptance, lim: Limits, st: Reading, line: seq<byte>): LineResult {
    var parsed := c.parse(line);
    if line == [] || parsed.None? then Stop(FrameInvalid, st.written)
    else
      match parsed.value
      case Data(path, contentType, payload) =>
        if st.completion.Some? || !SafePath(path) || payload.Undecodable? then Stop(FrameInvalid, st.written)
        else if || |payload.bytes| > lim.maxFrame || !payload.canonical
                || SaturatingAdd(st.rawTotal, |payload.bytes|) > lim.maxExport then Stop(ExportTooLarge, st.written)
        else
          var w := Write(path, contentType, payload.bytes);
          if !accepts(st.written, w) then Stop(SinkFailed, st.written)
          else Next(st.(rawTotal := st.rawTotal + |payload.bytes|, written := st.written + [w]))
      case Complete(count) =>
        if st.completion.Some? then Stop(FrameInvalid, st.written) else Next(st.(completion := Some(count)))
      case Failure => Stop(ExportFailed, st.written)
  }

  function OnLines(c: Codec, accepts: Acceptance, lim: Limits, st: Reading, lines: seq<seq<byte>>): LineResult
    decreases |lines|
  {
    if lines == [] then Next(st)
    else
      var r := OnLine(c, accepts, lim, st, lines[0]);
      if r.Stop? then r else OnLines(c, accepts, lim, r.state, lines[1..])
  }

  function AtEnd(st: Reading, rest: seq<byte>): Outcome {
    if rest != [] then Rejected(FrameIncomplete)
    else if st.completion.None? then Rejected(CompletionMissing)
    else Exported(st.completion.value)
  }

  /** The reader of a whole stream that starts in the middle of a line. */
  function ReadFrom(
    c: Codec, accepts: Acceptance, lim: Limits, st: Reading, held: seq<byte>, stream: seq<byte>
  ): (Outcome, seq<Write>) {
    match OnLines(c, accepts, lim, st, LinesFrom(held, stream))
    case Stop(error, written) => (Rejected(error), written)
    case Next(end) => (AtEnd(end, RestFrom(held, stream)), end.written)
  }

  /** The reference reader: split the whole stream on newlines, then take the lines in order. */
  function ReadWhole(c: Codec, accepts: Acceptance, lim: Limits, stream: seq<byte>): (Outcome, seq<Write>) {
    ReadFrom(c, accepts, lim, Reading(0, None, []), [], stream)
  }

  // ----- the reader of chunks -----

  predicate Trips(lim: Limits, buffer: seq<byte>, chunk: seq<byte>) {
    SaturatingAdd(|buffer|, |chunk|) > ReaderLimit(lim.maxFrame)
  }

  function ReadChunks(
    c: Codec, accepts: Acceptance, lim: Limits, st: Reading, buffer: seq<byte>, arrivals: seq<Arrival>
  ): (Outcome, seq<Write>)
    decreases |arrivals|
  {
    if arrivals == [] then (AtEnd(st, buffer), st.written)
    else if arrivals[0].Broken? then (Rejected(StreamFailed), st.written)
    else if Trips(lim, buffer, arrivals[0].bytes) then (Rejected(FrameTooLarge), st.written)
    else
      match OnLines(c, accepts, lim, st, LinesFrom(buffer, arrivals[0].bytes))
      case Stop(error, written) => (Rejected(error), written)
      case Next(next) => ReadChunks(c, accepts, lim, next, RestFrom(buffer, arrivals[0].bytes), arrivals[1..])
  }

  class ExportSink {
    var written: seq<Write>
    const accepts: Acceptance

    constructor (accepts: Acceptance)
      ensures written == [] && this.accepts == accepts
    {
      this.written, this.accepts := [], accepts;
    }

    method Put(w: Write) returns (ok: bool)
      modifies this
      ensures ok == accepts(old(written), w)
      ensures written == if ok then old(written) + [w] else old(written)
    {
      ok := accepts(written, w);
      if ok {
        written := written + [w];
      }
    }
  }

  /** One line against the reader's variables, as the body of the inner loop. */
  method ReadLine(c: Codec, sink: ExportSink, lim: Limits, rawTotal: nat, completion: Option<nat>, line: seq<byte>)
    returns (error: Option<ReadError>, rawTotal': nat, completion': Option<nat>)
    modifies sink
    ensures OnLine(c, sink.accepts, lim, Reading(rawTotal, completion, old(sink.written)), line)
            == if error.Some? then Stop(error.value, sink.written)
               else Next(Reading(rawTotal', completion', sink.written))
  {
    error, rawTotal', completion' := None, rawTotal, completion;
    var parsed := c.parse(line);
    if line == [] || parsed.None? {
      error := Some(FrameInvalid);
      return;
    }
    match parsed.value {
      case Data(path, contentType, payload) =>
        if completion.Some? || !SafePath(path) || payload.Undecodable? {
          error := Some(FrameInvalid);
          return;
        }
        if |payload.bytes| > lim.maxFrame || !payload.canonical
           || SaturatingAdd(rawTotal, |payload.bytes|) > lim.maxExport {
          error := Some(ExportTooLarge);
          return;
        }
        rawTotal' := rawTotal + |payload.bytes|;
        var ok := sink.Put(Write(path, contentType, payload.bytes));
        if !ok {
          error := Some(SinkFailed);
        }
      case Complete(count) =>
        if completion.Some? {
          error := Some(FrameInvalid);
          return;
        }
        completion' := Some(count);
      case Failure =>
        error := Some(ExportFailed);
    }
  }

  /** Lines already complete in the buffer are taken one at a time. */
  lemma NextLine(buffer: seq<byte>, n: nat)
    requires n == FirstNewline(buffer) < |buffer|
    ensures Lines(buffer) == [buffer[..n]] + Lines(buffer[n + 1..])
    ensures Rest(buffer) == Rest(buffer[n + 1..])
  {
    assert buffer == buffer[..n] + [NEWLINE] + buffer[n + 1..];
    SplitOfLine([], buffer[..n], buffer[n + 1..]);
    assert [] + buffer[..n] == buffer[..n];
  }

  lemma Refill(buffer: seq<byte>, chunk: seq<byte>)
    requires NEWLINE !in buffer
    ensures Lines(buffer + chunk) == LinesFrom(buffer, chunk) && Rest(buffer + chunk) == RestFrom(buffer, chunk)
  {
    SplitOfParts([], buffer, chunk);
    PartOfLine([], buffer);
    assert [] + buffer == buffer;
  }

  method ReadExportFrames(c: Codec, sink: ExportSink, lim: Limits, arrivals: seq<Arrival>) returns (r: Outcome)
    modifies sink
    ensures (r, sink.written)
            == ReadChunks(c, sink.accepts, lim, Reading(0, None, old(sink.written)), [], arrivals)
  {
    var limit := ReaderLimit(lim.maxFrame);
    var buffer: seq<byte> := [];
    var rawTotal, completion := 0, None;
    var i := 0;
    ghost var whole := ReadChunks(c, sink.accepts, lim, Reading(0, None, sink.written), [], arrivals);
    assert arrivals[0..] == arrivals;
    while i < |arrivals|
      invariant 0 <= i <= |arrivals| && NEWLINE !in buffer
      invariant whole == ReadChunks(c, sink.accepts, lim, Reading(rawTotal, completion, sink.written), buffer, arrivals[i..])
    {
      assert arrivals[i..][1..] == arrivals[i + 1..];
      if arrivals[i].Broken? {
        return Rejected(StreamFailed);
      }
      var chunk := arrivals[i].bytes;
      if SaturatingAdd(|buffer|, |chunk|) > limit {
        return Rejected(FrameTooLarge);
      }
      ghost var before := Reading(rawTotal, completion, sink.written);
      Refill(buffer, chunk);
      buffer := buffer + chunk;
      ghost var held := buffer;
      var newline := FirstNewline(buffer);
      while newline < |buffer|
        invariant newline == FirstNewline(buffer)
        invariant Rest(buffer) == Rest(held)
        invariant OnLines(c, sink.accepts, lim, Reading(rawTotal, completion, sink.written), Lines(buffer))
                  == OnLines(c, sink.accepts, lim, before, Lines(held))
        decreases |buffer|
      {
        NextLine(buffer, newline);
        var line := buffer[..newline];
        buffer := buffer[newline + 1..];
        var error;
        error, rawTotal, completion := ReadLine(c, sink, lim, rawTotal, completion, line);
        if error.Some? {
          return Rejected(error.value);
        }
        newline := FirstNewline(buffer);
      }
      assert NEWLINE !in buffer;
      PartOfLine([], buffer);
      assert [] + buffer == buffer;
      i := i + 1;
    }
    if buffer != [] {
      return Rejected(FrameIncomplete);
    }
    r := if completion.Some? then Exported(completion.value) else Rejected(CompletionMissing);
  }

  /** A whole response body within a budget: all of it, or nothing. */
  method ReadBounded(arrivals: seq<Arrival>, maxBytes: nat) returns (body: Result<seq<byte>, ReadError>)
    ensures body.Ok? <==> !AnyBroken(arrivals) && Min(|Flat(arrivals)|, USIZE_MAX) <= maxBytes
    ensures body.Ok? ==> body.value == Flat(arrivals)
    ensures body.Err? ==>
              exists i :: 0 <= i < |arrivals| && !AnyBroken(arrivals[..i]) && Min(|Flat(arrivals[..i])|, USIZE_MAX) <= maxBytes
                          && if arrivals[i].Broken? then body.error == StreamFailed
                             else body.error == ResponseTooLarge && |Flat(arrivals[..i])| + |arrivals[i].bytes| > maxBytes
  {
    var bytes: seq<byte> := [];
    var i := 0;
    assert arrivals[..0] == [];
    while i < |arrivals|
      invariant 0 <= i <= |arrivals| && Min(|bytes|, USIZE_MAX) <= maxBytes
      invariant bytes == Flat(arrivals[..i]) && !AnyBroken(arrivals[..i])
    {
      if arrivals[i].Broken? {
        BrokenAt(arrivals, i);
        return Err(StreamFailed);
      }
      var chunk := arrivals[i].bytes;
      PartOfBody(arrivals, i);
      if SaturatingAdd(|bytes|, |chunk|) > maxBytes {
        return Err(ResponseTooLarge);
      }
      bytes := bytes + chunk;
      i := i + 1;
    }
    assert arrivals[..i] == arrivals;
    body := Ok(bytes);
  }

  lemma {:induction false} BrokenAt(arrivals: seq<Arrival>, i: nat)
    requires i < |arrivals| && arrivals[i].Broken?
    ensures AnyBroken(arrivals)
  {
    if i > 0 {
      BrokenAt(arrivals[1..], i - 1);
    }
  }

  /** The body up to chunk i, and with it. */
  lemma {:induction false} PartOfBody(arrivals: seq<Arrival>, i: nat)
    requires i < |arrivals| && arrivals[i].Chunk?
    ensures Flat(arrivals[..i + 1]) == Flat(arrivals[..i]) + arrivals[i].bytes
    ensures AnyBroken(arrivals[..i + 1]) <==> AnyBroken(arrivals[..i])
    ensures |Flat(arrivals)| >= |Flat(arrivals[..i + 1])|
  {
    if i == 0 {
      assert arrivals[..0] == [] && arrivals[..1][1..] == [];
    } else {
      PartOfBody(arrivals[1..], i - 1);
      assert arrivals[..i][1..] == arrivals[1..][..i - 1] && arrivals[..i + 1][1..] == arrivals[1..][..i];
    }
  }

  // ----- chunking does not matter -----

  /** All bytes that arrived; a broken stream carries none. */
  function Flat(arrivals: seq<Arrival>): seq<byte> {
    if arrivals == [] then []
    else (if arrivals[0].Chunk? then arrivals[0].bytes else []) + Flat(arrivals[1..])
  }

  predicate AnyBroken(arrivals: seq<Arrival>) {
    arrivals != [] && (arrivals[0].Broken? || AnyBroken(arrivals[1..]))
  }

  /** No chunk makes the buffer outgrow its limit: a chunk is held together with the unfinished line
    * before it. */
  predicate Fits(lim: Limits, buffer: seq<byte>, arrivals: seq<Arrival>)
    decreases |arrivals|
  {
    arrivals == []
    || var chunk := if arrivals[0].Chunk? then arrivals[0].bytes else [];
       !Trips(lim, buffer, chunk) && Fits(lim, RestFrom(buffer, chunk), arrivals[1..])
  }

  lemma {:induction false} OnLinesAppend(
      c: Codec, accepts: Acceptance, lim: Limits, st: Reading, a: seq<seq<byte>>, b: seq<seq<byte>>)
    ensures OnLines(c, accepts, lim, st, a + b)
            == var r := OnLines(c, accepts, lim, st, a);
               if r.Stop? then r else OnLines(c, accepts, lim, r.state, b)
    decreases |a|
  {
    if a == [] {
      assert a + b == b;
    } else {
      assert (a + b)[1..] == a[1..] + b;
      var r := OnLine(c, accepts, lim, st, a[0]);
      if r.Next? {
        OnLinesAppend(c, accepts, lim, r.state, a[1..], b);
      }
    }
  }

  /** One chunk more, seen by the reader of the whole stream. */
  lemma WholeByChunk(
      c: Codec, accepts: Acceptance, lim: Limits, st: Reading, held: seq<byte>, chunk: seq<byte>, more: seq<byte>)
    ensures ReadFrom(c, accepts, lim, st, held, chunk + more)
            == match OnLines(c, accepts, lim, st, LinesFrom(held, chunk))
               case Stop(error, written) => (Rejected(error), written)
               case Next(next) => ReadFrom(c, accepts, lim, next, RestFrom(held, chunk), more)
  {
    SplitOfParts(held, chunk, more);
    OnLinesAppend(c, accepts, lim, st, LinesFrom(held, chunk), LinesFrom(RestFrom(held, chunk), more));
  }

  lemma {:induction false} ChunkingFrom(
      c: Codec, accepts: Acceptance, lim: Limits, st: Reading, buffer: seq<byte>, arrivals: seq<Arrival>)
    requires !AnyBroken(arrivals) && Fits(lim, buffer, arrivals)
    ensures ReadChunks(c, accepts, lim, st, buffer, arrivals) == ReadFrom(c, accepts, lim, st, buffer, Flat(arrivals))
    decreases |arrivals|
  {
    if arrivals != [] {
      var chunk := arrivals[0].bytes;
      WholeByChunk(c, accepts, lim, st, buffer, chunk, Flat(arrivals[1..]));
      var r := OnLines(c, accepts, lim, st, LinesFrom(buffer, chunk));
      if r.Next? {
        ChunkingFrom(c, accepts, lim, r.state, RestFrom(buffer, chunk), arrivals[1..]);
      }
    }
  }

  /** A buffered reader of a stream whose chunks fit gives exactly what the reference reader gives
    * for the whole stream: the same result and the same writes, however the stream was cut. */
  lemma ChunkingDoesNotMatter(c: Codec, accepts: Acceptance, lim: Limits, one: seq<Arrival>, other: seq<Arrival>)
    requires !AnyBroken(one) && Fits(lim, [], one)
    requires !AnyBroken(other) && Fits(lim, [], other)
    requires Flat(one) == Flat(other)
    ensures ReadChunks(c, accepts, lim, Reading(0, None, []), [], one) == ReadWhole(c, accepts, lim, Flat(one))
    ensures ReadChunks(c, accepts, lim, Reading(0, None, []), [], one)
            == ReadChunks(c, accepts, lim, Reading(0, None, []), [], other)
  {
    ChunkingFrom(c, accepts, lim, Reading(0, None, []), [], one);
    ChunkingFrom(c, accepts, lim, Reading(0, None, []), [], other);
  }

  lemma {:induction false} WritesGrow(c: Codec, accepts: Acceptance, lim: Limits, st: Reading, lines: seq<seq<byte>>)
    ensures var r := OnLines(c, accepts, lim, st, lines);
            st.written <= if r.Stop? then r.written else r.state.written
    decreases |lines|
  {
    if lines != [] {
      var r := OnLine(c, accepts, lim, st, lines[0]);
      if r.Next? {
        WritesGrow(c, accepts, lim, r.state, lines[1..]);
      }
    }
  }

  lemma {:induction false} CutShortWrites(
      c: Codec, accepts: Acceptance, lim: Limits, st: Reading, buffer: seq<byte>, arrivals: seq<Arrival>)
    ensures ReadChunks(c, accepts, lim, st, buffer, arrivals).1
            <= ReadFrom(c, accepts, lim, st, buffer, Flat(arrivals)).1
    decreases |arrivals|
  {
    if arrivals == [] || arrivals[0].Broken? || Trips(lim, buffer, arrivals[0].bytes) {
      WritesGrow(c, accepts, lim, st, LinesFrom(buffer, Flat(arrivals)));
    } else {
      var chunk := arrivals[0].bytes;
      WholeByChunk(c, accepts, lim, st, buffer, chunk, Flat(arrivals[1..]));
      var r := OnLines(c, accepts, lim, st, LinesFrom(buffer, chunk));
      if r.Next? {
        CutShortWrites(c, accepts, lim, r.state, RestFrom(buffer, chunk), arrivals[1..]);
      }
    }
  }

  lemma {:induction false} CutShortReplies(
      c: Codec, accepts: Acceptance, lim: Limits, st: Reading, buffer: seq<byte>, arrivals: seq<Arrival>)
    ensures var r := ReadChunks(c, accepts, lim, st, buffer, arrivals);
            && (r.0.Exported? ==> !AnyBroken(arrivals) && Fits(lim, buffer, arrivals))
            && (r.0 in {Rejected(StreamFailed), Rejected(FrameTooLarge)}
                || r == ReadFrom(c, accepts, lim, st, buffer, Flat(arrivals)))
    decreases |arrivals|
  {
    if arrivals != [] && arrivals[0].Chunk? && !Trips(lim, buffer, arrivals[0].bytes) {
      var chunk := arrivals[0].bytes;
      WholeByChunk(c, accepts, lim, st, buffer, chunk, Flat(arrivals[1..]));
      var r := OnLines(c, accepts, lim, st, LinesFrom(buffer, chunk));
      if r.Next? {
        CutShortReplies(c, accepts, lim, r.state, RestFrom(buffer, chunk), arrivals[1..]);
      }
    }
  }

  /** Whatever happens to the stream, the sink was given a prefix of what the whole stream would have
    * given it; a reader that reports success read the whole stream, and one that was not cut short
    * answers as the reference reader does. */
  lemma CutShortIsPrefix(c: Codec, accepts: Acceptance, lim: Limits, arrivals: seq<Arrival>)
    ensures var r := ReadChunks(c, accepts, lim, Reading(0, None, []), [], arrivals);
            var whole := ReadWhole(c, accepts, lim, Flat(arrivals));
            && r.1 <= whole.1
            && (r.0.Exported? ==> r == whole && !AnyBroken(arrivals) && Fits(lim, [], arrivals))
            && (r == whole || r.0 in {Rejected(StreamFailed), Rejected(FrameTooLarge)})
  {
    CutShortWrites(c, accepts, lim, Reading(0, None, []), [], arrivals);
    CutShortReplies(c, accepts, lim, Reading(0, None, []), [], arrivals);
  }

  /** When every line is acceptable, the buffer limit is exceeded exactly when some chunk does not fit. */
  lemma {:induction false} TripsExactly(
      c: Codec, accepts: Acceptance, lim: Limits, st: Reading, buffer: seq<byte>, arrivals: seq<Arrival>)
    requires !AnyBroken(arrivals) && OnLines(c, accepts, lim, st, LinesFrom(buffer, Flat(arrivals))).Next?
    ensures ReadChunks(c, accepts, lim, st, buffer, arrivals).0 == Rejected(FrameTooLarge) <==> !Fits(lim, buffer, arrivals)
    decreases |arrivals|
  {
    if arrivals != [] && !Trips(lim, buffer, arrivals[0].bytes) {
      var chunk, more := arrivals[0].bytes, Flat(arrivals[1..]);
      var rest := RestFrom(buffer, chunk);
      SplitOfParts(buffer, chunk, more);
      OnLinesAppend(c, accepts, lim, st, LinesFrom(buffer, chunk), LinesFrom(rest, more));
      var r := OnLines(c, accepts, lim, st, LinesFrom(buffer, chunk));
      TripsExactly(c, accepts, lim, r.state, rest, arrivals[1..]);
    }
  }

  /** A chunk that ends where a line ends, or sooner. */
  predicate WithinLine(chunk: seq<byte>) {
    chunk == [] || NEWLINE !in chunk[..|chunk| - 1]
  }

  /** Every line, its newline counted, is within a limit, and so is an unfinished last line. */
  predicate LinesFit(limit: nat, held: seq<byte>, stream: seq<byte>) {
    && (forall line <- LinesFrom(held, stream) :: |line| + 1 <= limit)
    && |RestFrom(held, stream)| <= limit
  }

  lemma {:induction false} HeldFits(limit: nat, held: seq<byte>, stream: seq<byte>)
    requires LinesFit(limit, held, stream)
    ensures |held| <= limit
    decreases |stream|
  {
    if stream != [] {
      if stream[0] == NEWLINE {
        assert held in LinesFrom(held, stream);
      } else {
        HeldFits(limit, held + [stream[0]], stream[1..]);
      }
    }
  }

  lemma ClosingChunkFits(limit: nat, held: seq<byte>, part: seq<byte>, more: seq<byte>)
    requires NEWLINE !in part && LinesFit(limit, held, part + [NEWLINE] + more)
    ensures |held| + |part| + 1 <= limit
  {
    SplitOfLine(held, part, more);
    assert held + part in [held + part] + LinesFrom([], more);
  }

  lemma OpenChunkFits(limit: nat, held: seq<byte>, part: seq<byte>, more: seq<byte>)
    requires NEWLINE !in part && LinesFit(limit, held, part + more)
    ensures |held| + |part| <= limit
  {
    SplitOfParts(held, part, more);
    PartOfLine(held, part);
    HeldFits(limit, held + part, more);
  }

  lemma ChunkFits(limit: nat, held: seq<byte>, chunk: seq<byte>, more: seq<byte>)
    requires WithinLine(chunk) && LinesFit(limit, held, chunk + more)
    ensures |held| + |chunk| <= limit
  {
    if chunk == [] {
      OpenChunkFits(limit, held, chunk, more);
    } else {
      var part, last := chunk[..|chunk| - 1], chunk[|chunk| - 1];
      assert chunk == part + [last];
      if last == NEWLINE {
        ClosingChunkFits(limit, held, part, more);
      } else {
        assert NEWLINE !in part + [last];
        OpenChunkFits(limit, held, chunk, more);
      }
    }
  }

  lemma RestFits(limit: nat, held: seq<byte>, chunk: seq<byte>, more: seq<byte>)
    requires LinesFit(limit, held, chunk + more)
    ensures LinesFit(limit, RestFrom(held, chunk), more)
  {
    SplitOfParts(held, chunk, more);
    assert forall line <- LinesFrom(RestFrom(held, chunk), more) :: line in LinesFrom(held, chunk + more);
  }

  /** Chunks that never run past a newline fit whenever each line does, so a sender that flushes
    * frame by frame is never turned away, however its frames are cut further on the way. */
  lemma {:induction false} ChunksWithinLinesFit(lim: Limits, buffer: seq<byte>, arrivals: seq<Arrival>)
    requires !AnyBroken(arrivals)
    requires forall a <- arrivals :: a.Chunk? ==> WithinLine(a.bytes)
    requires LinesFit(ReaderLimit(lim.maxFrame), buffer, Flat(arrivals))
    ensures Fits(lim, buffer, arrivals)
    decreases |arrivals|
  {
    if arrivals != [] {
      assert arrivals[0] in arrivals;
      var chunk := arrivals[0].bytes;
      ChunkFits(ReaderLimit(lim.maxFrame), buffer, chunk, Flat(arrivals[1..]));
      RestFits(ReaderLimit(lim.maxFrame), buffer, chunk, Flat(arrivals[1..]));
      ChunksWithinLinesFit(lim, RestFrom(buffer, chunk), arrivals[1..]);
    }
  }

  /** Two lines that each fit can still be turned away when the network delivers them in one chunk. */
  lemma CoalescedLinesTrip(c: Codec, accepts: Acceptance, lim: Limits, st: Reading, a: seq<byte>, b: seq<byte>)
    requires NEWLINE !in a && NEWLINE !in b
    requires |a| + 1 <= ReaderLimit(lim.maxFrame) < USIZE_MAX && |b| + 1 <= ReaderLimit(lim.maxFrame)
    requires |a| + |b| + 2 > ReaderLimit(lim.maxFrame)
    ensures ReadChunks(c, accepts, lim, st, [], [Chunk(a + [NEWLINE] + b + [NEWLINE])]) == (Rejected(FrameTooLarge), st.written)
    ensures Fits(lim, [], [Chunk(a + [NEWLINE]), Chunk(b + [NEWLINE])])
  {
    var arrivals := [Chunk(a + [NEWLINE]), Chunk(b + [NEWLINE])];
    assert a + [NEWLINE] == a + [NEWLINE] + [];
    SplitOfLine([], a, []);
    assert RestFrom([], a + [NEWLINE]) == [];
    assert arrivals[1..] == [Chunk(b + [NEWLINE])];
    assert Fits(lim, [], arrivals[1..]);
  }
}
