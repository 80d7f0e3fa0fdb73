/** The writer of an export stream, and what reader and writer promise each other. */
module ExportStream {
  import opened Wrappers
  import opened ExportReader

  const MAX_SAFE_INTEGER := 0x1F_FFFF_FFFF_FFFF

  // ----- what a successful stream looks like -----

  predicate DataLine(c: Codec, lim: Limits, line: seq<byte>) {
    && line != []
    && c.parse(line).Some?
    && var frame := c.parse(line).value;
       && frame.Data? && SafePath(frame.path) && frame.payload.Decoded? && frame.payload.canonical
       && |frame.payload.bytes| <= lim.maxFrame
  }

  predicate CompleteLine(c: Codec, line: seq<byte>, n: nat) {
    line != [] && c.parse(line) == Some(Complete(n))
  }

  function WriteOf(c: Codec, line: seq<byte>): Write
    requires c.parse(line).Some? && c.parse(line).value.Data? && c.parse(line).value.payload.Decoded?
  {
    var f := c.parse(line).value;
    Write(f.path, f.contentType, f.payload.bytes)
  }

  function Writes(c: Codec, lim: Limits, lines: seq<seq<byte>>): (ws: seq<Write>)
    requires forall line <- lines :: DataLine(c, lim, line)
    ensures |ws| == |lines|
  {
    if lines == [] then []
    else
      assert DataLine(c, lim, lines[0]);
      [WriteOf(c, lines[0])] + Writes(c, lim, lines[1..])
  }

  function Size(ws: seq<Write>): nat {
    if ws == [] then 0 else |ws[0].bytes| + Size(ws[1..])
  }

  predicate AllAccepted(accepts: Acceptance, written: seq<Write>, ws: seq<Write>)
    decreases |ws|
  {
    ws == [] || (accepts(written, ws[0]) && AllAccepted(accepts, written + [ws[0]], ws[1..]))
  }

  /** Data lines, then one completion of n; all data within the budget, all taken by the sink. */
  predicate Delivers(c: Codec, accepts: Acceptance, lim: Limits, st: Reading, lines: seq<seq<byte>>, n: nat) {
    && lines != []
    && CompleteLine(c, lines[|lines| - 1], n)
    && (forall line <- lines[..|lines| - 1] :: DataLine(c, lim, line))
    && var ws := Writes(c, lim, lines[..|lines| - 1]);
       && (ws != [] ==> Min(st.rawTotal + Size(ws), USIZE_MAX) <= lim.maxExport)
       && AllAccepted(accepts, st.written, ws)
  }

  lemma {:induction false} CompletedStays(c: Codec, accepts: Acceptance, lim: Limits, st: Reading, lines: seq<seq<byte>>)
    requires st.completion.Some? && OnLines(c, accepts, lim, st, lines).Next?
    ensures lines == []
  {
  }

  lemma DeliversStep(c: Codec, accepts: Acceptance, lim: Limits, st: Reading, lines: seq<seq<byte>>, n: nat)
    requires |lines| > 1 && st.completion.None?
    ensures Delivers(c, accepts, lim, st, lines, n) <==>
              var r := OnLine(c, accepts, lim, st, lines[0]);
              r.Next? && r.state.completion.None? && Delivers(c, accepts, lim, r.state, lines[1..], n)
  {
    var data, tail := lines[..|lines| - 1], lines[1..][..|lines| - 2];
    assert data[1..] == tail && data == [lines[0]] + tail;
    assert lines[1..][|lines| - 2] == lines[|lines| - 1];
    if DataLine(c, lim, lines[0]) && forall line <- tail :: DataLine(c, lim, line) {
      assert forall line <- data :: DataLine(c, lim, line);
      assert Writes(c, lim, data) == [WriteOf(c, lines[0])] + Writes(c, lim, tail);
      assert Writes(c, lim, data)[1..] == Writes(c, lim, tail);
    } else {
      assert forall line <- tail :: line in data;
      assert lines[0] in data;
    }
  }

  /** All lines are acceptable and end in a completion exactly when they deliver. */
  lemma {:induction false} CompletesExactly(
      c: Codec, accepts: Acceptance, lim: Limits, st: Reading, lines: seq<seq<byte>>, n: nat)
    requires st.completion.None?
    ensures var r := OnLines(c, accepts, lim, st, lines);
            r.Next? && r.state.completion == Some(n) <==> Delivers(c, accepts, lim, st, lines, n)
    decreases |lines|
  {
    if |lines| == 1 {
      assert lines[..0] == [] && lines[1..] == [];
    } else if lines != [] {
      DeliversStep(c, accepts, lim, st, lines, n);
      var r, rest := OnLine(c, accepts, lim, st, lines[0]), lines[1..];
      if r.Next? {
        if r.state.completion.None? {
          CompletesExactly(c, accepts, lim, r.state, rest, n);
        } else if OnLines(c, accepts, lim, r.state, rest).Next? {
          CompletedStays(c, accepts, lim, r.state, rest);
        }
      }
    }
  }

  lemma {:induction false} DeliveredInOrder(
      c: Codec, accepts: Acceptance, lim: Limits, st: Reading, lines: seq<seq<byte>>, n: nat)
    requires st.completion.None? && Delivers(c, accepts, lim, st, lines, n)
    requires OnLines(c, accepts, lim, st, lines).Next?
    ensures OnLines(c, accepts, lim, st, lines).state.written == st.written + Writes(c, lim, lines[..|lines| - 1])
    decreases |lines|
  {
    if |lines| == 1 {
      assert lines[..0] == [] && lines[1..] == [];
      assert st.written + [] == st.written;
    } else {
      DeliversStep(c, accepts, lim, st, lines, n);
      var r, rest := OnLine(c, accepts, lim, st, lines[0]), lines[1..];
      DeliveredInOrder(c, accepts, lim, r.state, rest, n);
      var data, tail := lines[..|lines| - 1], rest[..|rest| - 1];
      assert data[1..] == tail && data[0] in data;
      Regroup(st.written, [WriteOf(c, lines[0])], Writes(c, lim, tail));
    }
  }

  /** An export succeeds with count n exactly when the stream is data lines and then one completion
    * of n, nothing after it, within the budgets and accepted by the sink, which then holds exactly
    * the data in order. */
  lemma SucceedsExactly(c: Codec, accepts: Acceptance, lim: Limits, stream: seq<byte>, n: nat)
    ensures var (outcome, written) := ReadWhole(c, accepts, lim, stream);
            && (outcome == Exported(n) <==>
                  Rest(stream) == [] && Delivers(c, accepts, lim, Reading(0, None, []), Lines(stream), n))
            && (outcome == Exported(n) ==> written == Writes(c, lim, Lines(stream)[..|Lines(stream)| - 1]))
  {
    var start, lines := Reading(0, None, []), Lines(stream);
    CompletesExactly(c, accepts, lim, start, lines, n);
    if Delivers(c, accepts, lim, start, lines, n) {
      DeliveredInOrder(c, accepts, lim, start, lines, n);
      var ws := Writes(c, lim, lines[..|lines| - 1]);
      assert [] + ws == ws;
    }
  }

  // ----- the writer -----

  /** The response stream as the writer meets it: how many chunks it takes before its reader is gone, if
    * ever, and whether closing it succeeds. */
  datatype Pipe = Pipe(room: Option<nat>, closes: bool)

  /** The frames sent so far, one chunk each; a stream that has rejected a write or a close stays errored. */
  datatype Sender = Sender(total: nat, sent: seq<Frame>, pipe: Pipe, errored: bool)

  function Start(pipe: Pipe): Sender {
    Sender(0, [], pipe, false)
  }

  /** The stream takes n more chunks. */
  predicate HasRoom(w: Sender, n: nat) {
    !w.errored && (w.pipe.room.Some? ==> |w.sent| + n <= w.pipe.room.value)
  }

  /** One call of the writer by a resource's export function, which may swallow the error. */
  datatype Call = Call(path: string, contentType: string, bytes: seq<byte>, caught: bool)

  /** One resource: the calls it makes, and the count it returns unless it throws. */
  datatype Resource = Resource(calls: seq<Call>, result: Option<int>)

  function WriterLimit(maxFrame: nat): nat {
    (maxFrame * 14 + 9) / 10 + 1024
  }

  function Encoded(c: Codec, f: Frame): seq<byte> {
    c.encode(f) + [NEWLINE]
  }

  function Send(c: Codec, lim: Limits, w: Sender, f: Frame, raw: nat): (Sender, bool) {
    var w1 := w.(total := w.total + raw);
    if w1.total > lim.maxExport || |Encoded(c, f)| > WriterLimit(lim.maxFrame) then (w1, false)
    else if !HasRoom(w1, 1) then (w1.(errored := true), false)
    else (w1.(sent := w1.sent + [f]), true)
  }

  function Close(w: Sender): (Sender, bool) {
    var ok := !w.errored && w.pipe.closes;
    (w.(errored := !ok), ok)
  }

  function DataFrame(call: Call): Frame {
    Data(call.path, call.contentType, Decoded(call.bytes, true))
  }

  predicate CallAllowed(lim: Limits, call: Call) {
    SafePath(call.path) && 0 < |call.contentType| <= 128 && |call.bytes| <= lim.maxFrame
  }

  function SendBytes(c: Codec, lim: Limits, w: Sender, call: Call): (Sender, bool) {
    if !CallAllowed(lim, call) then (w, false) else Send(c, lim, w, DataFrame(call), |call.bytes|)
  }

  function SendCalls(c: Codec, lim: Limits, w: Sender, calls: seq<Call>): (Sender, bool)
    decreases |calls|
  {
    if calls == [] then (w, true)
    else
      var (w1, ok) := SendBytes(c, lim, w, calls[0]);
      if !ok && !calls[0].caught then (w1, false) else SendCalls(c, lim, w1, calls[1..])
  }

  predicate ValidCount(result: Option<int>) {
    result.Some? && 0 <= result.value <= MAX_SAFE_INTEGER
  }

  function SendResources(c: Codec, lim: Limits, w: Sender, resources: seq<Resource>, count: nat): (Sender, Option<nat>)
    decreases |resources|
  {
    if resources == [] then (w, Some(count))
    else
      var (w1, ok) := SendCalls(c, lim, w, resources[0].calls);
      if !ok || !ValidCount(resources[0].result) then (w1, None)
      else SendResources(c, lim, w1, resources[1..], count + resources[0].result.value)
  }

  /** The error path: an error frame if the stream and the limits let it through. */
  function SendFailure(c: Codec, lim: Limits, w: Sender): Sender {
    Send(c, lim, w, Failure, 0).0
  }

  /** The end of a stream after its resources, with their total count or none. */
  function Finish(c: Codec, lim: Limits, w: Sender, count: Option<nat>): (Sender, Option<nat>) {
    if count.None? then (SendFailure(c, lim, w), None)
    else
      var (w1, ok) := Send(c, lim, w, Complete(count.value), 0);
      if !ok then (SendFailure(c, lim, w1), None)
      else
        var (w2, closed) := Close(w1);
        if closed then (w2, count) else (SendFailure(c, lim, w2), None)
  }

  /** The whole stream, and the count of an export that ended without an error. */
  function SendExport(c: Codec, lim: Limits, pipe: Pipe, resources: seq<Resource>): (Sender, Option<nat>) {
    var (w, count) := SendResources(c, lim, Start(pipe), resources, 0);
    Finish(c, lim, w, count)
  }

  function Texts(c: Codec, frames: seq<Frame>): (texts: seq<seq<byte>>)
    ensures |texts| == |frames|
    ensures forall i :: 0 <= i < |frames| ==> texts[i] == c.encode(frames[i])
  {
    if frames == [] then [] else [c.encode(frames[0])] + Texts(c, frames[1..])
  }

  class ExportWriter {
    const c: Codec
    const lim: Limits
    const pipe: Pipe
    var totalBytes: nat
    var output: seq<seq<byte>>
    var errored: bool
    ghost var sent: seq<Frame>

    ghost predicate Valid()
      reads this
    {
      |output| == |sent| && forall i :: 0 <= i < |sent| ==> output[i] == Encoded(c, sent[i])
    }

    ghost function View(): Sender
      reads this
    {
      Sender(totalBytes, sent, pipe, errored)
    }

    constructor (c: Codec, lim: Limits, pipe: Pipe)
      ensures Valid() && View() == Start(pipe) && this.c == c && this.lim == lim && this.pipe == pipe
    {
      this.c, this.lim, this.pipe := c, lim, pipe;
      totalBytes, output, errored, sent := 0, [], false, [];
    }

    /** The stream takes a chunk, or rejects it and every later one. */
    method WriteChunk(chunk: seq<byte>) returns (ok: bool)
      modifies this`output, this`errored
      ensures ok == (!old(errored) && (pipe.room.Some? ==> |old(output)| + 1 <= pipe.room.value))
      ensures errored == !ok && output == if ok then old(output) + [chunk] else old(output)
    {
      ok := !errored && (pipe.room.None? || |output| < pipe.room.value);
      if ok {
        output := output + [chunk];
      }
      errored := !ok;
    }

    method CloseStream() returns (ok: bool)
      requires Valid()
      modifies this`errored
      ensures Valid() && (View(), ok) == Close(old(View()))
    {
      ok := !errored && pipe.closes;
      errored := !ok;
    }

    method WriteFrame(frame: Frame, rawBytes: nat) returns (ok: bool)
      requires Valid()
      modifies this
      ensures Valid() && (View(), ok) == Send(c, lim, old(View()), frame, rawBytes)
    {
      totalBytes := totalBytes + rawBytes;
      if totalBytes > lim.maxExport {
        return false;
      }
      var encoded := c.encode(frame) + [NEWLINE];
      if |encoded| > (lim.maxFrame * 14 + 9) / 10 + 1024 {
        return false;
      }
      ok := WriteChunk(encoded);
      if ok {
        sent := sent + [frame];
      }
    }

    method Bytes(call: Call) returns (ok: bool)
      requires Valid()
      modifies this
      ensures Valid() && (View(), ok) == SendBytes(c, lim, old(View()), call)
    {
      if !SafePath(call.path) || call.contentType == "" || |call.contentType| > 128 || |call.bytes| > lim.maxFrame {
        return false;
      }
      ok := WriteFrame(Data(call.path, call.contentType, Decoded(call.bytes, true)), |call.bytes|);
    }

    /** The export function of one resource, as the writer sees it. */
    method ExportResource(resource: Resource) returns (ok: bool)
      requires Valid()
      modifies this
      ensures Valid() && (View(), ok) == SendCalls(c, lim, old(View()), resource.calls)
    {
      var i := 0;
      assert resource.calls[0..] == resource.calls;
      while i < |resource.calls|
        invariant 0 <= i <= |resource.calls| && Valid()
        invariant SendCalls(c, lim, View(), resource.calls[i..]) == SendCalls(c, lim, old(View()), resource.calls)
      {
        assert resource.calls[i..][1..] == resource.calls[i + 1..];
        var written := Bytes(resource.calls[i]);
        if !written && !resource.calls[i].caught {
          return false;
        }
        i := i + 1;
      }
      ok := true;
    }

    method ExportData(resources: seq<Resource>) returns (count: Option<nat>)
      requires Valid() && View() == Start(pipe)
      modifies this
      ensures Valid() && (View(), count) == SendExport(c, lim, pipe, resources)
    {
      var exportedCount: nat := 0;
      var failed, i := false, 0;
      assert resources[0..] == resources;
      while i < |resources| && !failed
        invariant 0 <= i <= |resources| && Valid()
        invariant SendResources(c, lim, Start(pipe), resources, 0)
                  == if failed then (View(), None) else SendResources(c, lim, View(), resources[i..], exportedCount)
        decreases |resources| - i, !failed
      {
        assert resources[i..][1..] == resources[i + 1..];
        var ok := ExportResource(resources[i]);
        if ok && ValidCount(resources[i].result) {
          exportedCount := exportedCount + resources[i].result.value;
          i := i + 1;
        } else {
          failed := true;
        }
      }
      count := Some(exportedCount);
      if !failed {
        var ok := WriteFrame(Complete(exportedCount), 0);
        if ok {
          ok := CloseStream();
        }
        failed := !ok;
      }
      if failed {
        count := None;
        var _ := WriteFrame(Failure, 0);
        // A second close that is rejected too is ignored.
      }
    }
  }

  // ----- what the writer sends -----

  /** The frames the writer makes: its payloads are the canonical text of some bytes. */
  predicate Made(f: Frame) {
    f.Data? ==> f.payload.Decoded? && f.payload.canonical
  }

  predicate Sendable(c: Codec, lim: Limits, f: Frame) {
    && |Encoded(c, f)| <= WriterLimit(lim.maxFrame)
    && Made(f) && (f.Data? ==> SafePath(f.path) && |f.payload.bytes| <= lim.maxFrame)
  }

  /** The data of a run of data frames, as writes. */
  function DataOf(frames: seq<Frame>): seq<Write> {
    if frames == [] then []
    else
      (if frames[0].Data? && frames[0].payload.Decoded?
       then [Write(frames[0].path, frames[0].contentType, frames[0].payload.bytes)] else [])
      + DataOf(frames[1..])
  }

  lemma {:induction false} DataOfAppend(a: seq<Frame>, b: seq<Frame>)
    ensures DataOf(a + b) == DataOf(a) + DataOf(b)
  {
    if a == [] {
      assert a + b == b;
    } else {
      assert (a + b)[1..] == a[1..] + b;
      DataOfAppend(a[1..], b);
    }
  }

  lemma Regroup<T>(a: seq<T>, b: seq<T>, c: seq<T>)
    ensures a + (b + c) == a + b + c
  {
  }

  lemma {:induction false} SizeAppend(a: seq<Write>, b: seq<Write>)
    ensures Size(a + b) == Size(a) + Size(b)
  {
    if a == [] {
      assert a + b == b;
    } else {
      assert (a + b)[1..] == a[1..] + b;
      SizeAppend(a[1..], b);
    }
  }

  /** Before the closing frame: only sendable data was sent, within the export budget. */
  predicate Open(c: Codec, lim: Limits, w: Sender) {
    && (forall f <- w.sent :: f.Data? && Sendable(c, lim, f))
    && Size(DataOf(w.sent)) <= Min(w.total, lim.maxExport)
  }

  lemma SendBytesKeepsOpen(c: Codec, lim: Limits, w: Sender, call: Call)
    requires Open(c, lim, w)
    ensures var (w1, ok) := SendBytes(c, lim, w, call);
            && Open(c, lim, w1)
            && DataOf(w1.sent) == DataOf(w.sent) + (if ok then [Write(call.path, call.contentType, call.bytes)] else [])
  {
    var (w1, ok) := SendBytes(c, lim, w, call);
    if ok {
      var f := DataFrame(call);
      var write := Write(call.path, call.contentType, call.bytes);
      DataOfAppend(w.sent, [f]);
      assert [f][1..] == [];
      assert DataOf([f]) == [write];
      SizeAppend(DataOf(w.sent), [write]);
      assert [write][1..] == [];
      assert Size([write]) == |call.bytes|;
    }
  }

  lemma {:induction false} SendCallsKeepsOpen(c: Codec, lim: Limits, w: Sender, calls: seq<Call>)
    requires Open(c, lim, w)
    ensures Open(c, lim, SendCalls(c, lim, w, calls).0)
    decreases |calls|
  {
    if calls != [] {
      SendBytesKeepsOpen(c, lim, w, calls[0]);
      var (w1, ok) := SendBytes(c, lim, w, calls[0]);
      if ok || calls[0].caught {
        SendCallsKeepsOpen(c, lim, w1, calls[1..]);
      }
    }
  }

  lemma {:induction false} SendResourcesKeepsOpen(
      c: Codec, lim: Limits, w: Sender, resources: seq<Resource>, count: nat)
    requires Open(c, lim, w)
    ensures Open(c, lim, SendResources(c, lim, w, resources, count).0)
    decreases |resources|
  {
    if resources != [] {
      SendCallsKeepsOpen(c, lim, w, resources[0].calls);
      var (w1, ok) := SendCalls(c, lim, w, resources[0].calls);
      if ok && ValidCount(resources[0].result) {
        SendResourcesKeepsOpen(c, lim, w1, resources[1..], count + resources[0].result.value);
      }
    }
  }

  /** The frame a stream ends with: the completion if the export ended well or only its close was
    * rejected, else the error frame, unless the export budget is used up or the stream has failed. */
  lemma ClosingShape(c: Codec, lim: Limits, w: Sender, count: Option<nat>)
    returns (closing: seq<Frame>)
    ensures var (w1, n) := Finish(c, lim, w, count);
            && w1.sent == w.sent + closing && w1.total == w.total
            && |closing| <= 1 && (forall f <- closing :: !f.Data? && Sendable(c, lim, f))
            && (n.Some? ==> closing == [Complete(n.value)] && !w1.errored)
            && (n.None? && !w1.errored ==> closing == [] || closing == [Failure])
            && (n.None? && !w1.errored && |Encoded(c, Failure)| <= 1024 ==>
                  (closing == [Failure] <==> w1.total <= lim.maxExport))
  {
    var (w1, n) := Finish(c, lim, w, count);
    if count.Some? && Send(c, lim, w, Complete(count.value), 0).1 {
      closing := [Complete(count.value)];
    } else if |w1.sent| > |w.sent| {
      closing := [Failure];
    } else {
      closing := [];
      assert w.sent + [] == w.sent;
    }
  }

  /** A finished stream is sendable data, then at most one closing frame. */
  lemma StreamShape(c: Codec, lim: Limits, pipe: Pipe, resources: seq<Resource>)
    returns (data: seq<Frame>, closing: seq<Frame>)
    ensures var (w, count) := SendExport(c, lim, pipe, resources);
            && w.sent == data + closing && Open(c, lim, w.(sent := data))
            && |closing| <= 1 && (forall f <- closing :: !f.Data? && Sendable(c, lim, f))
            && (count.Some? ==> closing == [Complete(count.value)] && !w.errored)
            && (count.None? && !w.errored ==> closing == [] || closing == [Failure])
            && (count.None? && !w.errored && |Encoded(c, Failure)| <= 1024 ==>
                  (closing == [Failure] <==> w.total <= lim.maxExport))
  {
    SendResourcesKeepsOpen(c, lim, Start(pipe), resources, 0);
    var (w, count) := SendResources(c, lim, Start(pipe), resources, 0);
    data := w.sent;
    closing := ClosingShape(c, lim, w, count);
  }

  // ----- end to end -----

  /** Parsing undoes encoding, and an encoded frame is a non-empty line. */
  ghost predicate Faithful(c: Codec) {
    forall f :: Made(f) ==> c.parse(c.encode(f)) == Some(f) && NEWLINE !in c.encode(f) && c.encode(f) != []
  }

  /** The reader's budgets are at least the writer's, whose frame limit is a safe integer. */
  predicate RoomFor(reader: Limits, writer: Limits) {
    && writer.maxFrame <= reader.maxFrame && writer.maxExport <= reader.maxExport
    && writer.maxFrame <= MAX_SAFE_INTEGER
  }

  lemma DataFrameRead(c: Codec, accepts: Acceptance, lim: Limits, st: Reading, f: Frame)
    requires Faithful(c) && st.completion.None? && f.Data? && Made(f) && SafePath(f.path)
    requires |f.payload.bytes| <= lim.maxFrame && st.rawTotal + |f.payload.bytes| <= lim.maxExport
    requires accepts(st.written, Write(f.path, f.contentType, f.payload.bytes))
    ensures OnLine(c, accepts, lim, st, c.encode(f))
            == Next(Reading(st.rawTotal + |f.payload.bytes|, None,
                            st.written + [Write(f.path, f.contentType, f.payload.bytes)]))
  {
    assert c.parse(c.encode(f)) == Some(f) && c.encode(f) != [];
  }

  lemma DataOfFirst(data: seq<Frame>)
    requires data != [] && data[0].Data? && data[0].payload.Decoded?
    ensures DataOf(data) == [Write(data[0].path, data[0].contentType, data[0].payload.bytes)] + DataOf(data[1..])
    ensures Size(DataOf(data)) == |data[0].payload.bytes| + Size(DataOf(data[1..]))
  {
    assert DataOf(data)[1..] == DataOf(data[1..]);
  }

  lemma FirstLineTaken(
      c: Codec, accepts: Acceptance, lim: Limits, st: Reading, line: seq<byte>, lines: seq<seq<byte>>, next: Reading)
    requires OnLine(c, accepts, lim, st, line) == Next(next)
    ensures OnLines(c, accepts, lim, st, [line] + lines) == OnLines(c, accepts, lim, next, lines)
  {
    assert ([line] + lines)[1..] == lines;
  }

  /** The reader's variables after a run of data frames. */
  function After(st: Reading, ws: seq<Write>): Reading {
    Reading(st.rawTotal + Size(ws), None, st.written + ws)
  }

  lemma AfterFirst(st: Reading, w: Write, ws: seq<Write>)
    ensures After(st, [w] + ws) == After(After(st, [w]), ws)
    ensures After(st, [w]) == Reading(st.rawTotal + |w.bytes|, None, st.written + [w])
  {
    SizeAppend([w], ws);
    assert [w][1..] == [];
    assert Size([w]) == |w.bytes|;
    Regroup(st.written, [w], ws);
  }

  lemma FirstLineRefused(
      c: Codec, accepts: Acceptance, lim: Limits, st: Reading, f: Frame, lines: seq<seq<byte>>)
    requires Faithful(c) && st.completion.None? && f.Data? && Made(f) && SafePath(f.path)
    requires |f.payload.bytes| <= lim.maxFrame && st.rawTotal + |f.payload.bytes| <= lim.maxExport
    requires !accepts(st.written, Write(f.path, f.contentType, f.payload.bytes))
    ensures OnLines(c, accepts, lim, st, [c.encode(f)] + lines) == Stop(SinkFailed, st.written)
  {
    assert c.parse(c.encode(f)) == Some(f) && c.encode(f) != [];
  }

  /** What a reader makes of a run of sendable data: it takes all, or stops where its sink refuses. */
  predicate DataOutcome(r: LineResult, accepts: Acceptance, st: Reading, ws: seq<Write>) {
    if AllAccepted(accepts, st.written, ws) then r == Next(After(st, ws))
    else r.Stop? && r.error == SinkFailed && r.written <= st.written + ws
  }

  lemma OutcomeFirst(r: LineResult, accepts: Acceptance, st: Reading, w: Write, ws: seq<Write>)
    requires accepts(st.written, w) && DataOutcome(r, accepts, After(st, [w]), ws)
    ensures DataOutcome(r, accepts, st, [w] + ws)
  {
    AfterFirst(st, w, ws);
    assert ([w] + ws)[1..] == ws;
    Regroup(st.written, [w], ws);
  }

  lemma {:induction false} DataRead(c: Codec, accepts: Acceptance, lim: Limits, writer: Limits, st: Reading, data: seq<Frame>)
    requires Faithful(c) && st.completion.None? && RoomFor(lim, writer)
    requires forall f <- data :: f.Data? && Sendable(c, writer, f)
    requires st.rawTotal + Size(DataOf(data)) <= lim.maxExport
    ensures DataOutcome(OnLines(c, accepts, lim, st, Texts(c, data)), accepts, st, DataOf(data))
    decreases |data|
  {
    if data == [] {
      assert st.written + [] == st.written;
    } else {
      var f, rest := data[0], data[1..];
      assert f in data;
      var write := Write(f.path, f.contentType, f.payload.bytes);
      var ws := DataOf(rest);
      DataOfFirst(data);
      if accepts(st.written, write) {
        AfterFirst(st, write, ws);
        DataFrameRead(c, accepts, lim, st, f);
        var next := After(st, [write]);
        DataRead(c, accepts, lim, writer, next, rest);
        FirstLineTaken(c, accepts, lim, st, c.encode(f), Texts(c, rest), next);
        OutcomeFirst(OnLines(c, accepts, lim, next, Texts(c, rest)), accepts, st, write, ws);
      } else {
        FirstLineRefused(c, accepts, lim, st, f, Texts(c, rest));
        assert ([write] + ws)[0] == write;
      }
    }
  }

  /** Any frame within the writer's limit is within the reader's. */
  lemma WriterFrameFits(reader: Limits, writer: Limits)
    requires RoomFor(reader, writer)
    ensures WriterLimit(writer.maxFrame) <= ReaderLimit(reader.maxFrame)
  {
  }

  /** Two frames of the writer's full size in one chunk are more than the reader holds. */
  lemma TwoFullFramesTrip(maxFrame: nat)
    ensures 2 * WriterLimit(maxFrame) > ReaderLimit(maxFrame)
  {
  }

  lemma {:induction false} TextsAppend(c: Codec, a: seq<Frame>, b: seq<Frame>)
    ensures Texts(c, a + b) == Texts(c, a) + Texts(c, b)
  {
  }

  lemma SentSplits(c: Codec, lim: Limits, sent: seq<Frame>)
    requires Faithful(c) && forall f <- sent :: Made(f) && Sendable(c, lim, f)
    ensures Lines(Joined(Texts(c, sent))) == Texts(c, sent) && Rest(Joined(Texts(c, sent))) == []
    ensures LinesFit(WriterLimit(lim.maxFrame), [], Joined(Texts(c, sent)))
  {
    var texts := Texts(c, sent);
    forall line <- texts
      ensures NEWLINE !in line && |line| + 1 <= WriterLimit(lim.maxFrame)
    {
      var i :| 0 <= i < |texts| && texts[i] == line;
      assert sent[i] in sent && line == c.encode(sent[i]);
      assert |Encoded(c, sent[i])| == |line| + 1;
    }
    SplitOfJoined(texts, []);
    assert Joined(texts) + [] == Joined(texts);
  }

  /** What the closing frame, or none, makes of a reader that has read the data. */
  lemma ClosingRead(c: Codec, accepts: Acceptance, lim: Limits, st: Reading, closing: seq<Frame>)
    requires Faithful(c) && st.completion.None? && |closing| <= 1 && forall f <- closing :: !f.Data?
    ensures OnLines(c, accepts, lim, st, Texts(c, closing))
            == if closing == [] then Next(st)
               else if closing[0] == Failure then Stop(ExportFailed, st.written)
               else Next(st.(completion := Some(closing[0].count)))
  {
    if closing != [] {
      var f := closing[0];
      assert f in closing && Made(f);
      assert c.parse(c.encode(f)) == Some(f) && c.encode(f) != [];
      var lines := Texts(c, closing);
      assert lines[0] == c.encode(f) && lines[1..] == [];
    }
  }

  /** What a reader with room makes of a sent stream. */
  lemma SentRead(c: Codec, accepts: Acceptance, reader: Limits, writer: Limits, data: seq<Frame>, closing: seq<Frame>)
    requires Faithful(c) && RoomFor(reader, writer)
    requires forall f <- data :: f.Data? && Sendable(c, writer, f)
    requires Size(DataOf(data)) <= reader.maxExport
    requires |closing| <= 1 && forall f <- closing :: !f.Data?
    ensures var start := Reading(0, None, []);
            var r := OnLines(c, accepts, reader, start, Texts(c, data + closing));
            if !AllAccepted(accepts, [], DataOf(data))
            then r.Stop? && r.error == SinkFailed && r.written <= [] + DataOf(data)
            else
              var st := After(start, DataOf(data));
              r == if closing == [] then Next(st)
                   else if closing[0] == Failure then Stop(ExportFailed, st.written)
                   else Next(st.(completion := Some(closing[0].count)))
  {
    var start := Reading(0, None, []);
    TextsAppend(c, data, closing);
    OnLinesAppend(c, accepts, reader, start, Texts(c, data), Texts(c, closing));
    DataRead(c, accepts, reader, writer, start, data);
    ClosingRead(c, accepts, reader, After(start, DataOf(data)), closing);
  }

  lemma DataOfSent(data: seq<Frame>, closing: seq<Frame>)
    requires |closing| <= 1 && forall f <- closing :: !f.Data?
    ensures DataOf(data + closing) == DataOf(data)
  {
    DataOfAppend(data, closing);
    if closing != [] {
      assert closing[0] in closing && closing[1..] == [];
    }
    assert DataOf(data) + [] == DataOf(data);
  }

  /** What the reference reader makes of a stream whose writer's side has not failed. */
  predicate WholeOutcome(
    c: Codec, accepts: Acceptance, writer: Limits, w: Sender, count: Option<nat>, outcome: Outcome, written: seq<Write>)
  {
    && written <= DataOf(w.sent)
    && (!AllAccepted(accepts, [], DataOf(w.sent)) ==> outcome == Rejected(SinkFailed))
    && (AllAccepted(accepts, [], DataOf(w.sent)) ==>
          && written == DataOf(w.sent)
          && (count.Some? ==> outcome == Exported(count.value))
          && (count.None? && !w.errored ==> outcome in {Rejected(ExportFailed), Rejected(CompletionMissing)})
          && (count.None? && !w.errored && |Encoded(c, Failure)| <= 1024 ==>
                (outcome == Rejected(ExportFailed) <==> w.total <= writer.maxExport)))
  }

  lemma SentReadWhole(
      c: Codec, accepts: Acceptance, reader: Limits, writer: Limits, pipe: Pipe, resources: seq<Resource>)
    requires Faithful(c) && RoomFor(reader, writer)
    ensures var (w, count) := SendExport(c, writer, pipe, resources);
            var (outcome, written) := ReadWhole(c, accepts, reader, Joined(Texts(c, w.sent)));
            WholeOutcome(c, accepts, writer, w, count, outcome, written)
    ensures forall f <- SendExport(c, writer, pipe, resources).0.sent :: Made(f) && Sendable(c, writer, f)
  {
    var (w, count) := SendExport(c, writer, pipe, resources);
    var data, closing := StreamShape(c, writer, pipe, resources);
    DataOfSent(data, closing);
    SentRead(c, accepts, reader, writer, data, closing);
    assert forall f <- w.sent :: f in data || f in closing;
    SentSplits(c, writer, w.sent);
    assert [] + DataOf(data) == DataOf(data);
  }

  /** What reaches the reader of a sent stream: all of it, or, if the connection breaks, the beginning. A
    * stream that failed on the writer's side never ends cleanly for the reader. */
  predicate Arrives(arrivals: seq<Arrival>, w: Sender, bytes: seq<byte>) {
    && Flat(arrivals) <= bytes
    && (!AnyBroken(arrivals) ==> Flat(arrivals) == bytes && !w.errored)
  }

  lemma PrefixWrites(c: Codec, accepts: Acceptance, lim: Limits, a: seq<byte>, whole: seq<byte>)
    requires a <= whole
    ensures ReadWhole(c, accepts, lim, a).1 <= ReadWhole(c, accepts, lim, whole).1
  {
    var b := whole[|a|..];
    assert whole == a + b;
    var start := Reading(0, None, []);
    WholeByChunk(c, accepts, lim, start, [], a, b);
    var r := OnLines(c, accepts, lim, start, Lines(a));
    if r.Next? {
      WritesGrow(c, accepts, lim, r.state, LinesFrom(Rest(a), b));
    }
  }

  /** End to end, whatever the resources do, however the stream is cut into chunks on the way, and
    * wherever it breaks: a reader with room for the writer's frames reports a count exactly when the
    * export ended with it, all arrived in chunks that fit the reader's buffer, and the sink took all the
    * data. Its sink always holds the beginning of the data sent, and all of it when nothing broke, the
    * chunks fit and the sink took it; a failed export then arrives as the right error. */
  lemma DeliversEndToEnd(
      c: Codec, accepts: Acceptance, reader: Limits, writer: Limits, pipe: Pipe, resources: seq<Resource>,
      arrivals: seq<Arrival>, n: nat)
    requires Faithful(c) && RoomFor(reader, writer)
    requires var w := SendExport(c, writer, pipe, resources).0; Arrives(arrivals, w, Joined(Texts(c, w.sent)))
    ensures var (w, count) := SendExport(c, writer, pipe, resources);
            var (outcome, written) := ReadChunks(c, accepts, reader, Reading(0, None, []), [], arrivals);
            && written <= DataOf(w.sent)
            && (outcome == Exported(n) <==>
                  && count == Some(n) && !AnyBroken(arrivals) && Fits(reader, [], arrivals)
                  && AllAccepted(accepts, [], DataOf(w.sent)))
            && (!AnyBroken(arrivals) && Fits(reader, [], arrivals) ==>
                  WholeOutcome(c, accepts, writer, w, count, outcome, written))
  {
    var (w, count) := SendExport(c, writer, pipe, resources);
    var bytes := Joined(Texts(c, w.sent));
    SentReadWhole(c, accepts, reader, writer, pipe, resources);
    CutShortIsPrefix(c, accepts, reader, arrivals);
    PrefixWrites(c, accepts, reader, Flat(arrivals), bytes);
    PrefixTransitive(ReadChunks(c, accepts, reader, Reading(0, None, []), [], arrivals).1,
                     ReadWhole(c, accepts, reader, Flat(arrivals)).1, ReadWhole(c, accepts, reader, bytes).1);
    PrefixTransitive(ReadChunks(c, accepts, reader, Reading(0, None, []), [], arrivals).1,
                     ReadWhole(c, accepts, reader, bytes).1, DataOf(w.sent));
    if !AnyBroken(arrivals) && Fits(reader, [], arrivals) {
      ChunkingFrom(c, accepts, reader, Reading(0, None, []), [], arrivals);
    }
  }

  lemma PrefixTransitive<T>(a: seq<T>, b: seq<T>, c: seq<T>)
    requires a <= b && b <= c
    ensures a <= c
  {
    assert a == b[..|a|] == c[..|a|];
  }

  /** In particular a completed export whose chunks never run past a frame's end, as when each frame is
    * flushed on its own and cut further on the way, is always delivered whole. */
  lemma FrameByFrameDelivers(
      c: Codec, accepts: Acceptance, reader: Limits, writer: Limits, pipe: Pipe, resources: seq<Resource>,
      arrivals: seq<Arrival>)
    requires Faithful(c) && RoomFor(reader, writer) && !AnyBroken(arrivals)
    requires var w := SendExport(c, writer, pipe, resources).0;
             Arrives(arrivals, w, Joined(Texts(c, w.sent))) && AllAccepted(accepts, [], DataOf(w.sent))
    requires SendExport(c, writer, pipe, resources).1.Some?
    requires forall a <- arrivals :: a.Chunk? ==> WithinLine(a.bytes)
    ensures var (w, count) := SendExport(c, writer, pipe, resources);
            ReadChunks(c, accepts, reader, Reading(0, None, []), [], arrivals) == (Exported(count.value), DataOf(w.sent))
  {
    var (w, count) := SendExport(c, writer, pipe, resources);
    SentReadWhole(c, accepts, reader, writer, pipe, resources);
    SentFits(c, reader, writer, w.sent, arrivals);
    DeliversEndToEnd(c, accepts, reader, writer, pipe, resources, arrivals, count.value);
  }

  lemma SentFits(c: Codec, reader: Limits, writer: Limits, sent: seq<Frame>, arrivals: seq<Arrival>)
    requires Faithful(c) && RoomFor(reader, writer) && forall f <- sent :: Made(f) && Sendable(c, writer, f)
    requires !AnyBroken(arrivals) && forall a <- arrivals :: a.Chunk? ==> WithinLine(a.bytes)
    requires Flat(arrivals) == Joined(Texts(c, sent))
    ensures Fits(reader, [], arrivals)
  {
    SentSplits(c, writer, sent);
    WriterFrameFits(reader, writer);
    ChunksWithinLinesFit(reader, [], arrivals);
  }

  // ----- when an export completes -----

  function WritesOf(calls: seq<Call>): seq<Write> {
    if calls == [] then [] else [Write(calls[0].path, calls[0].contentType, calls[0].bytes)] + WritesOf(calls[1..])
  }

  function AllWrites(resources: seq<Resource>): seq<Write> {
    if resources == [] then [] else WritesOf(resources[0].calls) + AllWrites(resources[1..])
  }

  /** A call the writer takes when the budget lasts. */
  predicate Fine(c: Codec, lim: Limits, call: Call) {
    CallAllowed(lim, call) && |Encoded(c, DataFrame(call))| <= WriterLimit(lim.maxFrame)
  }

  predicate CallsFine(c: Codec, lim: Limits, calls: seq<Call>) {
    calls == [] || (Fine(c, lim, calls[0]) && CallsFine(c, lim, calls[1..]))
  }

  predicate AllFine(c: Codec, lim: Limits, resources: seq<Resource>) {
    resources == []
    || (ValidCount(resources[0].result) && CallsFine(c, lim, resources[0].calls) && AllFine(c, lim, resources[1..]))
  }

  function TotalCount(c: Codec, lim: Limits, resources: seq<Resource>): nat
    requires AllFine(c, lim, resources)
  {
    if resources == [] then 0 else resources[0].result.value + TotalCount(c, lim, resources[1..])
  }

  predicate NothingCaught(resources: seq<Resource>) {
    forall r <- resources :: forall call <- r.calls :: !call.caught
  }

  lemma {:induction false} CallsAllSent(c: Codec, lim: Limits, w: Sender, calls: seq<Call>)
    requires w.total <= lim.maxExport && HasRoom(w, 0) && forall call <- calls :: !call.caught
    ensures var (w1, ok) := SendCalls(c, lim, w, calls);
            && (ok <==> CallsFine(c, lim, calls) && w.total + Size(WritesOf(calls)) <= lim.maxExport && HasRoom(w, |calls|))
            && (ok ==> w1.total == w.total + Size(WritesOf(calls)) && HasRoom(w1, 0) && w1.pipe == w.pipe
                       && |w1.sent| == |w.sent| + |calls|)
    decreases |calls|
  {
    if calls != [] {
      assert calls[0] in calls;
      assert WritesOf(calls)[1..] == WritesOf(calls[1..]);
      var (w1, ok) := SendBytes(c, lim, w, calls[0]);
      if ok {
        CallsAllSent(c, lim, w1, calls[1..]);
      }
    }
  }

  lemma {:induction false} CallsSentInOrder(c: Codec, lim: Limits, w: Sender, calls: seq<Call>)
    requires Open(c, lim, w) && forall call <- calls :: !call.caught
    requires SendCalls(c, lim, w, calls).1
    ensures DataOf(SendCalls(c, lim, w, calls).0.sent) == DataOf(w.sent) + WritesOf(calls)
    decreases |calls|
  {
    if calls == [] {
      assert DataOf(w.sent) + [] == DataOf(w.sent);
    } else {
      var call, rest := calls[0], calls[1..];
      assert call in calls;
      var w1 := SendBytes(c, lim, w, call).0;
      SendBytesKeepsOpen(c, lim, w, call);
      CallsSentInOrder(c, lim, w1, rest);
      Regroup(DataOf(w.sent), [Write(call.path, call.contentType, call.bytes)], WritesOf(rest));
    }
  }

  lemma {:induction false} ResourcesAllSent(c: Codec, lim: Limits, w: Sender, resources: seq<Resource>, count: nat)
    requires w.total <= lim.maxExport && HasRoom(w, 0) && NothingCaught(resources)
    ensures var (w1, n) := SendResources(c, lim, w, resources, count);
            && (n.Some? <==>
                  && AllFine(c, lim, resources) && w.total + Size(AllWrites(resources)) <= lim.maxExport
                  && HasRoom(w, |AllWrites(resources)|))
            && (n.Some? ==>
                  && n.value == count + TotalCount(c, lim, resources) && w1.total <= lim.maxExport
                  && HasRoom(w1, 0) && w1.pipe == w.pipe && |w1.sent| == |w.sent| + |AllWrites(resources)|)
    decreases |resources|
  {
    if resources != [] {
      var first, rest := resources[0], resources[1..];
      assert first in resources;
      CallsAllSent(c, lim, w, first.calls);
      WritesCount(first.calls);
      SizeAppend(WritesOf(first.calls), AllWrites(rest));
      var (w1, ok) := SendCalls(c, lim, w, first.calls);
      if ok && ValidCount(first.result) {
        ResourcesAllSent(c, lim, w1, rest, count + first.result.value);
      }
    }
  }

  lemma {:induction false} WritesCount(calls: seq<Call>)
    ensures |WritesOf(calls)| == |calls|
  {
    if calls != [] {
      WritesCount(calls[1..]);
    }
  }

  lemma {:induction false} ResourcesSentInOrder(c: Codec, lim: Limits, w: Sender, resources: seq<Resource>, count: nat)
    requires Open(c, lim, w) && NothingCaught(resources)
    requires SendResources(c, lim, w, resources, count).1.Some?
    ensures DataOf(SendResources(c, lim, w, resources, count).0.sent) == DataOf(w.sent) + AllWrites(resources)
    decreases |resources|
  {
    if resources == [] {
      assert DataOf(w.sent) + [] == DataOf(w.sent);
    } else {
      var first, rest := resources[0], resources[1..];
      assert first in resources;
      var w1 := SendCalls(c, lim, w, first.calls).0;
      SendCallsKeepsOpen(c, lim, w, first.calls);
      CallsSentInOrder(c, lim, w, first.calls);
      ResourcesSentInOrder(c, lim, w1, rest, count + first.result.value);
      Regroup(DataOf(w.sent), WritesOf(first.calls), AllWrites(rest));
    }
  }

  lemma CompletedInOrder(c: Codec, lim: Limits, pipe: Pipe, resources: seq<Resource>)
    requires NothingCaught(resources) && SendExport(c, lim, pipe, resources).1.Some?
    ensures DataOf(SendExport(c, lim, pipe, resources).0.sent) == AllWrites(resources)
  {
    var (w, count) := SendResources(c, lim, Start(pipe), resources, 0);
    ResourcesSentInOrder(c, lim, Start(pipe), resources, 0);
    DataOfSent(w.sent, [Complete(count.value)]);
    assert [] + AllWrites(resources) == AllWrites(resources);
  }

  /** When no resource swallows an error, the export completes exactly when every call is allowed and
    * encodes within the frame limit, every count is valid, the data fits the export budget, the closing
    * frame fits, and the stream takes a chunk for each call and one more and then closes; and then every
    * call's data is sent in order and the counts add up. */
  lemma CompletesWhen(c: Codec, lim: Limits, pipe: Pipe, resources: seq<Resource>)
    requires NothingCaught(resources)
    ensures var (w, count) := SendExport(c, lim, pipe, resources);
            && (count.Some? <==>
                  && AllFine(c, lim, resources) && Size(AllWrites(resources)) <= lim.maxExport
                  && |Encoded(c, Complete(TotalCount(c, lim, resources)))| <= WriterLimit(lim.maxFrame)
                  && (pipe.room.Some? ==> |AllWrites(resources)| + 1 <= pipe.room.value) && pipe.closes)
            && (count.Some? ==> count.value == TotalCount(c, lim, resources) && DataOf(w.sent) == AllWrites(resources))
  {
    ResourcesAllSent(c, lim, Start(pipe), resources, 0);
    if SendExport(c, lim, pipe, resources).1.Some? {
      CompletedInOrder(c, lim, pipe, resources);
    }
  }
}
