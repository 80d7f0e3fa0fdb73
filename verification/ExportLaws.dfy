/** What a line, a chunk and a call of an export come to, spelled out on numbers and fields. */
module ExportLaws {
  import opened Wrappers
  import opened Paths
  import opened ExportReader
  import opened ExportStream

  // ----- limits -----

  /** The reader's buffer holds two frames' worth of bytes and a kilobyte more, below the largest size. */
  lemma TripsWhen(lim: Limits, buffer: seq<byte>, chunk: seq<byte>)
    ensures Trips(lim, buffer, chunk) <==>
            |buffer| + |chunk| > 2 * lim.maxFrame + 1024 && 2 * lim.maxFrame + 1024 < 0xFFFF_FFFF_FFFF_FFFF
  {
  }

  /** The writer's frames are at most 1.4 times the frame limit, rounded up, and a kilobyte long. */
  lemma FrameWithin(lim: Limits, size: nat)
    ensures size <= WriterLimit(lim.maxFrame) <==> 10 * (size - 1024) < 14 * lim.maxFrame + 10
  {
  }

  /** A path of plain segments, of at most 512 characters, without a backslash. */
  lemma SafePathExactly(path: string)
    ensures SafePath(path) <==> |path| <= 512 && Plain(path) && forall i :: 0 <= i < |path| ==> path[i] != '\\'
  {
    PlainExactly(path);
    PlainEnds(path);
    assert forall i :: 0 <= i < |path| ==> path[i] in path;
  }

  /** A count is a non-negative safe integer. */
  lemma CountExactly(result: Option<int>)
    ensures ValidCount(result) <==> exists n: nat :: n <= 9007199254740991 && result == Some(n)
  {
    if ValidCount(result) {
      var n: nat := result.value;
      assert n <= 9007199254740991 && result == Some(n);
    }
  }

  // ----- one line -----

  /** The decoded bytes would take the export past its budget. */
  predicate OverBudget(lim: Limits, st: Reading, size: nat) {
    st.rawTotal + size > lim.maxExport && lim.maxExport < 0xFFFF_FFFF_FFFF_FFFF
  }

  /** A data frame where one may stand, with a safe path and decodable bytes. */
  ghost predicate DataHere(st: Reading, f: Frame) {
    && f.Data? && st.completion == None && |f.path| <= 512 && Plain(f.path)
    && (forall i :: 0 <= i < |f.path| ==> f.path[i] != '\\') && f.payload.Decoded?
  }

  predicate Frames(c: Codec, line: seq<byte>) {
    |line| > 0 && c.parse(line).Some?
  }

  /** What one line does: it completes the export, or adds its data, or ends it with one error. */
  lemma LineExactly(c: Codec, accepts: Acceptance, lim: Limits, st: Reading, line: seq<byte>)
    ensures var r := OnLine(c, accepts, lim, st, line);
            if !Frames(c, line) then r == Stop(FrameInvalid, st.written)
            else
              var f := c.parse(line).value;
              match f
              case Failure => r == Stop(ExportFailed, st.written)
              case Complete(n) =>
                r == if st.completion.Some? then Stop(FrameInvalid, st.written)
                     else Next(Reading(st.rawTotal, Some(n), st.written))
              case Data(path, contentType, payload) =>
                if !DataHere(st, f) then r == Stop(FrameInvalid, st.written)
                else
                  var size, w := |payload.bytes|, Write(path, contentType, payload.bytes);
                  r == if size > lim.maxFrame || !payload.canonical || OverBudget(lim, st, size)
                       then Stop(ExportTooLarge, st.written)
                       else if !accepts(st.written, w) then Stop(SinkFailed, st.written)
                       else Next(Reading(st.rawTotal + size, None, st.written + [w]))
  {
    if Frames(c, line) && c.parse(line).value.Data? {
      SafePathExactly(c.parse(line).value.path);
    }
  }

  // ----- the end of a stream -----

  /** How a stream of good lines ends: cut in a line, without its completion, or with it. */
  lemma EndExactly(c: Codec, accepts: Acceptance, lim: Limits, stream: seq<byte>)
    requires OnLines(c, accepts, lim, Reading(0, None, []), Lines(stream)).Next?
    ensures var end := OnLines(c, accepts, lim, Reading(0, None, []), Lines(stream)).state;
            var outcome := ReadWhole(c, accepts, lim, stream).0;
            && (outcome == Rejected(FrameIncomplete) <==> |Rest(stream)| > 0)
            && (outcome == Rejected(CompletionMissing) <==> |Rest(stream)| == 0 && end.completion == None)
            && (forall n: nat :: outcome == Exported(n) <==> |Rest(stream)| == 0 && end.completion == Some(n))
  {
  }

  /** A line that is not taken ends the export with its error, whatever comes after it. */
  lemma {:induction false} FirstBadLine(c: Codec, accepts: Acceptance, lim: Limits, st: Reading, lines: seq<seq<byte>>)
    returns (k: nat)
    requires OnLines(c, accepts, lim, st, lines).Stop?
    ensures k < |lines| && OnLines(c, accepts, lim, st, lines[..k]).Next?
    ensures OnLines(c, accepts, lim, st, lines)
            == OnLine(c, accepts, lim, OnLines(c, accepts, lim, st, lines[..k]).state, lines[k])
    decreases |lines|
  {
    var r := OnLine(c, accepts, lim, st, lines[0]);
    k := 0;
    if r.Next? {
      var rest := FirstBadLine(c, accepts, lim, r.state, lines[1..]);
      k := rest + 1;
      assert lines[..k][1..] == lines[1..][..rest];
    }
  }

  /** A broken stream is reported as such unless a line or a chunk before the break ended the export. */
  lemma {:induction false} BreakReported(
      c: Codec, accepts: Acceptance, lim: Limits, st: Reading, buffer: seq<byte>, arrivals: seq<Arrival>)
    requires AnyBroken(arrivals)
    ensures ReadChunks(c, accepts, lim, st, buffer, arrivals).0.Rejected?
    ensures Fits(lim, buffer, arrivals) && OnLines(c, accepts, lim, st, LinesFrom(buffer, Flat(arrivals))).Next? ==>
              ReadChunks(c, accepts, lim, st, buffer, arrivals).0 == Rejected(StreamFailed)
    decreases |arrivals|
  {
    if arrivals[0].Chunk? {
      var chunk, more := arrivals[0].bytes, Flat(arrivals[1..]);
      SplitOfParts(buffer, chunk, more);
      OnLinesAppend(c, accepts, lim, st, LinesFrom(buffer, chunk), LinesFrom(RestFrom(buffer, chunk), more));
      var r := OnLines(c, accepts, lim, st, LinesFrom(buffer, chunk));
      if r.Next? && !Trips(lim, buffer, chunk) {
        BreakReported(c, accepts, lim, r.state, RestFrom(buffer, chunk), arrivals[1..]);
      }
    }
  }

  // ----- one call of the writer -----

  /** A call with a safe path, a content type of 1 to 128 characters and at most a frame of bytes. */
  ghost predicate GoodCall(lim: Limits, call: Call) {
    && |call.path| <= 512 && Plain(call.path) && (forall i :: 0 <= i < |call.path| ==> call.path[i] != '\\')
    && 1 <= |call.contentType| <= 128 && |call.bytes| <= lim.maxFrame
  }

  predicate RoomLeft(w: Sender) {
    !w.errored && (w.pipe.room.Some? ==> |w.sent| < w.pipe.room.value)
  }

  /** What a call comes to: a good one is counted, whether or not it then goes out, and goes out if the budget
    * and the frame limit allow it and the stream takes it. */
  lemma CallAnswers(c: Codec, lim: Limits, w: Sender, call: Call)
    ensures var (w1, ok) := SendBytes(c, lim, w, call);
            var f := Data(call.path, call.contentType, Decoded(call.bytes, true));
            var allowed := && GoodCall(lim, call) && w.total + |call.bytes| <= lim.maxExport
                           && 10 * (|c.encode(f)| + 1 - 1024) < 14 * lim.maxFrame + 10;
            && (ok <==> allowed && RoomLeft(w))
            && w1.total == w.total + (if GoodCall(lim, call) then |call.bytes| else 0)
            && w1.sent == w.sent + (if ok then [f] else [])
            && (w1.errored <==> w.errored || (allowed && !RoomLeft(w)))
            && w1.pipe == w.pipe
  {
    SafePathExactly(call.path);
    assert w.sent + [] == w.sent;
  }

  ghost function GoodSize(lim: Limits, calls: seq<Call>): nat
    decreases |calls|
  {
    if calls == [] then 0
    else (if GoodCall(lim, calls[0]) then |calls[0].bytes| else 0) + GoodSize(lim, calls[1..])
  }

  /** Calls that end without an error have counted every good one among them, sent or swallowed. */
  lemma {:induction false} CallsCounted(c: Codec, lim: Limits, w: Sender, calls: seq<Call>)
    ensures var (w1, ok) := SendCalls(c, lim, w, calls);
            w.total <= w1.total && w.sent <= w1.sent && (ok ==> w1.total == w.total + GoodSize(lim, calls))
    decreases |calls|
  {
    if calls != [] {
      CallAnswers(c, lim, w, calls[0]);
      var (w1, ok) := SendBytes(c, lim, w, calls[0]);
      if ok || calls[0].caught {
        CallsCounted(c, lim, w1, calls[1..]);
      }
    }
  }

  /** Once the budget is exceeded, or the stream has rejected a chunk, nothing more goes out. */
  lemma {:induction false} ClosedCalls(c: Codec, lim: Limits, w: Sender, calls: seq<Call>)
    requires w.total > lim.maxExport || w.errored
    ensures var (w1, ok) := SendCalls(c, lim, w, calls);
            w1.sent == w.sent && (w1.total > lim.maxExport || w1.errored)
    decreases |calls|
  {
    if calls != [] {
      CallAnswers(c, lim, w, calls[0]);
      var (w1, ok) := SendBytes(c, lim, w, calls[0]);
      assert w1.sent == w.sent;
      ClosedCalls(c, lim, w1, calls[1..]);
    }
  }

  lemma {:induction false} ClosedResources(c: Codec, lim: Limits, w: Sender, resources: seq<Resource>, count: nat)
    requires w.total > lim.maxExport || w.errored
    ensures var (w1, n) := SendResources(c, lim, w, resources, count);
            w1.sent == w.sent && (w1.total > lim.maxExport || w1.errored)
    decreases |resources|
  {
    if resources != [] {
      ClosedCalls(c, lim, w, resources[0].calls);
      var (w1, ok) := SendCalls(c, lim, w, resources[0].calls);
      if ok && ValidCount(resources[0].result) {
        ClosedResources(c, lim, w1, resources[1..], count + resources[0].result.value);
      }
    }
  }

  /** So such an export never completes, and its reader sees no error frame either. */
  lemma ClosedStreamEnds(c: Codec, lim: Limits, w: Sender, resources: seq<Resource>, count: nat)
    requires w.total > lim.maxExport || w.errored
    ensures var (w1, n) := SendResources(c, lim, w, resources, count);
            Finish(c, lim, w1, n).0.sent == w.sent && Finish(c, lim, w1, n).1 == None
  {
    ClosedResources(c, lim, w, resources, count);
  }

  /** The writer after some calls, whatever each of them answered. */
  function AfterCalls(c: Codec, lim: Limits, w: Sender, calls: seq<Call>): Sender
    decreases |calls|
  {
    if calls == [] then w else AfterCalls(c, lim, SendBytes(c, lim, w, calls[0]).0, calls[1..])
  }

  /** The i-th call is refused. */
  predicate RefusedAt(c: Codec, lim: Limits, w: Sender, calls: seq<Call>, i: nat)
    requires i < |calls|
  {
    !SendBytes(c, lim, AfterCalls(c, lim, w, calls[..i]), calls[i]).1
  }

  lemma RefusedLater(c: Codec, lim: Limits, w: Sender, calls: seq<Call>, i: nat)
    requires i + 1 < |calls|
    ensures var w1 := SendBytes(c, lim, w, calls[0]).0;
            && AfterCalls(c, lim, w, calls[..i + 1]) == AfterCalls(c, lim, w1, calls[1..][..i])
            && (RefusedAt(c, lim, w, calls, i + 1) <==> RefusedAt(c, lim, w1, calls[1..], i))
  {
    assert calls[..i + 1][1..] == calls[1..][..i];
  }

  /** The first k calls are made, and those of them refused before the last are swallowed. */
  ghost predicate MadeUpTo(c: Codec, lim: Limits, w: Sender, calls: seq<Call>, k: nat) {
    && k <= |calls| && SendCalls(c, lim, w, calls).0 == AfterCalls(c, lim, w, calls[..k])
    && forall i: nat | i + 1 < k :: RefusedAt(c, lim, w, calls, i) ==> calls[i].caught
  }

  lemma MadeOneMore(c: Codec, lim: Limits, w: Sender, calls: seq<Call>, k: nat)
    requires calls != [] && (SendBytes(c, lim, w, calls[0]).1 || calls[0].caught)
    requires MadeUpTo(c, lim, SendBytes(c, lim, w, calls[0]).0, calls[1..], k)
    ensures MadeUpTo(c, lim, w, calls, k + 1)
  {
    var w1 := SendBytes(c, lim, w, calls[0]).0;
    assert calls[..k + 1][1..] == calls[1..][..k] && calls[..0] == [];
    forall i: nat | i + 1 < k + 1 ensures RefusedAt(c, lim, w, calls, i) ==> calls[i].caught {
      if i > 0 {
        var j: nat := i - 1;
        RefusedLater(c, lim, w, calls, j);
        assert j + 1 < k && calls[1..][j] == calls[i];
      }
    }
  }

  /** A resource makes its calls in order up to the first refusal it does not swallow. */
  lemma {:induction false} CallsMade(c: Codec, lim: Limits, w: Sender, calls: seq<Call>) returns (k: nat)
    ensures MadeUpTo(c, lim, w, calls, k)
    ensures SendCalls(c, lim, w, calls).1 ==>
              k == |calls| && (k > 0 && RefusedAt(c, lim, w, calls, k - 1) ==> calls[k - 1].caught)
    ensures !SendCalls(c, lim, w, calls).1 ==>
              k > 0 && RefusedAt(c, lim, w, calls, k - 1) && !calls[k - 1].caught
    decreases |calls|
  {
    k := 0;
    if calls != [] {
      var (w1, ok) := SendBytes(c, lim, w, calls[0]);
      assert calls[..0] == [] && calls[..1][1..] == [];
      k := 1;
      if ok || calls[0].caught {
        var rest := CallsMade(c, lim, w1, calls[1..]);
        k := rest + 1;
        MadeOneMore(c, lim, w, calls, rest);
        if rest > 0 {
          RefusedLater(c, lim, w, calls, rest - 1);
        }
      }
    }
  }
}
