/** Slash-separated paths, as export paths and bucket templates check them. */
module Paths {
  function Segments(path: string): (segments: seq<string>)
    ensures |segments| > 0
  {
    if path == "" then [""]
    else
      var rest := Segments(path[1..]);
      if path[0] == '/' then [""] + rest else [[path[0]] + rest[0]] + rest[1..]
  }

  predicate PlainSegments(path: string) {
    forall segment <- Segments(path) :: segment !in ["", ".", ".."]
  }

  /** Segments with slashes between them. */
  function PathOf(segments: seq<string>): string
    requires |segments| > 0
  {
    if |segments| == 1 then segments[0] else segments[0] + "/" + PathOf(segments[1..])
  }

  lemma JoinSlash(rest: seq<string>)
    requires |rest| > 0
    ensures PathOf([""] + rest) == "/" + PathOf(rest)
  {
    assert ([""] + rest)[1..] == rest;
  }

  lemma JoinLonger(head: string, c: char, tail: seq<string>)
    ensures PathOf([[c] + head] + tail) == [c] + PathOf([head] + tail)
  {
    assert ([[c] + head] + tail)[1..] == tail && ([head] + tail)[1..] == tail;
    if tail != [] {
      var more := "/" + PathOf(tail);
      assert [c] + head + more == [c] + (head + more);
      assert [c] + head + "/" + PathOf(tail) == [c] + head + more;
      assert head + "/" + PathOf(tail) == head + more;
    }
  }

  lemma {:induction false} SegmentsJoin(path: string)
    ensures PathOf(Segments(path)) == path
    ensures forall segment <- Segments(path) :: '/' !in segment
  {
    if path != "" {
      SegmentsJoin(path[1..]);
      var rest := Segments(path[1..]);
      JoinSlash(rest);
      JoinLonger(rest[0], path[0], rest[1..]);
      assert rest == [rest[0]] + rest[1..];
    }
  }

  lemma {:induction false} JoinSplits(segments: seq<string>)
    requires |segments| > 0 && forall segment <- segments :: '/' !in segment
    ensures Segments(PathOf(segments)) == segments
    decreases |segments|, |segments[0]|
  {
    var path := PathOf(segments);
    if segments[0] != "" {
      var shorter := [segments[0][1..]] + segments[1..];
      assert shorter[1..] == segments[1..];
      assert segments[0] in segments && forall c <- segments[0][1..] :: c in segments[0];
      assert forall segment <- shorter :: segment == segments[0][1..] || segment in segments;
      JoinSplits(shorter);
      assert path[0] == segments[0][0] && path[1..] == PathOf(shorter);
      assert [segments[0][0]] + shorter[0] == segments[0];
    } else if |segments| > 1 {
      JoinSplits(segments[1..]);
      assert path == "/" + PathOf(segments[1..]);
      assert path[0] == '/' && path[1..] == PathOf(segments[1..]);
    } else {
      assert segments == [""];
    }
  }

  /** A path is split into exactly the slash-free segments it joins. */
  lemma SegmentsExactly(path: string, segments: seq<string>)
    ensures Segments(path) == segments <==>
            |segments| > 0 && (forall segment <- segments :: '/' !in segment) && PathOf(segments) == path
  {
    SegmentsJoin(path);
    if |segments| > 0 && (forall segment <- segments :: '/' !in segment) && PathOf(segments) == path {
      JoinSplits(segments);
    }
  }

  /** A path of plain segments: none empty, and none that means here or above. */
  ghost predicate Plain(path: string) {
    exists segments: seq<string> ::
      && |segments| > 0 && path == PathOf(segments)
      && forall segment <- segments :: '/' !in segment && segment != "" && segment != "." && segment != ".."
  }

  lemma PlainExactly(path: string)
    ensures PlainSegments(path) <==> Plain(path)
  {
    SegmentsJoin(path);
    forall segments | |segments| > 0 && path == PathOf(segments) && forall segment <- segments :: '/' !in segment
      ensures Segments(path) == segments
    {
      SegmentsExactly(path, segments);
    }
  }

  lemma {:induction false} LastSegment(path: string)
    requires path != "" && path[|path| - 1] == '/'
    ensures Segments(path)[|Segments(path)| - 1] == ""
  {
    if |path| > 1 {
      LastSegment(path[1..]);
    } else {
      assert path[1..] == "";
    }
  }

  /** A path of plain segments is not empty, and neither starts nor ends with a slash. */
  lemma PlainEnds(path: string)
    ensures PlainSegments(path) ==> path != "" && path[0] != '/' && path[|path| - 1] != '/'
  {
    var segments := Segments(path);
    assert segments[0] in segments && segments[|segments| - 1] in segments;
    if path != "" && path[|path| - 1] == '/' {
      LastSegment(path);
    }
  }

  lemma {:induction false} SegmentsWithout(path: string)
    requires '/' !in path
    ensures Segments(path) == [path]
  {
    if path != "" {
      SegmentsWithout(path[1..]);
      assert path == [path[0]] + path[1..];
    }
  }

  /** One segment of more than two characters is plain. */
  lemma SinglePlain(path: string)
    requires '/' !in path && |path| > 2
    ensures PlainSegments(path)
  {
    SegmentsWithout(path);
    forall segment | segment in Segments(path) ensures |segment| > 2 {
    }
  }
}
