/** Draining the speech engine's output: OutputSRT collects every segment
    with a 1-based index, Output prints them and reports how the stream
    ended. The engine's context is modelled by its NextSegment behaviour
    only: a finite queue of segments that, once empty, keeps answering with
    the same error. */
module Segments {
  import opened Errors
  import Duration
  import Records

  /** whisper.Segment: Start and End are time.Duration nanoseconds. */
  datatype Segment = Segment(start: int, end: int, text: string)

  /** One line of Output: the times truncated to milliseconds, and the text. */
  datatype Line = Line(start: int, end: int, text: string)

  /** The one-shot segment source of a processed context. */
  class SegmentStream {
    var pending: seq<Segment>
    var stop: Error

    constructor (segments: seq<Segment>, stop: Error)
      ensures pending == segments && this.stop == stop
    {
      pending := segments;
      this.stop := stop;
    }

    /** NextSegment: the next segment, or the stop error once none is left. */
    method NextSegment() returns (segment: Segment, err: Option<Error>)
      modifies this
      ensures stop == old(stop)
      ensures old(pending) == [] ==> err == Some(stop) && pending == []
      ensures old(pending) != [] ==> err == None && segment == old(pending)[0] && pending == old(pending)[1..]
    {
      if pending == [] {
        segment, err := Segment(0, 0, ""), Some(stop);
      } else {
        segment, err := pending[0], None;
        pending := pending[1..];
      }
    }
  }

  /** OutputSRT: every segment before the first error, numbered 1, 2, ...
      in pull order with its times and text copied; the result never carries
      an error and the stream is left exhausted. */
  method OutputSRT(context: SegmentStream) returns (results: seq<Records.RawTranscription>, err: Option<Error>)
    modifies context
    ensures err == None
    ensures |results| == |old(context.pending)|
    ensures forall i :: 0 <= i < |results| ==>
              results[i] == Records.RawTranscription(i + 1, old(context.pending)[i].start,
                                                     old(context.pending)[i].end, old(context.pending)[i].text)
    ensures context.pending == [] && context.stop == old(context.stop)
  {
    var n := 1;
    results := [];
    ghost var segments := context.pending;
    while true
      invariant 1 <= n <= |segments| + 1 && |results| == n - 1
      invariant context.pending == segments[n - 1..] && context.stop == old(context.stop)
      invariant forall i :: 0 <= i < |results| ==>
                  results[i] == Records.RawTranscription(i + 1, segments[i].start, segments[i].end, segments[i].text)
      decreases |context.pending|
    {
      var segment, e := context.NextSegment();
      if e != None {
        break;
      }
      var transcription := Records.RawTranscription(n, segment.start, segment.end, segment.text);
      results := results + [transcription];
      n := n + 1;
    }
    err := None;
  }

  /** Output: one line per segment, times truncated to the millisecond; nil
      (None) exactly when the stream ended with io.EOF, that error otherwise. */
  method Output(context: SegmentStream) returns (lines: seq<Line>, err: Option<Error>)
    modifies context
    ensures err == (if old(context.stop) == EOF then None else Some(old(context.stop)))
    ensures |lines| == |old(context.pending)|
    ensures forall i :: 0 <= i < |lines| ==>
              lines[i] == Line(Duration.Truncate(old(context.pending)[i].start, Duration.Millisecond),
                               Duration.Truncate(old(context.pending)[i].end, Duration.Millisecond),
                               old(context.pending)[i].text)
    ensures context.pending == [] && context.stop == old(context.stop)
  {
    lines := [];
    ghost var segments := context.pending;
    ghost var k := 0;
    while true
      invariant 0 <= k <= |segments| && |lines| == k
      invariant context.pending == segments[k..] && context.stop == old(context.stop)
      invariant forall i :: 0 <= i < k ==>
                  lines[i] == Line(Duration.Truncate(segments[i].start, Duration.Millisecond),
                                   Duration.Truncate(segments[i].end, Duration.Millisecond),
                                   segments[i].text)
      decreases |context.pending|
    {
      var segment, e := context.NextSegment();
      if e == Some(EOF) {
        return lines, None;
      } else if e != None {
        return lines, e;
      }
      lines := lines + [Line(Duration.Truncate(segment.start, Duration.Millisecond),
                             Duration.Truncate(segment.end, Duration.Millisecond), segment.text)];
      k := k + 1;
    }
  }
}
