/** The models package as models/raw_transcription_test.go pins it: the raw
    segments OutputSRT collects, the transcript records ToModel turns them
    into, and the four-key maps Transcriptions.ToMap renders. */
module Records {
  import opened Errors
  import Duration

  /** models.RawTranscription: times are time.Duration nanoseconds. */
  datatype RawTranscription = RawTranscription(index: int, startTs: int, stopTs: int, text: string)

  /** models.Transcription: times are Duration strings; `ytlink` is the
      grouping key the repository fills in, left empty by ToModel. */
  datatype Transcription = Transcription(ytlink: string, index: int, text: string, startTime: string, endTime: string)

  /** The values of a ToMap entry: Go's `interface{}` holding an int or a
      string. */
  datatype Value = IntValue(n: int) | TextValue(s: string)

  /** The record of one raw segment, its times rendered by `format`, which
      stands for Go's Duration.String. */
  function Record(raw: RawTranscription, format: int -> string): (t: Transcription)
    ensures t.ytlink == "" && t.index == raw.index && t.text == raw.text
    ensures t.startTime == format(raw.startTs) && t.endTime == format(raw.stopTs)
    ensures FromMap(RecordMap(t)) == Some(t)
  {
    Transcription("", raw.index, raw.text, format(raw.startTs), format(raw.stopTs))
  }

  /** models.ToModel: one record per raw segment, in order. */
  function ToModel(raws: seq<RawTranscription>, format: int -> string): (ts: seq<Transcription>)
    ensures |ts| == |raws|
    ensures forall i :: 0 <= i < |raws| ==> ts[i] == Record(raws[i], format)
  {
    if raws == [] then []
    else [Record(raws[0], format)] + ToModel(raws[1..], format)
  }

  /** Converting a concatenation converts the parts: the order of segments
      is kept. */
  lemma ToModelAppend(a: seq<RawTranscription>, b: seq<RawTranscription>, format: int -> string)
    ensures ToModel(a + b, format) == ToModel(a, format) + ToModel(b, format)
  {
    var l, r := ToModel(a + b, format), ToModel(a, format) + ToModel(b, format);
    assert |l| == |r|;
    forall i | 0 <= i < |l| ensures l[i] == r[i] {
      if i < |a| {
        assert (a + b)[i] == a[i];
      } else {
        assert (a + b)[i] == b[i - |a|];
      }
    }
  }

  /** Index and text pass through unchanged, and each time string is the
      formatter's rendering of that segment's own time. */
  lemma ToModelPreserves(raws: seq<RawTranscription>, format: int -> string, i: int)
    requires 0 <= i < |raws|
    ensures ToModel(raws, format)[i].index == raws[i].index
    ensures ToModel(raws, format)[i].text == raws[i].text
    ensures ToModel(raws, format)[i].startTime == format(raws[i].startTs)
    ensures ToModel(raws, format)[i].endTime == format(raws[i].stopTs)
  {
  }

  /** ToModel consults the formatter only at the segments' own start and
      stop times: two formatters that agree there give the same records. */
  lemma {:induction false} ToModelFormatsOnlyTimes(raws: seq<RawTranscription>, format: int -> string, other: int -> string)
    requires forall k :: 0 <= k < |raws| ==> format(raws[k].startTs) == other(raws[k].startTs)
    requires forall k :: 0 <= k < |raws| ==> format(raws[k].stopTs) == other(raws[k].stopTs)
    ensures ToModel(raws, format) == ToModel(raws, other)
  {
    if raws != [] {
      var tail := raws[1..];
      assert forall k :: 0 <= k < |tail| ==> tail[k] == raws[k + 1];
      ToModelFormatsOnlyTimes(tail, format, other);
      assert Record(raws[0], format) == Record(raws[0], other);
    }
  }

  /** What TestToModel fixes about Duration.String. */
  predicate FormatsTestTimes(format: int -> string) {
    && format(10 * Duration.Second) == "10s"
    && format(15 * Duration.Second) == "15s"
    && format(20 * Duration.Second) == "20s"
    && format(25 * Duration.Second) == "25s"
  }

  /** TestToModel's case. */
  lemma ToModelTestCase(format: int -> string)
    requires FormatsTestTimes(format)
    ensures ToModel([RawTranscription(1, 10 * Duration.Second, 15 * Duration.Second, "Hello"),
                     RawTranscription(2, 20 * Duration.Second, 25 * Duration.Second, "World")], format)
         == [Transcription("", 1, "Hello", "10s", "15s"), Transcription("", 2, "World", "20s", "25s")]
  {
  }

  /** The four-key map of one record. */
  function RecordMap(t: Transcription): (m: map<string, Value>)
    ensures m.Keys == {"index", "text", "startTime", "endTime"}
    ensures m["index"] == IntValue(t.index) && m["text"] == TextValue(t.text)
    ensures m["startTime"] == TextValue(t.startTime) && m["endTime"] == TextValue(t.endTime)
  {
    map["index" := IntValue(t.index), "text" := TextValue(t.text),
        "startTime" := TextValue(t.startTime), "endTime" := TextValue(t.endTime)]
  }

  /** Transcriptions.ToMap: one map per record, in order. */
  function ToMap(ts: seq<Transcription>): (ms: seq<map<string, Value>>)
    ensures |ms| == |ts|
    ensures forall i :: 0 <= i < |ts| ==> ms[i] == RecordMap(ts[i])
  {
    if ts == [] then [] else [RecordMap(ts[0])] + ToMap(ts[1..])
  }

  /** Reading a record back from its map; None for a map of another shape. */
  function FromMap(m: map<string, Value>): Option<Transcription> {
    if m.Keys == {"index", "text", "startTime", "endTime"}
       && m["index"].IntValue? && m["text"].TextValue?
       && m["startTime"].TextValue? && m["endTime"].TextValue?
    then Some(Transcription("", m["index"].n, m["text"].s, m["startTime"].s, m["endTime"].s))
    else None
  }

  /** The map keeps everything but the grouping key: reading it back gives
      the record with an empty ytlink. */
  lemma FromMapRecordMap(t: Transcription)
    ensures FromMap(RecordMap(t)) == Some(t.(ytlink := ""))
  {
  }

  /** Two records render to the same map exactly when they agree on all
      fields but the grouping key. */
  lemma RecordMapInjective(a: Transcription, b: Transcription)
    ensures RecordMap(a) == RecordMap(b) <==> a.(ytlink := "") == b.(ytlink := "")
  {
    if RecordMap(a) == RecordMap(b) {
      FromMapRecordMap(a);
      FromMapRecordMap(b);
    }
  }

  /** TestTranscriptions_ToMap's case. */
  lemma ToMapTestCase()
    ensures ToMap([Transcription("", 1, "Hello, World!", "00:00:01", "00:00:02"),
                   Transcription("", 2, "I am an AI.", "00:00:03", "00:00:04")])
         == [map["index" := IntValue(1), "text" := TextValue("Hello, World!"),
                 "startTime" := TextValue("00:00:01"), "endTime" := TextValue("00:00:02")],
             map["index" := IntValue(2), "text" := TextValue("I am an AI."),
                 "startTime" := TextValue("00:00:03"), "endTime" := TextValue("00:00:04")]]
  {
  }
}
