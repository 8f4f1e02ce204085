/** Download and DownloadReport: fetching a model file with the skip-if-
    present check and a read loop that keeps an int64 byte count and an
    integer percentage. The HTTP response, the file system and the
    `select` in the loop are inputs: the loop is driven by a sequence of
    events, one per iteration, each saying which `select` case ran and what
    the body read and the file write answered. */
module Fetch {
  import opened Errors
  import Int64
  import Names

  const BufSize: int := 1024 * 64
  const StatusOK: int := 200

  /** A progress line, `  ...<megabytes> MB written (<percent>%)`. */
  datatype Line = Line(megabytes: int, percent: int)

  /** What DownloadReport returns and prints. */
  datatype Report = Report(pct: int, line: Option<Line>)

  /** DownloadReport: the percentage count*100/total in int64 arithmetic,
      with a line printed exactly when it exceeds the previous percentage.
      Go panics on an integer division by zero, hence total != 0. */
  function DownloadReport(pct: int, count: int, total: int): (r: Report)
    requires total != 0
    ensures r.line.Some? <==> r.pct > pct
    ensures r.line.Some? ==> r.line.value == Line(Int64.Div(count, 1_000_000), r.pct)
  {
    var pct' := Int64.Div(Int64.Wrap(count * 100), total);
    Report(pct', if pct' > pct then Some(Line(Int64.Div(count, 1_000_000), pct')) else None)
  }

  /** While count*100 fits in an int64 the percentage is the plain integer
      percentage: at most 100 while count <= total, and exactly 100 when
      count == total. */
  lemma ReportPercent(pct: int, count: int, total: int)
    requires total > 0 && 0 <= count && 100 * count <= Int64.Max
    ensures DownloadReport(pct, count, total).pct == (100 * count) / total
    ensures count <= total ==> DownloadReport(pct, count, total).pct <= 100
    ensures count == total ==> DownloadReport(pct, count, total).pct == 100
  {
    var v := 100 * count;
    Int64.QuotNonNegative(v, total);
    DivAtMost(v, total);
    assert DownloadReport(pct, count, total).pct == Int64.Wrap(v / total);
    if count <= total {
      Int64.DivModUnique(100 * total, total, 100, 0);
      DivMonotone(v, 100 * total, total);
    }
  }

  lemma DivAtMost(a: int, d: int)
    requires 0 <= a && 1 <= d
    ensures 0 <= a / d <= a
  {
    var q := a / d;
    Int64.DivBounds(a, d);
    assert q * d == q * (d - 1) + q;
    assert q * (d - 1) >= 0;
  }

  lemma DivMonotone(a: int, b: int, d: int)
    requires 0 <= a <= b && d > 0
    ensures a / d <= b / d
  {
    Int64.DivBounds(a, d);
    Int64.DivBounds(b, d);
    Int64.MulGrows(a / d - b / d, d);
    assert (a / d - b / d) * d == (a / d) * d - (b / d) * d;
  }

  /** The line DownloadReport printed, as a sequence of zero or one lines. */
  function Printed(r: Report): seq<Line> {
    if r.line.Some? then [r.line.value] else []
  }

  // ------------------------------------------------------------ the loop

  /** One iteration of the read loop. */
  datatype Event =
    | Cancelled(cause: Error)         // ctx.Done() was ready; cause is ctx.Err()
    | Tick                            // the ticker fired
    | Chunk(n: int)                   // Read gave (n, nil) and the file took the n bytes
    | ReadFailed(n: int, err: Error)  // Read gave (n, err) with err != nil
    | WriteFailed(err: Error)         // Read gave bytes, writing them to the file failed

  /** The loop's variables: count, pct, and the lines printed so far. */
  datatype LoopState = LoopState(count: int, pct: int, lines: seq<Line>)

  const Start: LoopState := LoopState(0, 0, [])

  datatype Outcome =
    | Returned(path: string, err: Option<Error>)
    | Panicked      // integer division by zero: the response had ContentLength 0
    | Unfinished    // the events ran out before the loop returned

  /** An event after which the loop goes round again. */
  predicate Continues(e: Event, total: int) {
    e.Chunk? || (e.Tick? && total != 0)
  }

  predicate AllContinue(es: seq<Event>, total: int) {
    forall j :: 0 <= j < |es| ==> Continues(es[j], total)
  }

  function Apply(p: LoopState, e: Event, total: int): LoopState
    requires Continues(e, total)
  {
    match e
    case Tick =>
      var r := DownloadReport(p.pct, p.count, total);
      LoopState(p.count, r.pct, p.lines + Printed(r))
    case Chunk(n) => p.(count := Int64.Wrap(p.count + n))
  }

  /** The loop's variables after a run of continuing events. */
  function Walk(es: seq<Event>, total: int): LoopState
    requires AllContinue(es, total)
  {
    if es == [] then Start
    else Apply(Walk(es[..|es| - 1], total), es[|es| - 1], total)
  }

  /** How many leading events continue the loop. */
  function Live(es: seq<Event>, total: int): (k: nat)
    ensures k <= |es| && AllContinue(es[..k], total)
    ensures k < |es| ==> !Continues(es[k], total)
  {
    if es == [] || !Continues(es[0], total) then 0
    else
      var k := Live(es[1..], total) + 1;
      assert forall j :: 1 <= j < k ==> es[..k][j] == es[1..][..k - 1][j - 1];
      k
  }

  /** The event that ends the loop, applied to the variables it finds. */
  function Close(path: string, e: Event, total: int, p: LoopState): (r: (Outcome, LoopState))
    requires !Continues(e, total)
    ensures r.0 != Unfinished
    ensures r.0 == Panicked <==> e.Tick? || (e.ReadFailed? && total == 0)
    ensures r.0.Returned? ==> r.0.path == path && r.0.err.Some?
    ensures r.1.count == p.count && r.1.pct == p.pct
    ensures e.Cancelled? ==> r == (Returned(path, Some(e.cause)), p)
    ensures e.WriteFailed? ==> r == (Returned(path, Some(e.err)), p)
    ensures e.ReadFailed? && total != 0 ==>
              r == (Returned(path, Some(e.err)), p.(lines := p.lines + Printed(DownloadReport(p.pct, p.count, total))))
  {
    match e
    case Tick => (Panicked, p)
    case Cancelled(cause) => (Returned(path, Some(cause)), p)
    case ReadFailed(_, err) =>
      if total == 0 then (Panicked, p)
      else (Returned(path, Some(err)), p.(lines := p.lines + Printed(DownloadReport(p.pct, p.count, total))))
    case WriteFailed(err) => (Returned(path, Some(err)), p)
  }

  /** The read loop's result: walk the continuing events, then close with the
      first one that ends the loop. */
  function Transfer(path: string, total: int, events: seq<Event>): (r: (Outcome, LoopState))
    ensures r.0 == Unfinished <==> AllContinue(events, total)
  {
    var k := Live(events, total);
    var p := Walk(events[..k], total);
    if k == |events| then
      assert events[..k] == events;
      (Unfinished, p)
    else Close(path, events[k], total, p)
  }

  // ------------------------------------------------------------ Download

  /** The HTTP response: status code, status text and ContentLength. */
  datatype Response = Response(statusCode: int, status: string, contentLength: int)

  /** Download: `response` is what building and sending the GET gave,
      `existingSize` the size os.Stat found at the output path (None when
      there is no file), `createError` what os.Create failed with, and
      `events` the iterations of the read loop. Also returns whether the
      output file was created, and the loop's variables. */
  method Download(out: string, url: string, response: Result<Response>, existingSize: Option<int>,
                  createError: Option<Error>, events: seq<Event>)
    returns (outcome: Outcome, created: bool, progress: LoopState)
    ensures response.Err? ==> outcome == Returned("", Some(response.error)) && !created && progress == Start
    ensures response.Ok? && response.value.statusCode != StatusOK ==>
              outcome == Returned("", Some(Failure(url + ": " + response.value.status))) && !created && progress == Start
    ensures response.Ok? && response.value.statusCode == StatusOK && existingSize == Some(response.value.contentLength) ==>
              outcome == Returned(Names.ModelPath(out, url), None) && !created && progress == Start
    ensures response.Ok? && response.value.statusCode == StatusOK && existingSize != Some(response.value.contentLength) ==>
              if createError.Some? then outcome == Returned("", createError) && !created && progress == Start
              else created && (outcome, progress) == Transfer(Names.ModelPath(out, url), response.value.contentLength, events)
  {
    created, progress := false, Start;
    if response.Err? {
      return Returned("", Some(response.error)), created, progress;
    }
    var resp := response.value;
    if resp.statusCode != StatusOK {
      return Returned("", Some(Failure(url + ": " + resp.status))), created, progress;
    }
    var path := Names.ModelPath(out, url);
    if existingSize == Some(resp.contentLength) {
      return Returned(path, None), created, progress;
    }
    if createError.Some? {
      return Returned("", createError), created, progress;
    }
    created := true;
    outcome, progress := Copy(path, resp.contentLength, events);
  }

  /** The first event that ends the loop decides the result. */
  lemma TransferStops(path: string, total: int, events: seq<Event>, i: int)
    requires 0 <= i < |events| && AllContinue(events[..i], total) && !Continues(events[i], total)
    ensures Transfer(path, total, events) == Close(path, events[i], total, Walk(events[..i], total))
  {
    var k := Live(events, total);
  }

  /** What the loop returns for each way of ending: ctx.Err() on
      cancellation, the Write error, or the Read error after one final
      report; the count and percentage are those the events before left. */
  lemma TransferReturns(path: string, total: int, events: seq<Event>, i: int)
    requires 0 <= i < |events| && AllContinue(events[..i], total) && !Continues(events[i], total)
    ensures var p := Walk(events[..i], total);
            events[i].Cancelled? ==> Transfer(path, total, events) == (Returned(path, Some(events[i].cause)), p)
    ensures var p := Walk(events[..i], total);
            events[i].WriteFailed? ==> Transfer(path, total, events) == (Returned(path, Some(events[i].err)), p)
    ensures var p := Walk(events[..i], total);
            events[i].ReadFailed? && total != 0 ==>
              Transfer(path, total, events)
                == (Returned(path, Some(events[i].err)),
                    p.(lines := p.lines + Printed(DownloadReport(p.pct, p.count, total))))
  {
    TransferStops(path, total, events, i);
  }

  /** When no event ends the loop it is still running when they run out. */
  lemma TransferRunsOut(path: string, total: int, events: seq<Event>)
    requires AllContinue(events, total)
    ensures Transfer(path, total, events) == (Unfinished, Walk(events, total))
  {
    assert events[..|events|] == events;
  }

  /** One more continuing event is one more step of Walk. */
  lemma WalkStep(events: seq<Event>, total: int, i: int)
    requires 0 <= i < |events| && AllContinue(events[..i], total) && Continues(events[i], total)
    ensures AllContinue(events[..i + 1], total)
    ensures Walk(events[..i + 1], total) == Apply(Walk(events[..i], total), events[i], total)
  {
    assert events[..i + 1][..i] == events[..i];
  }

  /** The read loop of Download, after the output file was created. */
  method Copy(path: string, total: int, events: seq<Event>) returns (outcome: Outcome, progress: LoopState)
    ensures (outcome, progress) == Transfer(path, total, events)
  {
    var count, pct, lines := 0, 0, [];
    var i := 0;
    while i < |events|
      invariant i <= |events| && AllContinue(events[..i], total)
      invariant LoopState(count, pct, lines) == Walk(events[..i], total)
    {
      if Continues(events[i], total) {
        WalkStep(events, total, i);
      } else {
        TransferStops(path, total, events, i);
      }
      match events[i]
      case Cancelled(cause) =>
        return Returned(path, Some(cause)), LoopState(count, pct, lines);
      case Tick =>
        if total == 0 {
          return Panicked, LoopState(count, pct, lines);
        }
        var r := DownloadReport(pct, count, total);
        pct, lines := r.pct, lines + Printed(r);
        i := i + 1;
      case Chunk(n) =>
        count := Int64.Wrap(count + n);
        i := i + 1;
      case ReadFailed(_, err) =>
        if total == 0 {
          return Panicked, LoopState(count, pct, lines);
        }
        var r := DownloadReport(pct, count, total);
        return Returned(path, Some(err)), LoopState(count, pct, lines + Printed(r));
      case WriteFailed(err) =>
        return Returned(path, Some(err)), LoopState(count, pct, lines);
    }
    TransferRunsOut(path, total, events);
    outcome, progress := Unfinished, LoopState(count, pct, lines);
  }
}

module FetchFacts {
  import opened Errors
  import Int64
  import opened Fetch

  /** The bytes that reached the file: the sizes of the written chunks. */
  function Bytes(es: seq<Event>): int {
    if es == [] then 0
    else Bytes(es[..|es| - 1]) + (if es[|es| - 1].Chunk? then es[|es| - 1].n else 0)
  }

  /** Every chunk is a real read: between 0 and the buffer size. */
  predicate Sane(es: seq<Event>) {
    forall j :: 0 <= j < |es| && es[j].Chunk? ==> 0 <= es[j].n <= BufSize
  }

  predicate Increasing(lines: seq<Line>) {
    forall i, j :: 0 <= i < j < |lines| ==> lines[i].percent < lines[j].percent
  }

  /** The percentage the loop holds is that of the last line printed, or 0. */
  function LastPercent(lines: seq<Line>): int {
    if lines == [] then 0 else lines[|lines| - 1].percent
  }

  lemma AllContinuePrefix(es: seq<Event>, total: int, k: int)
    requires AllContinue(es, total) && 0 <= k <= |es|
    ensures AllContinue(es[..k], total)
  {
  }

  lemma SanePrefix(es: seq<Event>, k: int)
    requires Sane(es) && 0 <= k <= |es|
    ensures Sane(es[..k])
  {
    assert forall j :: 0 <= j < k ==> es[..k][j] == es[j];
  }

  /** The loop's count is the int64 sum of the bytes written. */
  lemma {:induction false} WalkCount(es: seq<Event>, total: int)
    requires AllContinue(es, total)
    ensures Walk(es, total).count == Int64.Wrap(Bytes(es))
  {
    if es != [] {
      var init := es[..|es| - 1];
      AllContinuePrefix(es, total, |es| - 1);
      WalkCount(init, total);
      if es[|es| - 1].Chunk? {
        Int64.WrapAdd(Bytes(init), es[|es| - 1].n);
      }
    }
  }

  /** What the loop keeps while count*100 cannot overflow: the count is the
      bytes written, the percentage lies between 0 and the true percentage,
      and it is the last of the strictly increasing printed percentages. */
  predicate Steady(p: LoopState, bytes: int, total: int)
    requires total > 0
  {
    && 0 <= bytes && p.count == bytes
    && 0 <= p.pct <= 100 * bytes / total
    && Increasing(p.lines) && p.pct == LastPercent(p.lines)
  }

  /** A tick sets the percentage to the true percentage and prints it if it
      grew. */
  lemma TickStep(p: LoopState, bytes: int, total: int)
    requires total > 0 && Steady(p, bytes, total) && 100 * bytes <= Int64.Max
    ensures Steady(Apply(p, Tick, total), bytes, total)
    ensures Apply(p, Tick, total).pct == 100 * bytes / total
    ensures p.pct <= Apply(p, Tick, total).pct
  {
    ReportPercent(p.pct, p.count, total);
    var q := Apply(p, Tick, total);
    assert Increasing(q.lines) by {
      if q.lines != p.lines {
        assert q.lines == p.lines + [q.lines[|q.lines| - 1]];
      }
    }
  }

  /** A written chunk adds its bytes and leaves the percentage alone. */
  lemma ChunkStep(p: LoopState, bytes: int, n: int, total: int)
    requires total > 0 && Steady(p, bytes, total) && 0 <= n && 100 * (bytes + n) <= Int64.Max
    ensures Steady(Apply(p, Chunk(n), total), bytes + n, total)
    ensures Apply(p, Chunk(n), total).pct == p.pct
  {
    DivMonotone(100 * bytes, 100 * (bytes + n), total);
  }

  /** While count*100 cannot overflow and ContentLength is positive the loop
      is Steady; a tick sets the percentage to the true percentage, and no
      event lowers it. */
  lemma {:induction false} WalkSteady(es: seq<Event>, total: int)
    requires total > 0 && AllContinue(es, total) && Sane(es)
    requires 100 * Bytes(es) <= Int64.Max
    ensures Steady(Walk(es, total), Bytes(es), total)
    ensures es != [] && es[|es| - 1].Tick? ==> Walk(es, total).pct == 100 * Bytes(es) / total
    ensures es != [] ==> Walk(es[..|es| - 1], total).pct <= Walk(es, total).pct
  {
    if es != [] {
      var init := es[..|es| - 1];
      var e := es[|es| - 1];
      AllContinuePrefix(es, total, |es| - 1);
      SanePrefix(es, |es| - 1);
      WalkSteady(init, total);
      assert Walk(es, total) == Apply(Walk(init, total), e, total);
      if e.Tick? {
        assert Bytes(es) == Bytes(init);
        TickStep(Walk(init, total), Bytes(init), total);
      } else {
        assert Bytes(es) == Bytes(init) + e.n;
        ChunkStep(Walk(init, total), Bytes(init), e.n, total);
      }
    }
  }

  /** Along a run of events the percentage never falls. */
  lemma {:induction false} PctMonotone(es: seq<Event>, total: int, i: int, j: int)
    requires total > 0 && AllContinue(es, total) && Sane(es)
    requires 100 * Bytes(es) <= Int64.Max
    requires 0 <= i <= j <= |es|
    ensures Walk(es[..i], total).pct <= Walk(es[..j], total).pct
  {
    if i < j {
      BytesPrefix(es, j);
      AllContinuePrefix(es, total, j);
      var front := es[..j];
      assert front[..j - 1] == es[..j - 1];
      SanePrefix(es, j);
      WalkSteady(front, total);
      PctMonotone(es, total, i, j - 1);
    }
  }

  /** While the bytes written fit in an int64 the count never decreases. */
  lemma CountMonotone(es: seq<Event>, total: int, i: int, j: int)
    requires AllContinue(es, total) && Sane(es) && Bytes(es) <= Int64.Max
    requires 0 <= i <= j <= |es|
    ensures Walk(es[..i], total).count <= Walk(es[..j], total).count
  {
    var front := es[..j];
    assert front[..i] == es[..i];
    BytesPrefix(es, j);
    SanePrefix(es, j);
    BytesPrefix(front, i);
    AllContinuePrefix(es, total, i);
    AllContinuePrefix(es, total, j);
    WalkCount(es[..i], total);
    WalkCount(front, total);
  }

  /** Sane events add up to more along longer prefixes. */
  lemma {:induction false} BytesPrefix(es: seq<Event>, k: int)
    requires Sane(es) && 0 <= k <= |es|
    ensures 0 <= Bytes(es[..k]) <= Bytes(es)
  {
    if k < |es| {
      var init := es[..|es| - 1];
      assert init[..k] == es[..k];
      SanePrefix(es, |es| - 1);
      BytesPrefix(init, k);
      BytesPrefix(init, |init|);
      assert init[..|init|] == init;
    } else {
      assert es[..k] == es;
      if es != [] {
        var init := es[..|es| - 1];
        SanePrefix(es, |es| - 1);
        BytesPrefix(init, |init|);
        assert init[..|init|] == init;
      }
    }
  }

  /** A tick after exactly ContentLength bytes have been written leaves a
      printed `(100%)` line as the last one. */
  lemma FullDownloadShowsHundred(es: seq<Event>, total: int)
    requires total > 0 && AllContinue(es, total) && Sane(es)
    requires 100 * Bytes(es) <= Int64.Max
    requires Bytes(es) == total && es != [] && es[|es| - 1].Tick?
    ensures Walk(es, total).lines != [] && LastPercent(Walk(es, total).lines) == 100
  {
    WalkSteady(es, total);
    Int64.DivModUnique(100 * total, total, 100, 0);
  }

  /** A download that was not skipped never returns a nil error: it ends on
      cancellation, a read error (io.EOF at the end of the body, which the
      model loop accepts), a write error, or a panic. */
  lemma TransferNeverNil(path: string, total: int, events: seq<Event>)
    ensures Transfer(path, total, events).0.Returned? ==>
              Transfer(path, total, events).0.path == path && Transfer(path, total, events).0.err.Some?
  {
  }

  /** The stopping read's bytes are dropped: the final count covers only the
      chunks before the stop. */
  lemma TransferCount(path: string, total: int, events: seq<Event>)
    ensures Transfer(path, total, events).1.count == Int64.Wrap(Bytes(events[..Live(events, total)]))
  {
    WalkCount(events[..Live(events, total)], total);
  }

  /** A read that returns 6 bytes with io.EOF after 4 written bytes: the
      final report shows 40% of 10, the count stays at 4. */
  lemma DroppedFinalBytes(path: string)
    ensures Transfer(path, 10, [Chunk(4), ReadFailed(6, EOF)])
         == (Returned(path, Some(EOF)), LoopState(4, 0, [Line(0, 40)]))
  {
    DroppedWalk(path);
    DroppedReport();
    assert [] + Printed(Report(40, Some(Line(0, 40)))) == [Line(0, 40)];
  }

  lemma DroppedWalk(path: string)
    ensures Transfer(path, 10, [Chunk(4), ReadFailed(6, EOF)])
         == Close(path, ReadFailed(6, EOF), 10, LoopState(4, 0, []))
  {
    var es := [Chunk(4), ReadFailed(6, EOF)];
    assert Live(es, 10) == 1;
    assert es[..1] == [Chunk(4)];
    assert [Chunk(4)][..0] == [];
  }

  lemma DroppedReport()
    ensures DownloadReport(0, 4, 10) == Report(40, Some(Line(0, 40)))
  {
    Int64.QuotNonNegative(400, 10);
    Int64.QuotNonNegative(4, 1_000_000);
  }

  /** An empty body with ContentLength 0: the final report divides by zero. */
  lemma EmptyBodyPanics(path: string)
    ensures Transfer(path, 0, [ReadFailed(0, EOF)]).0 == Panicked
  {
  }

  /** With ContentLength 0 the first tick panics too. */
  lemma ZeroLengthTickPanics(path: string, events: seq<Event>)
    requires events != [] && events[0].Tick?
    ensures Transfer(path, 0, events).0 == Panicked
  {
    assert Live(events, 0) == 0;
  }

  /** With an unknown length (ContentLength -1) the percentage is
      count*100 negated. Stepping the loop as Walk does: 0 after a first
      tick, then -500 after 5 bytes and a second tick, so the held
      percentage falls. */
  lemma UnknownLengthPctFalls()
    ensures Apply(Start, Tick, -1).pct == 0
    ensures Apply(Apply(Start, Tick, -1), Chunk(5), -1).count == 5
    ensures Apply(Apply(Apply(Start, Tick, -1), Chunk(5), -1), Tick, -1).pct == -500
  {
    assert Int64.Quot(0, -1) == 0;
    assert Int64.Quot(500, -1) == -500;
  }
}
