/** ProgressWriter: an io.Writer wrapper that forwards each write to its
    sink, adds the byte count the sink reports to an int64 running total,
    and hands the new total to its callback. The sink is an oracle: each
    call to Write is given the sink's answer. The callback's float
    percentage is not modelled; `reported` records the totals the callback
    received. */
module Progress {
  import opened Errors
  import Int64

  newtype byte = x: int | 0 <= x < 256

  /** What the underlying io.Writer answered: n bytes taken, and its error. */
  datatype SinkReply = SinkReply(n: int, err: Option<Error>)

  function Sum(ns: seq<int>): int {
    if ns == [] then 0 else Sum(ns[..|ns| - 1]) + ns[|ns| - 1]
  }

  /** The int64 totals after each write, as ProgressWriter computes them. */
  function RunningTotals(ns: seq<int>): (ts: seq<int>)
    ensures |ts| == |ns|
  {
    if ns == [] then [] else RunningTotals(ns[..|ns| - 1]) + [Int64.Wrap(Sum(ns))]
  }

  /** Each running total is the wrapped sum of the writes so far. */
  lemma {:induction false} RunningTotalsAt(ns: seq<int>, i: int)
    requires 0 <= i < |ns|
    ensures RunningTotals(ns)[i] == Int64.Wrap(Sum(ns[..i + 1]))
  {
    if i < |ns| - 1 {
      RunningTotalsAt(ns[..|ns| - 1], i);
      assert ns[..|ns| - 1][..i + 1] == ns[..i + 1];
    } else {
      assert ns[..i + 1] == ns;
    }
  }

  lemma {:induction false} SumPrefixMonotone(ns: seq<int>, i: int, j: int)
    requires 0 <= i <= j <= |ns|
    requires forall k :: 0 <= k < |ns| ==> ns[k] >= 0
    ensures 0 <= Sum(ns[..i]) <= Sum(ns[..j])
  {
    if j > 0 {
      SumPrefixMonotone(ns, if i < j then i else j - 1, j - 1);
      assert ns[..j][..j - 1] == ns[..j - 1];
    }
  }

  /** While the bytes written fit in an int64, the callback sees a
      non-decreasing sequence of totals ending in the number of bytes
      written (so a download of exactly contentLength bytes ends by
      reporting contentLength). */
  lemma ReportedTotals(ns: seq<int>)
    requires forall k :: 0 <= k < |ns| ==> ns[k] >= 0
    requires Sum(ns) <= Int64.Max
    ensures forall i, j :: 0 <= i <= j < |ns| ==> RunningTotals(ns)[i] <= RunningTotals(ns)[j]
    ensures ns != [] ==> RunningTotals(ns)[|ns| - 1] == Sum(ns)
  {
    forall i, j | 0 <= i <= j < |ns| ensures RunningTotals(ns)[i] <= RunningTotals(ns)[j] {
      TotalsOrdered(ns, i, j);
    }
    if ns != [] {
      assert ns[..|ns|] == ns;
      RunningTotalsAt(ns, |ns| - 1);
    }
  }

  lemma TotalsOrdered(ns: seq<int>, i: int, j: int)
    requires forall k :: 0 <= k < |ns| ==> ns[k] >= 0
    requires Sum(ns) <= Int64.Max
    requires 0 <= i <= j < |ns|
    ensures RunningTotals(ns)[i] <= RunningTotals(ns)[j]
  {
    var si, sj := Sum(ns[..i + 1]), Sum(ns[..j + 1]);
    SumPrefixMonotone(ns, i + 1, j + 1);
    assert sj <= Int64.Max by {
      SumPrefixMonotone(ns, j + 1, |ns|);
      assert ns[..|ns|] == ns;
    }
    TotalInRange(ns, i, si);
    TotalInRange(ns, j, sj);
  }

  /** A running total whose sum fits in an int64 is that sum. */
  lemma TotalInRange(ns: seq<int>, i: int, s: int)
    requires 0 <= i < |ns|
    requires s == Sum(ns[..i + 1]) && Int64.InRange(s)
    ensures RunningTotals(ns)[i] == s
  {
    RunningTotalsAt(ns, i);
  }

  class ProgressWriter {
    var totalBytes: int
    var contentLength: int
    var hasCallback: bool
    /** The byte counts the sink reported, one per Write. */
    ghost var written: seq<int>
    /** The totals passed to the callback, one per call. */
    ghost var reported: seq<int>

    ghost predicate Valid()
      reads this
    {
      && (forall k :: 0 <= k < |written| ==> written[k] >= 0)
      && totalBytes == Int64.Wrap(Sum(written))
      && reported == (if hasCallback then RunningTotals(written) else [])
    }

    /** NewProgressWriter: nothing written yet. */
    constructor (contentLength: int, hasCallback: bool)
      ensures Valid()
      ensures totalBytes == 0 && this.contentLength == contentLength && this.hasCallback == hasCallback
      ensures written == [] && reported == []
    {
      totalBytes := 0;
      this.contentLength := contentLength;
      this.hasCallback := hasCallback;
      written := [];
      reported := [];
    }

    /** Write: the sink's answer is returned unchanged, its count is added
        to the total (wrapping as int64 does), and the callback, when set,
        gets the new total whether or not the sink failed. */
    method Write(p: seq<byte>, reply: SinkReply) returns (n: int, err: Option<Error>)
      requires Valid()
      requires 0 <= reply.n <= |p|
      modifies this
      ensures Valid()
      ensures n == reply.n && err == reply.err
      ensures totalBytes == Int64.Wrap(old(totalBytes) + n)
      ensures contentLength == old(contentLength) && hasCallback == old(hasCallback)
      ensures written == old(written) + [n]
      ensures reported == if hasCallback then old(reported) + [totalBytes] else old(reported)
    {
      n, err := reply.n, reply.err;
      Int64.WrapAdd(Sum(written), n);
      assert (written + [n])[..|written|] == written;
      totalBytes := Int64.Wrap(totalBytes + n);
      written := written + [n];
      if hasCallback {
        reported := reported + [totalBytes];
      }
    }
  }
}
