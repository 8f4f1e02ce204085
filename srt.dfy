/** srtTimestamp: a time.Duration rendered as an SRT cue time
    `HH:MM:SS,mmm`, computed with Go's truncating int64 `/` and `%`. */
module Srt {
  import opened Errors
  import Int64
  import Decimal

  // The divisors are time.Hour, time.Minute, time.Second and
  // time.Millisecond written out as literal nanosecond counts.
  function Hours(t: int): int { Int64.Quot(t, 3_600_000_000_000) }
  function Minutes(t: int): int { Int64.Quot(Int64.Rem(t, 3_600_000_000_000), 60_000_000_000) }
  function Seconds(t: int): int { Int64.Quot(Int64.Rem(t, 60_000_000_000), 1_000_000_000) }
  function Millis(t: int): int { Int64.Quot(Int64.Rem(t, 1_000_000_000), 1_000_000) }

  /** The cue time of t nanoseconds, each field zero-padded as `%02d` or
      `%03d` pads it. */
  function SrtTimestamp(t: int): (s: string)
    ensures |s| >= 12
  {
    Decimal.ZeroPad(Hours(t), 2) + ":" + Decimal.ZeroPad(Minutes(t), 2) + ":"
      + Decimal.ZeroPad(Seconds(t), 2) + "," + Decimal.ZeroPad(Millis(t), 3)
  }

  /** For a non-negative duration the fields are a clock reading. */
  lemma FieldBounds(t: int)
    requires t >= 0
    ensures Hours(t) >= 0
    ensures 0 <= Minutes(t) < 60 && 0 <= Seconds(t) < 60 && 0 <= Millis(t) < 1000
  {
    PositiveFields(t);
  }

  /** The fields add up to the whole milliseconds of t, for every t: with
      truncating division on both sides this holds for negative durations
      too. */
  lemma FieldsSum(t: int)
    ensures Hours(t) * 3_600_000 + Minutes(t) * 60_000 + Seconds(t) * 1000 + Millis(t)
         == Int64.Quot(t, 1_000_000)
  {
    if t >= 0 {
      PositiveFields(t);
    } else {
      PositiveFields(-t);
      Int64.QuotNegate(t, 3_600_000_000_000);
      FieldNegate(t, 3_600_000_000_000, 60_000_000_000);
      FieldNegate(t, 60_000_000_000, 1_000_000_000);
      FieldNegate(t, 1_000_000_000, 1_000_000);
      Int64.QuotNegate(t, 1_000_000);
      Int64.QuotNonNegative(-t, 1_000_000);
    }
  }

  /** A field of -t is minus the same field of t. */
  lemma FieldNegate(t: int, unit: int, sub: int)
    requires unit > 0 && sub > 0
    ensures Int64.Quot(Int64.Rem(t, unit), sub) == -Int64.Quot(Int64.Rem(-t, unit), sub)
  {
    Int64.QuotNegate(t, unit);
    Int64.QuotNegate(Int64.Rem(t, unit), sub);
  }

  /** The Euclidean facts behind both lemmas above, for t >= 0. */
  lemma PositiveFields(t: int)
    requires t >= 0
    ensures Hours(t) == t / 3_600_000_000_000
    ensures Minutes(t) == (t % 3_600_000_000_000) / 60_000_000_000
    ensures Seconds(t) == (t % 60_000_000_000) / 1_000_000_000 && 0 <= Seconds(t) < 60
    ensures Millis(t) == (t % 1_000_000_000) / 1_000_000 && 0 <= Millis(t) < 1000
    ensures 0 <= Minutes(t) < 60
    ensures Hours(t) * 3_600_000 + Minutes(t) * 60_000 + Seconds(t) * 1000 + Millis(t)
         == t / 1_000_000
  {
    Int64.NestedDivMod(t, 3_600_000_000_000, 60_000_000_000, 60);
    Int64.NestedDivMod(t, 60_000_000_000, 1_000_000_000, 60);
    Int64.NestedDivMod(t, 1_000_000_000, 1_000_000, 1000);
    Int64.QuotNonNegative(t, 3_600_000_000_000);
    Int64.QuotNonNegative(t, 60_000_000_000);
    Int64.QuotNonNegative(t, 1_000_000_000);
    Int64.QuotNonNegative(t % 3_600_000_000_000, 60_000_000_000);
    Int64.QuotNonNegative(t % 60_000_000_000, 1_000_000_000);
    Int64.QuotNonNegative(t % 1_000_000_000, 1_000_000);
  }

  /** Reads an SRT cue time back: hours (one digit or more), then `:MM:SS,mmm`
      with minutes and seconds below 60; the result is in milliseconds. */
  function ParseSrt(s: string): Option<int> {
    var n := |s|;
    if n >= 11 && s[n - 10] == ':' && s[n - 7] == ':' && s[n - 4] == ','
    then ClockValue(s[..n - 10], s[n - 9..n - 7], s[n - 6..n - 4], s[n - 3..])
    else None
  }

  /** The milliseconds that the four digit fields of a cue time denote. */
  function ClockValue(hh: string, mm: string, ss: string, ms: string): Option<int> {
    if Decimal.AllDigits(hh) && Decimal.AllDigits(mm) && Decimal.AllDigits(ss) && Decimal.AllDigits(ms)
       && Decimal.Value(mm) < 60 && Decimal.Value(ss) < 60
    then Some(Decimal.Value(hh) * 3_600_000 + Decimal.Value(mm) * 60_000
              + Decimal.Value(ss) * 1000 + Decimal.Value(ms))
    else None
  }

  /** The cue time of a non-negative duration reads back as its whole
      milliseconds: the format loses only the sub-millisecond part. */
  lemma ParseSrtTimestamp(t: int)
    requires t >= 0
    ensures ParseSrt(SrtTimestamp(t)) == Some(t / 1_000_000)
  {
    var h, m, sec, ms := Hours(t), Minutes(t), Seconds(t), Millis(t);
    FieldBounds(t);
    PositiveSum(t);
    ParseFields(h, m, sec, ms, t / 1_000_000, SrtTimestamp(t));
  }

  /** The layout of padded clock fields reads back as their milliseconds. */
  lemma ParseFields(h: int, m: int, sec: int, ms: int, v: int, s: string)
    requires h >= 0 && 0 <= m < 60 && 0 <= sec < 60 && 0 <= ms < 1000
    requires v == h * 3_600_000 + m * 60_000 + sec * 1000 + ms
    requires s == Decimal.ZeroPad(h, 2) + ":" + Decimal.ZeroPad(m, 2) + ":"
                  + Decimal.ZeroPad(sec, 2) + "," + Decimal.ZeroPad(ms, 3)
    ensures ParseSrt(s) == Some(v)
  {
    var hh, mm, ss, mss := Decimal.ZeroPad(h, 2), Decimal.ZeroPad(m, 2), Decimal.ZeroPad(sec, 2), Decimal.ZeroPad(ms, 3);
    ClockOfFields(h, m, sec, ms, v);
    ParseLayout(hh, mm, ss, mss, s);
  }

  lemma PositiveSum(t: int)
    requires t >= 0
    ensures Hours(t) * 3_600_000 + Minutes(t) * 60_000 + Seconds(t) * 1000 + Millis(t) == t / 1_000_000
  {
    PositiveFields(t);
  }

  /** Padded clock fields read back as the milliseconds they make up. */
  lemma ClockOfFields(h: int, m: int, sec: int, ms: int, v: int)
    requires h >= 0 && 0 <= m < 60 && 0 <= sec < 60 && 0 <= ms < 1000
    requires v == h * 3_600_000 + m * 60_000 + sec * 1000 + ms
    ensures |Decimal.ZeroPad(h, 2)| >= 1 && |Decimal.ZeroPad(m, 2)| == 2
    ensures |Decimal.ZeroPad(sec, 2)| == 2 && |Decimal.ZeroPad(ms, 3)| == 3
    ensures ClockValue(Decimal.ZeroPad(h, 2), Decimal.ZeroPad(m, 2), Decimal.ZeroPad(sec, 2), Decimal.ZeroPad(ms, 3))
         == Some(v)
  {
    var hh, mm, ss, mss := Decimal.ZeroPad(h, 2), Decimal.ZeroPad(m, 2), Decimal.ZeroPad(sec, 2), Decimal.ZeroPad(ms, 3);
    assert Decimal.Pow10(2) == 100 && Decimal.Pow10(3) == 1000;
    PaddedField(m, 2);
    PaddedField(sec, 2);
    PaddedField(ms, 3);
    ClockOfDigits(hh, mm, ss, mss, h, m, sec, ms, v);
  }

  /** Digit strings whose values are clock fields denote their milliseconds. */
  lemma ClockOfDigits(hh: string, mm: string, ss: string, mss: string, h: int, m: int, sec: int, ms: int, v: int)
    requires Decimal.AllDigits(hh) && Decimal.AllDigits(mm) && Decimal.AllDigits(ss) && Decimal.AllDigits(mss)
    requires Decimal.Value(hh) == h && Decimal.Value(mm) == m && Decimal.Value(ss) == sec && Decimal.Value(mss) == ms
    requires m < 60 && sec < 60
    requires v == h * 3_600_000 + m * 60_000 + sec * 1000 + ms
    ensures ClockValue(hh, mm, ss, mss) == Some(v)
  {
    assert Decimal.Value(hh) * 3_600_000 + Decimal.Value(mm) * 60_000 + Decimal.Value(ss) * 1000 + Decimal.Value(mss) == v;
  }

  /** A field below 10^w pads to exactly w digits. */
  lemma PaddedField(v: int, w: nat)
    requires 1 <= w && 0 <= v < Decimal.Pow10(w)
    ensures |Decimal.ZeroPad(v, w)| == w
  {
    Decimal.ItoaWidth(v, w);
  }

  /** ParseSrt takes a cue time apart at its fixed separators. */
  lemma ParseLayout(hh: string, mm: string, ss: string, ms: string, s: string)
    requires |hh| >= 1 && |mm| == 2 && |ss| == 2 && |ms| == 3
    requires s == hh + ":" + mm + ":" + ss + "," + ms
    ensures ParseSrt(s) == ClockValue(hh, mm, ss, ms)
  {
    var n := |s|;
    assert n == |hh| + 10;
    assert s[..n - 10] == hh;
    assert s[n - 9..n - 7] == mm;
    var front := hh + ":" + mm + ":";
    assert s == front + (ss + "," + ms);
    assert s[n - 6..n - 4] == (ss + "," + ms)[..2] == ss;
    assert s[n - 3..] == ms;
  }
}
