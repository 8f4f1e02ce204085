/** Go's time.Duration: an int64 count of nanoseconds, the two units the
    core names (time.Millisecond and time.Second) and Duration.Truncate. */
module Duration {
  import Int64

  const Millisecond: int := 1_000_000
  const Second: int := 1_000_000_000

  /** d.Truncate(m): d rounded toward zero to a multiple of m; d itself when
      m <= 0. */
  function Truncate(d: int, m: int): (r: int)
    ensures m <= 0 ==> r == d
    ensures m > 0 ==> Int64.Rem(r, m) == 0 && Int64.Abs(d - r) < m
    ensures m > 0 && d >= 0 ==> 0 <= r <= d
    ensures m > 0 && d < 0 ==> d <= r <= 0
  {
    if m <= 0 then d
    else
      RemainderBounds(d, m);
      d - Int64.Rem(d, m)
  }

  /** For m > 0: d less its remainder is a multiple of m, and the remainder
      lies between 0 and d. */
  lemma RemainderBounds(d: int, m: int)
    requires m > 0
    ensures Int64.Rem(d - Int64.Rem(d, m), m) == 0
    ensures d >= 0 ==> 0 <= Int64.Rem(d, m) <= d && Int64.Rem(d, m) < m
    ensures d < 0 ==> d <= Int64.Rem(d, m) <= 0 && -m < Int64.Rem(d, m)
  {
    if d >= 0 {
      NonNegativeRemainder(d, m);
    } else {
      NegativeRemainder(d, m);
    }
  }

  lemma NonNegativeRemainder(d: int, m: int)
    requires m > 0 && d >= 0
    ensures Int64.Rem(d - Int64.Rem(d, m), m) == 0
    ensures 0 <= Int64.Rem(d, m) <= d && Int64.Rem(d, m) < m
  {
    var q := d / m;
    assert d == q * m + d % m;
    assert q * m >= 0;
    assert Int64.Rem(d, m) == d % m;
    RemOfMultiple(q, m);
  }

  lemma NegativeRemainder(d: int, m: int)
    requires m > 0 && d < 0
    ensures Int64.Rem(d - Int64.Rem(d, m), m) == 0
    ensures d <= Int64.Rem(d, m) <= 0 && -m < Int64.Rem(d, m)
  {
    var q := (-d) / m;
    assert -d == q * m + (-d) % m;
    assert q * m >= 0;
    assert Int64.Quot(d, m) * m == -(q * m);
    assert Int64.Rem(d, m) == -((-d) % m);
    assert d - Int64.Rem(d, m) == (-q) * m;
    RemOfMultiple(-q, m);
  }

  lemma RemOfMultiple(q: int, m: int)
    requires m > 0
    ensures Int64.Rem(q * m, m) == 0
  {
    if q >= 0 {
      assert q * m >= 0;
      Int64.DivModUnique(q * m, m, q, 0);
    } else {
      assert -(q * m) == (-q) * m > 0;
      Int64.DivModUnique(-(q * m), m, -q, 0);
    }
  }
}
