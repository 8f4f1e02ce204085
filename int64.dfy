/** Go's int64 arithmetic as it matters to the core: additions and
    multiplications wrap around modulo 2^64, and `/` and `%` truncate toward
    zero (Dafny's own `/` and `%` are Euclidean). */
module Int64 {

  const Min: int := -0x8000_0000_0000_0000
  const Max: int := 0x7fff_ffff_ffff_ffff
  const Modulus: int := 0x1_0000_0000_0000_0000

  predicate InRange(x: int) {
    Min <= x <= Max
  }

  /** The int64 that Go stores for the mathematical result x: x reduced
      modulo 2^64 into [Min, Max]. */
  function Wrap(x: int): (r: int)
    ensures InRange(r)
    ensures InRange(x) ==> r == x
  {
    var r := (x + 0x8000_0000_0000_0000) % 0x1_0000_0000_0000_0000 - 0x8000_0000_0000_0000;
    if InRange(x) then
      DivModUnique(x + 0x8000_0000_0000_0000, 0x1_0000_0000_0000_0000, 0, x + 0x8000_0000_0000_0000);
      r
    else r
  }

  /** Wrapping twice is wrapping once: Go's running sums may be wrapped at
      every step or only at the end. */
  lemma WrapAdd(a: int, b: int)
    ensures Wrap(Wrap(a) + b) == Wrap(a + b)
  {
    var x := a + 0x8000_0000_0000_0000;
    var q, r := x / Modulus, x % Modulus;
    assert Wrap(a) + b + 0x8000_0000_0000_0000 == r + b;
    ModuloShift(r + b, q);
    assert r + b + q * Modulus == a + b + 0x8000_0000_0000_0000;
  }

  lemma ModuloShift(x: int, k: int)
    ensures (x + k * 0x1_0000_0000_0000_0000) % 0x1_0000_0000_0000_0000 == x % 0x1_0000_0000_0000_0000
  {
    var q, r := x / 0x1_0000_0000_0000_0000, x % 0x1_0000_0000_0000_0000;
    assert x + k * 0x1_0000_0000_0000_0000 == (q + k) * 0x1_0000_0000_0000_0000 + r;
    DivModUnique(x + k * 0x1_0000_0000_0000_0000, 0x1_0000_0000_0000_0000, q + k, r);
  }

  function Abs(x: int): nat {
    if x < 0 then -x else x
  }

  /** Go's quotient of two integers, truncated toward zero (before any wrap). */
  function Quot(a: int, b: int): int
    requires b != 0
  {
    if a >= 0 && b > 0 then a / b
    else if a < 0 && b < 0 then (-a) / (-b)
    else if a < 0 then -((-a) / b)
    else -(a / (-b))
  }

  /** The quotient is the whole number of times |b| fits in |a|, with the
      sign of a * b. */
  lemma QuotSpec(a: int, b: int)
    requires b != 0
    ensures Abs(Quot(a, b)) * Abs(b) <= Abs(a) < (Abs(Quot(a, b)) + 1) * Abs(b)
    ensures Quot(a, b) != 0 ==> (Quot(a, b) < 0 <==> (a < 0) != (b < 0))
  {
    DivBounds(Abs(a), Abs(b));
    var m := Abs(a) / Abs(b);
    assert Abs(Quot(a, b)) == m;
  }

  lemma DivBounds(x: nat, y: nat)
    requires y > 0
    ensures 0 <= x / y
    ensures (x / y) * y <= x < (x / y + 1) * y
  {
    var m := x / y;
    assert x == m * y + x % y;
    assert (m + 1) * y == m * y + y;
  }

  /** A quotient and remainder in range are the quotient and remainder. */
  lemma DivModUnique(x: int, d: int, q: int, r: int)
    requires d > 0 && x == q * d + r && 0 <= r < d
    ensures x / d == q && x % d == r
  {
    var q', r' := x / d, x % d;
    assert x == q' * d + r';
    assert (q - q') * d == r' - r;
    MulGrows(q - q', d);
  }

  /** Splitting t by a unit `big` = k * `small`, then the remainder by
      `small`, is splitting t by `small`. */
  lemma NestedDivMod(t: int, big: int, small: int, k: int)
    requires t >= 0 && small > 0 && k > 0 && big == k * small
    ensures t % small == (t % big) % small
    ensures t / small == k * (t / big) + (t % big) / small
    ensures (t % big) / small < k
  {
    var q, r1 := t / big, t % big;
    var q2, r2 := r1 / small, r1 % small;
    assert t == q * big + r1;
    assert r1 == q2 * small + r2;
    assert q * big == (k * q) * small;
    assert t == (k * q + q2) * small + r2;
    DivModUnique(t, small, k * q + q2, r2);
    MulGrows(q2 - k + 1, small);
    assert (q2 - k + 1) * small == q2 * small - big + small;
  }

  lemma MulGrows(k: int, d: int)
    requires d > 0
    ensures k >= 1 ==> k * d >= d
    ensures k <= -1 ==> k * d <= -d
  {
  }

  /** Go's remainder `a % b`. */
  function Rem(a: int, b: int): int
    requires b != 0
  {
    a - Quot(a, b) * b
  }

  /** The remainder completes the quotient, is smaller than |b| and takes
      the sign of a. */
  lemma RemSpec(a: int, b: int)
    requires b != 0
    ensures a == Quot(a, b) * b + Rem(a, b)
    ensures Abs(Rem(a, b)) < Abs(b)
    ensures Rem(a, b) != 0 ==> (Rem(a, b) < 0 <==> a < 0)
  {
    var x: int, y: int := Abs(a), Abs(b);
    var m: int, r: int := x / y, x % y;
    assert x == m * y + r && 0 <= r < y;
    var q := Quot(a, b);
    MulSigns(m, y);
    if a >= 0 && b > 0 {
      assert q == m && b == y;
      assert Rem(a, b) == r;
    } else if a >= 0 {
      assert q == -m && b == -y;
      assert Rem(a, b) == r;
    } else if b < 0 {
      assert q == m && b == -y;
      assert Rem(a, b) == -r;
    } else {
      assert q == -m && b == y;
      assert Rem(a, b) == -r;
    }
  }

  lemma MulSigns(p: int, q: int)
    ensures (-p) * q == -(p * q) && p * (-q) == -(p * q) && (-p) * (-q) == p * q
  {
  }

  /** Go's int64 `a / b`; the one overflowing case, Min / -1, yields Min. */
  function Div(a: int, b: int): (r: int)
    requires b != 0
    ensures InRange(r)
    ensures InRange(Quot(a, b)) ==> r == Quot(a, b)
    ensures a == Min && b == -1 ==> r == Min
  {
    Wrap(Quot(a, b))
  }

  /** On non-negative operands Go's division is Dafny's. */
  lemma QuotNonNegative(a: int, b: int)
    requires a >= 0 && b > 0
    ensures Quot(a, b) == a / b && Rem(a, b) == a % b
  {
  }

  /** Negating the dividend negates quotient and remainder. */
  lemma QuotNegate(a: int, b: int)
    requires b > 0
    ensures Quot(a, b) == -Quot(-a, b) && Rem(a, b) == -Rem(-a, b)
  {
    assert Abs(-a) == Abs(a);
    var q := Quot(a, b);
    assert Quot(-a, b) == -q;
    assert Quot(-a, b) * b == -(q * b);
  }
}
