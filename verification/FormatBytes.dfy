/** formatBytes of cmd/binds/compact.go: the unit it picks for a byte count. */
module FormatBytes {

  const UNIT := 1024
  const MAX_INT64 := 0x7FFF_FFFF_FFFF_FFFF
  const SUFFIXES := "KMGTPE"

  function Pow(e: nat): (p: nat)
    ensures p > 0
  {
    if e == 0 then 1 else UNIT * Pow(e - 1)
  }

  lemma {:induction false} PowMonotone(a: nat, b: nat)
    requires a <= b
    ensures Pow(a) <= Pow(b)
    decreases b
  {
    if a < b { PowMonotone(a, b - 1); }
  }

  /** Seven units overflow an int64, six do not. */
  lemma PowFits(e: nat)
    ensures Pow(e) <= MAX_INT64 <==> e <= 6
  {
    assert Pow(2) == 0x10_0000 && Pow(4) == UNIT * (UNIT * Pow(2)) == 0x100_0000_0000;
    assert Pow(6) == UNIT * (UNIT * Pow(4)) == 0x1000_0000_0000_0000 && Pow(7) == UNIT * Pow(6) > MAX_INT64;
    if e <= 6 { PowMonotone(e, 6); } else { PowMonotone(7, e); }
  }

  lemma MulMonotone(x: int, y: int, d: nat)
    requires x <= y
    ensures x * d <= y * d
  {
  }

  /** One turn of the loop: dividing the quotient multiplies the divisor. */
  lemma {:induction false} NextUnit(b: int, n: nat, div: nat)
    requires n * div <= b < (n + 1) * div
    ensures (n / UNIT) * (div * UNIT) <= b < (n / UNIT + 1) * (div * UNIT)
  {
    var q := n / UNIT;
    assert q * (div * UNIT) == (q * UNIT) * div && (q + 1) * (div * UNIT) == ((q + 1) * UNIT) * div;
    MulMonotone(q * UNIT, n, div);
    MulMonotone(n + 1, (q + 1) * UNIT, div);
  }

  /** The loop of lines 902 to 906, for counts of at least one unit. Nothing overflows, the suffix index is
      in range, and the count is at least one and less than 1024 of the chosen unit. */
  method ChooseUnit(b: int) returns (div: int, exp: int)
    requires UNIT <= b <= MAX_INT64
    ensures 0 <= exp < |SUFFIXES|
    ensures div == Pow(exp + 1) <= MAX_INT64
    ensures div <= b < UNIT * div
  {
    div, exp := UNIT, 0;
    var n := b / UNIT;
    PowFits(1);
    while n >= UNIT
      invariant 0 <= exp <= 5
      invariant div == Pow(exp + 1) <= MAX_INT64
      invariant 1 <= n && n * div <= b < (n + 1) * div
      decreases n
    {
      MulMonotone(UNIT, n, div);
      PowFits(exp + 2);
      NextUnit(b, n, div);
      div := div * UNIT;
      exp := exp + 1;
      n := n / UNIT;
    }
    MulMonotone(1, n, div);
    MulMonotone(n + 1, UNIT, div);
  }

  /** The choice is the only one possible. */
  lemma UnitIsUnique(b: int, e: nat, f: nat)
    requires Pow(e) <= b < UNIT * Pow(e) && Pow(f) <= b < UNIT * Pow(f)
    ensures e == f
  {
    NoSmallerUnit(b, e, f);
    NoSmallerUnit(b, f, e);
  }

  lemma NoSmallerUnit(b: int, e: nat, f: nat)
    requires b < UNIT * Pow(e) && Pow(f) <= b
    ensures f <= e
  {
    if e < f { PowMonotone(e + 1, f); }
  }

  // The printed number.

  /** n / d rounded to the nearest integer, halves to the even one. */
  function RoundQuotient(n: nat, d: nat): nat
    requires d > 0
  {
    var q, r := n / d, n % d;
    if 2 * r < d || (2 * r == d && q % 2 == 0) then q else q + 1
  }

  ghost predicate Nearest(n: nat, d: nat, q: nat) {
    && 2 * (n - q * d) <= d && 2 * (q * d - n) <= d
    && (2 * (n - q * d) == d || 2 * (q * d - n) == d ==> q % 2 == 0)
  }

  /** It is the one nearest integer, or of two equally near ones the even one. */
  lemma RoundsToNearest(n: nat, d: nat, t: nat)
    requires d > 0
    ensures t == RoundQuotient(n, d) <==> Nearest(n, d, t)
  {
    NearestCases(n, d, n / d, n % d, t);
  }

  lemma NearestCases(n: nat, d: nat, q: nat, r: nat, t: nat)
    requires n == q * d + r && r < d
    ensures Nearest(n, d, t) <==> t == if 2 * r < d || (2 * r == d && q % 2 == 0) then q else q + 1
  {
    var k := t - q;
    var off := k * d;
    assert t * d == q * d + off && n - t * d == r - off;
    if k >= 2 { MulMonotone(2, k, d); }
    else if k <= -1 { MulMonotone(k, -1, d); }
    else if k == 1 { assert off == d; }
    else { assert off == 0; }
  }

  const EXACT := 0x20_0000_0000_0000

  /** The distance of neighbouring float64 values at `b`, for integers. */
  function Granule(b: nat): (g: nat)
    ensures g > 0
  {
    if b < EXACT then 1 else 2 * Granule(b / 2)
  }

  function Pow2(k: nat): (p: nat)
    ensures p > 0
  {
    if k == 0 then 1 else 2 * Pow2(k - 1)
  }

  /** Granules are powers of two, and a float64 has 53 bits: at most 2^53 granules make up `b`, and at least
      2^52 unless they are single units. */
  lemma {:induction false} GranuleExactly(b: nat) returns (k: nat)
    ensures Granule(b) == Pow2(k)
    ensures b < 0x20_0000_0000_0000 * Pow2(k) && (k > 0 ==> 0x10_0000_0000_0000 * Pow2(k) <= b)
  {
    if b < EXACT {
      k := 0;
    } else {
      var j := GranuleExactly(b / 2);
      k := j + 1;
      assert j == 0 ==> Pow2(j) == 1;
    }
  }

  /** float64(b): exact below 2^53, else the nearest representable integer. */
  function Float64(b: nat): nat {
    RoundQuotient(b, Granule(b)) * Granule(b)
  }

  /** The tenths of `div` that %.1f prints for float64(b) / float64(div); dividing by a power of two is exact. */
  function Tenths(b: nat, div: nat): nat
    requires div > 0
  {
    RoundQuotient(10 * Float64(b), div)
  }

  /** The float64 is the multiple of the granule nearest to the count, and the printed tenths are those nearest to
      the quotient. */
  lemma TenthsAreNearest(b: nat, div: nat)
    requires div > 0
    ensures exists q: nat :: Float64(b) == q * Granule(b) && Nearest(b, Granule(b), q)
    ensures Nearest(10 * Float64(b), div, Tenths(b, div))
  {
    RoundsToNearest(b, Granule(b), RoundQuotient(b, Granule(b)));
    RoundsToNearest(10 * Float64(b), div, Tenths(b, div));
  }

  lemma {:induction false} Pow2Monotone(j: nat, k: nat)
    requires j <= k
    ensures Pow2(j) <= Pow2(k)
    decreases k
  {
    if j < k { Pow2Monotone(j, k - 1); }
  }

  lemma {:induction false} PowIsPow2(e: nat)
    ensures Pow(e) == Pow2(10 * e)
  {
    if e > 0 {
      PowIsPow2(e - 1);
      var k := 10 * (e - 1);
      assert Pow2(k + 2) == 4 * Pow2(k) && Pow2(k + 4) == 4 * Pow2(k + 2) && Pow2(k + 6) == 4 * Pow2(k + 4);
      assert Pow2(k + 8) == 4 * Pow2(k + 6) && Pow2(k + 10) == 4 * Pow2(k + 8);
    }
  }

  /** Every power of two above `b` is a multiple of the granule at `b`. */
  lemma {:induction false} GranuleDivides(b: nat, k: nat) returns (q: nat)
    requires b < Pow2(k)
    ensures q * Granule(b) == Pow2(k)
    decreases b
  {
    if b < EXACT {
      q := Pow2(k);
    } else {
      q := GranuleDivides(b / 2, k - 1);
      assert q * (2 * Granule(b / 2)) == 2 * (q * Granule(b / 2));
    }
  }

  /** Rounding does not pass a multiple above. */
  lemma RoundStaysBelow(n: nat, d: nat, q: nat)
    requires d > 0 && n < q * d
    ensures RoundQuotient(n, d) <= q
  {
    if n / d >= q { MulMonotone(q, n / d, d); }
  }

  lemma FloatStaysBelow(b: nat, e: nat)
    requires b < Pow(e)
    ensures Float64(b) <= Pow(e)
  {
    PowIsPow2(e);
    var q := GranuleDivides(b, 10 * e);
    RoundStaysBelow(b, Granule(b), q);
    MulMonotone(RoundQuotient(b, Granule(b)), q, Granule(b));
  }

  lemma RoundExactly(n: nat, d: nat, t: nat)
    requires d > 0 && n <= t * d && t > 0 && t % 2 == 0
    ensures RoundQuotient(n, d) <= t
    ensures RoundQuotient(n, d) == t <==> 2 * n >= (2 * t - 1) * d
  {
    QuotientCases(n, d, t, n / d, n % d);
  }

  /** Where the quotient lies below `t`, or at it. */
  lemma QuotientCases(n: nat, d: nat, t: nat, q: nat, r: nat)
    requires n == q * d + r && r < d && n <= t * d && t >= 2
    ensures q <= t && (q == t ==> r == 0)
    ensures q == t ==> 2 * n >= (2 * t - 1) * d
    ensures q == t - 1 ==> (2 * r >= d <==> 2 * n >= (2 * t - 1) * d)
    ensures q < t - 1 ==> 2 * n < (2 * t - 1) * d
  {
    assert (2 * t - 1) * d == 2 * (t * d) - d;
    if q >= t {
      var k := q - t;
      assert q * d == t * d + k * d;
      if k > 0 { MulMonotone(1, k, d); }
    } else if q == t - 1 {
      assert q * d == t * d - d;
    } else {
      MulMonotone(q, t - 2, d);
      assert (t - 2) * d == t * d - 2 * d;
    }
  }

  /** The printed number can read 1024.0 of a unit: exactly when the count, as a float64, is at least 1023.95 of
      it. Below 2^53 the float64 is the count itself. */
  lemma RoundsUpToNextUnit(b: nat, e: nat)
    requires Pow(e) <= b < UNIT * Pow(e)
    ensures Tenths(b, Pow(e)) <= 10 * UNIT
    ensures Tenths(b, Pow(e)) == 10 * UNIT <==> 20 * Float64(b) >= (20 * UNIT - 1) * Pow(e)
    ensures b < EXACT ==> Float64(b) == b
  {
    FloatStaysBelow(b, e + 1);
    RoundExactly(10 * Float64(b), Pow(e), 10 * UNIT);
    if b < EXACT { assert Granule(b) == 1 && RoundQuotient(b, 1) == b; }
  }

  /** It does happen: one byte short of a mebibyte prints as 1024.0 of the smaller unit. */
  lemma OneByteShort()
    ensures Pow(1) <= 1048575 < UNIT * Pow(1) && Tenths(1048575, Pow(1)) == 10 * UNIT
  {
    assert Pow(1) == 1024;
    assert Granule(1048575) == 1 && RoundQuotient(1048575, 1) == 1048575;
  }
}
