/** Integer arithmetic the repository takes from Python: `round()` (half to
    even), `//` (floor division) and `int()` of a float (toward zero). */
module Arith {

  /** Python's `round(n / d)` on the exact quotient: the nearest integer,
      a tie going to the even neighbour. */
  function RoundHalfEven(n: int, d: int): (r: int)
    requires d > 0
    ensures 2 * (n - r * d) <= d && 2 * (r * d - n) <= d
    ensures 2 * (n - r * d) == d || 2 * (r * d - n) == d ==> r % 2 == 0
  {
    var q := n / d;
    var m := n % d;
    assert n == q * d + m;
    if 2 * m < d then q
    else if 2 * m > d then q + 1
    else if q % 2 == 0 then q
    else q + 1
  }

  /** Rounding is determined by its contract: any nearest integer, ties to
      even, is the one `RoundHalfEven` returns. */
  lemma NearestIsRound(n: int, d: int, r: int)
    requires d > 0
    requires 2 * (n - r * d) <= d && 2 * (r * d - n) <= d
    requires 2 * (n - r * d) == d || 2 * (r * d - n) == d ==> r % 2 == 0
    ensures r == RoundHalfEven(n, d)
  {
    var k := RoundHalfEven(n, d);
    if r != k {
      var lo, hi := if r < k then r else k, if r < k then k else r;
      // two nearest integers are one apart and both at distance d / 2
      NearestPairGap(n, d, lo, hi);
      assert false;
    }
  }

  lemma NearestPairGap(n: int, d: int, lo: int, hi: int)
    requires d > 0 && lo < hi
    requires 2 * (n - lo * d) <= d && 2 * (hi * d - n) <= d
    ensures hi == lo + 1 && 2 * (n - lo * d) == d && 2 * (hi * d - n) == d
  {
    MulLe(lo + 1, hi, d);
    assert (lo + 1) * d == lo * d + d;
    if hi > lo + 1 {
      MulLe(lo + 2, hi, d);
    }
  }

  /** Euclidean division is determined by quotient and remainder. */
  lemma DivModUnique(n: int, b: int, q: int, r: int)
    requires b > 0 && 0 <= r < b && n == q * b + r
    ensures n / b == q && n % b == r
  {
    var q0, r0 := n / b, n % b;
    assert n == q0 * b + r0;
    if q0 < q {
      MulLe(q0 + 1, q, b);
    } else if q0 > q {
      MulLe(q + 1, q0, b);
    }
  }

  lemma MulLe(a: int, b: int, d: int)
    requires a <= b && d > 0
    ensures a * d <= b * d
  {
  }

  /** A quotient between 0 and `hi` rounds into [0, hi]. */
  lemma RoundWithin(n: int, d: int, hi: int)
    requires d > 0 && 0 <= n <= hi * d
    ensures 0 <= RoundHalfEven(n, d) <= hi
  {
    var r := RoundHalfEven(n, d);
    if r < 0 {
      assert r * d <= -d by { MulLe(r, -1, d); }
    }
    if r > hi {
      assert r * d >= hi * d + d by { MulLe(hi + 1, r, d); }
    }
  }

  /** Python's `int(x)` for a float value: truncation toward zero. */
  function TruncToInt(x: real): (r: int)
    ensures x >= 0.0 ==> r as real <= x < r as real + 1.0
    ensures x < 0.0 ==> r as real - 1.0 < x <= r as real
  {
    if x >= 0.0 then x.Floor else -((-x).Floor)
  }

  function Sum(s: seq<int>): int
  {
    if s == [] then 0 else Sum(s[..|s| - 1]) + s[|s| - 1]
  }

  lemma {:induction false} SumAppend(a: seq<int>, b: seq<int>)
    ensures Sum(a + b) == Sum(a) + Sum(b)
    decreases |b|
  {
    if b == [] {
      assert a + b == a;
    } else {
      assert (a + b)[..|a + b| - 1] == a + b[..|b| - 1];
      SumAppend(a, b[..|b| - 1]);
    }
  }

  /** Every element in [lo, hi] puts the sum in [lo * |s|, hi * |s|]. */
  lemma {:induction false} SumBounds(s: seq<int>, lo: int, hi: int)
    requires forall i :: 0 <= i < |s| ==> lo <= s[i] <= hi
    ensures lo * |s| <= Sum(s) <= hi * |s|
    decreases |s|
  {
    if s != [] {
      SumBounds(s[..|s| - 1], lo, hi);
      assert lo * |s| == lo * (|s| - 1) + lo;
      assert hi * |s| == hi * (|s| - 1) + hi;
    }
  }

  /** Python's `sum(v) // len(v)` for a non-empty list. */
  function FloorMean(v: seq<int>): int
    requires |v| > 0
  {
    Sum(v) / |v|
  }

  /** The floor mean lies between the smallest and largest admissible value. */
  lemma FloorMeanWithin(v: seq<int>, lo: int, hi: int)
    requires |v| > 0
    requires forall i :: 0 <= i < |v| ==> lo <= v[i] <= hi
    ensures lo <= FloorMean(v) <= hi
  {
    SumBounds(v, lo, hi);
    var n := |v|;
    var q := Sum(v) / n;
    assert Sum(v) == q * n + Sum(v) % n;
    if q < lo {
      MulLe(q + 1, lo, n);
    }
  }

  /** Python's `round(x)` of an exact real value: the nearest integer, a tie
      going to the even neighbour. */
  function RoundReal(x: real): (r: int)
    ensures 2.0 * (x - r as real) <= 1.0 && 2.0 * (r as real - x) <= 1.0
    ensures 2.0 * (x - r as real) == 1.0 || 2.0 * (r as real - x) == 1.0 ==> r % 2 == 0
  {
    var f := x.Floor;
    var frac := x - f as real;
    if frac < 0.5 then f
    else if frac > 0.5 then f + 1
    else if f % 2 == 0 then f
    else f + 1
  }

  /** A value in [0, hi] rounds into [0, hi]. */
  lemma RoundRealWithin(x: real, hi: int)
    requires 0.0 <= x <= hi as real
    ensures 0 <= RoundReal(x) <= hi
  {
  }

  /** Whole numbers round to themselves. */
  lemma RoundRealOfInt(n: int)
    ensures RoundReal(n as real) == n
  {
  }
}
