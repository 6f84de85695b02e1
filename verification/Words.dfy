/** Machine words of the sampler: 64-bit counters whose arithmetic wraps. */
module Words {

  const TWO63: int := 0x8000_0000_0000_0000
  const TWO64: int := 0x1_0000_0000_0000_0000

  type u64 = n: int | 0 <= n < 0x1_0000_0000_0000_0000

  /** `a - b` on unsigned 64-bit words. */
  function Sub64(a: u64, b: u64): u64 {
    if b <= a then a - b else a - b + TWO64
  }

  /** `a + b` on unsigned 64-bit words. */
  function Add64(a: u64, b: u64): u64 {
    if a + b < TWO64 then a + b else a + b - TWO64
  }

  /** The conversion `int64(a)`. */
  function ToInt64(a: u64): int {
    if a < TWO63 then a else a - TWO64
  }

  /** `a / n` on unsigned 64-bit words. */
  function Div64(a: u64, n: nat): u64
    requires n > 0
  {
    QuotientBetween(a, n, 0, a);
    a / n
  }

  /** The difference undoes the sum, and both are exact modulo 2^64. */
  lemma WordsWrap(a: u64, b: u64)
    ensures Add64(Sub64(a, b), b) == a
    ensures Sub64(a, b) == (a - b) % TWO64 && Add64(a, b) == (a + b) % TWO64
  {
    assert b > a ==> (a - b + TWO64) % TWO64 == a - b + TWO64;
  }

  /** The exact sum of a list. */
  function Sum(xs: seq<nat>): nat {
    if xs == [] then 0 else Sum(xs[..|xs| - 1]) + xs[|xs| - 1]
  }

  /** A wrapping accumulator holds the exact sum modulo 2^64. */
  lemma Add64OfSum(total: nat, x: u64)
    ensures Add64(total % TWO64, x) == (total + x) % TWO64
  {
    var q, r := total / TWO64, total % TWO64;
    assert total + x == q * TWO64 + (r + x);
    if r + x < TWO64 {
    } else {
      assert total + x == (q + 1) * TWO64 + (r + x - TWO64);
    }
  }

  lemma OneMore(n: nat, x: int)
    ensures (n + 1) * x == n * x + x
  {
  }

  lemma {:induction false} SumBounds(xs: seq<nat>, lo: int, hi: int)
    requires forall i :: 0 <= i < |xs| ==> lo <= xs[i] <= hi
    ensures |xs| * lo <= Sum(xs) <= |xs| * hi
  {
    if xs != [] {
      var n := |xs| - 1;
      SumBounds(xs[..n], lo, hi);
      OneMore(n, lo);
      OneMore(n, hi);
    }
  }

  /** `xs` has an element not above `a` and an element not below `a`. */
  ghost predicate Between(a: int, xs: seq<int>) {
    && (exists i :: 0 <= i < |xs| && xs[i] <= a)
    && (exists j :: 0 <= j < |xs| && a <= xs[j])
  }

  /** Position of the least and of the greatest element. */
  lemma {:induction false} Extremes(xs: seq<u64>) returns (lo: nat, hi: nat)
    requires xs != []
    ensures lo < |xs| && hi < |xs|
    ensures forall i :: 0 <= i < |xs| ==> xs[lo] <= xs[i] <= xs[hi]
  {
    if |xs| == 1 {
      lo, hi := 0, 0;
    } else {
      var n := |xs| - 1;
      lo, hi := Extremes(xs[..n]);
      assert forall i :: 0 <= i < n ==> xs[..n][i] == xs[i];
      if xs[n] < xs[lo] { lo := n; }
      if xs[hi] < xs[n] { hi := n; }
    }
  }

  /** The integer mean of a list lies between two of its elements. */
  lemma MeanBetween(xs: seq<u64>)
    requires xs != []
    ensures Between(Sum(xs) / |xs|, xs)
  {
    var lo, hi := Extremes(xs);
    SumBounds(xs, xs[lo], xs[hi]);
    QuotientBetween(Sum(xs), |xs|, xs[lo], xs[hi]);
  }

  lemma MulMonotone(n: nat, a: int, b: int)
    requires a <= b
    ensures n * a <= n * b
  {
  }

  lemma QuotientBetween(s: nat, n: nat, lo: nat, hi: nat)
    requires n > 0 && n * lo <= s <= n * hi
    ensures lo <= s / n <= hi
  {
    var q := s / n;
    assert n * q <= s < n * (q + 1);
    if q < lo { MulMonotone(n, q + 1, lo); }
    if q > hi { MulMonotone(n, hi + 1, q); }
  }
}
