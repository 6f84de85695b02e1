/** Integer powers of a real base, and the exact floor of the logarithm. */
module RealPowers {

  /** `b` to the power of an integer, which may be negative. */
  function PowZ(b: real, e: int): (r: real)
    requires b > 0.0
    ensures r > 0.0
    decreases if e >= 0 then e else -e
  {
    if e == 0 then 1.0
    else if e > 0 then Product(b, PowZ(b, e - 1))
    else Ratio(PowZ(b, e + 1), b)
  }

  function Product(x: real, y: real): (r: real)
    ensures x > 0.0 && y > 0.0 ==> r > 0.0
  {
    x * y
  }

  function Ratio(x: real, y: real): (r: real)
    requires y > 0.0
    ensures y * r == x
    ensures x > 0.0 ==> r > 0.0
  {
    x / y
  }

  lemma PowZStep(b: real, e: int)
    requires b > 0.0
    ensures PowZ(b, e + 1) == b * PowZ(b, e)
  {
  }

  lemma Scaled(b: real, x: real, y: real)
    requires b > 1.0 && x > 0.0 && y == b * x
    ensures y > x
  {
    assert (b - 1.0) * x > 0.0;
  }

  lemma PowZGrows(b: real, e: int)
    requires b > 1.0
    ensures PowZ(b, e) < PowZ(b, e + 1)
  {
    PowZStep(b, e);
    Scaled(b, PowZ(b, e), PowZ(b, e + 1));
  }

  lemma {:induction false} PowZMonotone(b: real, e: int, e': int)
    requires b > 1.0 && e <= e'
    ensures PowZ(b, e) <= PowZ(b, e')
    ensures e < e' ==> PowZ(b, e) < PowZ(b, e')
    decreases e' - e
  {
    if e < e' {
      PowZMonotone(b, e, e' - 1);
      PowZGrows(b, e' - 1);
    }
  }

  /** `f` multiplies by `b` at every step. */
  ghost predicate Geometric(f: int -> real, b: real) {
    && f(0) == 1.0
    && forall i, j :: j == i + 1 ==> f(j) == b * f(i)
  }

  lemma PowZGeometric(b: real)
    requires b > 0.0
    ensures Geometric(Powers(b), b)
  {
    forall i, j | j == i + 1 ensures Powers(b)(j) == b * Powers(b)(i) {
      PowZStep(b, i);
    }
  }

  ghost function Powers(b: real): int -> real
    requires b > 0.0
  {
    e => PowZ(b, e)
  }

  lemma TwoSteps(f: int -> real, b: real, square: real, e: int)
    requires Geometric(f, b) && square == b * b
    ensures f(e + 2) == square * f(e)
  {
    assert f(e + 1) == b * f(e);
    assert f(e + 2) == b * f(e + 1);
    assert b * (b * f(e)) == (b * b) * f(e);
  }

  lemma Cancel(c: real, x: real, y: real)
    requires c > 0.0 && c * x == c * y
    ensures x == y
  {
    assert c * (x - y) == 0.0;
  }

  lemma {:induction false} GeometricSquare(f: int -> real, g: int -> real, b: real, square: real, e: int)
    requires square > 0.0 && square == b * b
    requires Geometric(f, b) && Geometric(g, square)
    ensures g(e) == f(2 * e)
    decreases if e >= 0 then e else -e
  {
    if e > 0 {
      GeometricSquare(f, g, b, square, e - 1);
      var d := 2 * (e - 1);
      TwoSteps(f, b, square, d);
      assert g(e) == square * g(e - 1) == square * f(d) == f(d + 2);
    } else if e < 0 {
      GeometricSquare(f, g, b, square, e + 1);
      var d := 2 * e;
      TwoSteps(f, b, square, d);
      assert f(d + 2) == g(e + 1) == square * g(e);
      Cancel(square, g(e), f(d));
    }
  }

  /** `(b^2)^e == b^(2e)`, for exponents of either sign. */
  lemma PowZSquare(b: real, square: real, e: int)
    requires b > 0.0 && square > 0.0 && square == b * b
    ensures PowZ(square, e) == PowZ(b, 2 * e)
  {
    PowZGeometric(b);
    PowZGeometric(square);
    GeometricSquare(Powers(b), Powers(square), b, square, e);
  }

  lemma BernoulliStep(c: real, p: real, m: real)
    requires c > 0.0 && m >= 0.0 && p >= 1.0 + m * c
    ensures (1.0 + c) * p >= 1.0 + (m + 1.0) * c
  {
    assert m * c >= 0.0;
    assert c * (p - 1.0) >= 0.0;
    assert (1.0 + c) * p == p + c + c * (p - 1.0);
    assert (m + 1.0) * c == m * c + c;
  }

  /** Powers of a base above one outgrow every linear function. */
  lemma {:induction false} Bernoulli(b: real, n: nat)
    requires b > 1.0
    ensures PowZ(b, n) >= 1.0 + n as real * (b - 1.0)
  {
    if n > 0 {
      Bernoulli(b, n - 1);
      BernoulliStep(b - 1.0, PowZ(b, n - 1), (n - 1) as real);
      assert (n - 1) as real + 1.0 == n as real;
      assert 1.0 + (b - 1.0) == b;
    }
  }

  lemma Quotient(v: real, c: real) returns (q: real)
    requires v > 0.0 && c > 0.0
    ensures q > 0.0 && q * c == v && q == v / c
  {
    q := v / c;
    assert q * c == v;
  }

  lemma Exceeds(n: real, q: real, c: real)
    requires n > q && c > 0.0
    ensures n * c > q * c
  {
    assert (n - q) * c > 0.0;
  }

  /** Some power of a base above one exceeds `v`. */
  lemma Archimedes(b: real, v: real) returns (n: nat)
    requires b > 1.0 && v > 0.0
    ensures v < PowZ(b, n)
  {
    var c := b - 1.0;
    var q := Quotient(v, c);
    n := q.Floor + 1;
    var x := n as real * c;
    assert x > v by { Exceeds(n as real, q, c); }
    assert PowZ(b, n) >= 1.0 + x by { Bernoulli(b, n); }
  }

  /** An exponent whose power exceeds `v`. */
  ghost function Above(b: real, v: real): (n: nat)
    requires b > 1.0 && v > 0.0
    ensures v < PowZ(b, n)
  {
    assert exists n: nat :: v < PowZ(b, n) by {
      var n := Archimedes(b, v);
    }
    var n: nat :| v < PowZ(b, n);
    n
  }

  /** Exponent `e` is the floor of the logarithm of `v` to base `b`. */
  ghost predicate IsFloorLog(b: real, v: real, e: int)
    requires b > 1.0
  {
    PowZ(b, e) <= v < PowZ(b, e + 1)
  }

  /** The floor of the logarithm of a value not below `b^from`, by stepping upwards. */
  function LogUp(b: real, v: real, from: int): (e: int)
    requires b > 1.0 && PowZ(b, from) <= v
    ensures from <= e && IsFloorLog(b, v, e)
    decreases Above(b, v) - from
  {
    BelowBound(b, v, from);
    if v < PowZ(b, from + 1) then from else LogUp(b, v, from + 1)
  }

  lemma BelowBound(b: real, v: real, e: int)
    requires b > 1.0 && PowZ(b, e) <= v
    ensures e < Above(b, v)
  {
    var n := Above(b, v);
    if n <= e { PowZMonotone(b, n, e); }
  }

  /** The exponent of a value is unique, and larger values have larger exponents. */
  lemma FloorLogOrdered(b: real, v: real, e: int, v': real, e': int)
    requires b > 1.0 && IsFloorLog(b, v, e) && IsFloorLog(b, v', e') && v <= v'
    ensures e <= e'
  {
    if e' < e { PowZMonotone(b, e' + 1, e); }
  }

  /** `v >= b^e` exactly when its exponent is at least `e`. */
  lemma FloorLogAtLeast(b: real, v: real, e: int, lower: int)
    requires b > 1.0 && IsFloorLog(b, v, e)
    ensures PowZ(b, lower) <= v <==> lower <= e
  {
    if lower <= e {
      PowZMonotone(b, lower, e);
    } else {
      PowZMonotone(b, e + 1, lower);
    }
  }
}
