/**
 The Wilson score interval of a benchmark's rates, over exact reals.  The square root is
 given by its defining property.
 */
module Wilson {
  import opened Options

  const Z := 1.959963984540054

  datatype Interval = Interval(rate: real, lower: real, upper: real)

  /** Half of `z * z / n`. */
  function Half(n: nat): (a: real)
    requires n > 0
    ensures a > 0.0
  {
    Z * Z / (2 * n) as real
  }

  /** What stands under the root: `p * (1 - p) / n + z * z / (4 * n * n)`. */
  function Radicand(p: real, n: nat): real
    requires n > 0
  {
    p * (1.0 - p) / n as real + Z * Z / (4 * n * n) as real
  }

  function Proportion(numerator: nat, denominator: nat): real
    requires denominator > 0
  {
    numerator as real / denominator as real
  }

  function Center(p: real, n: nat): real
    requires n > 0
  {
    (p + Z * Z / (2 * n) as real) / (1.0 + Z * Z / n as real)
  }

  function Margin(root: real, n: nat): real
    requires n > 0
  {
    Z * root / (1.0 + Z * Z / n as real)
  }

  predicate IsRoot(root: real, x: real) {
    root >= 0.0 && root * root == x
  }

  /** A rate with its bounds, kept between zero and one; there is none of nothing. */
  function RateOf(numerator: nat, denominator: nat, root: real): Option<Interval> {
    if denominator == 0 then None
    else
      var p := Proportion(numerator, denominator);
      var lower := Center(p, denominator) - Margin(root, denominator);
      var upper := Center(p, denominator) + Margin(root, denominator);
      Some(Interval(p, if lower > 0.0 then lower else 0.0, if upper < 1.0 then upper else 1.0))
  }

  // ----- The interval

  /** The true rates that a two-sided score test at `z` does not reject. */
  ghost predicate Plausible(p: real, n: nat, x: real)
    requires n > 0
  {
    (p - x) * (p - x) <= 2.0 * Half(n) * (x * (1.0 - x))
  }

  lemma ProductSign(u: real, v: real)
    ensures u > 0.0 && v > 0.0 ==> u * v > 0.0
    ensures u >= 0.0 && v >= 0.0 ==> u * v >= 0.0
  {
  }

  lemma SquareSign(u: real)
    ensures u * u >= 0.0
  {
    ProductSign(u, u);
    ProductSign(-u, -u);
    assert -u * -u == u * u;
  }

  lemma SquareOrder(y: real, r: real)
    requires r >= 0.0
    ensures -r <= y <= r <==> y * y <= r * r
  {
    var below, above := r - y, r + y;
    assert below * above == r * r - y * y;
    ProductSign(below, above);
    ProductSign(-below, above);
    ProductSign(below, -above);
    assert -below * above == -(below * above) && below * -above == -(below * above);
  }

  lemma Expand(p: real, a: real, x: real, r: real)
    requires r * r == 2.0 * a * (p * (1.0 - p)) + a * a
    ensures var d := 1.0 + 2.0 * a;
            (d * x - (p + a)) * (d * x - (p + a)) - r * r == d * ((p - x) * (p - x) - 2.0 * a * (x * (1.0 - x)))
  {
  }

  lemma SignOfProduct(d: real, y: real)
    requires d > 0.0
    ensures d * y <= 0.0 <==> y <= 0.0
  {
  }

  lemma Quotient(d: real, x: real, y: real)
    requires d > 0.0
    ensures y / d <= x <==> y <= d * x
    ensures x <= y / d <==> d * x <= y
  {
    var q := y / d;
    assert q * d == y;
    assert d * x - y == d * (x - q);
    SignOfProduct(d, x - q);
    SignOfProduct(d, q - x);
  }

  lemma Scaled(p: real, n: nat, root: real)
    requires n > 0 && IsRoot(root, Radicand(p, n))
    ensures var r := Z * root;
            && r >= 0.0 && r * r == 2.0 * Half(n) * (p * (1.0 - p)) + Half(n) * Half(n)
            && 1.0 + Z * Z / n as real == 1.0 + 2.0 * Half(n)
  {
  }

  lemma BoundsOverOne(p: real, n: nat, root: real)
    requires n > 0
    ensures var d := 1.0 + 2.0 * Half(n);
            && d > 0.0
            && Center(p, n) - Margin(root, n) == (p + Half(n) - Z * root) / d
            && Center(p, n) + Margin(root, n) == (p + Half(n) + Z * root) / d
  {
    assert 1.0 + Z * Z / n as real == 1.0 + 2.0 * Half(n);
    var d := 1.0 + 2.0 * Half(n);
    Sum(p + Half(n), Z * root, d);
  }

  lemma Sum(x: real, y: real, d: real)
    requires d > 0.0
    ensures x / d - y / d == (x - y) / d && x / d + y / d == (x + y) / d
  {
  }

  lemma Score(p: real, a: real, x: real, r: real)
    requires a > 0.0 && r >= 0.0 && r * r == 2.0 * a * (p * (1.0 - p)) + a * a
    ensures var d := 1.0 + 2.0 * a;
            (p + a - r) / d <= x <= (p + a + r) / d <==> (p - x) * (p - x) <= 2.0 * a * (x * (1.0 - x))
  {
    var d := 1.0 + 2.0 * a;
    var y := d * x - (p + a);
    var excess := (p - x) * (p - x) - 2.0 * a * (x * (1.0 - x));
    Quotient(d, x, p + a - r);
    Quotient(d, x, p + a + r);
    assert (p + a - r) / d <= x <= (p + a + r) / d <==> -r <= y <= r;
    SquareOrder(y, r);
    Expand(p, a, x, r);
    assert y * y - r * r == d * excess;
    SignOfProduct(d, excess);
  }

  lemma ScoreAt(p: real, n: nat, r: real, x: real)
    requires n > 0 && r >= 0.0 && r * r == 2.0 * Half(n) * (p * (1.0 - p)) + Half(n) * Half(n)
    ensures var d := 1.0 + 2.0 * Half(n);
            d > 0.0 && ((p + Half(n) - r) / d <= x <= (p + Half(n) + r) / d <==> Plausible(p, n, x))
  {
    Score(p, Half(n), x, r);
  }

  /** The interval is exactly what the score test does not reject. */
  lemma IntervalExact(p: real, n: nat, root: real, x: real)
    requires n > 0 && IsRoot(root, Radicand(p, n))
    ensures Center(p, n) - Margin(root, n) <= x <= Center(p, n) + Margin(root, n) <==> Plausible(p, n, x)
  {
    Scaled(p, n, root);
    ScoreAt(p, n, Z * root, x);
    BoundsOverOne(p, n, root);
  }

  lemma PlausibleIsRate(p: real, n: nat, x: real)
    requires n > 0 && Plausible(p, n, x)
    ensures 0.0 <= x <= 1.0
  {
    var y := x * (1.0 - x);
    SquareSign(p - x);
    SignOfProduct(2.0 * Half(n), y);
    if x < 0.0 || x > 1.0 {
      assert y < 0.0;
      SignOfProduct(2.0 * Half(n), -y);
    }
  }

  lemma ProportionIsPlausible(p: real, n: nat)
    requires n > 0 && 0.0 <= p <= 1.0
    ensures Plausible(p, n, p)
  {
    assert p * (1.0 - p) >= 0.0;
    assert 2.0 * Half(n) * (p * (1.0 - p)) >= 0.0;
  }

  lemma ProportionIsRate(numerator: nat, denominator: nat)
    requires denominator > 0 && numerator <= denominator
    ensures 0.0 <= Proportion(numerator, denominator) <= 1.0
  {
    Quotient(denominator as real, 1.0, numerator as real);
    Quotient(denominator as real, 0.0, numerator as real);
  }

  /** An interval of just the plausible rates lies around the observed one, between zero and
      one. */
  lemma PlausibleBounds(p: real, n: nat, lower: real, upper: real)
    requires n > 0 && 0.0 <= p <= 1.0 && lower <= upper
    requires forall x: real :: lower <= x <= upper <==> Plausible(p, n, x)
    ensures 0.0 <= lower <= p <= upper <= 1.0
  {
    ProportionIsPlausible(p, n);
    PlausibleIsRate(p, n, lower);
    PlausibleIsRate(p, n, upper);
  }

  lemma MarginSign(root: real, n: nat)
    requires n > 0 && root >= 0.0
    ensures Margin(root, n) >= 0.0
  {
    ProductSign(Z, root);
    Quotient(1.0 + Z * Z / n as real, 0.0, Z * root);
  }

  /** So keeping the bounds between zero and one changes neither. */
  lemma ClampsChangeNothing(numerator: nat, denominator: nat, root: real)
    requires denominator > 0 && numerator <= denominator
    requires IsRoot(root, Radicand(Proportion(numerator, denominator), denominator))
    ensures var p := Proportion(numerator, denominator);
            var lower := Center(p, denominator) - Margin(root, denominator);
            var upper := Center(p, denominator) + Margin(root, denominator);
            RateOf(numerator, denominator, root) == Some(Interval(p, lower, upper))
  {
    BoundsOfRate(numerator, denominator, root);
  }

  lemma BoundsOfRate(numerator: nat, denominator: nat, root: real)
    requires denominator > 0 && numerator <= denominator
    requires IsRoot(root, Radicand(Proportion(numerator, denominator), denominator))
    ensures var p := Proportion(numerator, denominator);
            && 0.0 <= Center(p, denominator) - Margin(root, denominator) <= p
            && p <= Center(p, denominator) + Margin(root, denominator) <= 1.0
  {
    var p := Proportion(numerator, denominator);
    var lower := Center(p, denominator) - Margin(root, denominator);
    var upper := Center(p, denominator) + Margin(root, denominator);
    ProportionIsRate(numerator, denominator);
    MarginSign(root, denominator);
    forall x: real ensures lower <= x <= upper <==> Plausible(p, denominator, x) {
      IntervalExact(p, denominator, root, x);
    }
    PlausibleBounds(p, denominator, lower, upper);
  }

  /** What the bounds are said to be: those between which the square of the distance to the
      observed rate is at most z * z / n times x * (1 - x). */
  ghost predicate IsWithin(numerator: nat, denominator: nat, x: real)
    requires denominator > 0
  {
    var n, distance := denominator as real, numerator as real / denominator as real - x;
    n * (distance * distance) <= 1.959963984540054 * 1.959963984540054 * (x * (1.0 - x))
  }

  lemma WithinIsPlausible(numerator: nat, denominator: nat, x: real)
    requires denominator > 0
    ensures IsWithin(numerator, denominator, x) <==> Plausible(Proportion(numerator, denominator), denominator, x)
  {
    var n, y := denominator as real, x * (1.0 - x);
    var distance := numerator as real / n - x;
    assert 2.0 * Half(denominator) == Z * Z / n;
    assert Z * Z / n * y == Z * Z * y / n;
    Quotient(n, distance * distance, Z * Z * y);
  }

  /** There is no rate of nothing; any other comes with the bounds of exactly such rates. */
  lemma RateExact(numerator: nat, denominator: nat, root: real, x: real)
    requires numerator <= denominator
    requires denominator > 0 ==> IsRoot(root, Radicand(Proportion(numerator, denominator), denominator))
    ensures match RateOf(numerator, denominator, root)
            case None => denominator == 0
            case Some(i) =>
              && denominator > 0 && i.rate * denominator as real == numerator as real
              && (i.lower <= x <= i.upper <==> IsWithin(numerator, denominator, x))
  {
    if denominator > 0 {
      ClampsChangeNothing(numerator, denominator, root);
      IntervalExact(Proportion(numerator, denominator), denominator, root, x);
      WithinIsPlausible(numerator, denominator, x);
    }
  }

  /** To six places, to the nearest. */
  function Rounded(x: real): real {
    (x * 1000000.0 + 0.5).Floor as real / 1000000.0
  }

  lemma RoundedOrder(x: real, y: real)
    requires x <= y
    ensures Rounded(x) <= Rounded(y)
  {
    var i, j := (x * 1000000.0 + 0.5).Floor, (y * 1000000.0 + 0.5).Floor;
    assert i <= j;
    Quotient(1000000.0, Rounded(y), i as real);
  }

  lemma RoundedIsNear(x: real)
    ensures Rounded(x) - 0.0000005 <= x < Rounded(x) + 0.0000005
  {
    var i := (x * 1000000.0 + 0.5).Floor;
    assert Rounded(x) * 1000000.0 == i as real;
  }

  /** Rounding keeps the order of a rate and its bounds, and the ends of the scale. */
  lemma RoundedBounds(i: Interval)
    requires 0.0 <= i.lower <= i.rate <= i.upper <= 1.0
    ensures 0.0 <= Rounded(i.lower) <= Rounded(i.rate) <= Rounded(i.upper) <= 1.0
    ensures Rounded(i.rate) - 0.0000005 <= i.rate < Rounded(i.rate) + 0.0000005
  {
    RoundedIsNear(i.rate);
    RoundedOrder(0.0, i.lower);
    RoundedOrder(i.lower, i.rate);
    RoundedOrder(i.rate, i.upper);
    RoundedOrder(i.upper, 1.0);
    assert Rounded(0.0) == 0.0 && Rounded(1.0) == 1.0;
  }
}
