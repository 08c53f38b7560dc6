/** What the three quadrature rules mean, proved over exact arithmetic:
    their weight patterns as independent reference sums, the single-step
    cases, the weights of Simpson's rule, and exactness on affine integrands
    (so on constants and on f(x) = x). */
module QuadratureProperties {
  import opened Quadrature

  /** Sum of w(i) * f(a + i*h) for i = lo .. hi-1: a rule written as one
      weight per partition point. */
  function WeightedSum(f: real -> real, a: real, h: real, w: int -> real, lo: int, hi: int): (total: real)
    decreases hi - lo
  {
    if lo >= hi then 0.0 else w(lo) * f(Node(a, h, lo)) + WeightedSum(f, a, h, w, lo + 1, hi)
  }

  /** The trapezium weights 1/2, 1, .., 1, 1/2 on the points 0 .. n. */
  function TrapeziumWeights(n: int): (w: int -> real)
  {
    i => if i == 0 || i == n then 0.5 else 1.0
  }

  /** Simpson's weights 1, 4, 2, 4, .., 2, 4, 1 on the points 0 .. n. */
  function SimpsonWeights(n: int): (w: int -> real)
  {
    i => if i == 0 || i == n then 1.0 else if i % 2 == 0 then 2.0 else 4.0
  }

  /** The last point of a weighted sum can be split off. */
  lemma {:induction false} WeightedSumLast(f: real -> real, a: real, h: real, w: int -> real, lo: int, hi: int)
    requires lo <= hi
    ensures WeightedSum(f, a, h, w, lo, hi + 1) == WeightedSum(f, a, h, w, lo, hi) + w(hi) * f(Node(a, h, hi))
    decreases hi - lo
  {
    if lo < hi {
      WeightedSumLast(f, a, h, w, lo + 1, hi);
    }
  }

  /** Where every weight is 1 the weighted sum is the plain range sum. */
  lemma {:induction false} UnitWeights(f: real -> real, a: real, h: real, w: int -> real, lo: int, hi: int)
    requires forall i :: lo <= i < hi ==> w(i) == 1.0
    ensures WeightedSum(f, a, h, w, lo, hi) == RangeSum(f, a, h, lo, hi, 1)
    decreases hi - lo
  {
    if lo < hi {
      UnitWeights(f, a, h, w, lo + 1, hi);
    }
  }

  /** The last partition point is b: a + n * ((b - a) / n) == b. */
  lemma LastNode(a: real, b: real, n: int)
    requires n != 0
    ensures Node(a, Step(a, b, n), n) == b
    ensures Node(a, Step(a, b, n), 0) == a
  {
    assert (n as real) * ((b - a) / (n as real)) == b - a;
  }

  /** trapeziumRule weights the endpoints by 1/2 and every interior point by 1. */
  lemma TrapeziumIsWeighted(f: real -> real, a: real, b: real, n: int)
    requires n >= 1
    ensures Trapezium(f, a, b, n)
         == Ok(Step(a, b, n) * WeightedSum(f, a, Step(a, b, n), TrapeziumWeights(n), 0, n + 1))
  {
    var h, w := Step(a, b, n), TrapeziumWeights(n);
    LastNode(a, b, n);
    WeightedSumLast(f, a, h, w, 1, n);
    UnitWeights(f, a, h, w, 1, n);
    assert WeightedSum(f, a, h, w, 0, n + 1) == 0.5 * f(a) + WeightedSum(f, a, h, w, 1, n + 1);
    assert WeightedSum(f, a, h, w, 0, n + 1) == 0.5 * (f(a) + f(b)) + RangeSum(f, a, h, 1, n, 1);
  }

  /** The two loops of simpsonsRule, taken from an odd index lo up to an even
      n, give 4 to every odd and 2 to every even interior point. */
  lemma {:induction false} SimpsonInterior(f: real -> real, a: real, h: real, n: int, lo: int)
    requires n % 2 == 0 && lo % 2 == 1 && 1 <= lo < n
    ensures WeightedSum(f, a, h, SimpsonWeights(n), lo, n)
         == 4.0 * RangeSum(f, a, h, lo, n, 2) + 2.0 * RangeSum(f, a, h, lo + 1, n, 2)
    decreases n - lo
  {
    var w := SimpsonWeights(n);
    assert w(lo) == 4.0;
    if lo + 1 == n {
      assert WeightedSum(f, a, h, w, lo, n) == 4.0 * f(Node(a, h, lo));
    } else {
      assert w(lo + 1) == 2.0;
      SimpsonInterior(f, a, h, n, lo + 2);
      assert WeightedSum(f, a, h, w, lo, n)
          == 4.0 * f(Node(a, h, lo)) + 2.0 * f(Node(a, h, lo + 1)) + WeightedSum(f, a, h, w, lo + 2, n);
    }
  }

  /** simpsonsRule visits every interior point exactly once: the endpoints get
      weight 1, odd points 4, even points 2, and the sum is scaled by step/3. */
  lemma SimpsonIsWeighted(f: real -> real, a: real, b: real, n: int)
    requires n >= 2 && n % 2 == 0
    ensures Simpson(f, a, b, n)
         == Ok((Step(a, b, n) / 3.0) * WeightedSum(f, a, Step(a, b, n), SimpsonWeights(n), 0, n + 1))
  {
    var h, w := Step(a, b, n), SimpsonWeights(n);
    LastNode(a, b, n);
    WeightedSumLast(f, a, h, w, 1, n);
    SimpsonInterior(f, a, h, n, 1);
    assert WeightedSum(f, a, h, w, 0, n + 1) == f(a) + WeightedSum(f, a, h, w, 1, n + 1);
    assert WeightedSum(f, a, h, w, 0, n + 1)
        == f(a) + f(b) + 2.0 * RangeSum(f, a, h, 2, n, 2) + 4.0 * RangeSum(f, a, h, 1, n, 2);
  }

  /** The exceptions the rules raise: a division by zero exactly when n == 0,
      and for Simpson's rule the odd-count error exactly when n is odd, which
      is tested first, so every other n gives a value. */
  lemma FailureCases(f: real -> real, a: real, b: real, n: int)
    ensures Midpoint(f, a, b, n).Err? <==> n == 0
    ensures Trapezium(f, a, b, n).Err? <==> n == 0
    ensures Midpoint(f, a, b, n).Err? ==> Midpoint(f, a, b, n).error == ZeroDivision
    ensures Trapezium(f, a, b, n).Err? ==> Trapezium(f, a, b, n).error == ZeroDivision
    ensures Simpson(f, a, b, n) == Err(OddCount) <==> n % 2 != 0
    ensures Simpson(f, a, b, n) == Err(ZeroDivision) <==> n == 0
    ensures Simpson(f, a, b, n).Ok? <==> n % 2 == 0 && n != 0
  {
  }

  /** With one step, midpointRule is the width times f at the centre. */
  lemma MidpointSingleStep(f: real -> real, a: real, b: real)
    ensures Midpoint(f, a, b, 1) == Ok((b - a) * f((a + b) / 2.0))
  {
    assert MidNode(a, Step(a, b, 1), 0) == (a + b) / 2.0;
    assert MidpointSum(f, a, Step(a, b, 1), 1) == f((a + b) / 2.0);
  }

  /** With one step, trapeziumRule runs no loop iteration and is the width
      times the mean of the endpoint values. */
  lemma TrapeziumSingleStep(f: real -> real, a: real, b: real)
    ensures Trapezium(f, a, b, 1) == Ok((b - a) * (f(a) + f(b)) / 2.0)
  {
    assert RangeSum(f, a, Step(a, b, 1), 1, 1, 1) == 0.0;
  }

  /** With two steps, simpsonsRule is the textbook one-panel Simpson formula. */
  lemma SimpsonSinglePanel(f: real -> real, a: real, b: real)
    ensures Simpson(f, a, b, 2) == Ok((b - a) / 6.0 * (f(a) + 4.0 * f((a + b) / 2.0) + f(b)))
  {
    var h := Step(a, b, 2);
    assert Node(a, h, 1) == (a + b) / 2.0;
    assert RangeSum(f, a, h, 2, 2, 2) == 0.0;
    assert RangeSum(f, a, h, 1, 2, 2) == f((a + b) / 2.0);
  }

  /** The sum of c0 + c1*i over the k grid indices i = lo, lo+s, ..,
      lo+(k-1)*s, in closed form. */
  function AffineSeries(k: int, lo: int, s: int, c0: real, c1: real): (total: real)
  {
    (k as real) * c0 + c1 * ((k as real) * (lo as real) + (s as real) * (k as real) * (k as real - 1.0) / 2.0)
  }

  /** The exact integral of p + q*x over [a, b]. */
  function AffineIntegral(p: real, q: real, a: real, b: real): (v: real)
  {
    p * (b - a) + q * (b * b - a * a) / 2.0
  }

  /** An affine series is its first term plus the series one stride later. */
  lemma AffineSeriesFirst(k: int, lo: int, s: int, c0: real, c1: real)
    ensures AffineSeries(k, lo, s, c0, c1) == (c0 + c1 * (lo as real)) + AffineSeries(k - 1, lo + s, s, c0, c1)
  {
    var K, J, L, M, S := k as real, (k - 1) as real, lo as real, (lo + s) as real, s as real;
    assert (c0 + c1 * L) + (J * c0 + c1 * (J * M + S * J * (J - 1.0) / 2.0))
        == K * c0 + c1 * (K * L + S * K * (K - 1.0) / 2.0);
  }

  /** An affine series with unit stride is the shorter series plus its last term. */
  lemma AffineSeriesLast(k: int, lo: int, c0: real, c1: real)
    ensures AffineSeries(k, lo, 1, c0, c1) == AffineSeries(k - 1, lo, 1, c0, c1) + (c0 + c1 * ((lo + k - 1) as real))
  {
    var K, J, L := k as real, (k - 1) as real, lo as real;
    assert J * c0 + c1 * (J * L + 1.0 * J * (J - 1.0) / 2.0) + (c0 + c1 * (L + K - 1.0))
        == K * c0 + c1 * (K * L + 1.0 * K * (K - 1.0) / 2.0);
  }

  /** Midpoint samples of an integrand that is affine in the index:
      the k samples i = 0 .. k-1 sum to the affine series. */
  lemma {:induction false} MidpointSumAffine(f: real -> real, a: real, h: real, k: nat, c0: real, c1: real)
    requires forall i: int :: f(MidNode(a, h, i)) == c0 + c1 * (i as real)
    ensures MidpointSum(f, a, h, k) == AffineSeries(k, 0, 1, c0, c1)
  {
    if k > 0 {
      MidpointSumAffine(f, a, h, k - 1, c0, c1);
      AffineSeriesLast(k, 0, c0, c1);
    }
  }

  /** If k points of the grid lo, lo+s, .. lie below hi, then k - 1 points
      of the grid starting one stride later do. */
  lemma GridCount(lo: int, hi: int, s: int, k: int)
    requires s > 0 && k > 0 && lo + (k - 1) * s < hi <= lo + k * s
    ensures (lo + s) + ((k - 1) - 1) * s < hi <= (lo + s) + (k - 1) * s
  {
    assert (lo + s) + ((k - 1) - 1) * s == lo + (k - 1) * s;
    assert (lo + s) + (k - 1) * s == lo + k * s;
  }

  /** Range samples of an integrand that is affine in the index: the k points
      lo, lo+s, .., lo+(k-1)*s (those below hi) sum to the affine series. */
  lemma {:induction false} RangeSumAffine(f: real -> real, a: real, h: real, lo: int, hi: int, s: int, k: nat, c0: real, c1: real)
    requires s > 0 && lo + (k - 1) * s < hi <= lo + k * s
    requires forall i: int :: f(Node(a, h, i)) == c0 + c1 * (i as real)
    ensures RangeSum(f, a, h, lo, hi, s) == AffineSeries(k, lo, s, c0, c1)
    decreases k
  {
    if k > 0 {
      GridCount(lo, hi, s, k);
      RangeSumAffine(f, a, h, lo + s, hi, s, k - 1, c0, c1);
      assert RangeSum(f, a, h, lo, hi, s) == f(Node(a, h, lo)) + RangeSum(f, a, h, lo + s, hi, s);
      AffineSeriesFirst(k, lo, s, c0, c1);
    } else {
      assert lo >= hi;
    }
  }

  /** An affine integrand sampled at the nodes is affine in the index. */
  lemma NodeSample(a: real, h: real, I: real, p: real, q: real)
    ensures p + q * (a + I * h) == (p + q * a) + (q * h) * I
  {
  }

  /** An affine integrand sampled at the midpoints is affine in the index. */
  lemma MidNodeSample(a: real, h: real, I: real, p: real, q: real)
    ensures p + q * (a + (I + 0.5) * h) == (p + q * a + q * h / 2.0) + (q * h) * I
  {
  }

  /** The integral written through the width w of the interval. */
  lemma IntegralByWidth(a: real, b: real, w: real, p: real, q: real)
    requires w == b - a
    ensures w * (p + q * a) + q * w * w / 2.0 == AffineIntegral(p, q, a, b)
  {
  }

  /** The closed-form midpoint sum, scaled by the step, is the integral. */
  lemma MidpointAffineScaled(a: real, b: real, h: real, n: int, p: real, q: real, c0: real, c1: real, total: real)
    requires Node(a, h, n) == b
    requires c0 == p + q * a + q * h / 2.0 && c1 == q * h
    requires total == AffineSeries(n, 0, 1, c0, c1)
    ensures h * total == AffineIntegral(p, q, a, b)
  {
    var N := n as real;
    assert h * (N * c0 + c1 * (N * 0.0 + 1.0 * N * (N - 1.0) / 2.0))
        == (h * N) * (p + q * a) + q * (h * N) * (h * N) / 2.0;
    IntegralByWidth(a, b, h * N, p, q);
  }

  /** midpointRule is exact for every affine integrand p + q*x. */
  lemma MidpointExactAffine(f: real -> real, a: real, b: real, n: int, p: real, q: real)
    requires n >= 1
    requires forall x :: f(x) == p + q * x
    ensures Midpoint(f, a, b, n) == Ok(AffineIntegral(p, q, a, b))
  {
    var h := Step(a, b, n);
    var c0, c1 := p + q * a + q * h / 2.0, q * h;
    var total := MidpointSum(f, a, h, n);
    assert total == AffineSeries(n, 0, 1, c0, c1) by {
      forall i: int ensures f(MidNode(a, h, i)) == c0 + c1 * (i as real) {
        MidNodeSample(a, h, i as real, p, q);
      }
      MidpointSumAffine(f, a, h, n, c0, c1);
    }
    LastNode(a, b, n);
    MidpointAffineScaled(a, b, h, n, p, q, c0, c1, total);
  }

  /** The closed-form trapezium total, scaled by the step, is the integral. */
  lemma TrapeziumAffineScaled(a: real, b: real, h: real, n: int, p: real, q: real, c0: real, c1: real,
                              fa: real, fb: real, interior: real)
    requires Node(a, h, n) == b
    requires c0 == p + q * a && c1 == q * h && fa == p + q * a && fb == p + q * b
    requires interior == AffineSeries(n - 1, 1, 1, c0, c1)
    ensures h * (0.5 * (fa + fb) + interior) == AffineIntegral(p, q, a, b)
  {
    var N, J := n as real, (n - 1) as real;
    assert h * (0.5 * (fa + fb) + (J * c0 + c1 * (J * 1.0 + 1.0 * J * (J - 1.0) / 2.0)))
        == (h * N) * (p + q * a) + q * (h * N) * (h * N) / 2.0;
    IntegralByWidth(a, b, h * N, p, q);
  }

  /** trapeziumRule is exact for every affine integrand p + q*x. */
  lemma TrapeziumExactAffine(f: real -> real, a: real, b: real, n: int, p: real, q: real)
    requires n >= 1
    requires forall x :: f(x) == p + q * x
    ensures Trapezium(f, a, b, n) == Ok(AffineIntegral(p, q, a, b))
  {
    var h := Step(a, b, n);
    var c0, c1 := p + q * a, q * h;
    var interior := RangeSum(f, a, h, 1, n, 1);
    assert interior == AffineSeries(n - 1, 1, 1, c0, c1) by {
      forall i: int ensures f(Node(a, h, i)) == c0 + c1 * (i as real) {
        NodeSample(a, h, i as real, p, q);
      }
      RangeSumAffine(f, a, h, 1, n, 1, n - 1, c0, c1);
    }
    LastNode(a, b, n);
    TrapeziumAffineScaled(a, b, h, n, p, q, c0, c1, f(a), f(b), interior);
  }

  /** The Simpson total of an affine integrand with n == 2m, scaled by
      step/3, is the integral. */
  lemma SimpsonAffineScaled(a: real, b: real, h: real, m: int, p: real, q: real, c0: real, c1: real,
                            fa: real, fb: real, evens: real, odds: real)
    requires Node(a, h, 2 * m) == b
    requires c0 == p + q * a && c1 == q * h && fa == p + q * a && fb == p + q * b
    requires evens == AffineSeries(m - 1, 2, 2, c0, c1) && odds == AffineSeries(m, 1, 2, c0, c1)
    ensures (h / 3.0) * (fa + fb + 2.0 * evens + 4.0 * odds) == AffineIntegral(p, q, a, b)
  {
    var M, J := m as real, (m - 1) as real;
    assert fa + fb + 2.0 * evens + 4.0 * odds == 6.0 * M * c0 + 6.0 * c1 * M * M by {
      assert fb == c0 + c1 * (2.0 * M);
      assert evens == J * c0 + c1 * (J * 2.0 + 2.0 * J * (J - 1.0) / 2.0);
      assert odds == M * c0 + c1 * (M * 1.0 + 2.0 * M * (M - 1.0) / 2.0);
    }
    assert (h / 3.0) * (6.0 * M * c0 + 6.0 * c1 * M * M)
        == (h * (2.0 * M)) * (p + q * a) + q * (h * (2.0 * M)) * (h * (2.0 * M)) / 2.0;
    IntegralByWidth(a, b, h * (2.0 * M), p, q);
  }

  /** simpsonsRule (with an even n) is exact for every affine integrand p + q*x. */
  lemma SimpsonExactAffine(f: real -> real, a: real, b: real, n: int, p: real, q: real)
    requires n >= 2 && n % 2 == 0
    requires forall x :: f(x) == p + q * x
    ensures Simpson(f, a, b, n) == Ok(AffineIntegral(p, q, a, b))
  {
    var h, m := Step(a, b, n), n / 2;
    var c0, c1 := p + q * a, q * h;
    var evens, odds := RangeSum(f, a, h, 2, n, 2), RangeSum(f, a, h, 1, n, 2);
    assert 2 * m == n;
    assert evens == AffineSeries(m - 1, 2, 2, c0, c1) by {
      forall i: int ensures f(Node(a, h, i)) == c0 + c1 * (i as real) {
        NodeSample(a, h, i as real, p, q);
      }
      RangeSumAffine(f, a, h, 2, n, 2, m - 1, c0, c1);
    }
    assert odds == AffineSeries(m, 1, 2, c0, c1) by {
      forall i: int ensures f(Node(a, h, i)) == c0 + c1 * (i as real) {
        NodeSample(a, h, i as real, p, q);
      }
      RangeSumAffine(f, a, h, 1, n, 2, m, c0, c1);
    }
    LastNode(a, b, n);
    SimpsonAffineScaled(a, b, h, m, p, q, c0, c1, f(a), f(b), evens, odds);
  }

  /** For a constant integrand c every rule returns exactly c * (b - a). */
  lemma ExactOnConstants(f: real -> real, a: real, b: real, n: int, c: real)
    requires n >= 1
    requires forall x :: f(x) == c
    ensures Midpoint(f, a, b, n) == Ok(c * (b - a))
    ensures Trapezium(f, a, b, n) == Ok(c * (b - a))
    ensures n % 2 == 0 ==> Simpson(f, a, b, n) == Ok(c * (b - a))
  {
    forall x ensures f(x) == c + 0.0 * x {
    }
    MidpointExactAffine(f, a, b, n, c, 0.0);
    TrapeziumExactAffine(f, a, b, n, c, 0.0);
    if n % 2 == 0 {
      SimpsonExactAffine(f, a, b, n, c, 0.0);
    }
  }

  /** For f(x) = x every rule returns exactly (b*b - a*a) / 2. */
  lemma ExactOnIdentity(f: real -> real, a: real, b: real, n: int)
    requires n >= 1
    requires forall x :: f(x) == x
    ensures Midpoint(f, a, b, n) == Ok((b * b - a * a) / 2.0)
    ensures Trapezium(f, a, b, n) == Ok((b * b - a * a) / 2.0)
    ensures n % 2 == 0 ==> Simpson(f, a, b, n) == Ok((b * b - a * a) / 2.0)
  {
    forall x ensures f(x) == 0.0 + 1.0 * x {
    }
    MidpointExactAffine(f, a, b, n, 0.0, 1.0);
    TrapeziumExactAffine(f, a, b, n, 0.0, 1.0);
    if n % 2 == 0 {
      SimpsonExactAffine(f, a, b, n, 0.0, 1.0);
    }
  }

  /** Simpson's weights on the n + 1 points add up to 3n, so that step/3
      times them is the width of the interval. */
  lemma SimpsonWeightsTotal(f: real -> real, a: real, h: real, n: int)
    requires n >= 2 && n % 2 == 0
    requires forall x :: f(x) == 1.0
    ensures WeightedSum(f, a, h, SimpsonWeights(n), 0, n + 1) == 3.0 * (n as real)
  {
    var w, m := SimpsonWeights(n), n / 2;
    forall i: int ensures f(Node(a, h, i)) == 1.0 + 0.0 * (i as real) {
    }
    WeightedSumLast(f, a, h, w, 1, n);
    SimpsonInterior(f, a, h, n, 1);
    RangeSumAffine(f, a, h, 2, n, 2, m - 1, 1.0, 0.0);
    RangeSumAffine(f, a, h, 1, n, 2, m, 1.0, 0.0);
    assert WeightedSum(f, a, h, w, 0, n + 1) == 1.0 + WeightedSum(f, a, h, w, 1, n + 1);
  }
}
