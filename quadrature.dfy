/** The three composite quadrature rules of the convergence script:
    midpoint, trapezium and Simpson. Each splits [a, b] into n equal steps,
    accumulates a weighted sum of integrand samples in `total`, then scales it.
    Arithmetic is exact (`real`); the integrand is any total function. */
module Quadrature {

  /** The exceptions the rules can raise. */
  datatype Failure =
    | OddCount      // ValueError("n must be even for Simpson's rule")
    | ZeroDivision  // ZeroDivisionError from (b - a) / n with n == 0

  /** A rule either returns its approximation or raises. */
  datatype Result = Ok(value: real) | Err(error: Failure)

  /** The step width (b - a) / n. */
  function Step(a: real, b: real, n: int): (h: real)
    requires n != 0
  {
    (b - a) / (n as real)
  }

  /** The i-th partition point a + i*h. */
  function Node(a: real, h: real, i: int): (x: real)
  {
    a + (i as real) * h
  }

  /** The midpoint a + (i + 0.5)*h of the i-th sub-interval. */
  function MidNode(a: real, h: real, i: int): (x: real)
  {
    a + (i as real + 0.5) * h
  }

  /** Sum of f(a + i*h) over i in Python's range(lo, hi, s): lo, lo+s, ...
      while below hi; empty when lo >= hi. */
  function RangeSum(f: real -> real, a: real, h: real, lo: int, hi: int, s: int): (total: real)
    requires s > 0
    decreases hi - lo
  {
    if lo >= hi then 0.0 else f(Node(a, h, lo)) + RangeSum(f, a, h, lo + s, hi, s)
  }

  /** Sum of f(a + (i + 0.5)*h) over i in range(k): the midpoint samples. */
  function MidpointSum(f: real -> real, a: real, h: real, k: int): (total: real)
    decreases k
  {
    if k <= 0 then 0.0 else MidpointSum(f, a, h, k - 1) + f(MidNode(a, h, k - 1))
  }

  /** What midpointRule(f, a, b, n) returns: step * (sum of the n midpoint samples). */
  function Midpoint(f: real -> real, a: real, b: real, n: int): (r: Result)
  {
    if n == 0 then Err(ZeroDivision)
    else
      var h := Step(a, b, n);
      Ok(h * MidpointSum(f, a, h, n))
  }

  /** What trapeziumRule(f, a, b, n) returns: step * (half of both endpoints
      plus the interior nodes 1 .. n-1). */
  function Trapezium(f: real -> real, a: real, b: real, n: int): (r: Result)
  {
    if n == 0 then Err(ZeroDivision)
    else
      var h := Step(a, b, n);
      Ok(h * (0.5 * (f(a) + f(b)) + RangeSum(f, a, h, 1, n, 1)))
  }

  /** What simpsonsRule(f, a, b, n) returns: odd n is rejected first; otherwise
      step/3 * (endpoints + 2 * even nodes 2, 4, .. + 4 * odd nodes 1, 3, ..). */
  function Simpson(f: real -> real, a: real, b: real, n: int): (r: Result)
  {
    if n % 2 != 0 then Err(OddCount)
    else if n == 0 then Err(ZeroDivision)
    else
      var h := Step(a, b, n);
      Ok((h / 3.0) * (f(a) + f(b) + 2.0 * RangeSum(f, a, h, 2, n, 2) + 4.0 * RangeSum(f, a, h, 1, n, 2)))
  }

  /** Extending the bound of a range by one adds the node `hi` exactly when
      `hi` is one of the range's points. */
  lemma {:induction false} RangeSumExtend(f: real -> real, a: real, h: real, lo: int, hi: int, s: int)
    requires s > 0
    ensures RangeSum(f, a, h, lo, hi + 1, s)
         == RangeSum(f, a, h, lo, hi, s) + (if lo <= hi && (hi - lo) % s == 0 then f(Node(a, h, hi)) else 0.0)
    decreases hi - lo
  {
    if lo < hi {
      RangeSumExtend(f, a, h, lo + s, hi, s);
      assert RangeSum(f, a, h, lo, hi + 1, s) == f(Node(a, h, lo)) + RangeSum(f, a, h, lo + s, hi + 1, s);
      assert RangeSum(f, a, h, lo, hi, s) == f(Node(a, h, lo)) + RangeSum(f, a, h, lo + s, hi, s);
      GridShift(hi - lo, s);
    } else if lo == hi {
      assert RangeSum(f, a, h, lo + s, hi + 1, s) == 0.0;
    }
  }

  /** Advancing the bound of a range from one of its points by a whole
      stride adds exactly that point: the step of a `for i in range(..)` loop. */
  lemma {:induction false} RangeSumAppend(f: real -> real, a: real, h: real, lo: int, i: int, s: int)
    requires s > 0 && lo <= i && (i - lo) % s == 0
    ensures RangeSum(f, a, h, lo, i + s, s) == RangeSum(f, a, h, lo, i, s) + f(Node(a, h, i))
    decreases i - lo
  {
    if lo < i {
      GridShift(i - lo, s);
      RangeSumAppend(f, a, h, lo + s, i, s);
    }
  }

  /** Shifting by one stride keeps the residue, and a positive multiple of
      the stride is at least one stride. */
  lemma GridShift(x: int, s: int)
    requires s > 0
    ensures (x - s) % s == x % s
    ensures x > 0 && x % s == 0 ==> x >= s
  {
    var d := x / s - 1 - (x - s) / s;
    assert s * d == (x - s) % s - x % s;
    if x > 0 && x % s == 0 {
      assert x == s * (x / s);
      assert x / s >= 1;
      assert s * (x / s) >= s;
    }
  }

  method MidpointRule(f: real -> real, a: real, b: real, n: int) returns (r: Result)
    ensures r == Midpoint(f, a, b, n)
  {
    if n == 0 {
      return Err(ZeroDivision);
    }
    var step := Step(a, b, n);
    var total := 0.0;
    var i := 0;
    while i < n
      invariant 0 <= i && (i <= n || n < 0)
      invariant n < 0 ==> i == 0
      invariant total == MidpointSum(f, a, step, i)
    {
      var midpoint := MidNode(a, step, i);
      total := total + f(midpoint);
      i := i + 1;
    }
    return Ok(step * total);
  }

  method TrapeziumRule(f: real -> real, a: real, b: real, n: int) returns (r: Result)
    ensures r == Trapezium(f, a, b, n)
  {
    if n == 0 {
      return Err(ZeroDivision);
    }
    var step := Step(a, b, n);
    var total := 0.5 * (f(a) + f(b));
    var i := 1;
    while i < n
      invariant 1 <= i && (i <= n || n < 1)
      invariant n < 1 ==> i == 1
      invariant total == 0.5 * (f(a) + f(b)) + RangeSum(f, a, step, 1, i, 1)
    {
      RangeSumAppend(f, a, step, 1, i, 1);
      var x := Node(a, step, i);
      total := total + f(x);
      i := i + 1;
    }
    assert total == 0.5 * (f(a) + f(b)) + RangeSum(f, a, step, 1, n, 1);
    return Ok(step * total);
  }

  /** One of the two loops of simpsonsRule: `for i in range(start, n, 2)`
      adds weight * f(a + i*step) to total. */
  method AddAlternateNodes(f: real -> real, a: real, step: real, start: int, n: int, weight: real, total: real)
    returns (sum: real)
    ensures sum == total + weight * RangeSum(f, a, step, start, n, 2)
  {
    sum := total;
    var i := start;
    while i < n
      invariant start <= i && (i - start) % 2 == 0 && (i <= n + 1 || i == start)
      invariant sum == total + weight * RangeSum(f, a, step, start, i, 2)
    {
      var x := Node(a, step, i);
      RangeSumAppend(f, a, step, start, i, 2);
      sum := sum + weight * f(x);
      i := i + 2;
    }
    assert RangeSum(f, a, step, start, i, 2) == RangeSum(f, a, step, start, n, 2) by {
      if i == n + 1 && start <= n {
        RangeSumExtend(f, a, step, start, n, 2);
      }
    }
  }

  method SimpsonsRule(f: real -> real, a: real, b: real, n: int) returns (r: Result)
    ensures r == Simpson(f, a, b, n)
  {
    if n % 2 != 0 {
      return Err(OddCount);
    }
    if n == 0 {
      return Err(ZeroDivision);
    }
    var step := Step(a, b, n);
    var total := f(a) + f(b);
    total := AddAlternateNodes(f, a, step, 2, n, 2.0, total);  // even-indexed nodes
    total := AddAlternateNodes(f, a, step, 1, n, 4.0, total);  // odd-indexed nodes
    return Ok((step / 3.0) * total);
  }
}
