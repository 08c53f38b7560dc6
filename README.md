# Quadrature rules and power-of-two step counting, in Dafny

This project models the arithmetic core of two numerical-analysis demonstration
scripts:

- `pq3.2.py` holds three composite quadrature rules and an error-sampling driver.
  - `midpointRule`, `trapeziumRule` and `simpsonsRule` split [a, b] into n equal
    steps, add weighted integrand samples into a running `total`, then scale it.
  - The driver runs all three rules on [0, 1] for n = 2, 4, ..., 2**24. It
    records |approximation - reference| in three lists.
- `representableNumbers.py` holds `count_representable_numbers` and its driver.
  - `count_representable_numbers` adds `step` to `current` until it reaches
    `end` and counts the additions.
  - `analyze_float_distribution` runs it on the eight ranges [2**i, 2**(i+1))
    with step 2**(i-23), then sums the counts.

Arithmetic is exact (`real`). The integrand is an arbitrary total function
`f: real -> real`. The reference value of the integral is a parameter.

Layout:

- `powers.dfy` (module `Powers`): `2**k` for integer exponents.
- `quadrature.dfy` (module `Quadrature`):
  - the rules as methods with loops;
  - the functions that specify them (`Midpoint`, `Trapezium`, `Simpson`);
  - `RangeSum`, the sum over Python's `range(lo, hi, s)`.
- `quadrature_properties.dfy` (module `QuadratureProperties`):
  - an independent weighted-sum definition of each rule;
  - the single-step cases;
  - exactness on affine integrands.
- `error_sampler.dfy` (module `ErrorSampler`): the error-list driver.
- `representable.dfy` (module `Representable`): the step-counting loop, its
  closed form and the eight-range driver.

Two structural choices:

- Simpson's rule has two loops of the same shape. Both are one method,
  `AddAlternateNodes`, called with start 2 and weight 2, then start 1 and
  weight 4.
- The loop of `analyze_float_distribution` is `AnalyzeRanges`. It takes the
  number of fraction bits as a parameter. `AnalyzeFloatDistribution` calls it
  with 23 and then sums the counts.

How the Python exceptions are modelled:

- A rule returns `Result`: either `Ok(value)` or `Err(failure)`.
- `Err(OddCount)` is the `ValueError` Simpson's rule raises for odd n.
- `Err(ZeroDivision)` is the `ZeroDivisionError` from `(b - a) / n` when n == 0.

How the model treats the inputs the code does not guard against:

- The code accepts any integer n.
  - n == 0 raises on the division, which the model returns as `Err(ZeroDivision)`.
  - A negative n makes every `range` empty, and the model does the same.
- The code does not check the interval, so a >= b is accepted and so it is in
  the model.
- Simpson's rule tests `n % 2` before dividing, so n == 0 passes the oddness
  test and then raises `ZeroDivisionError`. Python's `%` and Dafny's `%` agree
  for the divisor 2.

## Model

| member | source | states |
|---|---|---|
| Quadrature.MidpointRule | pq3.2.py:8-15 | The loop's result is `Midpoint`: step * (sum of f at the n midpoints a + (i + 0.5) * step), or the division-by-zero failure. |
| Quadrature.TrapeziumRule | pq3.2.py:17-24 | The loop's result is `Trapezium`: step * (half of f(a) + f(b) plus f at the interior nodes 1 .. n-1), or the division-by-zero failure. |
| Quadrature.SimpsonsRule | pq3.2.py:26-47 | The result is `Simpson`: the odd-count failure for odd n, the division-by-zero failure for n == 0, otherwise step/3 * (f(a) + f(b) + 2 * (even interior nodes) + 4 * (odd interior nodes)). |
| Quadrature.AddAlternateNodes | pq3.2.py:37-45 | Each of Simpson's loops `for i in range(start, n, 2)` adds exactly weight * (sum of f at the nodes of that range) to the running total. |
| QuadratureProperties.FailureCases | pq3.2.py:10-34 | The midpoint and trapezium rules fail exactly when n == 0, and only with the division by zero. Simpson's rule raises the odd-count error exactly when n is odd, fails on the division exactly when n == 0, and returns a value exactly when n is even and nonzero. |
| Quadrature.RangeSumAppend | pq3.2.py:21-23 | One iteration of `for i in range(lo, hi, s)` adds exactly the node i to the running sum. |
| Quadrature.RangeSumExtend | pq3.2.py:43-45 | Raising a range's bound by one adds the node at the old bound exactly when that node is on the range's grid. This lets the odd loop, which exits at n + 1, be compared with range(1, n, 2). |
| QuadratureProperties.TrapeziumIsWeighted | pq3.2.py:19-23 | For n >= 1 the trapezium result is step * (sum over nodes 0..n of weight * f(node)), with weights 1/2, 1, ..., 1, 1/2. |
| QuadratureProperties.SimpsonInterior | pq3.2.py:37-45 | From an odd index up to an even n, the Simpson weights give 4 * (odd nodes) + 2 * (even nodes), so each interior node is counted exactly once. |
| QuadratureProperties.SimpsonIsWeighted | pq3.2.py:35-47 | For even n >= 2 the Simpson result is step/3 * (sum over nodes 0..n with weights 1, 4, 2, 4, ..., 4, 1). |
| QuadratureProperties.MidpointSingleStep | pq3.2.py:10-15 | With n = 1 the midpoint rule returns (b - a) * f((a + b)/2). |
| QuadratureProperties.TrapeziumSingleStep | pq3.2.py:19-24 | With n = 1 the loop is empty and the trapezium rule returns (b - a) * (f(a) + f(b))/2. |
| QuadratureProperties.SimpsonSinglePanel | pq3.2.py:34-47 | With n = 2, Simpson's rule returns (b - a)/6 * (f(a) + 4 f((a + b)/2) + f(b)). |
| QuadratureProperties.MidpointSumAffine | pq3.2.py:12-14 | The sum of k midpoint samples whose values are affine in the index is k*c0 + c1*k(k-1)/2. |
| QuadratureProperties.RangeSumAffine | pq3.2.py:38-45 | The sum over k grid points of samples affine in the index has the matching closed form. |
| QuadratureProperties.MidpointExactAffine | pq3.2.py:8-15 | For f(x) = p + q x and every n >= 1, the midpoint rule returns the exact integral p(b - a) + q(b² - a²)/2. |
| QuadratureProperties.TrapeziumExactAffine | pq3.2.py:17-24 | For f(x) = p + q x and every n >= 1, the trapezium rule returns the exact integral. |
| QuadratureProperties.SimpsonExactAffine | pq3.2.py:26-47 | For f(x) = p + q x and every even n >= 2, Simpson's rule returns the exact integral. |
| QuadratureProperties.ExactOnConstants | pq3.2.py:8-47 | For a constant integrand c, all three rules return c(b - a); Simpson for even n. |
| QuadratureProperties.ExactOnIdentity | pq3.2.py:8-47 | For f(x) = x, all three rules return (b² - a²)/2; Simpson for even n. |
| QuadratureProperties.SimpsonWeightsTotal | pq3.2.py:35-45 | For even n the Simpson weights 1, 4, 2, ..., 4, 1 sum to 3n. |
| ErrorSampler.SampleErrors | pq3.2.py:56-69 | The n values are 2**1 .. 2**24, and each is even. The three error lists have 24 entries, aligned with the n values. Each entry is |rule result - reference|, every rule returns a value (Simpson never raises), and every entry is nonnegative. |
| Representable.CountRepresentableNumbers | representableNumbers.py:4-12 | Returns the closed-form count. The sample start + count*step reaches end, and every earlier sample is below end. The loop keeps current == start + count*step. |
| Representable.StepCountIsLeast | representableNumbers.py:8-12 | The count is the least k >= 0 with start + k*step >= end. It is 0 when start >= end and ceil((end - start)/step) otherwise. |
| Representable.StepCountReached | representableNumbers.py:8-10 | For step > 0, a sample reaches end exactly when its index is at least the count, which is why the loop stops there. |
| Representable.NoProgressWithoutPositiveStep | representableNumbers.py:8-10 | With start < end and step <= 0, no sample ever reaches end, so the loop does not terminate. |
| Representable.StepCountExamples | representableNumbers.py:4-12 | count(1, 2, 0.5) = 2 and count(0, 1, 0.3) = 4. |
| Representable.RangeCount | representableNumbers.py:20-25 | For every i <= bits, the range [2**i, 2**(i+1)) with step 2**(i - bits) takes exactly 2**bits steps; the script uses bits = 23. |
| Representable.TotalOfRanges | representableNumbers.py:56 | Eight counts of 2**23 sum to 2**26. |
| Representable.AnalyzeRanges | representableNumbers.py:16-27 | Gives 8 aligned labels (2**i, 2**(i+1)) and counts, and every count is 2**bits. |
| Representable.AnalyzeFloatDistribution | representableNumbers.py:14-56 | Gives 8 aligned labels (2**i, 2**(i+1)) and counts. Every count is 2**23, and the total is the sum of the counts, 2**26. |

Proof helpers used by the lemmas above, with no source lines of their own:

- `QuadratureProperties.UnitWeights`: A weighted sum whose weights are all 1 equals the plain sum over range(lo, hi).
- `QuadratureProperties.LastNode`: With step (b - a)/n, node 0 is a and node n is b.
- `Representable.SumConstant`: A list whose entries all equal v sums to its length times v.
- `Representable.StepsAcross`: The width 2**i of [2**i, 2**(i+1)) divided by the step 2**-j is 2**(i+j).
- `Powers.Pow2Add`: 2**i * 2**j == 2**(i+j).

## Left out

- Plotting and console output (matplotlib figures, bar charts, reference slope lines, `savefig`, every `print`). This is rendering and I/O.
- The per-range step print at representableNumbers.py:59-61 repeats the step computation for display only.
- `scipy.integrate.quad`, which produces the reference value. It is a foreign library, so the value is the `trueValue` parameter of `ErrorSampler.SampleErrors`.
- `x32`, the integrand x**1.5 computed with `math.pow`. A fractional power is not computable over Dafny's reals, so the integrand is an arbitrary function parameter.
- IEEE-754 floating point. The model computes exactly, so it does not capture:
  - rounding drift in `current += step`;
  - the size of the quadrature errors;
  - convergence orders;
  - whether the counter really enumerates float32 values.
- Python's dynamic typing. n is an integer and a, b are reals; a float n would fail inside `range` and is not modelled.
- The range label is the formatted string f"{start}-{end}". The model keeps it as the pair `RangeLabel(start, end)`, without string formatting.
- Running `analyze_float_distribution()` at module import is invocation plumbing.
- Representable.CountRepresentableNumbers: the requires `start < end ==> step > 0.0` excludes the inputs on which the `while` loop at representableNumbers.py:8-10 never stops. `Representable.NoProgressWithoutPositiveStep` proves that it never stops on them. The only call site, representableNumbers.py:23-25, passes the positive step 2**(i-23).
