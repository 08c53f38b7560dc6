/** The step-counting loop of the float-distribution script and its driver.
    `count_representable_numbers` adds `step` to a running value from `start`
    until it reaches `end` and counts the additions; the driver runs it on the
    eight ranges [2**i, 2**(i+1)) with step 2**(i-23). Arithmetic is exact
    (`real`), so the count is what the loop would give without rounding. */
module Representable {
  import opened Powers

  /** The least integer at or above x. */
  function Ceil(x: real): (c: int)
    ensures x <= c as real < x + 1.0
  {
    -((-x).Floor)
  }

  /** The running value `current` after k additions of step to start. */
  function Sample(start: real, step: real, k: int): (current: real)
  {
    start + (k as real) * step
  }

  /** The count the loop returns: 0 when the interval is empty, otherwise
      the number of steps that fit before reaching end, rounded up. */
  function StepCount(start: real, end: real, step: real): (count: nat)
    requires start < end ==> step > 0.0
  {
    if start >= end then 0 else Ceil((end - start) / step)
  }

  /** StepCount is the least k >= 0 whose sample reaches end: every earlier
      sample is still below end. */
  lemma StepCountIsLeast(start: real, end: real, step: real)
    requires start < end ==> step > 0.0
    ensures end <= Sample(start, step, StepCount(start, end, step))
    ensures forall k :: 0 <= k < StepCount(start, end, step) ==> Sample(start, step, k) < end
  {
    if start < end {
      var x, c := (end - start) / step, StepCount(start, end, step);
      assert x * step == end - start;
      assert (c as real) * step >= x * step;
      forall k | 0 <= k < c ensures Sample(start, step, k) < end {
        assert (k as real) < x;
        assert (k as real) * step < x * step;
      }
    }
  }

  /** With a positive step the samples increase, so a sample reaches end
      exactly when its index is at least StepCount. */
  lemma StepCountReached(start: real, end: real, step: real, k: int)
    requires step > 0.0 && k >= 0
    ensures end <= Sample(start, step, k) <==> StepCount(start, end, step) <= k
  {
    StepCountIsLeast(start, end, step);
    var c := StepCount(start, end, step);
    if c <= k {
      assert ((k - c) as real) * step >= 0.0;
      assert Sample(start, step, k) == Sample(start, step, c) + ((k - c) as real) * step;
    }
  }

  /** With start < end and a step that is not positive, no sample ever
      reaches end: the loop of count_representable_numbers never stops. */
  lemma NoProgressWithoutPositiveStep(start: real, end: real, step: real)
    requires start < end && step <= 0.0
    ensures forall k :: k >= 0 ==> Sample(start, step, k) < end
  {
    forall k | k >= 0 ensures Sample(start, step, k) < end {
      assert (k as real) * step <= 0.0;
    }
  }

  /** The two hand-computed cases: [1, 2) by 0.5 samples 1.0 and 1.5;
      [0, 1) by 0.3 samples 0, 0.3, 0.6 and 0.9. */
  lemma StepCountExamples()
    ensures StepCount(1.0, 2.0, 0.5) == 2
    ensures StepCount(0.0, 1.0, 0.3) == 4
  {
    assert (2.0 - 1.0) / 0.5 == 2.0;
    assert (1.0 - 0.0) / 0.3 == 10.0 / 3.0;
  }

  method CountRepresentableNumbers(start: real, end: real, step: real) returns (count: nat)
    requires start < end ==> step > 0.0
    ensures count == StepCount(start, end, step)
    ensures end <= Sample(start, step, count)
    ensures forall k :: 0 <= k < count ==> Sample(start, step, k) < end
  {
    var current := start;
    count := 0;
    while current < end
      invariant current == Sample(start, step, count)
      invariant forall k :: 0 <= k < count ==> Sample(start, step, k) < end
      invariant count <= StepCount(start, end, step)
      decreases StepCount(start, end, step) - count
    {
      StepCountReached(start, end, step, count);
      count := count + 1;
      current := current + step;
      assert current == Sample(start, step, count);
    }
    if start < end {
      StepCountReached(start, end, step, count);
    }
  }

  /** The range label f"{start}-{end}", kept as its two numbers. */
  datatype RangeLabel = RangeLabel(start: nat, end: nat)

  /** Python's sum() over a list of counts. */
  function Sum(s: seq<nat>): (total: nat)
  {
    if s == [] then 0 else Sum(s[..|s| - 1]) + s[|s| - 1]
  }

  /** A list whose entries all equal v sums to |s| * v. */
  lemma {:induction false} SumConstant(s: seq<nat>, v: nat)
    requires forall i :: 0 <= i < |s| ==> s[i] == v
    ensures Sum(s) == |s| * v
  {
    if s != [] {
      SumConstant(s[..|s| - 1], v);
    }
  }

  /** Dividing by a reciprocal multiplies. */
  lemma DivideByReciprocal(y: real, q: real)
    requires q > 0.0
    ensures y / (1.0 / q) == y * q
  {
    assert (1.0 / q) * (y * q) == y;
  }

  /** Converting a product to real multiplies the converted factors. */
  lemma CastProduct(m: int, n: int)
    ensures (m * n) as real == (m as real) * (n as real)
  {
  }

  /** The width of [p, 2p), divided by the step 1/q, is p*q. */
  lemma WidthOverStep(twice: int, p: int, q: int)
    requires twice == 2 * p && q > 0
    ensures (twice as real - p as real) / (1.0 / q as real) == (p * q) as real
  {
    DivideByReciprocal(p as real, q as real);
    CastProduct(p, q);
  }

  /** The width 2**i of [2**i, 2**(i+1)) divided by the step 2**-j is
      2**(i+j). */
  lemma StepsAcross(i: nat, j: nat)
    ensures (Pow2(i + 1) as real - Pow2(i) as real) / (1.0 / Pow2(j) as real) == Pow2(i + j) as real
  {
    Pow2Even(i + 1);
    WidthOverStep(Pow2(i + 1), Pow2(i), Pow2(j));
    Pow2Add(i, j);
  }

  /** The fraction bits of a float32: the step in [2**i, 2**(i+1)) is
      2**(i - FractionBits). */
  const FractionBits: nat := 23

  /** With `bits` fraction bits, the range [2**i, 2**(i+1)) walked with step
      2**(i - bits) takes exactly 2**bits steps, whatever i (up to bits). */
  lemma RangeCount(i: nat, bits: nat)
    requires i <= bits
    ensures StepCount(Pow2(i) as real, Pow2(i + 1) as real, Power2(i - bits)) == Pow2(bits)
  {
    assert Power2(i - bits) == 1.0 / Pow2(bits - i) as real;
    StepsAcross(i, bits - i);
  }

  /** Eight counts of 2**23 sum to 2**26. */
  lemma TotalOfRanges(counts: seq<nat>)
    requires |counts| == 8 && forall i :: 0 <= i < 8 ==> counts[i] == Pow2(FractionBits)
    ensures Sum(counts) == Pow2(26)
  {
    SumConstant(counts, Pow2(FractionBits));
    Pow2Add(3, FractionBits);
    assert Pow2(3) == 8;
  }

  /** The loop of analyze_float_distribution for a format with `bits`
      fraction bits: range i is [2**i, 2**(i+1)) with step 2**(i - bits). */
  method AnalyzeRanges(bits: nat) returns (ranges: seq<RangeLabel>, counts: seq<nat>)
    requires bits >= 7
    ensures |ranges| == |counts| == 8
    ensures forall i :: 0 <= i < 8 ==> ranges[i] == RangeLabel(Pow2(i), Pow2(i + 1))
    ensures forall i :: 0 <= i < 8 ==> counts[i] == Pow2(bits)
  {
    ranges, counts := [], [];
    for i := 0 to 8
      invariant |ranges| == |counts| == i
      invariant forall j :: 0 <= j < i ==> ranges[j] == RangeLabel(Pow2(j), Pow2(j + 1))
      invariant forall j :: 0 <= j < i ==> counts[j] == Pow2(bits)
    {
      var start := Pow2(i);
      var end := Pow2(i + 1);
      var step := Power2(i - bits);
      var count := CountRepresentableNumbers(start as real, end as real, step);
      assert count == Pow2(bits) by {
        RangeCount(i, bits);
      }
      ranges := ranges + [RangeLabel(start, end)];
      counts := counts + [count];
    }
  }

  /** analyze_float_distribution: the float32 ranges, their counts and the
      total. */
  method AnalyzeFloatDistribution() returns (ranges: seq<RangeLabel>, counts: seq<nat>, totalNumbers: nat)
    ensures |ranges| == |counts| == 8
    ensures forall i :: 0 <= i < 8 ==> ranges[i] == RangeLabel(Pow2(i), Pow2(i + 1))
    ensures forall i :: 0 <= i < 8 ==> counts[i] == Pow2(FractionBits)
    ensures totalNumbers == Sum(counts) == Pow2(26)
  {
    ranges, counts := AnalyzeRanges(FractionBits);
    totalNumbers := Sum(counts);
    TotalOfRanges(counts);
  }
}
