/** The error-sampling driver of the convergence script: for n = 2**1 ..
    2**24 it runs the three rules on [0, 1] and records |approximation -
    reference| in three aligned lists. The integrand and the reference value
    (which the script takes from an external integrator) are parameters. */
module ErrorSampler {
  import opened Powers
  import opened Quadrature

  function Abs(x: real): (r: real)
    ensures r >= 0.0 && (r == x || r == -x)
  {
    if x < 0.0 then -x else x
  }

  /** The three errors recorded for one subdivision count n: each rule returns
      a value (none raises) and its error is the distance to the reference. */
  predicate ErrorsAt(f: real -> real, trueValue: real, n: int, midpointError: real, trapeziumError: real, simpsonError: real)
  {
    && Midpoint(f, 0.0, 1.0, n).Ok? && midpointError == Abs(Midpoint(f, 0.0, 1.0, n).value - trueValue)
    && Trapezium(f, 0.0, 1.0, n).Ok? && trapeziumError == Abs(Trapezium(f, 0.0, 1.0, n).value - trueValue)
    && Simpson(f, 0.0, 1.0, n).Ok? && simpsonError == Abs(Simpson(f, 0.0, 1.0, n).value - trueValue)
  }

  method SampleErrors(f: real -> real, trueValue: real)
    returns (nValues: seq<int>, midpointErrors: seq<real>, trapeziumErrors: seq<real>, simpsonErrors: seq<real>)
    ensures |nValues| == 24
    ensures forall k :: 0 <= k < |nValues| ==> nValues[k] == Pow2(k + 1) && nValues[k] % 2 == 0
    ensures |midpointErrors| == |trapeziumErrors| == |simpsonErrors| == |nValues|
    ensures forall k :: 0 <= k < |nValues| ==>
      ErrorsAt(f, trueValue, nValues[k], midpointErrors[k], trapeziumErrors[k], simpsonErrors[k])
    ensures forall k :: 0 <= k < |nValues| ==>
      midpointErrors[k] >= 0.0 && trapeziumErrors[k] >= 0.0 && simpsonErrors[k] >= 0.0
  {
    nValues := seq(24, k requires 0 <= k < 24 => Pow2(k + 1));
    midpointErrors, trapeziumErrors, simpsonErrors := [], [], [];
    for k := 0 to |nValues|
      invariant |midpointErrors| == |trapeziumErrors| == |simpsonErrors| == k
      invariant forall j :: 0 <= j < k ==>
        ErrorsAt(f, trueValue, nValues[j], midpointErrors[j], trapeziumErrors[j], simpsonErrors[j])
    {
      var n := nValues[k];
      Pow2Even(k + 1);
      var midpoint := MidpointRule(f, 0.0, 1.0, n);
      var trapezium := TrapeziumRule(f, 0.0, 1.0, n);
      var simpson := SimpsonsRule(f, 0.0, 1.0, n);
      midpointErrors := midpointErrors + [Abs(midpoint.value - trueValue)];
      trapeziumErrors := trapeziumErrors + [Abs(trapezium.value - trueValue)];
      simpsonErrors := simpsonErrors + [Abs(simpson.value - trueValue)];
    }
    forall k | 0 <= k < |nValues| ensures nValues[k] % 2 == 0 {
      Pow2Even(k + 1);
    }
  }
}
