/** Powers of two, as Python's `2**k` computes them: an exact integer for a
    nonnegative exponent, an exact (dyadic) float for a negative one. */
module Powers {

  /** `2**k` for an integer k >= 0. */
  function Pow2(k: nat): (r: nat)
    ensures r >= 1
  {
    if k == 0 then 1 else 2 * Pow2(k - 1)
  }

  /** `2**e` for any integer e; negative exponents give 1 / 2**(-e). */
  function Power2(e: int): (r: real)
    ensures r > 0.0
  {
    if e >= 0 then Pow2(e) as real else 1.0 / (Pow2(-e) as real)
  }

  /** Exponents add: 2**i * 2**j == 2**(i+j). */
  lemma {:induction false} Pow2Add(i: nat, j: nat)
    ensures Pow2(i) * Pow2(j) == Pow2(i + j)
  {
    if i > 0 {
      Pow2Add(i - 1, j);
      DoubleFactor(Pow2(i - 1), Pow2(j));
    }
  }

  /** Doubling one factor doubles the product. */
  lemma DoubleFactor(m: int, n: int)
    ensures (2 * m) * n == 2 * (m * n)
  {
  }

  /** Every positive power of two is even. */
  lemma Pow2Even(k: nat)
    requires k >= 1
    ensures Pow2(k) == 2 * Pow2(k - 1)
    ensures Pow2(k) % 2 == 0
  {
    var m := Pow2(k - 1);
    assert Pow2(k) == 2 * m;
  }
}
