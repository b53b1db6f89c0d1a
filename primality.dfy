/** Primality of the modulus, as `GF._is_prime` decides it by trial division. */
module Primality {
  import opened ModArith

  /** The mathematical definition: n exceeds one and has no divisor strictly between one and n. */
  predicate IsPrime(n: int) {
    n > 1 && forall d :: 1 < d < n ==> !Divides(d, n)
  }

  /** A composite number has a nontrivial divisor no larger than its square root. */
  lemma FactorBelowRoot(n: int, d: int) returns (e: int)
    requires Divides(d, n) && 1 < d < n
    ensures Divides(e, n) && 1 < e && e * e <= n
  {
    var c := n / d;
    assert n == d * c;
    if c <= 1 {
      MulMonotone(c, 1, d);
    }
    ModUnique(n, c, d, 0);
    if d <= c {
      MulMonotone(d, c, d);
      e := d;
    } else {
      MulMonotone(c, d, c);
      e := c;
    }
  }

  lemma MulMonotone(a: int, b: int, c: int)
    requires a <= b && c >= 0
    ensures a * c <= b * c
  {
    assert b * c - a * c == (b - a) * c;
  }

  /** If no number from 2 up to some i with i * i > n divides n, then n is prime. */
  lemma NoSmallFactorMeansPrime(n: int, i: int)
    requires n > 1 && i >= 2 && i * i > n
    requires forall d :: 1 < d < i ==> !Divides(d, n)
    ensures IsPrime(n)
  {
    forall d | 1 < d < n
      ensures !Divides(d, n)
    {
      if Divides(d, n) {
        var e := FactorBelowRoot(n, d);
        if e >= i {
          MulMonotone(i, e, i);
          MulMonotone(i, e, e);
        }
      }
    }
  }

  /** `_is_prime(n)`: false for n <= 1, otherwise trial division by every
      i with 2 <= i and i * i <= n, stopping at the first divisor. */
  method IsPrimeTrialDivision(n: int) returns (prime: bool)
    ensures prime == IsPrime(n)
  {
    if n <= 1 {
      return false;
    }
    var i := 2;
    while i * i <= n
      invariant 2 <= i <= n
      invariant forall d :: 1 < d < i ==> !Divides(d, n)
      decreases n - i
    {
      if n % i == 0 {
        assert i * i >= 2 * i;
        assert Divides(i, n) && 1 < i < n;
        return false;
      }
      assert i * i >= 2 * i;
      i := i + 1;
    }
    NoSmallFactorMeansPrime(n, i);
    return true;
  }
}
