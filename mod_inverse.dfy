/** Python's three-argument `pow(b, e, m)` for a positive modulus, including the
    negative exponents that go through the modular inverse (`pow(b, -1, m)`). */
module ModInverse {
  import opened ModArith
  import opened Primality

  datatype Option<T> = None | Some(value: T)

  /** x is an inverse of a modulo m. */
  predicate IsInverse(a: int, x: int, m: int)
    requires m >= 1
  {
    (a * x) % m == 1 % m
  }

  /** Extended Euclid: the gcd g of a and b together with Bezout coefficients. */
  function ExtGcd(a: nat, b: nat): (r: (nat, int, int))
    ensures a * r.1 + b * r.2 == r.0
    ensures a > 0 || b > 0 ==> Divides(r.0, a) && Divides(r.0, b)
    decreases b
  {
    if b == 0 then (a, 1, 0)
    else
      var sub := ExtGcd(b, a % b);
      var (g, x, y) := sub;
      BezoutStep(a, b, g, x, y);
      (g, y, x - (a / b) * y)
  }

  lemma BezoutStep(a: nat, b: nat, g: nat, x: int, y: int)
    requires b > 0
    requires b * x + (a % b) * y == g
    requires Divides(g, b) && Divides(g, a % b)
    ensures a * y + b * (x - (a / b) * y) == g
    ensures Divides(g, a)
  {
    var q, r := a / b, a % b;
    assert a == b * q + r;
    assert a * y + b * (x - q * y) == r * y + b * x;
    DividesLinear(g, b, r, q, 1);
    assert b * q + r * 1 == a;
  }

  /** No inverse exists when a and m share a divisor other than one. */
  lemma NoInverse(a: int, m: int, g: int)
    requires m >= 1 && g != 1 && Divides(g, a % m) && Divides(g, m)
    ensures forall x :: !IsInverse(a, x, m)
  {
    DividesBound(g, m);
    assert m >= 2;
    ModOfResidue(1, m);
    forall x | IsInverse(a, x, m)
      ensures false
    {
      ModMulLeft(a, x, m);
      var k := ((a % m) * x) / m;
      assert (a % m) * x == k * m + 1;
      DividesLinear(g, a % m, m, x, -k);
      assert (a % m) * x + m * (-k) == 1;
      DividesBound(g, 1);
    }
  }

  /** `pow(a, -1, m)`: the inverse of a modulo m in [0, m), or nothing when there is none. */
  function Inverse(a: int, m: int): (r: Option<int>)
    requires m >= 1
    ensures r.Some? ==> 0 <= r.value < m && IsInverse(a, r.value, m)
    ensures r.None? ==> forall x :: !IsInverse(a, x, m)
  {
    var (g, x, y) := ExtGcd(a % m, m);
    if g == 1 then
      InverseFromBezout(a, m, x, y);
      Some(x % m)
    else
      NoInverse(a, m, g);
      None
  }

  lemma InverseFromBezout(a: int, m: int, x: int, y: int)
    requires m >= 1 && (a % m) * x + m * y == 1
    ensures IsInverse(a, x % m, m)
  {
    calc {
      (a * (x % m)) % m;
      { ModMul(a, x % m, m); ModMod(x, m); ModMul(a, x, m); }
      (a * x) % m;
      { ModMulLeft(a, x, m); }
      ((a % m) * x) % m;
      { assert (a % m) * x == 1 + (-y) * m; ModAddMultiple(1, -y, m); }
      1 % m;
    }
  }

  /** Inverses are unique among residues, so `Inverse` is the value Python's
      `pow(a, -1, m)` returns, whatever algorithm computes it. */
  lemma InverseUnique(a: int, x: int, y: int, m: int)
    requires m >= 1 && 0 <= x < m && 0 <= y < m
    requires IsInverse(a, x, m) && IsInverse(a, y, m)
    ensures x == y
  {
    calc {
      x % m;
      (x * 1) % m;
      { ModMul(x, 1, m); ModMul(x, a * y, m); }
      (x * (a * y)) % m;
      { assert x * (a * y) == (a * x) * y; }
      ((a * x) * y) % m;
      { ModMulLeft(a * x, y, m); }
      ((1 % m) * y) % m;
      { ModMulLeft(1, y, m); }
      y % m;
    }
    ModOfResidue(x, m);
    ModOfResidue(y, m);
  }

  /** Modulo a prime, exactly the numbers that are not multiples of it are invertible. */
  lemma PrimeInverse(a: int, p: int)
    requires IsPrime(p)
    ensures Inverse(a, p).Some? <==> a % p != 0
  {
    var (g, x, y) := ExtGcd(a % p, p);
    if a % p != 0 {
      DividesBound(g, a % p);
      assert !(1 < g < p);
    } else {
      ModOfResidue(1, p);
      assert !IsInverse(a, 0, p) by { assert (a * 0) % p == 0; }
      if Inverse(a, p).Some? {
        var z := Inverse(a, p).value;
        ModMulLeft(a, z, p);
      }
    }
  }

  /** Python's `pow(b, e, m)` with an integer exponent and a positive modulus. */
  function ModPow(b: int, e: int, m: int): (r: Option<int>)
    requires m >= 1
    ensures r.Some? ==> 0 <= r.value < m
    ensures e >= 0 ==> r == Some(Power(b, e) % m)
    ensures e < 0 ==> (r.None? <==> Inverse(b, m).None?)
    ensures e < 0 && r.Some? ==> (r.value * Power(b, -e)) % m == 1 % m
  {
    if e >= 0 then Some(Power(b, e) % m)
    else
      match Inverse(b, m)
      case None => None
      case Some(inv) =>
        NegativePower(b, inv, -e, m);
        Some(Power(inv, -e) % m)
  }

  /** The power of an inverse is an inverse of the power. */
  lemma NegativePower(b: int, inv: int, k: nat, m: int)
    requires m >= 1 && IsInverse(b, inv, m)
    ensures ((Power(inv, k) % m) * Power(b, k)) % m == 1 % m
  {
    calc {
      ((Power(inv, k) % m) * Power(b, k)) % m;
      { ModMulLeft(Power(inv, k), Power(b, k), m); }
      (Power(inv, k) * Power(b, k)) % m;
      { PowerOfProduct(inv, b, k); }
      Power(inv * b, k) % m;
      { PowerMod(inv * b, k, m); }
      Power((inv * b) % m, k) % m;
      { assert inv * b == b * inv; }
      Power(1 % m, k) % m;
      { PowerMod(1, k, m); }
      Power(1, k) % m;
      { PowerOfOne(k); }
      1 % m;
    }
  }
}
