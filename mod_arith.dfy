/** Integer facts the field model rests on: divisibility, Euclidean remainder
    (which for a positive modulus agrees with Python's `%`) and natural powers. */
module ModArith {

  /** d is a positive divisor of n. */
  predicate Divides(d: int, n: int) {
    d > 0 && n % d == 0
  }

  /** b raised to a natural power. */
  function Power(b: int, e: nat): int
    decreases e
  {
    if e == 0 then 1 else b * Power(b, e - 1)
  }

  lemma MulAtLeast(k: int, m: int)
    requires m > 0 && k >= 1
    ensures k * m >= m
  {
    assert k * m == (k - 1) * m + m;
    assert (k - 1) * m >= 0;
  }

  /** A quotient and remainder in range are THE quotient and remainder. */
  lemma ModUnique(x: int, m: int, q: int, r: int)
    requires m > 0 && 0 <= r < m && x == q * m + r
    ensures x % m == r && x / m == q
  {
    var q0, r0 := x / m, x % m;
    assert x == q0 * m + r0;
    assert (q - q0) * m == r0 - r;
    if q > q0 {
      MulAtLeast(q - q0, m);
    } else if q < q0 {
      MulAtLeast(q0 - q, m);
    }
  }

  lemma ModOfResidue(x: int, m: int)
    requires m > 0 && 0 <= x < m
    ensures x % m == x
  {
    ModUnique(x, m, 0, x);
  }

  lemma ModMod(x: int, m: int)
    requires m > 0
    ensures (x % m) % m == x % m
  {
    ModOfResidue(x % m, m);
  }

  lemma ModAddMultiple(x: int, k: int, m: int)
    requires m > 0
    ensures (x + k * m) % m == x % m
  {
    var q := x / m;
    assert x + k * m == (q + k) * m + x % m;
    ModUnique(x + k * m, m, q + k, x % m);
  }

  /** x and its remainder differ by a multiple of m. */
  lemma ModCongruent(x: int, m: int)
    requires m > 0
    ensures (x - x % m) % m == 0
  {
    assert x - x % m == (x / m) * m;
    ModUnique(x - x % m, m, x / m, 0);
  }

  /** Two residues that are congruent are equal. */
  lemma CongruentResidues(a: int, b: int, m: int)
    requires m > 0 && 0 <= a < m && 0 <= b < m && (a - b) % m == 0
    ensures a == b
  {
    var k := (a - b) / m;
    assert a - b == k * m;
    if k >= 1 {
      MulAtLeast(k, m);
    } else if k <= -1 {
      MulAtLeast(-k, m);
    }
  }

  /** Two numbers with the same remainder are congruent, and conversely. */
  lemma SameRemainderIffCongruent(a: int, b: int, m: int)
    requires m > 0
    ensures a % m == b % m <==> (a - b) % m == 0
  {
    var qa, qb := a / m, b / m;
    assert a - b == (qa - qb) * m + (a % m - b % m);
    if a % m == b % m {
      ModUnique(a - b, m, qa - qb, 0);
    } else {
      if a % m > b % m {
        ModUnique(a - b, m, qa - qb, a % m - b % m);
      } else {
        assert a - b == (qa - qb - 1) * m + (m + a % m - b % m);
        ModUnique(a - b, m, qa - qb - 1, m + a % m - b % m);
      }
    }
  }

  lemma ModAdd(a: int, b: int, m: int)
    requires m > 0
    ensures (a + b) % m == (a % m + b % m) % m
  {
    var qa, qb := a / m, b / m;
    assert a + b == (a % m + b % m) + (qa + qb) * m;
    ModAddMultiple(a % m + b % m, qa + qb, m);
  }

  lemma ModSub(a: int, b: int, m: int)
    requires m > 0
    ensures (a - b) % m == (a % m - b % m) % m
  {
    var qa, qb := a / m, b / m;
    assert a - b == (a % m - b % m) + (qa - qb) * m;
    ModAddMultiple(a % m - b % m, qa - qb, m);
  }

  lemma ModMulLeft(a: int, b: int, m: int)
    requires m > 0
    ensures (a * b) % m == ((a % m) * b) % m
  {
    var qa := a / m;
    assert a == qa * m + a % m;
    assert a * b == (a % m) * b + (qa * b) * m;
    ModAddMultiple((a % m) * b, qa * b, m);
  }

  lemma ModMul(a: int, b: int, m: int)
    requires m > 0
    ensures (a * b) % m == ((a % m) * (b % m)) % m
  {
    ModMulLeft(a, b, m);
    ModMulLeft(b, a % m, m);
    assert (a % m) * b == b * (a % m);
    assert (b % m) * (a % m) == (a % m) * (b % m);
  }

  /** Reducing the right operand first does not change a reduced sum, difference or product. */
  lemma ReduceRight(a: int, d: int, m: int)
    requires m > 0
    ensures (a + d % m) % m == (a + d) % m
    ensures (a - d % m) % m == (a - d) % m
    ensures (a * (d % m)) % m == (a * d) % m
  {
    ModAdd(a, d, m);
    ModAdd(a, d % m, m);
    ModSub(a, d, m);
    ModSub(a, d % m, m);
    ModMul(a, d, m);
    ModMul(a, d % m, m);
    ModMod(d, m);
  }

  /** A positive divisor of two numbers divides every integer combination of them. */
  lemma DividesLinear(d: int, a: int, b: int, x: int, y: int)
    requires Divides(d, a) && Divides(d, b)
    ensures Divides(d, a * x + b * y)
  {
    var qa, qb := a / d, b / d;
    assert a == qa * d;
    assert b == qb * d;
    assert a * x + b * y == (qa * x + qb * y) * d;
    ModUnique(a * x + b * y, d, qa * x + qb * y, 0);
  }

  /** A positive divisor of a positive number is at most that number. */
  lemma DividesBound(d: int, n: int)
    requires Divides(d, n) && n > 0
    ensures d <= n
  {
    var q := n / d;
    assert n == q * d;
    if q >= 1 {
      MulAtLeast(q, d);
    }
  }

  lemma {:induction false} PowerMod(b: int, e: nat, m: int)
    requires m > 0
    ensures Power(b % m, e) % m == Power(b, e) % m
    decreases e
  {
    if e > 0 {
      PowerMod(b, e - 1, m);
      calc {
        Power(b % m, e) % m;
        ((b % m) * Power(b % m, e - 1)) % m;
        { ModMul(b % m, Power(b % m, e - 1), m); ModMod(b, m); }
        ((b % m) * (Power(b % m, e - 1) % m)) % m;
        ((b % m) * (Power(b, e - 1) % m)) % m;
        { ModMul(b, Power(b, e - 1), m); }
        (b * Power(b, e - 1)) % m;
      }
    }
  }

  lemma {:induction false} PowerOfProduct(a: int, b: int, e: nat)
    ensures Power(a, e) * Power(b, e) == Power(a * b, e)
    decreases e
  {
    if e > 0 {
      PowerOfProduct(a, b, e - 1);
      ProductRearrange(a, Power(a, e - 1), b, Power(b, e - 1));
    }
  }

  lemma ProductRearrange(a: int, x: int, b: int, y: int)
    ensures (a * x) * (b * y) == (a * b) * (x * y)
  {
  }

  lemma {:induction false} PowerOfOne(e: nat)
    ensures Power(1, e) == 1
    decreases e
  {
    if e > 0 {
      PowerOfOne(e - 1);
    }
  }

  lemma {:induction false} PowerPositive(b: int, e: nat)
    requires b > 0
    ensures Power(b, e) > 0
    decreases e
  {
    if e > 0 {
      PowerPositive(b, e - 1);
      MulAtLeast(b, Power(b, e - 1));
    }
  }
}
