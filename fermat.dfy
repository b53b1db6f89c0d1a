/** Fermat's little theorem, `a ** p == a` modulo a prime p, proved through the
    binomial theorem: every inner binomial coefficient of `(a + 1) ** p` is a
    multiple of p, so raising to the p-th power is additive modulo p. */
module Fermat {
  import opened ModArith
  import opened Primality
  import opened ModInverse

  /** The binomial coefficient "n choose k", by Pascal's rule (zero for k > n). */
  function Choose(n: nat, k: nat): nat
    decreases n
  {
    if k == 0 then 1
    else if n == 0 then 0
    else Choose(n - 1, k - 1) + Choose(n - 1, k)
  }

  lemma {:induction false} ChooseAbove(n: nat, k: nat)
    requires k > n
    ensures Choose(n, k) == 0
    decreases n
  {
    if n > 0 {
      ChooseAbove(n - 1, k - 1);
      ChooseAbove(n - 1, k);
    }
  }

  /** The absorption identity `k * C(n, k) == n * C(n - 1, k - 1)`. */
  lemma {:induction false} Absorption(n: nat, k: nat)
    requires n >= 1 && k >= 1
    ensures k * Choose(n, k) == n * Choose(n - 1, k - 1)
    decreases n
  {
    if n == 1 {
      if k > 1 {
        ChooseAbove(0, k - 1);
        ChooseAbove(0, k);
      }
    } else if k == 1 {
      Absorption(n - 1, 1);
    } else {
      Absorption(n - 1, k - 1);
      Absorption(n - 1, k);
      AbsorptionStep(n, k, Choose(n - 1, k - 1), Choose(n - 1, k), Choose(n - 2, k - 2), Choose(n - 2, k - 1));
    }
  }

  /** The arithmetic of one absorption step, with a = C(n-1, k-1), b = C(n-1, k),
      c = C(n-2, k-2) and d = C(n-2, k-1). */
  lemma AbsorptionStep(n: int, k: int, a: int, b: int, c: int, d: int)
    requires (k - 1) * a == (n - 1) * c && k * b == (n - 1) * d && a == c + d
    ensures k * (a + b) == n * a
  {
    calc {
      k * (a + b);
      (k - 1) * a + a + k * b;
      (n - 1) * c + a + (n - 1) * d;
      (n - 1) * (c + d) + a;
      n * a;
    }
  }

  /** Euclid's lemma in the form needed here: a prime dividing `k * c` with
      `0 < k < p` divides c. */
  lemma EuclidPrime(p: int, k: int, c: int)
    requires IsPrime(p) && 0 < k < p && (k * c) % p == 0
    ensures c % p == 0
  {
    ModOfResidue(k, p);
    PrimeInverse(k, p);
    ModOfResidue(1, p);
    CancelFactor(c, k, Inverse(k, p).value, p);
  }

  /** A factor with an inverse can be dropped from `k * c == 0` modulo p. */
  lemma CancelFactor(c: int, k: int, inv: int, p: int)
    requires p > 1 && (k * inv) % p == 1 && (k * c) % p == 0
    ensures c % p == 0
  {
    // c == c * (k * inv) == (k * c) * inv == 0 modulo p
    ReduceRight(c, k * inv, p);
    assert (c * 1) % p == (c * (k * inv)) % p;
    Regroup(c, k, inv);
    ModMulLeft(k * c, inv, p);
    assert ((k * c) % p) * inv == 0;
  }

  lemma Regroup(c: int, k: int, i: int)
    ensures c * (k * i) == (k * c) * i
  {
  }

  /** A prime divides every inner binomial coefficient of its own row. */
  lemma PrimeDividesChoose(p: int, k: int)
    requires IsPrime(p) && 0 < k < p
    ensures Choose(p, k) % p == 0
  {
    Absorption(p, k);
    ModAddMultiple(0, Choose(p - 1, k - 1), p);
    assert k * Choose(p, k) == 0 + Choose(p - 1, k - 1) * p;
    EuclidPrime(p, k, Choose(p, k));
  }

  /** `sum_{k=0..j} C(n, k) * a ** k`. */
  function BinomialSum(a: int, n: nat, j: nat): int
    decreases j
  {
    Choose(n, j) * Power(a, j) + (if j == 0 then 0 else BinomialSum(a, n, j - 1))
  }

  /** Pascal's rule lifted to the partial sums. */
  lemma {:induction false} BinomialSumStep(a: int, n: nat, j: nat)
    ensures BinomialSum(a, n + 1, j) ==
            BinomialSum(a, n, j) + (if j == 0 then 0 else a * BinomialSum(a, n, j - 1))
    decreases j
  {
    if j > 0 {
      BinomialSumStep(a, n, j - 1);
      var t := if j == 1 then 0 else BinomialSum(a, n, j - 2);
      assert BinomialSum(a, n + 1, j - 1) == BinomialSum(a, n, j - 1) + a * t;
      assert BinomialSum(a, n, j - 1) == Choose(n, j - 1) * Power(a, j - 1) + t;
      SumStep(a, Choose(n, j - 1), Choose(n, j), Power(a, j - 1), t);
    }
  }

  /** The arithmetic of one step, with x = C(n, j-1), y = C(n, j), q = a ** (j-1)
      and t the sum below j - 1. */
  lemma SumStep(a: int, x: int, y: int, q: int, t: int)
    ensures (x + y) * (a * q) + a * t == y * (a * q) + a * (x * q + t)
  {
  }

  /** The binomial theorem `(a + 1) ** n == sum_{k=0..n} C(n, k) * a ** k`. */
  lemma {:induction false} BinomialTheorem(a: int, n: nat)
    ensures Power(a + 1, n) == BinomialSum(a, n, n)
    decreases n
  {
    if n > 0 {
      BinomialTheorem(a, n - 1);
      BinomialSumStep(a, n - 1, n);
      ChooseAbove(n - 1, n);
      var u := BinomialSum(a, n - 1, n - 1);
      assert BinomialSum(a, n - 1, n) == 0 * Power(a, n) + u;
      assert Power(a + 1, n) == (a + 1) * Power(a + 1, n - 1);
      SuccessorTimes(a, u);
    }
  }

  lemma SuccessorTimes(a: int, u: int)
    ensures (a + 1) * u == u + a * u
  {
  }

  /** The partial sums of row p below the last term are 1 modulo p. */
  lemma {:induction false} InnerTermsVanish(a: int, p: int, j: nat)
    requires IsPrime(p) && j < p
    ensures BinomialSum(a, p, j) % p == 1
    decreases j
  {
    ModOfResidue(1, p);
    if j > 0 {
      InnerTermsVanish(a, p, j - 1);
      PrimeDividesChoose(p, j);
      var q := Choose(p, j) / p;
      assert Choose(p, j) == q * p;
      assert Choose(p, j) * Power(a, j) == (q * Power(a, j)) * p;
      ModAddMultiple(BinomialSum(a, p, j - 1), q * Power(a, j), p);
    }
  }

  /** `(a + 1) ** p == a ** p + 1` modulo p. */
  lemma FreshmansDream(a: int, p: int)
    requires IsPrime(p)
    ensures Power(a + 1, p) % p == (Power(a, p) + 1) % p
  {
    BinomialTheorem(a, p);
    InnerTermsVanish(a, p, p - 1);
    ChooseOwn(p);
    LastTerm(a, p);
    AddCongruentOne(Power(a, p), BinomialSum(a, p, p - 1), p);
  }

  /** The full row sum is the last term plus the sum below it. */
  lemma LastTerm(a: int, n: nat)
    requires n > 0 && Choose(n, n) == 1
    ensures BinomialSum(a, n, n) == Power(a, n) + BinomialSum(a, n, n - 1)
  {
  }

  lemma AddCongruentOne(x: int, i: int, m: int)
    requires m > 1 && i % m == 1
    ensures (x + i) % m == (x + 1) % m
  {
    ModAdd(x, i, m);
    ModAdd(x, 1, m);
    ModOfResidue(1, m);
  }

  lemma {:induction false} ChooseOwn(n: nat)
    ensures Choose(n, n) == 1
    decreases n
  {
    if n > 0 {
      ChooseOwn(n - 1);
      ChooseAbove(n - 1, n);
    }
  }

  /** Fermat's little theorem for natural bases, by induction on the base. */
  lemma {:induction false} FermatNat(a: nat, p: int)
    requires IsPrime(p)
    ensures Power(a, p) % p == a % p
    decreases a
  {
    if a == 0 {
      assert Power(0, p) == 0 * Power(0, p - 1);
    } else {
      FermatNat(a - 1, p);
      FreshmansDream(a - 1, p);
      ModAdd(Power(a - 1, p), 1, p);
      ModAdd(a - 1, 1, p);
    }
  }

  /** Fermat's little theorem: `a ** p == a` modulo a prime p, for every integer a. */
  lemma LittleTheorem(a: int, p: int)
    requires IsPrime(p)
    ensures Power(a, p) % p == a % p
  {
    PowerMod(a, p, p);
    FermatNat(a % p, p);
    ModMod(a, p);
  }

  /** For a not divisible by p, `a ** (p - 1) == 1` modulo p, so `a ** (p - 2)` is
      the inverse of a. */
  lemma LittleTheoremInverse(a: int, p: int)
    requires IsPrime(p) && a % p != 0
    ensures Power(a, p - 1) % p == 1
    ensures IsInverse(a, Power(a, p - 2), p)
  {
    LittleTheorem(a, p);
    PrimeInverse(a, p);
    var inv := Inverse(a, p).value;
    ModOfResidue(1, p);
    // cancel one factor a from a ** p == a
    calc {
      Power(a, p - 1) % p;
      { ReduceRight(Power(a, p - 1), 1, p); }
      (Power(a, p - 1) * (1 % p)) % p;
      { ReduceRight(Power(a, p - 1), a * inv, p); }
      (Power(a, p - 1) * (a * inv)) % p;
      { assert Power(a, p - 1) * (a * inv) == Power(a, p) * inv; }
      (Power(a, p) * inv) % p;
      { ModMulLeft(Power(a, p), inv, p); ModMulLeft(a, inv, p); }
      (a * inv) % p;
    }
    assert Power(a, p - 1) == a * Power(a, p - 2);
  }
}
