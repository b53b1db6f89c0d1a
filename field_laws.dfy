/** What the operators of `GF` promise together: the field laws for elements of a
    prime field, division as the inverse of multiplication, the power laws, the
    bitwise and shift identities, and the agreement of comparison and hashing. */
module FieldLaws {
  import opened ModArith
  import opened Primality
  import opened ModInverse
  import opened Bits
  import opened GaloisField
  import opened Fermat

  /** Two elements of the same field. */
  predicate SameField(x: GF, y: GF) {
    Valid(x) && Valid(y) && x.Element? && y.Element? && x.p == y.p
  }

  // ------------------------------------------------------------------
  // Factory and construction

  /** Calling a factory with v yields the element `v mod p`, negative v included. */
  lemma CallGivesRemainder(p: int, v: int)
    requires IsPrime(p)
    ensures Call(Factory(p), v) == Ok(Element(v % p, p))
  {
    var r := Call(Factory(p), v);
    ResidueIsRemainder(v, r.value.value, p);
  }

  /** `field(a) + field(b) == field(a + b)`, and likewise for `-` and `*`. */
  lemma FactoryArithmetic(p: int, a: int, b: int)
    requires IsPrime(p)
    ensures Add(Call(Factory(p), a).value, Obj(Call(Factory(p), b).value)) == Call(Factory(p), a + b)
    ensures Sub(Call(Factory(p), a).value, Obj(Call(Factory(p), b).value)) == Call(Factory(p), a - b)
    ensures Mul(Call(Factory(p), a).value, Obj(Call(Factory(p), b).value)) == Call(Factory(p), a * b)
  {
    CallGivesRemainder(p, a);
    CallGivesRemainder(p, b);
    CallGivesRemainder(p, a + b);
    CallGivesRemainder(p, a - b);
    CallGivesRemainder(p, a * b);
    ModAdd(a, b, p);
    ModSub(a, b, p);
    ModMul(a, b, p);
  }

  // ------------------------------------------------------------------
  // Addition and multiplication

  /** `x + y == y + x` and `x * y == y * x` for any two `GF` objects, errors included. */
  lemma Commutative(x: GF, y: GF)
    requires Valid(x) && Valid(y)
    ensures Add(x, Obj(y)) == Add(y, Obj(x))
    ensures Mul(x, Obj(y)) == Mul(y, Obj(x))
  {
    if SameField(x, y) {
      assert x.value * y.value == y.value * x.value;
    }
  }

  lemma AddAssociative(x: GF, y: GF, z: GF)
    requires SameField(x, y) && SameField(y, z)
    ensures Add(Add(x, Obj(y)).value, Obj(z)) == Add(x, Obj(Add(y, Obj(z)).value))
  {
    var p := x.p;
    ModAdd(x.value + y.value, z.value, p);
    ModAdd(x.value, y.value + z.value, p);
    ModMod(x.value + y.value, p);
    ModMod(y.value + z.value, p);
    ModOfResidue(x.value, p);
    ModOfResidue(z.value, p);
  }

  lemma MulAssociative(x: GF, y: GF, z: GF)
    requires SameField(x, y) && SameField(y, z)
    ensures Mul(Mul(x, Obj(y)).value, Obj(z)) == Mul(x, Obj(Mul(y, Obj(z)).value))
  {
    var p, a, b, c := x.p, x.value, y.value, z.value;
    calc {
      ((a * b) % p * c) % p;
      { ModMulLeft(a * b, c, p); }
      ((a * b) * c) % p;
      { assert (a * b) * c == a * (b * c); }
      (a * (b * c)) % p;
      { ReduceRight(a, b * c, p); }
      (a * ((b * c) % p)) % p;
    }
  }

  /** `x * (y + z) == x * y + x * z`. */
  lemma Distributive(x: GF, y: GF, z: GF)
    requires SameField(x, y) && SameField(y, z)
    ensures Mul(x, Obj(Add(y, Obj(z)).value)) == Add(Mul(x, Obj(y)).value, Obj(Mul(x, Obj(z)).value))
  {
    var p, a, b, c := x.p, x.value, y.value, z.value;
    calc {
      (a * ((b + c) % p)) % p;
      { ReduceRight(a, b + c, p); }
      (a * (b + c)) % p;
      { assert a * (b + c) == a * b + a * c; }
      (a * b + a * c) % p;
      { ModAdd(a * b, a * c, p); }
      ((a * b) % p + (a * c) % p) % p;
    }
  }

  /** 0 and 1 are the identities, and `x + (-x) == 0`. */
  lemma Identities(x: GF)
    requires Valid(x) && x.Element?
    ensures Add(x, Int(0)) == Ok(x)
    ensures Mul(x, Int(1)) == Ok(x)
    ensures Add(x, Obj(Neg(x).value)) == Ok(Element(0, x.p))
  {
    var p, a := x.p, x.value;
    ModOfResidue(a, p);
    ReduceRight(a, p - a, p);
    assert a + (p - a) == 1 * p + 0;
    ModUnique(a + (p - a), p, 1, 0);
  }

  /** `x - y == x + (-y)`, and negation is its own inverse. */
  lemma Subtraction(x: GF, y: GF)
    requires SameField(x, y)
    ensures Sub(x, Obj(y)) == Add(x, Obj(Neg(y).value))
    ensures Neg(Neg(y).value) == Ok(y)
  {
    var p, a, b := x.p, x.value, y.value;
    ReduceRight(a, p - b, p);
    ModAddMultiple(a - b, 1, p);
    assert a + (p - b) == (a - b) + 1 * p;
    ReduceRight(p, p - b, p);
    ModAddMultiple(b, 1, p);
    assert p - (p - b) == b;
    ModSub(p, p - b, p);
    ModOfResidue(b, p);
  }

  /** `c - x == -x + c`, and `-0 == 0`. */
  lemma ReflectedSubtraction(x: GF, c: int)
    requires Valid(x) && x.Element?
    ensures RSub(x, c) == Add(Neg(x).value, Int(c))
    ensures Neg(Element(0, x.p)) == Ok(Element(0, x.p))
  {
    ModOfResidue(0, x.p);
    ModAddMultiple(0, 1, x.p);
  }

  /** The reflected forms agree with the forward ones: `n + x == x + n`,
      `n * x == x * n`, and `n - x` is `field(n) - x`. */
  lemma ReflectedForms(x: GF, n: int)
    requires Valid(x) && x.Element?
    ensures RAdd(x, n) == Add(x, Int(n))
    ensures RMul(x, n) == Mul(x, Int(n))
    ensures RSub(x, n) == Sub(Construct(n, x.p), Obj(x))
  {
    ModSub(n, x.value, x.p);
    ModOfResidue(x.value, x.p);
  }

  // ------------------------------------------------------------------
  // Division

  /** In a prime field division is defined exactly for divisors that are not zero;
      dividing by zero fails. */
  lemma DivisionDefined(x: GF, y: Operand)
    requires InField(x) && ValidOperand(y) && Compatible(x, y)
    ensures TrueDiv(x, y).Ok? <==> Residue(x, y) != 0
    ensures Residue(x, y) == 0 ==> TrueDiv(x, y) == Err(NotInvertible)
  {
    PrimeInverse(Residue(x, y), x.p);
    ModMod(Denoted(x, y), x.p);
  }

  /** `(x / y) * y == x` for a divisor y that is not zero. */
  lemma DivideThenMultiply(x: GF, y: GF)
    requires InField(x) && SameField(x, y) && y.value != 0
    ensures TrueDiv(x, Obj(y)).Ok?
    ensures Mul(TrueDiv(x, Obj(y)).value, Obj(y)) == Ok(x)
  {
    ModOfResidue(y.value, y.p);
    DivisionDefined(x, Obj(y));
  }

  /** `(x * y) / y == x` for a divisor y that is not zero. */
  lemma MultiplyThenDivide(x: GF, y: GF)
    requires InField(x) && SameField(x, y) && y.value != 0
    ensures Mul(x, Obj(y)).Ok?
    ensures TrueDiv(Mul(x, Obj(y)).value, Obj(y)) == Ok(x)
  {
    var p, a, b := x.p, x.value, y.value;
    var m := Mul(x, Obj(y)).value;
    assert m == Element((a * b) % p, p);
    ModOfResidue(b, p);
    DivisionDefined(m, Obj(y));
    var q := TrueDiv(m, Obj(y)).value;
    assert (q.value * b) % p == (a * b) % p;
    // y can be cancelled because it is invertible
    PrimeInverse(b, p);
    var inv := Inverse(b, p).value;
    Cancel(q.value, a, b, inv, p);
  }

  /** A factor with an inverse can be cancelled from a congruence of residues. */
  lemma Cancel(a: int, b: int, c: int, inv: int, p: int)
    requires p >= 1 && 0 <= a < p && 0 <= b < p && IsInverse(c, inv, p)
    requires (a * c) % p == (b * c) % p
    ensures a == b
  {
    calc {
      a;
      { ModOfResidue(a, p); ReduceRight(a, 1, p); }
      (a * (1 % p)) % p;
      { ReduceRight(a, c * inv, p); }
      (a * (c * inv)) % p;
      { assert a * (c * inv) == (a * c) * inv; }
      ((a * c) * inv) % p;
      { ModMulLeft(a * c, inv, p); ModMulLeft(b * c, inv, p); }
      ((b * c) * inv) % p;
      { assert (b * c) * inv == b * (c * inv); }
      (b * (c * inv)) % p;
      { ReduceRight(b, c * inv, p); }
      (b * (1 % p)) % p;
      { ModOfResidue(b, p); ReduceRight(b, 1, p); }
      b;
    }
  }

  /** Division is multiplication by the inverse `1 / y`, which Fermat's little theorem
      gives as `y ** (p - 2)`, for y not zero. */
  lemma DivIsMulFermat(x: GF, y: GF)
    requires InField(x) && SameField(x, y) && y.value != 0
    ensures TrueDiv(x, Obj(y)) == Mul(x, Obj(Pow(y, y.p - 2).value))
    ensures TrueDiv(x, Obj(y)) == Mul(x, Obj(RTrueDiv(y, 1).value))
  {
    var p, a, b := x.p, x.value, y.value;
    ModOfResidue(b, p);
    DivisionDefined(x, Obj(y));
    var q := TrueDiv(x, Obj(y)).value;
    // x * y ** (p - 2) also gives back x when multiplied by y, so it is the quotient
    LittleTheoremInverse(b, p);
    var w := Power(b, p - 2) % p;
    ReduceRight(b, Power(b, p - 2), p);
    QuotientLaw(a, b, w, p);
    Cancel(q.value, (a * w) % p, b, w, p);
    // and 1 / y is y ** -1, which is y ** (p - 2)
    ReciprocalIsInversePower(y);
    FermatLaws(y);
  }

  /** `y / y == 1` for y not zero. */
  lemma DivideBySelf(y: GF)
    requires InField(y) && y.value != 0
    ensures TrueDiv(y, Obj(y)) == Ok(Element(1, y.p))
  {
    var p := y.p;
    ModOfResidue(y.value, p);
    DivisionDefined(y, Obj(y));
    var q := TrueDiv(y, Obj(y)).value;
    PrimeInverse(y.value, p);
    var inv := Inverse(y.value, p).value;
    ModOfResidue(1, p);
    ModOfResidue(y.value, p);
    assert (1 * y.value) % p == y.value;
    Cancel(q.value, 1, y.value, inv, p);
  }

  /** `1 / x` (the reflected form) is the inverse `x ** -1`, for every element. */
  lemma ReciprocalIsInversePower(x: GF)
    requires Valid(x) && x.Element?
    ensures RTrueDiv(x, 1) == Pow(x, -1)
  {
    var p := x.p;
    var a, b := RTrueDiv(x, 1), Pow(x, -1);
    assert Power(x.value, 1) == x.value;
    if a.Ok? {
      var u, w := a.value.value, b.value.value;
      assert IsInverse(x.value, u, p) by { assert u * x.value == x.value * u; }
      assert IsInverse(x.value, w, p) by { assert w * x.value == x.value * w; }
      InverseUnique(x.value, u, w, p);
    }
  }

  // ------------------------------------------------------------------
  // Powers

  /** `x ** 0 == 1` and `x ** (e + 1) == (x ** e) * x` for e >= 0. */
  lemma PowerLaws(x: GF, e: nat)
    requires Valid(x) && x.Element?
    ensures Pow(x, 0) == Ok(Element(1 % x.p, x.p))
    ensures Pow(x, e + 1) == Mul(Pow(x, e).value, Obj(x))
  {
    var p, v := x.p, x.value;
    calc {
      Power(v, e + 1) % p;
      (v * Power(v, e)) % p;
      { assert v * Power(v, e) == Power(v, e) * v; }
      (Power(v, e) * v) % p;
      { ModMulLeft(Power(v, e), v, p); }
      ((Power(v, e) % p) * v) % p;
    }
  }

  /** A negative exponent goes through the inverse: for x not zero in a prime field,
      `x ** -e == (1 / x) ** e` and `x ** -e * x ** e == 1`; for x zero it fails. */
  lemma NegativePowers(x: GF, e: int)
    requires InField(x) && e > 0
    ensures x.value != 0 ==> Pow(x, -e).Ok? && Pow(x, -e) == Pow(RTrueDiv(x, 1).value, e)
    ensures x.value != 0 ==> Mul(Pow(x, -e).value, Obj(Pow(x, e).value)) == Ok(Element(1, x.p))
    ensures x.value == 0 ==> Pow(x, -e) == Err(NotInvertible)
  {
    var p, v := x.p, x.value;
    ModOfResidue(v, p);
    PrimeInverse(v, p);
    ModOfResidue(1, p);
    if v != 0 {
      var inv := Inverse(v, p).value;
      var r := Pow(x, -e);
      // 1 / x is the inverse of v
      ReciprocalIsInversePower(x);
      assert Power(inv, 1) == inv;
      ModOfResidue(inv, p);
      assert Pow(x, -1) == Ok(Element(inv, p));
      // r * v^e == 1 pins r down as (v^e)^-1, and inv^e is one too
      var w := Power(inv, e) % p;
      NegativePower(v, inv, e, p);
      assert IsInverse(Power(v, e), w, p) by {
        assert w * Power(v, e) == Power(v, e) * w;
      }
      assert IsInverse(Power(v, e), r.value.value, p) by {
        assert r.value.value * Power(v, e) == Power(v, e) * r.value.value;
      }
      InverseUnique(Power(v, e), w, r.value.value, p);
      // and the product with x ** e
      ReduceRight(r.value.value, Power(v, e), p);
    } else {
      assert !IsInverse(v, 0, p) by { assert (v * 0) % p == 0; }
    }
  }

  /** Fermat's little theorem in the field: `x ** p == x` for every element, and for
      x not zero `x ** (p - 1) == 1` and `x ** -1 == x ** (p - 2)`. */
  lemma FermatLaws(x: GF)
    requires InField(x)
    ensures Pow(x, x.p) == Ok(x)
    ensures x.value != 0 ==> Pow(x, x.p - 1) == Ok(Element(1, x.p))
    ensures x.value != 0 ==> Pow(x, -1) == Pow(x, x.p - 2)
  {
    var p, v := x.p, x.value;
    ModOfResidue(v, p);
    LittleTheorem(v, p);
    if v != 0 {
      LittleTheoremInverse(v, p);
      PrimeInverse(v, p);
      var w := Pow(x, -1).value.value;
      var f := Power(v, p - 2) % p;
      assert Power(v, 1) == v;
      assert IsInverse(v, w, p) by { assert w * v == v * w; }
      assert IsInverse(v, f, p) by { ReduceRight(v, Power(v, p - 2), p); }
      InverseUnique(v, w, f, p);
    }
  }

  // ------------------------------------------------------------------
  // Shifts and bitwise operations

  /** `x << n == x * 2^n`; in particular `x << 1 == x + x`. `x >> 1` halves the residue. */
  lemma Shifts(x: GF, n: nat)
    requires Valid(x) && x.Element?
    ensures LShift(x, n) == Mul(x, Int(Power(2, n)))
    ensures LShift(x, 1) == Add(x, Obj(x))
    ensures RShift(x, 1) == Ok(Element(x.value / 2, x.p))
  {
    assert Power(2, 1) == 2;
    assert x.value * 2 == x.value + x.value;
  }

  /** The bits of `x & y` are the conjunctions of the residues' bits. */
  lemma BitAndBits(x: GF, y: GF, k: nat)
    requires SameField(x, y)
    ensures BitAnd(x, Obj(y)).Ok?
    ensures Bit(BitAnd(x, Obj(y)).value.value, k) == (Bit(x.value, k) && Bit(y.value, k))
  {
    ModOfResidue(y.value, y.p);
    BitwiseBit(And, x.value, y.value, k);
  }

  /** `x & x == x`, `x | x == x`, `x ^ x == 0`, and the three commute. */
  lemma BitwiseLaws(x: GF, y: GF)
    requires SameField(x, y)
    ensures BitAnd(x, Obj(x)) == Ok(x) && BitOr(x, Obj(x)) == Ok(x)
    ensures BitXor(x, Obj(x)) == Ok(Element(0, x.p))
    ensures BitAnd(x, Obj(y)) == BitAnd(y, Obj(x))
    ensures BitOr(x, Obj(y)) == BitOr(y, Obj(x))
    ensures BitXor(x, Obj(y)) == BitXor(y, Obj(x))
  {
    ModOfResidue(x.value, x.p);
    ModOfResidue(y.value, y.p);
    BitwiseSelf(x.value);
    BitwiseCommutes(And, x.value, y.value);
    BitwiseCommutes(Or, x.value, y.value);
    BitwiseCommutes(Xor, x.value, y.value);
  }

  /** `(x & y) + (x | y) == x + y` in the field. */
  lemma AndPlusOr(x: GF, y: GF)
    requires SameField(x, y)
    ensures Add(BitAnd(x, Obj(y)).value, Obj(BitOr(x, Obj(y)).value)) == Add(x, Obj(y))
  {
    var p, a, b := x.p, x.value, y.value;
    ModOfResidue(b, p);
    AndOrXorSum(a, b);
    AndBound(a, b);
    ReduceRight(Bitwise(And, a, b), Bitwise(Or, a, b), p);
  }

  // ------------------------------------------------------------------
  // Comparisons, hashing, conversions

  /** Exactly one of `x < y`, `x == y`, `x > y` holds; `<=` is `<` or `==`. */
  lemma Trichotomy(x: GF, y: GF)
    requires SameField(x, y)
    ensures Lt(x, Obj(y)).Ok? && Eq(x, Obj(y)).Ok? && Gt(x, Obj(y)).Ok? && Le(x, Obj(y)).Ok?
    ensures (if Lt(x, Obj(y)).value then 1 else 0) + (if Eq(x, Obj(y)).value then 1 else 0)
            + (if Gt(x, Obj(y)).value then 1 else 0) == 1
    ensures Le(x, Obj(y)).value == (Lt(x, Obj(y)).value || Eq(x, Obj(y)).value)
  {
    ModOfResidue(y.value, y.p);
    if (x.value - y.value) % x.p == 0 {
      CongruentResidues(x.value, y.value, x.p);
    }
    ModOfResidue(0, x.p);
  }

  /** Swapping the operands of `<` gives `>`, and of `<=` gives `>=`, for any two objects. */
  lemma ComparisonSwap(x: GF, y: GF)
    requires Valid(x) && Valid(y)
    ensures Lt(x, Obj(y)) == Gt(y, Obj(x))
    ensures Le(x, Obj(y)) == Ge(y, Obj(x))
  {
    if SameField(x, y) {
      ModOfResidue(x.value, x.p);
      ModOfResidue(y.value, y.p);
    }
  }

  /** Equal elements hash equal. */
  lemma EqualHashEqual(x: GF, y: GF)
    requires Valid(x) && Valid(y)
    requires Eq(x, Obj(y)) == Ok(true)
    ensures Hash(x) == Hash(y)
  {
    CongruentResidues(x.value, y.value, x.p);
  }

  /** Equality coerces integers, so an element equals an integer other than its own
      residue, namely `value + p`, which is not `int(x)`, the first component of the
      hashed pair. */
  lemma EqualityCoercesIntegers(x: GF)
    requires Valid(x) && x.Element?
    ensures Eq(x, Int(x.value + x.p)) == Ok(true)
    ensures x.value + x.p != ToInt(x).value
  {
    assert x.value - (x.value + x.p) == (-1) * x.p;
    ModUnique(x.value - (x.value + x.p), x.p, -1, 0);
  }

  /** `int(field(a)) == a mod p`, and `field(int(x)) == x`. */
  lemma IntRoundTrip(p: int, a: int, x: GF)
    requires IsPrime(p) && InField(x) && x.p == p
    ensures ToInt(Call(Factory(p), a).value) == Ok(a % p)
    ensures Call(Factory(p), ToInt(x).value) == Ok(x)
  {
    CallGivesRemainder(p, a);
    CallGivesRemainder(p, x.value);
    ModOfResidue(x.value, p);
  }

  /** `bool(x)` holds exactly when the residue is not zero. */
  lemma TruthValue(x: GF)
    requires Valid(x) && x.Element?
    ensures ToBool(x) == Ok(x.value != 0)
  {
    ModOfResidue(x.value, x.p);
  }
}
