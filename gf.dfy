/** The prime-field type `GF` of core/gf.py. One datatype holds both kinds of `GF`
    object: a factory `GF(p)` that only knows its modulus, and an element `GF(v, p)`
    holding a residue. Every Python operator is one function here; the right-hand
    operand of a binary operator is either a `GF` object or a plain integer. An
    exception becomes `Err` with the kind of error raised. */
module GaloisField {
  import opened ModArith
  import opened Primality
  import opened ModInverse
  import opened Bits

  datatype Error =
    | InvalidModulus      // ValueError: `GF(p)` with p not prime
    | NotCallable         // TypeError: calling an element
    | FactoryMisuse       // ValueError: a factory used as an operand
    | IncompatibleFields  // ValueError: elements of two different moduli
    | NotInvertible       // ValueError from `pow(b, -1, p)`: b has no inverse
    | MissingValue        // AttributeError: a factory has no `value`
    | NegativeShift       // ValueError: negative shift count

  datatype Result<T> = Ok(value: T) | Err(error: Error)

  /** `is_factory` is the choice of constructor. */
  datatype GF = Factory(p: int) | Element(value: int, p: int)

  /** The right-hand operand of a binary operator. */
  datatype Operand = Obj(g: GF) | Int(n: int)

  /** What the constructor establishes: a factory's modulus passed the primality test;
      an element's residue lies in [0, p). */
  predicate Valid(x: GF) {
    match x
    case Factory(p) => IsPrime(p)
    case Element(v, p) => p >= 1 && 0 <= v < p
  }

  predicate ValidOperand(y: Operand) {
    y.Obj? ==> Valid(y.g)
  }

  /** An element whose modulus is prime, as for every element a factory produced. */
  predicate InField(x: GF) {
    x.Element? && Valid(x) && IsPrime(x.p)
  }

  // ------------------------------------------------------------------
  // Construction

  /** `GF(n)`: a factory for GF(n), provided n passes `_is_prime`. */
  method NewField(n: int) returns (r: Result<GF>)
    ensures r.Ok? <==> IsPrime(n)
    ensures r.Ok? ==> r.value == Factory(n) && Valid(r.value)
    ensures r.Err? ==> r.error == InvalidModulus
  {
    var prime := IsPrimeTrialDivision(n);
    if !prime {
      return Err(InvalidModulus);
    }
    return Ok(Factory(n));
  }

  /** `GF(value, p)`: the element holding `value % p`. */
  function Construct(value: int, p: int): (r: GF)
    requires p >= 1
    ensures r.Element? && r.p == p && Valid(r)
    ensures (value - r.value) % p == 0
  {
    ModCongruent(value, p);
    Element(value % p, p)
  }

  /** The residue in [0, p) congruent to a number is its remainder. */
  lemma ResidueIsRemainder(value: int, r: int, p: int)
    requires p >= 1 && 0 <= r < p && (value - r) % p == 0
    ensures r == value % p
  {
    SameRemainderIffCongruent(value, r, p);
    ModOfResidue(r, p);
  }

  /** `f(v)`: a factory builds the element of its field congruent to v; an element cannot be called. */
  function Call(f: GF, v: int): (r: Result<GF>)
    requires Valid(f)
    ensures f.Element? ==> r == Err(NotCallable)
    ensures f.Factory? ==> r.Ok? && r.value.Element? && r.value.p == f.p && Valid(r.value)
    ensures f.Factory? ==> (v - r.value.value) % f.p == 0
  {
    match f
    case Element(_, _) => Err(NotCallable)
    case Factory(p) => Ok(Construct(v, p))
  }

  // ------------------------------------------------------------------
  // Coercion

  /** Operands `_coerce` accepts: any integer, or an element of the same field as an element. */
  predicate Coercible(x: GF, y: Operand) {
    y.Int? || (x.Element? && y.g.Element? && x.p == y.g.p)
  }

  /** The error `_coerce` raises on the other operands. */
  function CoercionError(x: GF, y: Operand): Error
    requires !Coercible(x, y)
  {
    if x.Factory? || y.g.Factory? then FactoryMisuse else IncompatibleFields
  }

  /** `self._coerce(other)`. */
  function Coerce(x: GF, y: Operand): (r: Result<GF>)
    requires Valid(x) && ValidOperand(y)
    ensures r.Ok? <==> Coercible(x, y)
    ensures r.Err? ==> r.error == CoercionError(x, y)
    ensures r.Ok? ==> r.value.Element? && r.value.p == x.p && Valid(r.value)
    ensures r.Ok? && y.Int? ==> (y.n - r.value.value) % x.p == 0
    ensures r.Ok? && y.Obj? ==> r.value == y.g
  {
    match y
    case Obj(g) =>
      if x.Factory? || g.Factory? then Err(FactoryMisuse)
      else if x.p != g.p then Err(IncompatibleFields)
      else Ok(g)
    case Int(n) => Ok(Construct(n, x.p))
  }

  /** The coerced operand holds the residue of the integer the operand stands for. */
  lemma CoercedIsResidue(x: GF, y: Operand)
    requires Valid(x) && ValidOperand(y) && Coercible(x, y)
    ensures Coerce(x, y).value.value == Residue(x, y)
  {
    if y.Obj? {
      ModOfResidue(y.g.value, x.p);
    }
  }

  /** Operands on which a binary operator computes: coercion succeeds and self is an element. */
  predicate Compatible(x: GF, y: Operand) {
    Coercible(x, y) && x.Element?
  }

  /** The error a binary operator raises on the other operands: the coercion error,
      or, for a factory with an integer, the missing `self.value`. */
  function Rejection(x: GF, y: Operand): Error
    requires !Compatible(x, y)
  {
    if !Coercible(x, y) then CoercionError(x, y) else MissingValue
  }

  /** The integer the right-hand operand stands for. */
  function Denoted(x: GF, y: Operand): int
    requires Coercible(x, y)
  {
    if y.Int? then y.n else y.g.value
  }

  /** The residue the right-hand operand has after coercion. */
  function Residue(x: GF, y: Operand): nat
    requires Valid(x) && ValidOperand(y) && Coercible(x, y)
  {
    Denoted(x, y) % x.p
  }

  /** Coercion followed by reading `self.value` and `other.value`: the step every binary
      operator other than division starts with. */
  function Operands(x: GF, y: Operand): (r: Result<(int, int)>)
    requires Valid(x) && ValidOperand(y)
    ensures r.Ok? <==> Compatible(x, y)
    ensures r.Err? ==> r.error == Rejection(x, y)
    ensures r.Ok? ==> r.value == (x.value, Residue(x, y))
  {
    match Coerce(x, y)
    case Err(e) => Err(e)
    case Ok(o) =>
      if x.Factory? then Err(MissingValue)
      else
        CoercedIsResidue(x, y);
        Ok((x.value, o.value))
  }

  // ------------------------------------------------------------------
  // Field arithmetic

  /** `x + y`. */
  function Add(x: GF, y: Operand): (r: Result<GF>)
    requires Valid(x) && ValidOperand(y)
    ensures r.Ok? <==> Compatible(x, y)
    ensures r.Err? ==> r.error == Rejection(x, y)
    ensures r.Ok? ==> r.value == Element((x.value + Denoted(x, y)) % x.p, x.p)
  {
    match Operands(x, y)
    case Err(e) => Err(e)
    case Ok((a, b)) =>
      ReduceRight(a, Denoted(x, y), x.p);
      Ok(Construct(a + b, x.p))
  }

  /** `x - y`. */
  function Sub(x: GF, y: Operand): (r: Result<GF>)
    requires Valid(x) && ValidOperand(y)
    ensures r.Ok? <==> Compatible(x, y)
    ensures r.Err? ==> r.error == Rejection(x, y)
    ensures r.Ok? ==> r.value == Element((x.value - Denoted(x, y)) % x.p, x.p)
  {
    match Operands(x, y)
    case Err(e) => Err(e)
    case Ok((a, b)) =>
      ReduceRight(a, Denoted(x, y), x.p);
      Ok(Construct(a - b, x.p))
  }

  /** `x * y`. */
  function Mul(x: GF, y: Operand): (r: Result<GF>)
    requires Valid(x) && ValidOperand(y)
    ensures r.Ok? <==> Compatible(x, y)
    ensures r.Err? ==> r.error == Rejection(x, y)
    ensures r.Ok? ==> r.value == Element((x.value * Denoted(x, y)) % x.p, x.p)
  {
    match Operands(x, y)
    case Err(e) => Err(e)
    case Ok((a, b)) =>
      ReduceRight(a, Denoted(x, y), x.p);
      Ok(Construct(a * b, x.p))
  }

  /** `x / y`: the quotient q with q * y == x; it fails exactly when the residue of y
      has no inverse (`pow(b, -1, p)` raises). The inverse of `other.value` is computed
      before `self.value` is read, so a factory divided by a non-invertible integer
      fails with NotInvertible and by an invertible one with MissingValue. */
  function TrueDiv(x: GF, y: Operand): (r: Result<GF>)
    requires Valid(x) && ValidOperand(y)
    ensures !Coercible(x, y) ==> r == Err(CoercionError(x, y))
    ensures Coercible(x, y) ==> (r == Err(NotInvertible) <==> Inverse(Residue(x, y), x.p).None?)
    ensures Compatible(x, y) && Inverse(Residue(x, y), x.p).Some? ==> r.Ok?
    ensures Coercible(x, y) && x.Factory? && Inverse(Residue(x, y), x.p).Some? ==> r == Err(MissingValue)
    ensures r.Ok? ==> Compatible(x, y) && Valid(r.value) && r.value.Element? && r.value.p == x.p
    ensures r.Ok? ==> (r.value.value * Denoted(x, y)) % x.p == x.value
    ensures r == Err(NotInvertible) ==> forall z :: !IsInverse(Denoted(x, y), z, x.p)
  {
    match Coerce(x, y)
    case Err(e) => Err(e)
    case Ok(o) =>
      CoercedIsResidue(x, y);
      match Inverse(o.value, x.p)
      case None =>
        NoInverseOfRemainder(Denoted(x, y), x.p);
        Err(NotInvertible)
      case Some(inv) =>
        if x.Factory? then Err(MissingValue)
        else
          InverseOfRemainder(Denoted(x, y), inv, x.p);
          QuotientLaw(x.value, Denoted(x, y), inv, x.p);
          Ok(Construct(x.value * inv, x.p))
  }

  /** An inverse of a remainder is an inverse of the number. */
  lemma InverseOfRemainder(d: int, z: int, p: int)
    requires p >= 1 && IsInverse(d % p, z, p)
    ensures IsInverse(d, z, p)
  {
    ModMulLeft(d, z, p);
  }

  /** A number whose remainder has no inverse has none either. */
  lemma NoInverseOfRemainder(d: int, p: int)
    requires p >= 1 && forall z :: !IsInverse(d % p, z, p)
    ensures forall z :: !IsInverse(d, z, p)
  {
    forall z
      ensures !IsInverse(d, z, p)
    {
      assert !IsInverse(d % p, z, p);
      ModMulLeft(d, z, p);
    }
  }

  /** Multiplying by an inverse of d and then by d gives back the residue. */
  lemma QuotientLaw(v: int, d: int, inv: int, p: int)
    requires p >= 1 && 0 <= v < p && IsInverse(d, inv, p)
    ensures (((v * inv) % p) * d) % p == v
  {
    calc {
      (((v * inv) % p) * d) % p;
      { ModMulLeft(v * inv, d, p); }
      ((v * inv) * d) % p;
      { assert (v * inv) * d == v * (d * inv); }
      (v * (d * inv)) % p;
      { ReduceRight(v, d * inv, p); }
      (v * ((d * inv) % p)) % p;
      (v * (1 % p)) % p;
      { ReduceRight(v, 1, p); }
      v % p;
      { ModOfResidue(v, p); }
      v;
    }
  }

  /** `x // y`: an alias of true division, so the result is the field quotient and
      not the integer quotient of the residues. */
  function FloorDiv(x: GF, y: Operand): (r: Result<GF>)
    requires Valid(x) && ValidOperand(y)
    ensures r == TrueDiv(x, y)
    ensures r.Ok? ==> (r.value.value * Denoted(x, y)) % x.p == x.value
  {
    TrueDiv(x, y)
  }

  /** `x ** e`: Python's `pow(value, e, p)`. A negative exponent first inverts the residue. */
  function Pow(x: GF, e: int): (r: Result<GF>)
    requires Valid(x)
    ensures x.Factory? ==> r == Err(MissingValue)
    ensures x.Element? && e >= 0 ==> r == Ok(Element(Power(x.value, e) % x.p, x.p))
    ensures x.Element? && e < 0 ==> (r.Ok? <==> Inverse(x.value, x.p).Some?)
    ensures x.Element? && e < 0 && r.Ok? ==>
              Valid(r.value) && r.value.Element? && r.value.p == x.p &&
              (r.value.value * Power(x.value, -e)) % x.p == 1 % x.p
    ensures x.Element? && e < 0 && r.Err? ==> r.error == NotInvertible && forall z :: !IsInverse(x.value, z, x.p)
  {
    match x
    case Factory(_) => Err(MissingValue)
    case Element(v, p) =>
      match ModPow(v, e, p)
      case None => Err(NotInvertible)
      case Some(w) =>
        ModOfResidue(w, p);
        Ok(Construct(w, p))
  }

  /** `-x`: the additive inverse, `(p - value) mod p`. */
  function Neg(x: GF): (r: Result<GF>)
    requires Valid(x)
    ensures x.Factory? ==> r == Err(MissingValue)
    ensures x.Element? ==> r == Ok(Element((x.p - x.value) % x.p, x.p))
  {
    match x
    case Factory(_) => Err(MissingValue)
    case Element(v, p) =>
      ModAddMultiple(-v, 1, p);
      Ok(Construct(-v, p))
  }

  // ------------------------------------------------------------------
  // Reflected forms, for an integer on the left

  /** `n + x` (`__radd__`). */
  function RAdd(x: GF, n: int): (r: Result<GF>)
    requires Valid(x)
    ensures x.Factory? ==> r == Err(MissingValue)
    ensures x.Element? ==> r == Ok(Element((n + x.value) % x.p, x.p))
  {
    Add(x, Int(n))
  }

  /** `n - x` (`__rsub__`), computed as `-x + n`. */
  function RSub(x: GF, n: int): (r: Result<GF>)
    requires Valid(x)
    ensures x.Factory? ==> r == Err(MissingValue)
    ensures x.Element? ==> r == Ok(Element((n - x.value) % x.p, x.p))
  {
    match Neg(x)
    case Err(e) => Err(e)
    case Ok(m) =>
      ModAdd(x.p - x.value, n, x.p);
      ModAdd((x.p - x.value) % x.p, n, x.p);
      ModMod(x.p - x.value, x.p);
      ModAddMultiple(n - x.value, 1, x.p);
      Add(m, Int(n))
  }

  /** `n * x` (`__rmul__`). */
  function RMul(x: GF, n: int): (r: Result<GF>)
    requires Valid(x)
    ensures x.Factory? ==> r == Err(MissingValue)
    ensures x.Element? ==> r == Ok(Element((n * x.value) % x.p, x.p))
  {
    assert x.Element? ==> x.value * n == n * x.value;
    Mul(x, Int(n))
  }

  /** `n / x` (`__rtruediv__`), computed as `self._coerce(n) / self`. With a factory
      on the right the coerced element meets the factory and fails. */
  function RTrueDiv(x: GF, n: int): (r: Result<GF>)
    requires Valid(x)
    ensures x.Factory? ==> r == Err(FactoryMisuse)
    ensures x.Element? ==> (r.Ok? <==> Inverse(x.value, x.p).Some?)
    ensures x.Element? && r.Ok? ==>
              Valid(r.value) && r.value.Element? && r.value.p == x.p &&
              (r.value.value * x.value) % x.p == n % x.p
    ensures x.Element? && r.Err? ==> r.error == NotInvertible && forall z :: !IsInverse(x.value, z, x.p)
  {
    match Coerce(x, Int(n))
    case Err(e) => Err(e)
    case Ok(c) =>
      ResidueIsRemainder(n, c.value, x.p);
      if x.Element? then
        ModOfResidue(x.value, x.p);
        TrueDiv(c, Obj(x))
      else
        TrueDiv(c, Obj(x))
  }

  // ------------------------------------------------------------------
  // Bitwise operations on the residues (not field operations)

  /** `x & y`: never exceeds the residues, so the reduction changes nothing. */
  function BitAnd(x: GF, y: Operand): (r: Result<GF>)
    requires Valid(x) && ValidOperand(y)
    ensures r.Ok? <==> Compatible(x, y)
    ensures r.Err? ==> r.error == Rejection(x, y)
    ensures r.Ok? ==> r.value == Element(Bitwise(And, x.value, Residue(x, y)), x.p)
  {
    match Operands(x, y)
    case Err(e) => Err(e)
    case Ok((a, b)) =>
      AndBound(a, b);
      ModOfResidue(Bitwise(And, a, b), x.p);
      Ok(Construct(Bitwise(And, a, b), x.p))
  }

  /** `x | y`: reduced, since it can reach up to 2p - 2. */
  function BitOr(x: GF, y: Operand): (r: Result<GF>)
    requires Valid(x) && ValidOperand(y)
    ensures r.Ok? <==> Compatible(x, y)
    ensures r.Err? ==> r.error == Rejection(x, y)
    ensures r.Ok? ==> r.value == Element(Bitwise(Or, x.value, Residue(x, y)) % x.p, x.p)
  {
    match Operands(x, y)
    case Err(e) => Err(e)
    case Ok((a, b)) => Ok(Construct(Bitwise(Or, a, b), x.p))
  }

  /** `x ^ y`. */
  function BitXor(x: GF, y: Operand): (r: Result<GF>)
    requires Valid(x) && ValidOperand(y)
    ensures r.Ok? <==> Compatible(x, y)
    ensures r.Err? ==> r.error == Rejection(x, y)
    ensures r.Ok? ==> r.value == Element(Bitwise(Xor, x.value, Residue(x, y)) % x.p, x.p)
  {
    match Operands(x, y)
    case Err(e) => Err(e)
    case Ok((a, b)) => Ok(Construct(Bitwise(Xor, a, b), x.p))
  }

  /** `x << n`: `value * 2^n`, reduced (twice in the source, which changes nothing). */
  function LShift(x: GF, n: int): (r: Result<GF>)
    requires Valid(x)
    ensures x.Factory? ==> r == Err(MissingValue)
    ensures x.Element? && n < 0 ==> r == Err(NegativeShift)
    ensures x.Element? && n >= 0 ==> r == Ok(Element((x.value * Power(2, n)) % x.p, x.p))
  {
    match x
    case Factory(_) => Err(MissingValue)
    case Element(v, p) =>
      if n < 0 then Err(NegativeShift)
      else
        ShiftLeftIsMul(v, n);
        ModMod(ShiftLeft(v, n), p);
        Ok(Construct(ShiftLeft(v, n) % p, p))
  }

  /** `x >> n`: `value / 2^n`, which is below p already, so the result is not reduced. */
  function RShift(x: GF, n: int): (r: Result<GF>)
    requires Valid(x)
    ensures x.Factory? ==> r == Err(MissingValue)
    ensures x.Element? && n < 0 ==> r == Err(NegativeShift)
    ensures x.Element? && n >= 0 ==> Power(2, n) > 0 && r == Ok(Element(x.value / Power(2, n), x.p))
  {
    match x
    case Factory(_) => Err(MissingValue)
    case Element(v, p) =>
      if n < 0 then Err(NegativeShift)
      else
        ShiftRightIsDiv(v, n);
        ShiftRightBound(v, n);
        ModOfResidue(ShiftRight(v, n), p);
        Ok(Construct(ShiftRight(v, n), p))
  }

  // ------------------------------------------------------------------
  // Comparisons

  /** `x == y`: the operands are congruent modulo p. */
  function Eq(x: GF, y: Operand): (r: Result<bool>)
    requires Valid(x) && ValidOperand(y)
    ensures r.Ok? <==> Compatible(x, y)
    ensures r.Err? ==> r.error == Rejection(x, y)
    ensures r.Ok? ==> (r.value <==> (x.value - Denoted(x, y)) % x.p == 0)
  {
    match Operands(x, y)
    case Err(e) => Err(e)
    case Ok((a, b)) =>
      ModOfResidue(a, x.p);
      SameRemainderIffCongruent(a, Denoted(x, y), x.p);
      Ok(a == b)
  }

  /** `x != y`: Python's default `__ne__`, the negation of `__eq__`. */
  function Ne(x: GF, y: Operand): (r: Result<bool>)
    requires Valid(x) && ValidOperand(y)
    ensures r.Ok? <==> Compatible(x, y)
    ensures r.Err? ==> r.error == Rejection(x, y)
    ensures r.Ok? ==> (r.value <==> (x.value - Denoted(x, y)) % x.p != 0)
  {
    match Eq(x, y)
    case Err(e) => Err(e)
    case Ok(b) => Ok(!b)
  }

  /** `x < y` on residues. */
  function Lt(x: GF, y: Operand): (r: Result<bool>)
    requires Valid(x) && ValidOperand(y)
    ensures r.Ok? <==> Compatible(x, y)
    ensures r.Err? ==> r.error == Rejection(x, y)
    ensures r.Ok? ==> r.value == (x.value < Residue(x, y))
  {
    match Operands(x, y)
    case Err(e) => Err(e)
    case Ok((a, b)) => Ok(a < b)
  }

  /** `x <= y` on residues. */
  function Le(x: GF, y: Operand): (r: Result<bool>)
    requires Valid(x) && ValidOperand(y)
    ensures r.Ok? <==> Compatible(x, y)
    ensures r.Err? ==> r.error == Rejection(x, y)
    ensures r.Ok? ==> r.value == (x.value <= Residue(x, y))
  {
    match Operands(x, y)
    case Err(e) => Err(e)
    case Ok((a, b)) => Ok(a <= b)
  }

  /** `x > y` on residues. */
  function Gt(x: GF, y: Operand): (r: Result<bool>)
    requires Valid(x) && ValidOperand(y)
    ensures r.Ok? <==> Compatible(x, y)
    ensures r.Err? ==> r.error == Rejection(x, y)
    ensures r.Ok? ==> r.value == (x.value > Residue(x, y))
  {
    match Operands(x, y)
    case Err(e) => Err(e)
    case Ok((a, b)) => Ok(a > b)
  }

  /** `x >= y` on residues. */
  function Ge(x: GF, y: Operand): (r: Result<bool>)
    requires Valid(x) && ValidOperand(y)
    ensures r.Ok? <==> Compatible(x, y)
    ensures r.Err? ==> r.error == Rejection(x, y)
    ensures r.Ok? ==> r.value == (x.value >= Residue(x, y))
  {
    match Operands(x, y)
    case Err(e) => Err(e)
    case Ok((a, b)) => Ok(a >= b)
  }

  // ------------------------------------------------------------------
  // Hashing and conversions

  /** `hash(x)`, as the pair `(value, p)` that Python hashes. */
  function Hash(x: GF): (r: Result<(int, int)>)
    requires Valid(x)
    ensures x.Factory? ==> r == Err(MissingValue)
    ensures x.Element? ==> r.Ok? && Element(r.value.0, r.value.1) == x
  {
    match x
    case Factory(_) => Err(MissingValue)
    case Element(v, p) => Ok((v, p))
  }

  /** `int(x)`: the residue; rebuilding an element from it gives x back. */
  function ToInt(x: GF): (r: Result<int>)
    requires Valid(x)
    ensures x.Factory? ==> r == Err(MissingValue)
    ensures x.Element? ==> r.Ok? && 0 <= r.value < x.p && Construct(r.value, x.p) == x
  {
    match x
    case Factory(_) => Err(MissingValue)
    case Element(v, p) =>
      ModOfResidue(v, p);
      Ok(v)
  }

  /** `operator.index(x)`: the same residue as `int(x)`. */
  function Index(x: GF): (r: Result<int>)
    requires Valid(x)
    ensures r == ToInt(x)
  {
    match x
    case Factory(_) => Err(MissingValue)
    case Element(v, _) => Ok(v)
  }

  /** `abs(x)`: `abs(value)`, which is the residue itself. */
  function Abs(x: GF): (r: Result<int>)
    requires Valid(x)
    ensures r == ToInt(x)
  {
    match x
    case Factory(_) => Err(MissingValue)
    case Element(v, _) => Ok(if v < 0 then -v else v)
  }

  /** `bool(x)`: true exactly when x is not equal to zero. */
  function ToBool(x: GF): (r: Result<bool>)
    requires Valid(x)
    ensures x.Factory? ==> r == Err(MissingValue)
    ensures x.Element? ==> r.Ok? && (r.value <==> Eq(x, Int(0)) == Ok(false))
  {
    match x
    case Factory(_) => Err(MissingValue)
    case Element(v, p) =>
      ModOfResidue(v, p);
      Ok(v != 0)
  }
}
