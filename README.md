# GF(p) prime-field arithmetic in Dafny

This project models the `GF` class of AlgebraKit (`core/gf.py`), a type for the
prime field GF(p). A `GF` object is one of two things:

- a **factory** `GF(p)`. It knows only its modulus and is created only when `p` passes the trial-division primality test `_is_prime`;
- an **element** `GF(v, p)`. It stores the residue `v % p`.

The Python operators work on elements. Each binary arithmetic, bitwise and
comparison operator coerces its right operand with `_coerce` and computes on the two
residues. Coercion lifts a plain integer into the field and refuses factories and
elements of another modulus. `**`, `<<` and `>>` take a plain integer without
coercion, and `-x` has no operand, so none of these four can fail on a factory
operand or a foreign field. Arithmetic, bitwise and shift operators build a fresh
element; comparisons return a bool, and `int`, `abs`, `bool` and `hash` return the
residue or a value computed from it.

How the model is laid out:

- `GF` is a datatype with two constructors, `Factory(p)` and `Element(value, p)`.
- The right-hand operand of a binary operator is `Obj(g)` or `Int(n)`.
- Every Python exception becomes `Err(kind)` in a `Result`.
- Each operator is a function whose contract gives its exact result and its exact error.

Proved about the model:

- the field laws for elements of a prime field;
- division as the inverse of multiplication;
- the power laws, including negative exponents;
- Fermat's little theorem;
- the bitwise and shift identities;
- the relation between comparison, hashing and conversion.

Modules:

- `ModArith` (mod_arith.dfy): remainder, divisibility and power facts. For a positive modulus, Python's `%` is the Euclidean remainder.
- `Primality` (primality.dfy): the `_is_prime` loop, proved equal to the definition of a prime.
- `ModInverse` (mod_inverse.dfy): Python's `pow(b, e, m)`. The inverse used for negative exponents comes from the extended Euclidean algorithm and is proved to be the unique inverse in `[0, m)`.
- `Bits` (bits.dfy): `&`, `|`, `^`, `<<`, `>>` on unbounded naturals, defined bit by bit.
- `Fermat` (fermat.dfy): binomial coefficients, the binomial theorem and Fermat's little theorem.
- `GaloisField` (gf.dfy): the `GF` class itself.
- `FieldLaws` (field_laws.dfy): laws that relate several operators.
- `GfExamples` (examples.dfy): the scenarios of `tests/gf_test.py`, with p = 31, x = 13 and y = 19.

Behaviour of the code worth noting:

- **Moduli in comparisons.** `__eq__` goes through `_coerce`, so comparing elements of two different moduli raises, and `Eq` gives `IncompatibleFields`. Only a plain integer is compared without a modulus check, since it is coerced first. `FieldLaws.EqualityCoercesIntegers` shows that `x == value + p` holds although that integer is not `int(x)`, the first component of the hashed pair.
- **Dividing by zero.** For p > 1 this raises the `ValueError` of `pow(0, -1, p)`. There is no separate division-by-zero error, and the model calls the error `NotInvertible`. For p == 1, which the two-argument constructor allows, every residue is 0 and `pow(0, -1, 1)` is 0, so `GF(0, 1) / GF(0, 1)` gives `GF(0, 1)`; `ModInverse.Inverse` returns `Some(0)` there as well.
- **Right shift.** The result is not reduced while a left shift is. The remainder the constructor takes changes nothing for right shift, since shifting right never leaves [0, p).

## Model

| member | source | states |
|---|---|---|
| Primality.IsPrimeTrialDivision | core/gf.py:18-25 | `_is_prime(n)` returns true exactly when n is prime: every n <= 1 is rejected, and trial division by every i with i * i <= n finds a divisor exactly when n is composite |
| Primality.NoSmallFactorMeansPrime | core/gf.py:22-25 | stopping the search at the square root is sound: a number above one with no divisor below i, where i * i > n, is prime |
| GaloisField.NewField | core/gf.py:2-7 | `GF(n)` succeeds exactly when n is prime and then yields the factory for n; otherwise it raises the invalid-modulus error |
| GaloisField.Construct | core/gf.py:8-11 | `GF(v, p)` builds an element of modulus p whose residue lies in [0, p) and is congruent to v |
| GaloisField.Call | core/gf.py:13-16 | calling a factory gives a valid element of its field congruent to the argument; calling an element raises the not-callable error |
| GaloisField.Coerce | core/gf.py:133-140 | `_coerce` accepts exactly integers and same-modulus elements; a factory on either side fails with factory misuse and two moduli with incompatible fields; an integer is lifted to a congruent element of self's field and an element is returned unchanged |
| GaloisField.CoercedIsResidue | core/gf.py:133-140 | the coerced operand's value is the remainder of the integer the operand stands for |
| GaloisField.Add | core/gf.py:28-30 | `x + y` is defined exactly when self is an element and y coerces; it is `(x + y) mod p`, with coercion errors kept and a factory on the left failing on the missing value |
| GaloisField.RAdd | core/gf.py:32-33 | `n + x` is `(n + x) mod p`; on a factory it fails on the missing value |
| GaloisField.Sub | core/gf.py:35-37 | `x - y` is `(x - y) mod p` under the same conditions and errors as addition |
| GaloisField.RSub | core/gf.py:39-40 | `n - x`, computed as `-x + n`, is `(n - x) mod p` |
| GaloisField.Mul | core/gf.py:42-44 | `x * y` is `(x * y) mod p` under the same conditions and errors as addition |
| GaloisField.RMul | core/gf.py:46-47 | `n * x` is `(n * x) mod p` |
| GaloisField.TrueDiv | core/gf.py:49-52 | `x / y` fails with the non-invertible error exactly when y's residue has no inverse modulo p, and otherwise succeeds on an element; the quotient q satisfies `q * y == x` modulo p; the inverse is taken before `self.value` is read, so a factory on the left fails with the missing value only for an invertible divisor |
| GaloisField.RTrueDiv | core/gf.py:54-55 | `n / x` succeeds exactly when x is invertible, and then gives q with `q * x == n` modulo p; against a factory, the coerced integer meets the factory and fails with factory misuse |
| GaloisField.FloorDiv | core/gf.py:57-58 | `x // y` is true division for every input, so it gives the field quotient and not the integer quotient |
| GaloisField.Pow | core/gf.py:60-61 | for e >= 0, `x ** e` is `value ** e mod p`; for e < 0 it succeeds exactly when the residue is invertible, and the result times `value ** -e` is 1 modulo p; otherwise it fails with the non-invertible error |
| GaloisField.Neg | core/gf.py:63-64 | `-x` is `(p - value) mod p` |
| GaloisField.BitAnd | core/gf.py:67-69 | `x & y` is the bitwise and of the two residues, which needs no reduction |
| GaloisField.BitOr | core/gf.py:71-73 | `__or__` is the bitwise or of the residues reduced mod p |
| GaloisField.BitXor | core/gf.py:75-77 | `x ^ y` is the bitwise exclusive or of the residues reduced mod p |
| GaloisField.LShift | core/gf.py:79-80 | `x << n` is `value * 2^n mod p`; a negative count fails |
| GaloisField.RShift | core/gf.py:82-83 | `x >> n` is `value / 2^n`, which is below p, so it is left unreduced; a negative count fails |
| GaloisField.Eq | core/gf.py:86-88 | `x == y` holds exactly when x and the operand are congruent modulo p; coercion errors propagate |
| GaloisField.Ne | core/gf.py:86-88 | `x != y`, the negation of `__eq__`, holds exactly when the two are not congruent |
| GaloisField.Lt | core/gf.py:90-92 | `x < y` compares x's residue with the operand's residue |
| GaloisField.Le | core/gf.py:94-96 | `x <= y` compares the residues |
| GaloisField.Gt | core/gf.py:98-100 | `x > y` compares the residues |
| GaloisField.Ge | core/gf.py:102-104 | `x >= y` compares the residues |
| GaloisField.Hash | core/gf.py:107-108 | the value hashed is the pair `(value, p)`, which determines the element |
| GaloisField.ToInt | core/gf.py:111-112 | `int(x)` is the residue, which lies in [0, p), and rebuilding an element from it gives x back |
| GaloisField.Index | core/gf.py:114-115 | `__index__` agrees with `int(x)` on every object |
| GaloisField.Abs | core/gf.py:117-118 | `abs(x)` agrees with `int(x)`, since the residue is never negative |
| GaloisField.ToBool | core/gf.py:120-121 | `bool(x)` holds exactly when x is not equal to zero |
| ModInverse.Inverse | core/gf.py:51 | `pow(a, -1, m)` gives an inverse in [0, m) when one exists, and fails only when no integer is an inverse |
| ModInverse.InverseUnique | core/gf.py:51 | inverses in [0, m) are unique, so the computed inverse is the one Python returns |
| ModInverse.PrimeInverse | core/gf.py:49-52 | modulo a prime, a number is invertible exactly when it is not a multiple of the prime |
| ModInverse.ModPow | core/gf.py:61 | `pow(b, e, m)`: for e >= 0, `b ** e mod m`; for e < 0, it fails exactly when b has no inverse, and otherwise gives a residue that times `b ** -e` is 1 |
| Bits.BitwiseBit | core/gf.py:67-77 | bit k of the and, or and exclusive or of a and b is the operator applied to bit k of a and of b |
| Bits.BitsDetermine | core/gf.py:67-77 | two naturals with the same bits are equal, so the bitwise functions are fixed by the bit law |
| Bits.AndBound | core/gf.py:67-69 | `a & b` never exceeds either operand |
| Bits.AndOrXorSum | core/gf.py:67-77 | and plus or is `a + b`, and exclusive or is or minus and |
| Bits.BitwiseCommutes | core/gf.py:67-77 | each bitwise operator is commutative |
| Bits.BitwiseSelf | core/gf.py:67-77 | and and or of a with itself give a, exclusive or gives 0 |
| Bits.ShiftLeftIsMul | core/gf.py:79-80 | `v << n == v * 2^n` |
| Bits.ShiftRightIsDiv | core/gf.py:82-83 | `v >> n == v / 2^n` |
| Bits.ShiftRightBound | core/gf.py:82-83 | `v >> n <= v` |
| Fermat.PrimeDividesChoose | core/gf.py:60-61 | an integer lemma supporting `FieldLaws.FermatLaws`: a prime p divides every binomial coefficient C(p, k) with 0 < k < p |
| Fermat.BinomialTheorem | core/gf.py:60-61 | an integer lemma supporting `FieldLaws.FermatLaws`: `(a + 1) ** n` is the sum of `C(n, k) * a ** k` for k from 0 to n |
| Fermat.FreshmansDream | core/gf.py:60-61 | an integer lemma supporting `FieldLaws.FermatLaws`: `(a + 1) ** p == a ** p + 1` modulo a prime p |
| Fermat.LittleTheorem | core/gf.py:60-61 | Fermat's little theorem: `a ** p == a` modulo a prime p, for every integer a |
| Fermat.LittleTheoremInverse | core/gf.py:49-61 | for a not divisible by p, `a ** (p - 1) == 1` and `a ** (p - 2)` is an inverse of a modulo p |
| FieldLaws.CallGivesRemainder | core/gf.py:13-16 | `field(v)` is the element holding `v % p`, negative v included |
| FieldLaws.FactoryArithmetic | core/gf.py:28-44 | `field(a) op field(b) == field(a op b)` for `+`, `-` and `*` |
| FieldLaws.Commutative | core/gf.py:28-44 | `x + y == y + x` and `x * y == y * x` for any two objects, errors included |
| FieldLaws.AddAssociative | core/gf.py:28-30 | addition of elements of one field is associative |
| FieldLaws.MulAssociative | core/gf.py:42-44 | multiplication of elements of one field is associative |
| FieldLaws.Distributive | core/gf.py:28-44 | `x * (y + z) == x * y + x * z` |
| FieldLaws.Identities | core/gf.py:28-44 | 0 and 1 are the identities of addition and multiplication, and `x + (-x) == 0` |
| FieldLaws.Subtraction | core/gf.py:35-37 | `x - y == x + (-y)`, and negation is an involution |
| FieldLaws.ReflectedSubtraction | core/gf.py:39-40 | `c - x == -x + c`, and `-0 == 0` |
| FieldLaws.ReflectedForms | core/gf.py:32-47 | the reflected forms agree with the forward ones: `n + x == x + n`, `n * x == x * n`, and `n - x == field(n) - x` |
| FieldLaws.DivisionDefined | core/gf.py:49-52 | in a prime field, division succeeds exactly for a nonzero divisor, and dividing by zero fails with the non-invertible error |
| FieldLaws.DivideThenMultiply | core/gf.py:49-52 | `(x / y) * y == x` for y nonzero |
| FieldLaws.MultiplyThenDivide | core/gf.py:42-52 | `(x * y) / y == x` for y nonzero |
| FieldLaws.DivideBySelf | core/gf.py:49-52 | `y / y == 1` for y nonzero |
| FieldLaws.DivIsMulFermat | core/gf.py:49-61 | for y nonzero, `x / y == x * y ** (p - 2)` and `x / y == x * (1 / y)` |
| FieldLaws.ReciprocalIsInversePower | core/gf.py:54-61 | `1 / x == x ** -1` for every element, errors included |
| FieldLaws.PowerLaws | core/gf.py:60-61 | `x ** 0 == 1` and `x ** (e + 1) == (x ** e) * x` |
| FieldLaws.NegativePowers | core/gf.py:60-61 | for x nonzero, `x ** -e == (1 / x) ** e` and `x ** -e * x ** e == 1`; for x zero, a negative power fails |
| FieldLaws.FermatLaws | core/gf.py:60-61 | `x ** p == x`, and for x nonzero `x ** (p - 1) == 1` and `x ** -1 == x ** (p - 2)` |
| FieldLaws.Shifts | core/gf.py:79-83 | `x << n == x * 2^n`, `x << 1 == x + x`, and `x >> 1` halves the residue |
| FieldLaws.BitAndBits | core/gf.py:67-69 | every bit of `x & y` is the conjunction of the residues' bits |
| FieldLaws.BitwiseLaws | core/gf.py:67-77 | and and or of x with itself give x, exclusive or gives 0, and the three operators commute |
| FieldLaws.AndPlusOr | core/gf.py:67-73 | the and plus the or of x and y is `x + y` in the field |
| FieldLaws.Trichotomy | core/gf.py:86-104 | exactly one of `x < y`, `x == y`, `x > y` holds, and `x <= y` is `x < y or x == y` |
| FieldLaws.ComparisonSwap | core/gf.py:90-104 | `x < y` is `y > x` and `x <= y` is `y >= x`, errors included |
| FieldLaws.EqualHashEqual | core/gf.py:86-108 | elements that compare equal hash equal |
| FieldLaws.EqualityCoercesIntegers | core/gf.py:86-88 | an element equals the integer `value + p`, which is not its `int` value, because integers are coerced before the comparison |
| FieldLaws.IntRoundTrip | core/gf.py:111-112 | `int(field(a)) == a % p` and `field(int(x)) == x` |
| FieldLaws.TruthValue | core/gf.py:120-121 | `bool(x)` is `value != 0` |
| GfExamples.ThirtyOneIsPrime | tests/gf_test.py:4-6 | 31 is prime |
| GfExamples.Construction | tests/gf_test.py:4-6 | `GF(31)` yields a factory, and `GF(4)` raises the invalid-modulus error |
| GfExamples.Elements | tests/gf_test.py:8-10 | `field(13)` and `field(19)` hold 13 and 19 |
| GfExamples.Inverses | tests/gf_test.py:25-28 | `pow(19, -1, 31) == 18` and `pow(13, -1, 31) == 12` |
| GfExamples.Arithmetic | tests/gf_test.py:12-23 | `x + y == 1`, `x - y == 25`, `y - x == 6`, `x * y == 30` |
| GfExamples.Division | tests/gf_test.py:25-28 | `x / y == x // y == 17` and `y / x == 11` |
| GfExamples.DivisionBySelf | tests/gf_test.py:30-33 | `x / x == y / y == 1` |
| GfExamples.PowersAndNegation | tests/gf_test.py:35-42 | `x ** 5 == 6`, `y ** 3 == 8`, `-x == 18` |
| GfExamples.MixedOperations | tests/gf_test.py:44-49 | `x + 3 == 3 + x == 16`, `7 * x == 29`, `1 / x == 12` |
| GfExamples.BitwiseOperations | tests/gf_test.py:51-55 | `x & y == 1`, the or is 0, `x ^ y == 30` |
| GfExamples.ShiftOperations | tests/gf_test.py:56-57 | `x << 1 == 26` and `x >> 1 == 6` |
| GfExamples.ComparisonsAndHashing | tests/gf_test.py:59-70 | the orderings of the tests hold, `x != y`, and x equals and hashes like `field(13)` |
| GfExamples.Casting | tests/gf_test.py:72-75 | `int(x) == 13` and `bool(x)` |
| GfExamples.Errors | core/gf.py:133-140 | a factory with an element fails with factory misuse, two moduli with incompatible fields, a factory with an integer on the missing value, calling an element is refused, and dividing by or inverting zero fails |

## Left out

- `__repr__` and `__str__` (core/gf.py:123-130) are string formatting. The model does not cover them, and `str(x) == "13"` in the tests is not stated.
- `__hash__` is modelled as the pair `(value, p)` that Python hashes, not as Python's tuple hash function, which is not part of this model.
- Primality.IsPrimeTrialDivision: the loop bound `int(n ** 0.5)` is a float square root, modelled as the exact condition `i * i <= n`. Float rounding for very large n is not captured, and neither is the OverflowError that `n ** 0.5` raises for n of 2^1024 or more (every n too large to convert to a float), for which `GF(n)` raises while `GaloisField.NewField` returns the factory when n is prime.
- Elements with a modulus p <= 0 built by the two-argument constructor are excluded by `Valid`, which requires p >= 1. Python's `%` would raise for p == 0 and give non-positive residues for p < 0.
- Element moduli are not required to be prime, as in the code. The laws that need a prime modulus (division, negative powers, Fermat) assume it, through `InField`.
- Operands are restricted to integers and `GF` objects (`Obj` and `Int`). Python also accepts other numbers: `_coerce` turns a float f into `GF(f, p)` holding `f % p`, which is not an integer, so `field(13) + 0.5` holds 13.5, and comparisons such as `field(13) == 0.5` compare against 0.5 without error. Division, the bitwise operators, and powers and shifts by a float raise `TypeError`. None of this, nor non-numeric operands or `GF()` with no modulus, is modelled.
- The reflected operators that the class does not define are not modelled. These are the reflected comparisons, `n // x`, `n ** x`, `n & x`, `n << x` and the like. Python resolves them at run time, raising `TypeError` or using the other operand's method. Only `__radd__`, `__rsub__`, `__rmul__` and `__rtruediv__` are modelled.
- A `GF` object as an exponent or a shift count is not modelled. `GaloisField.Pow`, `GaloisField.LShift` and `GaloisField.RShift` take plain integers.
- The error messages of the exceptions are not modelled, only their kinds.
