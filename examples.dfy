/** The scenarios of the repository's tests, on the field of 31 elements with
    x = field(13) and y = field(19), stated about the model. */
module GfExamples {
  import opened ModArith
  import opened Primality
  import opened ModInverse
  import opened Bits
  import opened GaloisField
  import opened FieldLaws

  lemma ThirtyOneIsPrime()
    ensures IsPrime(31)
  {
    assert forall d :: 1 < d < 6 ==> !Divides(d, 31) by {
      assert 31 % 2 == 1 && 31 % 3 == 1 && 31 % 4 == 3 && 31 % 5 == 1;
    }
    NoSmallFactorMeansPrime(31, 6);
  }

  /** `GF(31)` is a field and `GF(4)` is refused. */
  method Construction() returns (f: Result<GF>, g: Result<GF>)
    ensures f == Ok(Factory(31))
    ensures g == Err(InvalidModulus)
  {
    ThirtyOneIsPrime();
    assert Divides(2, 4);
    f := NewField(31);
    g := NewField(4);
  }

  /** The two elements of the tests, as the factory builds them. */
  lemma Elements()
    ensures Call(Factory(31), 13) == Ok(Element(13, 31))
    ensures Call(Factory(31), 19) == Ok(Element(19, 31))
  {
    ThirtyOneIsPrime();
    CallGivesRemainder(31, 13);
    CallGivesRemainder(31, 19);
  }

  /** `pow(19, -1, 31) == 18` and `pow(13, -1, 31) == 12`. */
  lemma Inverses()
    ensures Inverse(19, 31) == Some(18)
    ensures Inverse(13, 31) == Some(12)
  {
    ThirtyOneIsPrime();
    PrimeInverse(19, 31);
    PrimeInverse(13, 31);
    assert IsInverse(19, 18, 31) && IsInverse(13, 12, 31);
    InverseUnique(19, Inverse(19, 31).value, 18, 31);
    InverseUnique(13, Inverse(13, 31).value, 12, 31);
  }

  /** Sum, both differences and product: 1, 25, 6 and 30. */
  lemma Arithmetic()
    ensures Add(Element(13, 31), Obj(Element(19, 31))) == Ok(Element(1, 31))
    ensures Sub(Element(13, 31), Obj(Element(19, 31))) == Ok(Element(25, 31))
    ensures Sub(Element(19, 31), Obj(Element(13, 31))) == Ok(Element(6, 31))
    ensures Mul(Element(13, 31), Obj(Element(19, 31))) == Ok(Element(30, 31))
  {
  }

  /** `x / y == 17` and `y / x == 11`; `x // y` is 17 as well, not the integer quotient 0. */
  lemma Division()
    ensures TrueDiv(Element(13, 31), Obj(Element(19, 31))) == Ok(Element(17, 31))
    ensures FloorDiv(Element(13, 31), Obj(Element(19, 31))) == Ok(Element(17, 31))
    ensures TrueDiv(Element(19, 31), Obj(Element(13, 31))) == Ok(Element(11, 31))
  {
    Inverses();
    assert Residue(Element(13, 31), Obj(Element(19, 31))) == 19;
    assert Residue(Element(19, 31), Obj(Element(13, 31))) == 13;
  }

  /** `x / x == y / y == 1`. */
  lemma DivisionBySelf()
    ensures TrueDiv(Element(13, 31), Obj(Element(13, 31))) == Ok(Element(1, 31))
    ensures TrueDiv(Element(19, 31), Obj(Element(19, 31))) == Ok(Element(1, 31))
  {
    Inverses();
    assert Residue(Element(13, 31), Obj(Element(13, 31))) == 13;
    assert Residue(Element(19, 31), Obj(Element(19, 31))) == 19;
  }

  /** `x ** 5 == 6`, `y ** 3 == 8`, and `-x == 18`. */
  lemma PowersAndNegation()
    ensures Pow(Element(13, 31), 5) == Ok(Element(6, 31))
    ensures Pow(Element(19, 31), 3) == Ok(Element(8, 31))
    ensures Neg(Element(13, 31)) == Ok(Element(18, 31))
  {
    assert Power(13, 5) == 371293;
    assert Power(19, 3) == 6859;
  }

  /** `x + 3 == 3 + x == 16`, `7 * x == 29`, `1 / x == 12`. */
  lemma MixedOperations()
    ensures Add(Element(13, 31), Int(3)) == Ok(Element(16, 31))
    ensures RAdd(Element(13, 31), 3) == Ok(Element(16, 31))
    ensures RMul(Element(13, 31), 7) == Ok(Element(29, 31))
    ensures RTrueDiv(Element(13, 31), 1) == Ok(Element(12, 31))
  {
    Inverses();
    assert Coerce(Element(13, 31), Int(1)) == Ok(Element(1, 31));
  }

  /** `x & y == 1`, `x | y == 31 % 31 == 0`, `x ^ y == 30`. */
  lemma BitwiseOperations()
    ensures BitAnd(Element(13, 31), Obj(Element(19, 31))) == Ok(Element(1, 31))
    ensures BitOr(Element(13, 31), Obj(Element(19, 31))) == Ok(Element(0, 31))
    ensures BitXor(Element(13, 31), Obj(Element(19, 31))) == Ok(Element(30, 31))
  {
    assert Residue(Element(13, 31), Obj(Element(19, 31))) == 19;
    assert Bitwise(And, 13, 19) == 1;
    assert Bitwise(Or, 13, 19) == 31;
    assert Bitwise(Xor, 13, 19) == 30;
  }

  /** `x << 1 == 26` and `x >> 1 == 6`. */
  lemma ShiftOperations()
    ensures LShift(Element(13, 31), 1) == Ok(Element(26, 31))
    ensures RShift(Element(13, 31), 1) == Ok(Element(6, 31))
  {
    assert Power(2, 1) == 2;
  }

  /** `x < y`, `y > x`, `x <= x`, `y >= y`, `x != y`, and x equals and hashes like field(13). */
  lemma ComparisonsAndHashing()
    ensures Lt(Element(13, 31), Obj(Element(19, 31))) == Ok(true)
    ensures Gt(Element(19, 31), Obj(Element(13, 31))) == Ok(true)
    ensures Le(Element(13, 31), Obj(Element(13, 31))) == Ok(true)
    ensures Ge(Element(19, 31), Obj(Element(19, 31))) == Ok(true)
    ensures Ne(Element(13, 31), Obj(Element(19, 31))) == Ok(true)
    ensures Eq(Element(13, 31), Obj(Call(Factory(31), 13).value)) == Ok(true)
    ensures Hash(Element(13, 31)) == Hash(Call(Factory(31), 13).value)
  {
    Elements();
  }

  /** `int(x) == 13` and `bool(x)`. */
  lemma Casting()
    ensures ToInt(Element(13, 31)) == Ok(13)
    ensures ToBool(Element(13, 31)) == Ok(true)
  {
  }

  /** Mixing the two kinds of object or two fields fails. */
  lemma Errors()
    ensures Add(Factory(31), Obj(Element(13, 31))) == Err(FactoryMisuse)
    ensures Add(Element(13, 31), Obj(Element(3, 7))) == Err(IncompatibleFields)
    ensures Add(Factory(31), Int(3)) == Err(MissingValue)
    ensures Call(Element(13, 31), 3) == Err(NotCallable)
    ensures TrueDiv(Element(13, 31), Int(31)) == Err(NotInvertible)
    ensures Pow(Element(0, 31), -1) == Err(NotInvertible)
  {
    ThirtyOneIsPrime();
    PrimeInverse(0, 31);
    assert Residue(Element(13, 31), Int(31)) == 0;
  }
}
