/** Python's `&`, `|`, `^`, `<<` and `>>` on non-negative integers, defined bit by bit
    on unbounded naturals (no fixed width, so nothing overflows). */
module Bits {
  import opened ModArith

  datatype BitOp = And | Or | Xor

  /** The operator on one pair of bits. */
  function Apply(op: BitOp, a: bool, b: bool): bool {
    match op
    case And => a && b
    case Or => a || b
    case Xor => a != b
  }

  /** Bit k of x (bit 0 is the least significant). */
  function Bit(x: nat, k: nat): bool
    decreases k
  {
    if k == 0 then x % 2 == 1 else Bit(x / 2, k - 1)
  }

  /** `a & b`, `a | b`, `a ^ b`: the operator applied to the lowest bits, the rest recursively. */
  function Bitwise(op: BitOp, a: nat, b: nat): nat
    decreases a + b
  {
    if a == 0 && b == 0 then 0
    else 2 * Bitwise(op, a / 2, b / 2) + (if Apply(op, a % 2 == 1, b % 2 == 1) then 1 else 0)
  }

  /** Every bit of the result is the operator applied to the operands' bits at that position. */
  lemma {:induction false} BitwiseBit(op: BitOp, a: nat, b: nat, k: nat)
    ensures Bit(Bitwise(op, a, b), k) == Apply(op, Bit(a, k), Bit(b, k))
    decreases k
  {
    var r := Bitwise(op, a, b);
    if a == 0 && b == 0 {
      ZeroBits(k);
    } else if k == 0 {
    } else {
      assert r / 2 == Bitwise(op, a / 2, b / 2);
      BitwiseBit(op, a / 2, b / 2, k - 1);
    }
  }

  lemma {:induction false} ZeroBits(k: nat)
    ensures !Bit(0, k)
    decreases k
  {
    if k > 0 {
      ZeroBits(k - 1);
    }
  }

  /** Naturals are determined by their bits, so Bitwise is the only function satisfying BitwiseBit. */
  lemma {:induction false} BitsDetermine(x: nat, y: nat)
    requires forall k: nat :: Bit(x, k) == Bit(y, k)
    ensures x == y
    decreases x + y
  {
    assert Bit(x, 0) == Bit(y, 0);
    if x != 0 || y != 0 {
      forall k: nat
        ensures Bit(x / 2, k) == Bit(y / 2, k)
      {
        assert Bit(x, k + 1) == Bit(y, k + 1);
      }
      BitsDetermine(x / 2, y / 2);
    }
  }

  /** `a & b` never exceeds either operand. */
  lemma {:induction false} AndBound(a: nat, b: nat)
    ensures Bitwise(And, a, b) <= a && Bitwise(And, a, b) <= b
    decreases a + b
  {
    if a != 0 || b != 0 {
      AndBound(a / 2, b / 2);
    }
  }

  /** `(a & b) + (a | b) == a + b` and `a ^ b == (a | b) - (a & b)`. */
  lemma {:induction false} AndOrXorSum(a: nat, b: nat)
    ensures Bitwise(And, a, b) + Bitwise(Or, a, b) == a + b
    ensures Bitwise(Xor, a, b) == Bitwise(Or, a, b) - Bitwise(And, a, b)
    decreases a + b
  {
    if a != 0 || b != 0 {
      AndOrXorSum(a / 2, b / 2);
    }
  }

  lemma {:induction false} BitwiseCommutes(op: BitOp, a: nat, b: nat)
    ensures Bitwise(op, a, b) == Bitwise(op, b, a)
    decreases a + b
  {
    if a != 0 || b != 0 {
      BitwiseCommutes(op, a / 2, b / 2);
    }
  }

  /** `a & a == a`, `a | a == a`, `a ^ a == 0`. */
  lemma {:induction false} BitwiseSelf(a: nat)
    ensures Bitwise(And, a, a) == a && Bitwise(Or, a, a) == a && Bitwise(Xor, a, a) == 0
    decreases a
  {
    if a != 0 {
      BitwiseSelf(a / 2);
    }
  }

  /** `v << n`: n doublings. */
  function ShiftLeft(v: nat, n: nat): nat
    decreases n
  {
    if n == 0 then v else 2 * ShiftLeft(v, n - 1)
  }

  /** `v >> n`: n halvings, each dropping the lowest bit. */
  function ShiftRight(v: nat, n: nat): nat
    decreases n
  {
    if n == 0 then v else ShiftRight(v / 2, n - 1)
  }

  lemma {:induction false} ShiftLeftIsMul(v: nat, n: nat)
    ensures ShiftLeft(v, n) == v * Power(2, n)
    decreases n
  {
    if n > 0 {
      ShiftLeftIsMul(v, n - 1);
      assert 2 * (v * Power(2, n - 1)) == v * (2 * Power(2, n - 1));
    }
  }

  lemma DivDiv(v: nat, d: int)
    requires d > 0
    ensures (v / 2) / d == v / (2 * d)
  {
    var q := (v / 2) / d;
    var r := (v / 2) % d;
    assert v / 2 == q * d + r;
    assert v == 2 * (v / 2) + v % 2;
    assert v == q * (2 * d) + (2 * r + v % 2);
    ModUnique(v, 2 * d, q, 2 * r + v % 2);
  }

  lemma {:induction false} ShiftRightIsDiv(v: nat, n: nat)
    ensures Power(2, n) > 0 && ShiftRight(v, n) == v / Power(2, n)
    decreases n
  {
    PowerPositive(2, n);
    if n > 0 {
      ShiftRightIsDiv(v / 2, n - 1);
      DivDiv(v, Power(2, n - 1));
    }
  }

  /** Shifting right never increases a number. */
  lemma {:induction false} ShiftRightBound(v: nat, n: nat)
    ensures ShiftRight(v, n) <= v
    decreases n
  {
    if n > 0 {
      ShiftRightBound(v / 2, n - 1);
    }
  }
}
