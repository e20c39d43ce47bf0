/** The arithmetic of and, or and xor on all integers: laws that fix the three operators without speaking of single bits. */
module BitwiseLaws {
  import opened Words
  import opened IntFacts
  import opened BigIntBitwise

  /** Halving takes away bit 0 and moves the others down. */
  lemma TwosBitStep(x: int, k: nat)
    ensures TwosBit(x, 0) <==> x % 2 == 1
    ensures TwosBit(x / 2, k) <==> TwosBit(x, k + 1)
  {
    hide Pow2, Bit;
    BitIs(x, 0);
    BitIs(x, k + 1);
    BitIs(x / 2, k);
    BitStep(x, 0);
    BitStep(x, k + 1);
  }

  lemma Halves(op: BitOp, x: int, y: int, z: int)
    requires IsBitwise(op, x, y, z)
    ensures IsBitwise(op, x / 2, y / 2, z / 2)
    ensures op.And? ==> (z % 2 == 1 <==> x % 2 == 1 && y % 2 == 1)
    ensures op.Or? ==> (z % 2 == 1 <==> x % 2 == 1 || y % 2 == 1)
    ensures op.Xor? ==> (z % 2 == 1 <==> x % 2 != y % 2)
  {
    hide TwosBit;
    forall k: nat
      ensures TwosBit(x / 2, k) == TwosBit(x, k + 1) && TwosBit(y / 2, k) == TwosBit(y, k + 1)
      ensures TwosBit(z / 2, k) == TwosBit(z, k + 1)
    {
      TwosBitStep(x, k);
      TwosBitStep(y, k);
      TwosBitStep(z, k);
    }
    TwosBitStep(x, 0);
    TwosBitStep(y, 0);
    TwosBitStep(z, 0);
  }

  /** How far a number is from a word of sign bits. */
  function Size(x: int): nat { if x < 0 then -x - 1 else x }

  lemma SizeHalf(x: int)
    ensures Size(x / 2) <= Size(x) && (Size(x) > 0 ==> Size(x / 2) < Size(x))
    ensures x == 2 * (x / 2) + x % 2 && 0 <= x % 2 <= 1
  {
  }

  /** The conjunction and the disjunction add up to the operands. */
  lemma {:induction false} AndOrSum(x: int, y: int, a: int, o: int)
    requires IsBitwise(And, x, y, a) && IsBitwise(Or, x, y, o)
    ensures a + o == x + y
    decreases Size(x) + Size(y) + Size(a) + Size(o)
  {
    hide IsBitwise;
    Halves(And, x, y, a);
    Halves(Or, x, y, o);
    SizeHalf(x);
    SizeHalf(y);
    SizeHalf(a);
    SizeHalf(o);
    if Size(x) + Size(y) + Size(a) + Size(o) > 0 {
      AndOrSum(x / 2, y / 2, a / 2, o / 2);
    }
  }

  /** The difference of the bits is the disjunction without the conjunction. */
  lemma {:induction false} XorIsOrMinusAnd(x: int, y: int, a: int, o: int, e: int)
    requires IsBitwise(And, x, y, a) && IsBitwise(Or, x, y, o) && IsBitwise(Xor, x, y, e)
    ensures e == o - a
    decreases Size(x) + Size(y) + Size(a) + Size(o) + Size(e)
  {
    hide IsBitwise;
    Halves(And, x, y, a);
    Halves(Or, x, y, o);
    Halves(Xor, x, y, e);
    SizeHalf(x);
    SizeHalf(y);
    SizeHalf(a);
    SizeHalf(o);
    SizeHalf(e);
    if Size(x) + Size(y) + Size(a) + Size(o) + Size(e) > 0 {
      XorIsOrMinusAnd(x / 2, y / 2, a / 2, o / 2, e / 2);
    }
  }

  /** Conjunction with n ones is the remainder modulo 2^n, for operands of either sign. */
  lemma {:induction false} AndWithMask(x: int, n: nat, a: int)
    requires IsBitwise(And, x, Pow2(n) - 1, a)
    ensures a == x % Pow2(n)
    decreases n
  {
    hide IsBitwise, Pow2;
    if n == 0 {
      NoPower(1);
      AndWithZero(x, a);
      QuotientIs(x, 1, x, 0);
    } else {
      Ones(n);
      Halves(And, x, Pow2(n) - 1, a);
      AndWithMask(x / 2, n - 1, a / 2);
      var p := Pow2(n - 1);
      var q, r := x / 2 / p, x / 2 % p;
      TwiceTimes(p, q);
      QuotientIs(x, 2 * p, q, 2 * r + x % 2);
    }
  }

  lemma {:induction false} AndWithZero(x: int, a: int)
    requires IsBitwise(And, x, 0, a)
    ensures a == 0
    decreases Size(x) + Size(a)
  {
    hide IsBitwise;
    Halves(And, x, 0, a);
    SizeHalf(x);
    SizeHalf(a);
    if Size(x) + Size(a) > 0 { AndWithZero(x / 2, a / 2); }
  }

  /** Conjunction with -1 changes nothing, and disjunction with 0 neither. */
  lemma {:induction false} Neutral(x: int, a: int, o: int)
    requires IsBitwise(And, x, -1, a) && IsBitwise(Or, x, 0, o)
    ensures a == x && o == x
    decreases Size(x) + Size(a) + Size(o)
  {
    hide IsBitwise;
    Halves(And, x, -1, a);
    Halves(Or, x, 0, o);
    SizeHalf(x);
    SizeHalf(a);
    SizeHalf(o);
    if Size(x) + Size(a) + Size(o) > 0 { Neutral(x / 2, a / 2, o / 2); }
  }
}
