/** Polynomials over GF(2) as natural numbers: bit i is the coefficient of x^i, exclusive or is addition. */
module Gf2Poly {
  import opened Words

  // ---------------------------------------------------------------------------------------------
  // Addition
  // ---------------------------------------------------------------------------------------------

  /** Bitwise exclusive or. */
  function Xor(a: nat, b: nat): nat
    decreases a + b
  {
    if a == 0 then b else if b == 0 then a else
      (if a % 2 == b % 2 then 0 else 1) + 2 * Xor(a / 2, b / 2)
  }

  /** One bit and the rest, also when an operand is zero. */
  lemma XorStep(a: nat, b: nat)
    ensures Xor(a, b) == (if a % 2 == b % 2 then 0 else 1) + 2 * Xor(a / 2, b / 2)
    ensures Xor(a, b) / 2 == Xor(a / 2, b / 2) && Xor(a, b) % 2 == (if a % 2 == b % 2 then 0 else 1)
  {
    assert Xor(0, b / 2) == b / 2 && Xor(a / 2, 0) == a / 2;
  }

  lemma XorZero(a: nat)
    ensures Xor(a, 0) == a && Xor(0, a) == a
  {
  }

  lemma {:induction false} XorSelf(a: nat)
    ensures Xor(a, a) == 0
  {
    if a > 0 { XorSelf(a / 2); }
  }

  lemma {:induction false} XorComm(a: nat, b: nat)
    ensures Xor(a, b) == Xor(b, a)
    decreases a + b
  {
    if a > 0 && b > 0 { XorComm(a / 2, b / 2); }
  }

  lemma {:induction false} XorAssoc(a: nat, b: nat, c: nat)
    ensures Xor(Xor(a, b), c) == Xor(a, Xor(b, c))
    decreases a + b + c
  {
    if a > 0 && b > 0 && c > 0 {
      hide Xor;
      XorAssoc(a / 2, b / 2, c / 2);
      XorStep(a, b);
      XorStep(b, c);
      XorStep(Xor(a, b), c);
      XorStep(a, Xor(b, c));
    }
  }

  /** Adding the same thing twice changes nothing. */
  lemma XorCancel(a: nat, b: nat)
    ensures Xor(Xor(a, b), b) == a && Xor(b, Xor(b, a)) == a
  {
    XorAssoc(a, b, b);
    XorSelf(b);
    XorZero(a);
    XorAssoc(b, b, a);
  }

  /** (a + b) + (c + d) == (a + c) + (b + d). */
  lemma XorSwap(a: nat, b: nat, c: nat, d: nat)
    ensures Xor(Xor(a, b), Xor(c, d)) == Xor(Xor(a, c), Xor(b, d))
  {
    hide Xor;
    XorAssoc(a, b, Xor(c, d));
    XorAssoc(b, c, d);
    XorComm(b, c);
    XorAssoc(c, b, d);
    XorAssoc(a, c, Xor(b, d));
  }

  lemma XorDouble(a: nat, b: nat)
    ensures Xor(2 * a, 2 * b) == 2 * Xor(a, b)
  {
    XorStep(2 * a, 2 * b);
  }

  /** Below 2^n the sum stays below 2^n. */
  lemma {:induction false} XorBound(a: nat, b: nat, n: nat)
    requires a < Pow2(n) && b < Pow2(n)
    ensures Xor(a, b) < Pow2(n)
    decreases n
  {
    if n > 0 {
      hide Xor;
      XorBound(a / 2, b / 2, n - 1);
      XorStep(a, b);
    } else {
      XorZero(0);
    }
  }

  /** p moved up n places. */
  function Up(p: nat, n: nat): nat {
    if n == 0 then p else 2 * Up(p, n - 1)
  }

  lemma {:induction false} UpOfOne(n: nat)
    ensures Up(1, n) == Pow2(n) && Up(0, n) == 0
  {
    if n > 0 { UpOfOne(n - 1); }
  }

  lemma UpStep(p: nat, n: nat)
    requires n > 0
    ensures Up(p, n) == 2 * Up(p, n - 1) && Pow2(n) == 2 * Pow2(n - 1)
  {
  }

  /** A low part and a high part do not interfere. */
  lemma {:induction false} XorSplit(a: nat, p: nat, b: nat, q: nat, n: nat)
    requires a < Pow2(n) && b < Pow2(n)
    ensures Xor(a + Up(p, n), b + Up(q, n)) == Xor(a, b) + Up(Xor(p, q), n)
    decreases n
  {
    hide Xor, Up, Pow2;
    if n == 0 {
      NoLowPart(a, p);
      NoLowPart(b, q);
      NoLowPart(0, Xor(p, q));
      XorZero(0);
    } else {
      UpStep(p, n);
      UpStep(q, n);
      UpStep(Xor(p, q), n);
      XorSplit(a / 2, p, b / 2, q, n - 1);
      XorAbove(a, b, Up(p, n - 1), Up(q, n - 1));
      XorStep(a, b);
    }
  }

  lemma NoLowPart(a: nat, p: nat)
    ensures Up(p, 0) == p && (a < Pow2(0) ==> a == 0)
  {
  }

  lemma XorAbove(a: nat, b: nat, p: nat, q: nat)
    ensures Xor(a + 2 * p, b + 2 * q) == (if a % 2 == b % 2 then 0 else 1) + 2 * Xor(a / 2 + p, b / 2 + q)
  {
    hide Xor;
    XorStep(a + 2 * p, b + 2 * q);
  }

  /** Equal leading terms cancel, different ones add up. */
  lemma XorLeading(a: nat, b: nat, n: nat)
    requires a < Pow2(n) && b < Pow2(n)
    ensures Xor(Pow2(n) + a, Pow2(n) + b) == Xor(a, b) < Pow2(n)
    ensures Xor(Pow2(n) + a, b) == Pow2(n) + Xor(a, b)
  {
    hide Xor, Up, Pow2;
    UpOfOne(n);
    XorSplit(a, 1, b, 1, n);
    XorSplit(a, 1, b, 0, n);
    XorBound(a, b, n);
    XorSelf(1);
    XorZero(1);
  }

  // ---------------------------------------------------------------------------------------------
  // Multiplication
  // ---------------------------------------------------------------------------------------------

  /** b if the lowest coefficient of a is one. */
  function Pick(a: nat, b: nat): nat { if a % 2 == 1 then b else 0 }

  /** The product without carries. */
  function Times(a: nat, b: nat): nat {
    if a == 0 then 0 else Xor(Pick(a, b), 2 * Times(a / 2, b))
  }

  lemma TimesStep(a: nat, b: nat)
    ensures Times(a, b) == Xor(Pick(a, b), 2 * Times(a / 2, b))
  {
    XorZero(0);
  }

  lemma {:induction false} TimesZero(a: nat)
    ensures Times(a, 0) == 0 && Times(0, a) == 0
  {
    if a > 0 {
      TimesZero(a / 2);
      XorZero(0);
    }
  }

  lemma TimesOne(a: nat)
    ensures Times(1, a) == a
  {
    XorZero(a);
  }

  /** Multiplication by x. */
  lemma {:induction false} TimesTwice(a: nat, b: nat)
    ensures Times(2 * a, b) == 2 * Times(a, b)
    ensures Times(a, 2 * b) == 2 * Times(a, b)
    decreases a
  {
    hide Xor, Times;
    TimesStep(2 * a, b);
    XorZero(2 * Times(a, b));
    if a > 0 {
      TimesTwice(a / 2, b);
      TimesStep(a, b);
      TimesStep(a, 2 * b);
      XorDouble(Pick(a, b), 2 * Times(a / 2, b));
      assert Pick(a, 2 * b) == 2 * Pick(a, b);
    } else {
      TimesZero(b);
      TimesZero(2 * b);
    }
  }

  lemma PickXor(a: nat, c: nat, b: nat)
    ensures Pick(Xor(a, c), b) == Xor(Pick(a, b), Pick(c, b))
  {
    XorStep(a, c);
    XorZero(b);
    XorZero(0);
    XorSelf(b);
  }

  lemma {:induction false} TimesXorLeft(a: nat, c: nat, b: nat)
    ensures Times(Xor(a, c), b) == Xor(Times(a, b), Times(c, b))
    decreases a + c
  {
    if a == 0 || c == 0 {
      XorZero(a);
      XorZero(c);
      TimesZero(b);
      XorZero(Times(a, b));
      XorZero(Times(c, b));
    } else {
      hide Xor, Times;
      TimesXorLeft(a / 2, c / 2, b);
      XorStep(a, c);
      TimesStep(Xor(a, c), b);
      TimesStep(a, b);
      TimesStep(c, b);
      PickXor(a, c, b);
      XorDouble(Times(a / 2, b), Times(c / 2, b));
      XorSwap(Pick(a, b), Pick(c, b), 2 * Times(a / 2, b), 2 * Times(c / 2, b));
    }
  }

  lemma {:induction false} TimesXorRight(a: nat, b: nat, c: nat)
    ensures Times(a, Xor(b, c)) == Xor(Times(a, b), Times(a, c))
    decreases a
  {
    if a == 0 {
      XorZero(0);
    } else {
      hide Xor, Times;
      TimesXorRight(a / 2, b, c);
      TimesStep(a, Xor(b, c));
      TimesStep(a, b);
      TimesStep(a, c);
      XorZero(0);
      assert Pick(a, Xor(b, c)) == Xor(Pick(a, b), Pick(a, c));
      XorDouble(Times(a / 2, b), Times(a / 2, c));
      XorSwap(Pick(a, b), Pick(a, c), 2 * Times(a / 2, b), 2 * Times(a / 2, c));
    }
  }

  /** A number is its lowest bit plus twice the rest. */
  lemma LowBit(a: nat)
    ensures a == Xor(a % 2, 2 * (a / 2))
  {
    XorStep(a % 2, 2 * (a / 2));
    XorZero(a / 2);
  }

  lemma {:induction false} TimesComm(a: nat, b: nat)
    ensures Times(a, b) == Times(b, a)
    decreases a
  {
    if a == 0 {
      TimesZero(b);
    } else {
      hide Xor, Times;
      TimesComm(a / 2, b);
      TimesStep(a, b);
      LowBit(a);
      TimesXorRight(b, a % 2, 2 * (a / 2));
      TimesTwice(b, a / 2);
      if a % 2 == 1 { TimesUnit(b); } else { TimesZero(b); }
    }
  }

  lemma {:induction false} TimesUnit(a: nat)
    ensures Times(a, 1) == a
  {
    if a > 0 {
      TimesUnit(a / 2);
      LowBit(a);
    }
  }

  lemma {:induction false} TimesAssoc(a: nat, b: nat, c: nat)
    ensures Times(Times(a, b), c) == Times(a, Times(b, c))
    decreases a
  {
    if a == 0 {
      TimesZero(c);
    } else {
      hide Xor, Times;
      TimesAssoc(a / 2, b, c);
      TimesStep(a, b);
      TimesXorLeft(Pick(a, b), 2 * Times(a / 2, b), c);
      TimesTwice(Times(a / 2, b), c);
      TimesStep(a, Times(b, c));
      TimesZero(c);
    }
  }
}
