/** The ring of polynomials over GF(2) modulo x^128 + x^7 + x^2 + x + 1, in which GCM multiplies blocks. */
module Gf128 {
  import opened Words
  import opened Gf2Poly

  function Order(): nat { Pow2(128) }

  function Modulus(): nat { Order() + 135 }

  lemma {:induction false} Pow2Mono(m: nat, n: nat)
    requires m <= n
    ensures Pow2(m) <= Pow2(n)
    decreases n
  {
    if m < n { Pow2Mono(m, n - 1); }
  }

  lemma SmallTail()
    ensures 256 <= Pow2(127) && Order() == 2 * Pow2(127)
  {
    assert Pow2(4) == 16;
    assert Pow2(8) == 16 * Pow2(4);
    Pow2Mono(8, 127);
  }

  // ---------------------------------------------------------------------------------------------
  // Multiplication by x
  // ---------------------------------------------------------------------------------------------

  /** The modulus, if doubling makes the term x^128 appear. */
  function Overflow(r: nat): nat { if 2 * r >= Order() then Modulus() else 0 }

  function TimesX(r: nat): (s: nat)
    requires r < Order()
    ensures s < Order()
  {
    TimesXBound(r);
    Xor(2 * r, Overflow(r))
  }

  lemma TimesXBound(r: nat)
    requires r < Order()
    ensures Xor(2 * r, Overflow(r)) < Order()
    ensures 2 * r < Order() ==> Xor(2 * r, Overflow(r)) == 2 * r
    ensures 2 * r >= Order() ==> Xor(2 * r, Overflow(r)) == Xor(2 * r - Order(), 135)
  {
    hide Xor, Pow2;
    SmallTail();
    XorZero(2 * r);
    if 2 * r >= Order() { XorLeading(2 * r - Order(), 135, 128); }
  }

  /** The coefficients of x^127 add up. */
  lemma TopXor(a: nat, b: nat)
    requires a < Order() && b < Order()
    ensures Xor(a, b) >= Pow2(127) <==> (a >= Pow2(127)) != (b >= Pow2(127))
  {
    hide Xor, Pow2;
    SmallTail();
    var h := Pow2(127);
    if a >= h && b >= h {
      XorLeading(a - h, b - h, 127);
    } else if a >= h {
      XorLeading(a - h, b, 127);
    } else if b >= h {
      XorLeading(b - h, a, 127);
      XorComm(a, b);
    } else {
      XorBound(a, b, 127);
    }
  }

  lemma OverflowIs(r: nat)
    ensures Overflow(r) == if r >= Pow2(127) then Modulus() else 0
  {
    SmallTail();
  }

  lemma OverflowXor(a: nat, b: nat)
    requires a < Order() && b < Order()
    ensures Overflow(Xor(a, b)) == Xor(Overflow(a), Overflow(b))
  {
    hide Xor, Pow2, Overflow, Order, Modulus;
    TopXor(a, b);
    OverflowIs(a);
    OverflowIs(b);
    OverflowIs(Xor(a, b));
    XorZero(Modulus());
    XorZero(0);
    XorSelf(Modulus());
  }

  lemma TimesXXor(a: nat, b: nat)
    requires a < Order() && b < Order()
    ensures Xor(a, b) < Order()
    ensures TimesX(Xor(a, b)) == Xor(TimesX(a), TimesX(b))
  {
    hide Xor, Overflow, Pow2;
    XorBound(a, b, 128);
    XorDouble(a, b);
    OverflowXor(a, b);
    XorSwap(2 * a, 2 * b, Overflow(a), Overflow(b));
  }

  // ---------------------------------------------------------------------------------------------
  // The remainder
  // ---------------------------------------------------------------------------------------------

  /** The remainder modulo the polynomial, by Horner's rule from the leading coefficient down. */
  function Rem(a: nat): (r: nat)
    ensures r < Order()
  {
    SmallTail();
    if a == 0 then 0 else
      XorBound(a % 2, TimesX(Rem(a / 2)), 128);
      Xor(a % 2, TimesX(Rem(a / 2)))
  }

  lemma TimesXZero()
    ensures 0 < Order() && TimesX(0) == 0
  {
    XorZero(0);
  }

  lemma RemStep(a: nat)
    ensures Rem(a) == Xor(a % 2, TimesX(Rem(a / 2)))
  {
    TimesXZero();
    XorZero(0);
  }

  lemma RemDouble(a: nat)
    ensures Rem(2 * a) == TimesX(Rem(a))
  {
    hide Xor, Rem, TimesX;
    RemStep(2 * a);
    XorZero(TimesX(Rem(a)));
  }

  lemma {:induction false} RemXor(a: nat, b: nat)
    ensures Rem(Xor(a, b)) == Xor(Rem(a), Rem(b))
    decreases a + b
  {
    if a == 0 || b == 0 {
      XorZero(a);
      XorZero(b);
      XorZero(Rem(a));
      XorZero(Rem(b));
    } else {
      hide Xor, Rem, TimesX, Order;
      RemXor(a / 2, b / 2);
      RemStep(Xor(a, b));
      RemStep(a);
      RemStep(b);
      XorStep(a, b);
      TimesXXor(Rem(a / 2), Rem(b / 2));
      assert Xor(a, b) % 2 == Xor(a % 2, b % 2) by { XorZero(0); XorZero(1); XorSelf(1); }
      XorSwap(a % 2, b % 2, TimesX(Rem(a / 2)), TimesX(Rem(b / 2)));
    }
  }

  /** Below degree 128 nothing is reduced. */
  lemma {:induction false} RemSmall(a: nat)
    requires a < Order()
    ensures Rem(a) == a
  {
    if a > 0 {
      hide Xor, TimesX, Pow2;
      RemSmall(a / 2);
      assert TimesX(a / 2) == 2 * (a / 2) by { TimesXBound(a / 2); TimesXIs(a / 2); }
      LowBit(a);
    }
  }

  lemma TimesXIs(r: nat)
    requires r < Order()
    ensures TimesX(r) == Xor(2 * r, Overflow(r))
  {
  }

  lemma RemModulus()
    ensures Rem(Modulus()) == 0
  {
    hide Xor, TimesX, Rem, Pow2;
    SmallTail();
    var h := Pow2(127) + 67;
    assert Modulus() == 2 * h + 1;
    RemStep(Modulus());
    RemSmall(h);
    TimesXIs(h);
    TimesXBound(h);
    assert Xor(134, 135) == 1 by { Xor134(); }
    XorSelf(1);
  }

  lemma Xor134()
    ensures Xor(134, 135) == 1
  {
    XorStep(134, 135);
    XorSelf(67);
  }

  /** Multiples of the modulus vanish. */
  lemma {:induction false} RemMultiple(q: nat)
    ensures Rem(Times(q, Modulus())) == 0
    decreases q
  {
    if q > 0 {
      hide Xor, Times, Rem, TimesX, Modulus;
      RemMultiple(q / 2);
      TimesStep(q, Modulus());
      RemXor(Pick(q, Modulus()), 2 * Times(q / 2, Modulus()));
      RemDouble(Times(q / 2, Modulus()));
      TimesXZero();
      RemModulus();
      XorZero(0);
      assert Rem(0) == 0 by { RemSmall(0); }
    }
  }

  /** Rem is the remainder of polynomial division: what is left differs from the dividend by a multiple of the modulus. */
  lemma {:induction false} Divide(a: nat) returns (q: nat)
    ensures a == Xor(Times(q, Modulus()), Rem(a))
    decreases a
  {
    if a == 0 {
      q := 0;
      XorZero(0);
    } else {
      hide Xor, Times, Rem, TimesX, Modulus, Order, Pow2, Overflow;
      var p := Divide(a / 2);
      var r, m := Rem(a / 2), Modulus();
      q := 2 * p + if r >= Pow2(127) then 1 else 0;
      TimesStep(q, m);
      OverflowIs(r);
      assert q / 2 == p && Pick(q, m) == Overflow(r);
      RemStep(a);
      TimesXIs(r);
      LowBit(a);
      XorDouble(Times(p, m), r);
      Rearrange(Overflow(r), 2 * Times(p, m), a % 2, 2 * r);
    }
  }

  lemma Rearrange(o: nat, t: nat, b: nat, d: nat)
    ensures Xor(b, Xor(t, d)) == Xor(Xor(o, t), Xor(b, Xor(d, o)))
  {
    hide Xor;
    XorComm(o, t);
    XorComm(d, o);
    XorSwap(t, o, b, Xor(o, d));
    XorCancel(d, o);
    XorAssoc(t, b, d);
    XorComm(t, b);
    XorAssoc(b, t, d);
  }

  /** and it is the only one of degree below 128. */
  lemma RemainderIsUnique(a: nat, q: nat, r: nat)
    requires r < Order() && a == Xor(Times(q, Modulus()), r)
    ensures r == Rem(a)
  {
    RemXor(Times(q, Modulus()), r);
    RemMultiple(q);
    RemSmall(r);
    XorZero(r);
  }

  // ---------------------------------------------------------------------------------------------
  // The product
  // ---------------------------------------------------------------------------------------------

  /** The product modulo the polynomial. */
  function Mult(a: nat, b: nat): (r: nat)
    ensures r < Order()
  {
    Rem(Times(a, b))
  }

  lemma MultComm(a: nat, b: nat)
    ensures Mult(a, b) == Mult(b, a)
  {
    TimesComm(a, b);
  }

  lemma MultXor(a: nat, b: nat, c: nat)
    ensures Mult(Xor(a, b), c) == Xor(Mult(a, c), Mult(b, c))
    ensures Mult(a, Xor(b, c)) == Xor(Mult(a, b), Mult(a, c))
  {
    hide Xor, Times, Rem;
    TimesXorLeft(a, b, c);
    RemXor(Times(a, c), Times(b, c));
    TimesXorRight(a, b, c);
    RemXor(Times(a, b), Times(a, c));
  }

  /** Reducing a factor first makes no difference. */
  lemma MultRem(a: nat, b: nat)
    ensures Mult(Rem(a), b) == Mult(a, b)
  {
    hide Xor, Times, Rem, Modulus;
    var q := Divide(a);
    var m := Modulus();
    TimesXorLeft(Times(q, m), Rem(a), b);
    TimesComm(q, m);
    TimesAssoc(m, q, b);
    TimesComm(m, Times(q, b));
    RemXor(Times(Times(q, m), b), Times(Rem(a), b));
    RemMultiple(Times(q, b));
    XorZero(Mult(Rem(a), b));
  }

  lemma MultAssoc(a: nat, b: nat, c: nat)
    ensures Mult(Mult(a, b), c) == Mult(a, Mult(b, c))
  {
    hide Times, Rem;
    MultRem(Times(a, b), c);
    TimesAssoc(a, b, c);
    MultComm(a, Mult(b, c));
    MultRem(Times(b, c), a);
    TimesComm(Times(b, c), a);
  }

  lemma MultOne(a: nat)
    requires a < Order()
    ensures Mult(1, a) == a && Mult(a, 1) == a
  {
    TimesOne(a);
    RemSmall(a);
    MultComm(a, 1);
  }

  lemma MultZero(a: nat)
    ensures Mult(0, a) == 0 && Mult(a, 0) == 0
  {
    TimesZero(a);
  }

  /** One step of shift and add: take b if the lowest coefficient of a is one, halve a and multiply b by x. */
  lemma MultStep(a: nat, b: nat)
    requires b < Order()
    ensures Mult(a, b) == Xor(Pick(a, b), Mult(a / 2, TimesX(b)))
  {
    hide Xor, Times, Rem, TimesX, Pow2;
    TimesStep(a, b);
    RemXor(Pick(a, b), 2 * Times(a / 2, b));
    RemSmall(b);
    RemSmall(0);
    RemDouble(Times(a / 2, b));
    TimesXCommutes(a / 2, b);
  }

  lemma TimesXCommutes(a: nat, b: nat)
    requires b < Order()
    ensures Mult(a, TimesX(b)) == TimesX(Mult(a, b))
  {
    hide Times, Rem, TimesX, Pow2;
    RemDouble(b);
    RemSmall(b);
    MultComm(a, TimesX(b));
    MultRem(2 * b, a);
    TimesTwice(b, a);
    RemDouble(Times(b, a));
    MultComm(b, a);
  }
}
