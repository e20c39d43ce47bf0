/** Blocks of 16 bytes as polynomials: the first bit of the first byte is the constant term (section 6.3 of NIST SP 800-38D). */
module GcmBlocks {
  import opened Words
  import opened Gf2Poly
  import opened ByteXor
  import opened Gf128

  const BLOCK: nat := 16

  // ---------------------------------------------------------------------------------------------
  // Bits
  // ---------------------------------------------------------------------------------------------

  /** Shift to the right. */
  function Down(a: nat, n: nat): nat {
    if n == 0 then a else Down(a, n - 1) / 2
  }

  lemma {:induction false} DownFirst(a: nat, n: nat)
    requires n > 0
    ensures Down(a, n) == Down(a / 2, n - 1)
    decreases n
  {
    if n > 1 { DownFirst(a, n - 1); }
  }

  lemma {:induction false} DownUp(a: nat, p: nat, n: nat)
    requires a < Pow2(n)
    ensures Down(a + Up(p, n), n) == p
    decreases n
  {
    if n > 0 {
      DownFirst(a + Up(p, n), n);
      DownUp(a / 2, p, n - 1);
    }
  }

  /** A bit below position m does not see what stands at m. */
  lemma {:induction false} DownBelow(a: nat, c: nat, m: nat, k: nat)
    requires k < m
    ensures Down(a + Up(c, m), k) % 2 == Down(a, k) % 2
    decreases m
  {
    if k > 0 {
      DownFirst(a + Up(c, m), k);
      DownFirst(a, k);
      DownBelow(a / 2, c, m - 1, k - 1);
    }
  }

  /** The low n bits in reverse order. */
  function Rev(b: nat, n: nat): nat
    decreases n
  {
    if n == 0 then 0 else Rev(b / 2, n - 1) + Up(b % 2, n - 1)
  }

  lemma {:induction false} UpBound(p: nat, n: nat)
    requires p <= 1
    ensures Up(p, n) <= Pow2(n)
  {
    if n > 0 { UpBound(p, n - 1); }
  }

  lemma {:induction false} RevBound(b: nat, n: nat)
    ensures Rev(b, n) < Pow2(n)
    decreases n
  {
    if n > 0 {
      RevBound(b / 2, n - 1);
      UpBound(b % 2, n - 1);
    }
  }

  lemma {:induction false} RevXor(a: nat, b: nat, n: nat)
    ensures Rev(Xor(a, b), n) == Xor(Rev(a, n), Rev(b, n))
    decreases n
  {
    hide Xor, Up, Rev, Pow2;
    if n == 0 {
      RevNone(a);
      RevNone(b);
      RevNone(Xor(a, b));
      XorZero(0);
    } else {
      RevXor(a / 2, b / 2, n - 1);
      RevStep(a, n);
      RevStep(b, n);
      RevStep(Xor(a, b), n);
      RevBound(a / 2, n - 1);
      RevBound(b / 2, n - 1);
      XorSplit(Rev(a / 2, n - 1), a % 2, Rev(b / 2, n - 1), b % 2, n - 1);
      XorStep(a, b);
      BitXor(a % 2, b % 2);
    }
  }

  lemma RevNone(b: nat)
    ensures Rev(b, 0) == 0
  {
  }

  lemma RevStep(b: nat, n: nat)
    requires n > 0
    ensures Rev(b, n) == Rev(b / 2, n - 1) + Up(b % 2, n - 1)
  {
  }

  lemma BitXor(x: nat, y: nat)
    requires x < 2 && y < 2
    ensures Xor(x, y) == if x == y then 0 else 1
  {
    hide Xor;
    XorZero(x);
    XorZero(y);
    XorSelf(1);
  }

  /** The top bit comes first in the reverse. */
  lemma {:induction false} RevTop(x: nat, c: nat, n: nat)
    requires n > 0 && x < Pow2(n - 1) && c <= 1
    ensures Rev(x + Up(c, n - 1), n) == 2 * Rev(x, n - 1) + c
    decreases n
  {
    if n > 1 {
      var y := x + Up(c, n - 1);
      assert y / 2 == x / 2 + Up(c, n - 2) && y % 2 == x % 2;
      RevTop(x / 2, c, n - 1);
    }
  }

  /** Shifting a byte to the right, with a bit c coming in at the top, is multiplication by x on its reverse. */
  lemma RevShift(b: nat, c: nat, n: nat)
    requires n > 0 && b < Pow2(n) && c <= 1
    ensures Rev(b / 2 + Up(c, n - 1), n) + Up(b % 2, n) == 2 * Rev(b, n) + c
  {
    RevTop(b / 2, c, n);
  }

  /** Bit j of the reverse is bit n - 1 - j. */
  lemma {:induction false} RevBit(b: nat, n: nat, j: nat, p: nat)
    requires j < n && b < Pow2(n)
    ensures Down(Rev(b, n) + Up(p, n), j) % 2 == Down(b, n - 1 - j) % 2
    decreases n
  {
    hide Pow2, Rev, Up, Down;
    var c, x := TopBit(b, n - 1);
    var r := Rev(b, n) + Up(p, n);
    RevTop(x, c, n);
    UpStep(p, n);
    assert r / 2 == Rev(x, n - 1) + Up(p, n - 1) && r % 2 == c;
    if j == 0 {
      DownUp(x, c, n - 1);
      NotDown(r);
    } else {
      DownFirst(r, j);
      RevBit(x, n - 1, j - 1, p);
      DownBelow(x, c, n - 1, n - 1 - j);
    }
  }

  lemma NotDown(a: nat)
    ensures Down(a, 0) == a
  {
  }

  lemma {:induction false} TopBit(b: nat, n: nat) returns (c: nat, x: nat)
    requires b < Pow2(n + 1)
    ensures c <= 1 && x < Pow2(n) && b == x + Up(c, n)
  {
    UpOfOne(n);
    if b >= Pow2(n) { c, x := 1, b - Pow2(n); } else { c, x := 0, b; }
  }

  // ---------------------------------------------------------------------------------------------
  // Byte strings
  // ---------------------------------------------------------------------------------------------

  /** The polynomial of a byte string. */
  function Poly(s: seq<u8>): nat {
    if s == [] then 0 else Rev(s[0], 8) + Up(Poly(s[1..]), 8)
  }

  lemma PolyNone(s: seq<u8>)
    requires s == []
    ensures Poly(s) == 0
  {
  }

  lemma PolyCons(b: u8, t: seq<u8>)
    ensures Poly([b] + t) == Rev(b, 8) + Up(Poly(t), 8)
  {
    assert ([b] + t)[1..] == t;
  }

  lemma {:induction false} UpAdd(a: nat, b: nat, n: nat)
    ensures Up(a + b, n) == Up(a, n) + Up(b, n) && Up(2 * a, n) == 2 * Up(a, n)
  {
    if n > 0 { UpAdd(a, b, n - 1); }
  }

  lemma {:induction false} UpUp(a: nat, m: nat, n: nat)
    ensures Up(Up(a, m), n) == Up(a, m + n)
    decreases n
  {
    if n > 0 { UpUp(a, m, n - 1); }
  }

  lemma {:induction false} PolyBound(s: seq<u8>)
    ensures Poly(s) < Pow2(8 * |s|)
  {
    hide Rev, Up, Pow2, Poly;
    if s == [] {
      PolyNone(s);
    } else {
      assert s == [s[0]] + s[1..];
      PolyCons(s[0], s[1..]);
      PolyBound(s[1..]);
      RevBound(s[0], 8);
      Room(Rev(s[0], 8), Poly(s[1..]), 8, 8 * |s[1..]|);
    }
  }

  lemma {:induction false} Room(a: nat, p: nat, m: nat, n: nat)
    requires a < Pow2(m) && p < Pow2(n)
    ensures a + Up(p, m) < Pow2(m + n)
    decreases m
  {
    if m > 0 { Room(a / 2, p, m - 1, n); }
  }

  lemma {:induction false} PolyXor(s: seq<u8>, t: seq<u8>)
    requires |s| == |t|
    ensures Poly(XorBytes(s, t)) == Xor(Poly(s), Poly(t))
  {
    hide Xor, Up, Rev, Pow2, Poly, XorBytes, XorByte;
    if s == [] {
      PolyNone(s);
      PolyNone(XorBytes(s, t));
      XorZero(0);
    } else {
      var a, b, p, q := s[0], t[0], s[1..], t[1..];
      PolyXor(p, q);
      XorCons(s, t);
      assert s == [a] + p && t == [b] + q;
      PolyCons(a, p);
      PolyCons(b, q);
      RevXor(a, b, 8);
      RevBound(a, 8);
      RevBound(b, 8);
      XorSplit(Rev(a, 8), Poly(p), Rev(b, 8), Poly(q), 8);
    }
  }

  lemma XorCons(s: seq<u8>, t: seq<u8>)
    requires |s| == |t| > 0
    ensures Poly(XorBytes(s, t)) == Rev(Xor(s[0], t[0]), 8) + Up(Poly(XorBytes(s[1..], t[1..])), 8)
  {
    hide Rev, Up, Xor, Poly;
    PolyCons(XorByte(s[0], t[0]), XorBytes(s[1..], t[1..]));
  }

  function ShiftedByte(b: u8, carry: nat): u8
    requires carry <= 1
  {
    b / 2 + 128 * carry
  }

  /** A byte string shifted right by one bit, with a carry coming in. */
  function Shifted(s: seq<u8>, carry: nat): (r: seq<u8>)
    requires carry <= 1
    ensures |r| == |s| && forall k :: 0 <= k < |s| ==> r[k] == ShiftedByte(s[k], CarryIn(s, carry, k))
  {
    if s == [] then [] else [ShiftedByte(s[0], carry)] + Shifted(s[1..], s[0] % 2)
  }

  /** The bit that moves into byte k. */
  function CarryIn(s: seq<u8>, carry: nat, k: nat): (c: nat)
    requires k <= |s| && carry <= 1
    ensures c <= 1
  {
    if k == 0 then carry else s[k - 1] % 2
  }

  function LastBit(s: seq<u8>, carry: nat): nat {
    if s == [] then carry else s[|s| - 1] % 2
  }

  /** Shifting right multiplies the polynomial by x; the last bit is the coefficient that falls out. */
  lemma {:induction false} PolyShift(s: seq<u8>, carry: nat)
    requires carry <= 1
    ensures Poly(Shifted(s, carry)) + Up(LastBit(s, carry), 8 * |s|) == 2 * Poly(s) + carry
  {
    hide Up, Rev, Pow2, Poly, Shifted, LastBit;
    if s == [] {
      NothingShifted(s, carry);
    } else {
      var b, t := s[0], s[1..];
      var c := b % 2;
      var last := LastBit(t, c);
      PolyShift(t, c);
      ShiftedCons(s, carry);
      assert s == [b] + t;
      PolyCons(b, t);
      ShiftByte(b, carry, Poly(t), Poly(Shifted(t, c)), Up(last, 8 * |t|));
      UpUp(last, 8 * |t|, 8);
    }
  }

  lemma ShiftedCons(s: seq<u8>, carry: nat)
    requires s != [] && carry <= 1
    ensures Poly(Shifted(s, carry)) == Rev(s[0] / 2 + 128 * carry, 8) + Up(Poly(Shifted(s[1..], s[0] % 2)), 8)
    ensures LastBit(s, carry) == LastBit(s[1..], s[0] % 2)
  {
    hide Rev, Up, Poly, Pow2;
    PolyCons(s[0] / 2 + 128 * carry, Shifted(s[1..], s[0] % 2));
  }

  lemma NothingShifted(s: seq<u8>, carry: nat)
    requires s == [] && carry <= 1
    ensures Poly(Shifted(s, carry)) == 0 == Poly(s) && Up(LastBit(s, carry), 0) == carry
  {
  }

  lemma ShiftByte(b: u8, carry: nat, p: nat, q: nat, up: nat)
    requires carry <= 1 && q + up == 2 * p + b % 2
    ensures Rev(b / 2 + 128 * carry, 8) + Up(q, 8) + Up(up, 8) == 2 * (Rev(b, 8) + Up(p, 8)) + carry
  {
    hide Rev, Up, Pow2;
    ByteBound();
    UpSeven(carry);
    RevShift(b, carry, 8);
    UpAdd(q, up, 8);
    UpAdd(2 * p, b % 2, 8);
    UpAdd(p, 0, 8);
  }

  lemma UpSeven(c: nat)
    requires c <= 1
    ensures Up(c, 7) == 128 * c
  {
    UpOfOne(7);
    ByteBound();
  }

  /** Bit i of a byte string, counted from the first, is coefficient i. */
  lemma {:induction false} PolyBit(s: seq<u8>, i: nat)
    requires i < 8 * |s|
    ensures Down(Poly(s), i) % 2 == Down(s[i / 8], 7 - i % 8) % 2
    decreases |s|
  {
    hide Up, Rev, Down;
    ByteBound();
    RevBound(s[0], 8);
    if i < 8 {
      RevBit(s[0], 8, i, Poly(s[1..]));
    } else {
      PolyBit(s[1..], i - 8);
      DownDown(Poly(s), 8, i - 8);
      DownUp(Rev(s[0], 8), Poly(s[1..]), 8);
      assert s[1..][(i - 8) / 8] == s[i / 8];
    }
  }

  lemma {:induction false} DownDown(a: nat, m: nat, n: nat)
    ensures Down(Down(a, m), n) == Down(a, m + n)
    decreases n
  {
    if n > 0 { DownDown(a, m, n - 1); }
  }

  // ---------------------------------------------------------------------------------------------
  // Multiplication by x, as the code does it
  // ---------------------------------------------------------------------------------------------

  /** Shift right and, if a bit fell out, add the reduced x^128 into the first byte. */
  function Stepped(v: seq<u8>): (r: seq<u8>)
    requires |v| == BLOCK
    ensures |r| == BLOCK
  {
    var w := Shifted(v, 0);
    if v[15] % 2 == 1 then [XorByte(w[0], 0xE1)] + w[1..] else w
  }

  lemma FirstByte(w: seq<u8>)
    requires |w| > 0
    ensures Poly([XorByte(w[0], 0xE1)] + w[1..]) == Xor(Poly(w), 135)
  {
    hide Xor, Up, Rev, Pow2, Poly, XorByte;
    var a, t := w[0], w[1..];
    assert w == [a] + t;
    PolyCons(XorByte(a, 0xE1), t);
    PolyCons(a, t);
    XorByteIs(a, 0xE1);
    RevXor(a, 0xE1, 8);
    RevBound(a, 8);
    RevBound(0xE1, 8);
    RevE1();
    XorSplit(Rev(a, 8), Poly(t), 135, 0, 8);
    XorZero(Poly(t));
    UpOfOne(8);
  }

  lemma RevE1()
    ensures Rev(0xE1, 8) == 135
  {
    assert Rev(0x0E, 4) == 7 by { assert Rev(3, 2) == 3; assert Rev(7, 3) == 7; }
    assert Rev(0x1C, 5) == 7;
    assert Rev(0x38, 6) == 7;
    assert Rev(0x70, 7) == 7;
    UpOfOne(7);
    ByteBound();
  }

  lemma SteppedIsTimesX(v: seq<u8>)
    requires |v| == BLOCK
    ensures Poly(v) < Order() && Poly(Stepped(v)) == TimesX(Poly(v))
  {
    hide Xor, Up, Rev, Poly, Pow2, Shifted, Stepped, TimesX, Overflow;
    PolyBound(v);
    PolyShift(v, 0);
    UpOfOne(128);
    TimesXIs(Poly(v));
    TimesXBound(Poly(v));
    PolyBound(Shifted(v, 0));
    SteppedPoly(v);
  }

  lemma SteppedPoly(v: seq<u8>)
    requires |v| == BLOCK
    ensures Poly(Stepped(v)) == if LastBit(v, 0) == 1 then Xor(Poly(Shifted(v, 0)), 135) else Poly(Shifted(v, 0))
  {
    hide Xor, Poly, Shifted;
    FirstByte(Shifted(v, 0));
  }
}
