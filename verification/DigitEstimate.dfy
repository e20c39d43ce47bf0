/** The trial quotient digit of the long division in src/bigint.c, and how far it can be trusted. */
module DigitEstimate {
  import opened Words
  import opened IntFacts
  import opened Limbs
  import opened LimbArithmetic

  /** The quotient of the top three dividend limbs by the top two divisor limbs, clamped to one limb: the
      estimate that Algorithm D intends. */
  function Intended(u0: u32, u1: u32, u2: u32, v1: u32, v2: u32): (q: int)
    requires v1 != 0
  {
    var q := ((u0 * BASE + u1) * BASE + u2) / (v1 * BASE + v2);
    if q < BASE then q else BASE - 1
  }

  /** (rhat << 32) + u2 in 64-bit arithmetic, where bits shifted out of rhat are lost. */
  function TestBound(rhat: int, u2: u32): int {
    Low32(rhat) * BASE + u2
  }

  /** The branch on which the written estimate goes below the intended one: the leading limbs are equal, the true
      partial remainder u1 + v1 no longer fits in a limb, and the correction test fires all the same because rhat
      was advanced only once or because its top bit was shifted out. */
  predicate Undershoots(u0: u32, u1: u32, u2: u32, v1: u32, v2: u32)
    requires v1 != 0
  {
    && u0 == v1
    && u1 as int + v1 >= BASE
    && (BASE - 1) * v2 > TestBound(u1 % v1 + v1, u2)
  }

  // Facts about the estimate over an arbitrary base b, to keep large literals out of the products.

  lemma TestMeaning(b: int, q: int, r: int, n: int, u2: int, v1: int, v2: int)
    requires q * v1 + r == n
    ensures q * v2 > r * b + u2 <==> q * (v1 * b + v2) > n * b + u2
  {
    calc {
      q * (v1 * b + v2);
      { Distribute(v1 * b, v2, q); }
      q * (v1 * b) + q * v2;
      { assert q * (v1 * b) == (q * v1) * b; }
      (n - r) * b + q * v2;
      { Distribute(n, -r, b); }
      n * b - r * b + q * v2;
    }
  }

  /** The uncorrected digit n / v1 is never too small. */
  lemma FirstGuess(b: int, n: int, u2: int, v1: int, v2: int)
    requires 0 < v1 && 0 <= v2 && 0 <= u2 < b && 0 <= n
    ensures (n / v1 + 1) * (v1 * b + v2) > n * b + u2
  {
    var q := n / v1 + 1;
    assert q * v1 >= n + 1 by { Distribute(n / v1, 1, v1); }
    MulMono(n + 1, q * v1, b);
    Distribute(n, 1, b);
    Distribute(v1 * b, v2, q);
    MulMono(0, q, v2);
    assert q * (v1 * b) == (q * v1) * b;
  }

  /** With equal leading limbs and u1 + v1 >= b, the largest digit passes the intended test. */
  lemma LargestDigitPasses(b: int, u1: int, u2: int, v1: int, v2: int)
    requires 0 <= u2 < b && 0 <= u1 < b && 0 <= v2 < b && u1 + v1 >= b
    ensures (b - 1) * (v1 * b + v2) <= (v1 * b + u1) * b + u2
  {
    Distribute(v1 * b, v2, b - 1);
    Distribute(v1 * b, u1, b);
    assert (b - 1) * (v1 * b) == (v1 * b) * b - v1 * b;
    MulMono(b, u1 + v1, b);
    Distribute(u1, v1, b);
    MulMono(v2, b - 1, b - 1);
    assert (b - 1) * (b - 1) == b * b - 2 * b + 1;
  }

  lemma TestQuietAbove(b: int, q: int, r: int, u2: int, v2: int)
    requires 0 <= q < b && 0 <= v2 < b && r >= b && u2 >= 0
    ensures q * v2 <= r * b + u2
  {
    ProductUpTo(q, v2, b - 1);
    MulMono(b, r, b);
    assert (b - 1) * (b - 1) == b * b - 2 * b + 1;
  }

  function Top2(u0: u32, u1: u32): (n: u64) {
    u0 * BASE + u1
  }

  /** q and r are a quotient and remainder of the top two limbs by v1. */
  ghost predicate Tracks(u0: u32, u1: u32, v1: u32, q: int, r: int) {
    q * v1 + r == Top2(u0, u1)
  }

  /** No larger single-limb digit passes the intended test. */
  ghost predicate Largest(u0: u32, u1: u32, u2: u32, v1: u32, v2: u32, q: int) {
    q == BASE - 1 || (q + 1) * Top2(v1, v2) > Top2(u0, u1) * BASE + u2
  }

  lemma Settled(u0: u32, u1: u32, u2: u32, v1: u32, v2: u32, q: int, r: int)
    requires v1 != 0 && 0 <= q < BASE
    requires Tracks(u0, u1, v1, q, r) && Largest(u0, u1, u2, v1, v2, q)
    requires q * v2 <= r * BASE + u2
    ensures q == Intended(u0, u1, u2, v1, v2)
  {
    var n3, d2 := Top2(u0, u1) * BASE + u2, Top2(v1, v2);
    TestMeaning(BASE, q, r, Top2(u0, u1), u2, v1, v2);
    assert q * d2 <= n3;
    if q == BASE - 1 {
      FloorAtLeast(n3, d2, q);
    } else {
      FloorIs(n3, d2, q);
    }
  }

  /** When the test fires, the digit is too large, and stepping down keeps track. */
  lemma Fired(u0: u32, u1: u32, u2: u32, v1: u32, v2: u32, q: int, r: int)
    requires Tracks(u0, u1, v1, q, r)
    requires q * v2 > r * BASE + u2
    ensures Largest(u0, u1, u2, v1, v2, q - 1)
    ensures Tracks(u0, u1, v1, q - 1, r + v1)
  {
    TestMeaning(BASE, q, r, Top2(u0, u1), u2, v1, v2);
    Distribute(q, -1, v1);
  }

  lemma EqualTops(u1: u32, u2: u32, v1: u32, v2: u32)
    requires BASE <= 2 * v1
    ensures var n := Top2(v1, u1); n / v1 >= BASE && n % v1 == u1 % v1
    ensures u1 as int + v1 < BASE ==> u1 % v1 == u1 && Tracks(v1, u1, v1, BASE - 1, u1 as int + v1)
    ensures u1 as int + v1 >= BASE ==> Intended(v1, u1, u2, v1, v2) == BASE - 1
  {
    var n := Top2(v1, u1);
    FloorAtLeast(n, v1, BASE);
    SameRemainder(BASE, u1, v1);
    Distribute(BASE, -1, v1);
    if u1 as int + v1 >= BASE {
      LargestDigitPasses(BASE, u1, u2, v1, v2);
      FloorAtLeast(n * BASE + u2, Top2(v1, v2), BASE - 1);
    }
  }

  lemma SmallerTop(u0: u32, u1: u32, u2: u32, v1: u32, v2: u32)
    requires u0 < v1
    ensures var n := Top2(u0, u1);
      n / v1 < BASE && Tracks(u0, u1, v1, n / v1, n % v1) && Largest(u0, u1, u2, v1, v2, n / v1)
  {
    var n := Top2(u0, u1);
    FirstGuess(BASE, n, u2, v1, v2);
    MulMono(u0 as int + 1, v1, BASE);
    QuotientBound(n, v1, BASE);
  }

  lemma SameRemainder(b: int, u: int, v: int)
    requires v > 0
    ensures (v * b + u) % v == u % v
    ensures 0 <= u < v ==> u % v == u
  {
    var k := u / v;
    Distribute(b, k, v);
    FloorIs(v * b + u, v, b + k);
    if 0 <= u < v { FloorIs(u, v, 0); }
  }

  // ---------------------------------------------------------------------------------------------
  // The estimate as written
  // ---------------------------------------------------------------------------------------------

  /** The correction loop, lines 461-467. */
  function Refine(qhat: nat, rhat: nat, u2: u32, v1: u32, v2: u32): (q: nat)
    ensures q <= qhat
    decreases qhat
  {
    if qhat == 0 || qhat * v2 <= TestBound(rhat, u2) then qhat
    else if rhat + v1 >= BASE then qhat - 1
    else Refine(qhat - 1, rhat + v1, u2, v1, v2)
  }

  /** The digit that lines 452-467 compute, for all limbs. */
  function Estimate(u0: u32, u1: u32, u2: u32, v1: u32, v2: u32): (q: nat)
    requires v1 != 0
    ensures q < BASE
  {
    var q, r := Top2(u0, u1) / v1, Top2(u0, u1) % v1;
    if q > BASE - 1 then Refine(BASE - 1, r + v1, u2, v1, v2) else Refine(q, r, u2, v1, v2)
  }

  /** The division and clamp at lines 452-459. In the third case rhat is not the remainder that goes with qhat. */
  lemma FirstTrial(u0: u32, u1: u32, u2: u32, v1: u32, v2: u32) returns (qhat: nat, rhat: nat)
    requires u0 <= v1 && BASE <= 2 * v1
    ensures Estimate(u0, u1, u2, v1, v2) == Refine(qhat, rhat, u2, v1, v2) && qhat < BASE
    ensures u0 < v1 || u1 as int + v1 < BASE ==>
      rhat < BASE && Tracks(u0, u1, v1, qhat, rhat) && Largest(u0, u1, u2, v1, v2, qhat)
    ensures u0 == v1 && u1 as int + v1 >= BASE ==>
      qhat == BASE - 1 && rhat == u1 % v1 + v1 && Intended(u0, u1, u2, v1, v2) == BASE - 1
  {
    hide Tracks, Largest, Intended, Top2, Refine;
    if u0 == v1 { EqualTops(u1, u2, v1, v2); }
    if u0 < v1 { SmallerTop(u0, u1, u2, v1, v2); }
    LargestTop(u0, u1, u2, v1, v2);
    var numerator := Top2(u0, u1);
    qhat, rhat := numerator / v1, numerator % v1;
    if qhat > BASE - 1 {
      qhat, rhat := BASE - 1, rhat + v1;
    }
  }

  lemma LargestTop(u0: u32, u1: u32, u2: u32, v1: u32, v2: u32)
    ensures Largest(u0, u1, u2, v1, v2, BASE - 1)
  {
  }

  /** While the remainder goes with the digit and fits in a limb, the correction ends on the intended digit. */
  lemma {:induction false} RefineSettles(u0: u32, u1: u32, u2: u32, v1: u32, v2: u32, qhat: nat, rhat: nat)
    requires v1 != 0 && qhat < BASE && rhat < BASE
    requires Tracks(u0, u1, v1, qhat, rhat) && Largest(u0, u1, u2, v1, v2, qhat)
    ensures Refine(qhat, rhat, u2, v1, v2) == Intended(u0, u1, u2, v1, v2)
    decreases qhat
  {
    hide Tracks, Largest, Intended;
    assert TestBound(rhat, u2) == rhat * BASE + u2;
    if qhat == 0 || qhat * v2 <= TestBound(rhat, u2) {
      Settled(u0, u1, u2, v1, v2, qhat, rhat);
    } else {
      Fired(u0, u1, u2, v1, v2, qhat, rhat);
      if rhat + v1 >= BASE {
        TestQuietAbove(BASE, qhat - 1, rhat + v1, u2, v2);
        Settled(u0, u1, u2, v1, v2, qhat - 1, rhat + v1);
      } else {
        RefineSettles(u0, u1, u2, v1, v2, qhat - 1, rhat + v1);
      }
    }
  }

  /** The written estimate is the intended one, except on the branch where it undershoots. */
  lemma EstimateIs(u0: u32, u1: u32, u2: u32, v1: u32, v2: u32)
    requires u0 <= v1 && BASE <= 2 * v1
    ensures Estimate(u0, u1, u2, v1, v2)
      == if Undershoots(u0, u1, u2, v1, v2) then BASE - 2 else Intended(u0, u1, u2, v1, v2)
  {
    hide Tracks, Largest, Intended, Top2, Estimate;
    var qhat, rhat := FirstTrial(u0, u1, u2, v1, v2);
    if u0 < v1 || u1 as int + v1 < BASE {
      RefineSettles(u0, u1, u2, v1, v2, qhat, rhat);
    } else {
      assert rhat + v1 >= BASE;
    }
  }

  /** Lines 452-467 as written. */
  method EstimateDigit(u0: u32, u1: u32, u2: u32, v1: u32, v2: u32) returns (qhat: u64)
    requires v1 != 0
    ensures qhat < BASE && qhat == Estimate(u0, u1, u2, v1, v2)
    ensures u0 <= v1 && BASE <= 2 * v1 ==>
      qhat == if Undershoots(u0, u1, u2, v1, v2) then BASE - 2 else Intended(u0, u1, u2, v1, v2)
  {
    hide Intended, Top2;
    if u0 <= v1 && BASE <= 2 * v1 { EstimateIs(u0, u1, u2, v1, v2); }
    var numerator := Top2(u0, u1);
    qhat := numerator / v1;
    var rhat: u64 := numerator % v1;
    if qhat > BASE - 1 {
      qhat := BASE - 1;
      rhat := rhat + v1;
    }
    while qhat * v2 > TestBound(rhat, u2)
      invariant qhat < BASE && rhat < 2 * BASE
      invariant Refine(qhat, rhat, u2, v1, v2) == Estimate(u0, u1, u2, v1, v2)
      decreases qhat
    {
      assert qhat > 0;
      qhat := qhat - 1;
      rhat := rhat + v1;
      if rhat >= BASE {
        return;
      }
    }
  }

  /** The estimate that was intended: the partial remainder always goes with the digit, and once it has left the limb
      the correction ends. */
  method IntendedEstimate(u0: u32, u1: u32, u2: u32, v1: u32, v2: u32) returns (qhat: u64)
    requires u0 <= v1 && BASE <= 2 * v1
    ensures qhat < BASE && qhat == Intended(u0, u1, u2, v1, v2)
  {
    hide Largest, Intended, Top2;
    var numerator := Top2(u0, u1);
    LargestTop(u0, u1, u2, v1, v2);
    var first := numerator / v1;
    if u0 < v1 { SmallerTop(u0, u1, u2, v1, v2); }
    if u0 == v1 { EqualTops(u1, u2, v1, v2); }
    qhat := if first > BASE - 1 then BASE - 1 else first;
    Remainder(numerator, v1, qhat);
    var rhat := numerator as int - qhat * v1;
    while rhat < BASE && qhat * v2 > rhat * BASE + u2
      invariant qhat < BASE && rhat >= 0
      invariant Tracks(u0, u1, v1, qhat, rhat) && Largest(u0, u1, u2, v1, v2, qhat)
      decreases qhat
    {
      assert qhat > 0;
      Fired(u0, u1, u2, v1, v2, qhat, rhat);
      qhat := qhat - 1;
      rhat := rhat + v1;
    }
    if rhat >= BASE { TestQuietAbove(BASE, qhat, rhat, u2, v2); }
    Settled(u0, u1, u2, v1, v2, qhat, rhat);
  }

  lemma Remainder(n: int, v: int, q: int)
    requires n >= 0 && v > 0 && q <= n / v
    ensures n - q * v >= 0
  {
    MulMono(q, n / v, v);
  }

  /** Knuth's bound: cutting dividend and divisor to their top limbs overestimates the digit by at most one. */
  lemma IntendedIsClose(w: nat, v: nat, n3: nat, d2: nat, s: nat, wl: nat, vl: nat, b: nat)
    requires w == n3 * s + wl && wl < s
    requires v == d2 * s + vl && vl < s
    requires 2 <= b <= d2 && w < v * b
    ensures var q3 := n3 / d2;
            var q := if q3 < b then q3 else b - 1;
            w / v <= q <= w / v + 1
  {
    var q3 := n3 / d2;
    var q := if q3 < b then q3 else b - 1;
    NotBelow(w, v, n3, d2, s, wl, vl);
    QuotientBound(w, v, b);
    NotFarAbove(w, v, n3, d2, s, wl, vl, q, b);
  }

  lemma NotFarAbove(w: nat, v: nat, n3: nat, d2: nat, s: nat, wl: nat, vl: nat, q: nat, b: nat)
    requires w == n3 * s + wl && v == d2 * s + vl && vl < s
    requires 0 < v && 2 <= b <= d2 && q < b && q <= n3 / d2
    ensures q <= w / v + 1
  {
    FloorTimes(n3, d2, q);
    if q > 0 {
      OneLess(w, v, n3, d2, s, wl, vl, q, b);
      FloorAtLeast(w, v, q - 1);
    }
  }

  lemma FloorTimes(n: nat, d: nat, q: nat)
    requires d > 0 && q <= n / d
    ensures q * d <= n
  {
    MulMono(q, n / d, d);
  }

  lemma NotBelow(w: nat, v: nat, n3: nat, d2: nat, s: nat, wl: nat, vl: nat)
    requires w == n3 * s + wl && wl < s
    requires v == d2 * s + vl && 0 < d2
    ensures v > 0 && w / v <= n3 / d2
  {
    assert d2 * s >= s by { MulMono(1, d2, s); }
    var q := w / v;
    assert q * v <= w;
    assert q * v == (q * d2) * s + q * vl by { Distribute(d2 * s, vl, q); }
    assert 0 <= q * vl by { MulMono(0, q, vl); }
    if q * d2 > n3 {
      MulMono(n3 + 1, q * d2, s);
      Distribute(n3, 1, s);
      assert false;
    }
    FloorAtLeast(n3, d2, q);
  }

  lemma OneLess(w: nat, v: nat, n3: nat, d2: nat, s: nat, wl: nat, vl: nat, q: nat, b: nat)
    requires w == n3 * s + wl && v == d2 * s + vl && vl < s
    requires q * d2 <= n3 && 0 < q < b <= d2
    ensures (q - 1) * v <= w
  {
    calc {
      (q - 1) * v;
      { Distribute(q, -1, v); }
      q * v - v;
      { Distribute(d2 * s, vl, q); assert q * (d2 * s) == (q * d2) * s; }
      (q * d2) * s + q * vl - v;
    <= { MulMono(q * d2, n3, s); }
      n3 * s + q * vl - v;
    <= { MulMono(vl, s, q); MulMono(q, d2, s); }
      w;
    }
  }
}
