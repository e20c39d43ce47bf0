/** Division of magnitudes in src/bigint.c: the single-limb path, the small-quotient path and the long division. */
module Division {
  import opened Words
  import opened IntFacts
  import opened Limbs
  import opened LimbArithmetic
  import opened DigitEstimate
  import opened LongDivision

  const SMALL_Q_LIMIT: int := 16

  /** The operands are close enough in length for the small-quotient path to be considered. */
  predicate SimilarLength(a: seq<u32>, b: seq<u32>) {
    |b| > 0 && (|a| == |b| || |a| == |b| + 1)
  }

  /** The estimate of the quotient from the leading limbs, lines 351-357. */
  function TopEstimate(a: seq<u32>, b: seq<u32>): (q: nat)
    requires SimilarLength(a, b) && b[|b| - 1] != 0
  {
    if |a| == |b| then a[|a| - 1] / b[|b| - 1] else Top2(a[|a| - 1], a[|a| - 2]) / b[|b| - 1]
  }

  predicate TakesSmallQuotientPath(a: seq<u32>, b: seq<u32>)
    requires Trimmed(b)
  {
    SimilarLength(a, b) && TopEstimate(a, b) < SMALL_Q_LIMIT
  }

  lemma LeadBound(a: nat, lead: nat, b: seq<u32>)
    requires Trimmed(b) && |b| > 0
    requires a < Shift(lead + 1, |b| - 1)
    ensures a < (lead / b[|b| - 1] + 1) * Val(b)
  {
    hide Val, Shift;
    var n, t := |b| - 1, b[|b| - 1] as int;
    var e := lead / t + 1;
    assert lead + 1 <= e * t by { Distribute(lead / t, 1, t); }
    ValTop(b);
    ShiftMono(lead + 1, e * t, n);
    assert Shift(e * t, n) == Shift(t, n) * e by { ShiftMul(t, e, n); assert t * e == e * t; }
    MulMono(Shift(t, n), Val(b), e);
  }

  /** The top-limb estimate is never below the true quotient. */
  lemma EstimateIsUpperBound(a: seq<u32>, b: seq<u32>)
    requires Trimmed(b) && SimilarLength(a, b)
    ensures Val(a) < (TopEstimate(a, b) + 1) * Val(b)
  {
    hide Val, Shift, Top2;
    var n := |b|;
    if |a| == n {
      ValTop(a);
      LeadBound(Val(a), a[n - 1], b);
    } else {
      var lead := Top2(a[n], a[n - 1]);
      ValSplit(a, n - 1);
      ValTwo(a[n - 1..]);
      ValBound(a[..n - 1]);
      ShiftAdd(lead, 1, n - 1);
      LeadBound(Val(a), lead, b);
    }
  }

  /** Repeated subtraction, lines 359-381: it always stops before the limit. */
  method SubtractRepeatedly(a: seq<u32>, b: seq<u32>) returns (q: u32, rem: seq<u32>)
    requires Trimmed(a) && Trimmed(b) && TakesSmallQuotientPath(a, b)
    ensures q < SMALL_Q_LIMIT && Trimmed(rem)
    ensures Val(a) == q * Val(b) + Val(rem) && Val(rem) < Val(b)
  {
    hide Val, TopEstimate;
    EstimateIsUpperBound(a, b);
    rem := a;
    q := 0;
    while q < SMALL_Q_LIMIT
      invariant 0 <= q <= SMALL_Q_LIMIT && Trimmed(rem)
      invariant Val(a) == q * Val(b) + Val(rem)
    {
      var cmp := CompareAbs(rem, b);
      if cmp < 0 {
        return;
      }
      if |rem| < |b| { LongerIsGreater(rem, b); }
      rem := SubAbs(rem, b);
      Distribute(q, 1, Val(b));
      q := q + 1;
    }
    MulMono(TopEstimate(a, b) + 1, SMALL_Q_LIMIT, Val(b));
    assert false;
  }

  /** The operands on which bigint_divmod_abs_limbs returns a wrong result. */
  predicate DivisionFails(a: seq<u32>, b: seq<u32>)
    requires Trimmed(a) && Trimmed(b)
  {
    |b| >= 2 && Val(b) < Val(a) && !TakesSmallQuotientPath(a, b) && LongDivisionFails(a, b)
  }

  /** The operands on which it returns a wrong remainder. */
  predicate RemainderFails(a: seq<u32>, b: seq<u32>)
    requires Trimmed(a) && Trimmed(b)
  {
    |b| >= 2 && Val(b) < Val(a) && !TakesSmallQuotientPath(a, b) && RemainderLost(a, b)
  }

  /** The operands on which only the lowest digit of the quotient is wrong. */
  predicate LastDigitOnly(a: seq<u32>, b: seq<u32>)
    requires Trimmed(a) && Trimmed(b)
  {
    |b| >= 2 && Val(b) < Val(a) && !TakesSmallQuotientPath(a, b) && LastDigitFails(a, b)
  }

  /** A wrong remainder comes only with a wrong quotient, and always with one whose lowest digit alone is wrong. */
  lemma RemainderFailures(a: seq<u32>, b: seq<u32>)
    requires Trimmed(a) && Trimmed(b)
    ensures RemainderFails(a, b) ==> DivisionFails(a, b)
    ensures LastDigitOnly(a, b) ==> RemainderFails(a, b)
  {
    hide Val, LongDivisionFails, TakesSmallQuotientPath, RemainderLost, LastDigitFails;
    if |b| >= 2 && Val(b) < Val(a) {
      if |a| < |b| { LongerIsGreater(a, b); }
      WhenRemainderIsLost(a, b);
    }
  }

  ghost predicate IsQuotient(a: nat, b: nat, q: nat, r: nat) {
    a == q * b + r && r < b
  }

  /** bigint_divmod_abs_limbs as written. */
  method DivmodAbs(a: seq<u32>, b: seq<u32>) returns (q: seq<u32>, r: seq<u32>, divByZero: bool)
    requires Trimmed(a) && Trimmed(b)
    ensures Trimmed(q) && Trimmed(r)
    ensures divByZero <==> |b| == 0
    ensures divByZero ==> q == [] && r == []
    ensures !divByZero && !DivisionFails(a, b) ==> IsQuotient(Val(a), Val(b), Val(q), Val(r))
    ensures !divByZero && DivisionFails(a, b) ==> (Val(q) + 1) * Val(b) <= Val(a)
    ensures !divByZero && DivisionFails(a, b) ==> Val(b) > 0 && (Val(r) == Val(a) % Val(b) <==> !RemainderFails(a, b))
  {
    hide Val, LongDivisionFails, TakesSmallQuotientPath, TopEstimate, RemainderLost;
    ValNone();
    ValOne(1);
    if |b| == 0 {
      return [], [], true;
    }
    divByZero := false;
    TrimmedLower(b);
    if |a| == 0 {
      assert a == [];
      return [], [], false;
    }
    var cmp := CompareAbs(a, b);
    if cmp < 0 {
      return [], a, false;
    }
    if cmp == 0 {
      return [1], [], false;
    }
    if |b| == 1 {
      var rem: u32;
      q, rem := DivmodSmall(a, b[0]);
      ValOne(b[0]);
      ValOne(rem);
      assert b == [b[0]];
      r := if rem != 0 then [rem] else [];
      return;
    }
    if |a| < |b| { LongerIsGreater(a, b); }
    if TakesSmallQuotientPath(a, b) {
      var count, rem := SubtractRepeatedly(a, b);
      var remCmp := CompareAbs(rem, b);
      ValOne(count);
      if remCmp < 0 {
        q, r := if count == 0 then [] else [count], rem;
        return;
      }
    }
    q, r := LongDivide(a, b);
  }

  /** Outside the failing operands the result is the mathematical one, and inside them it is not: for the quotient, and
      for the remainder. */
  lemma FailureIsExact(a: seq<u32>, b: seq<u32>, q: seq<u32>, r: seq<u32>)
    requires Trimmed(a) && Trimmed(b) && |b| > 0 && Val(b) > 0
    requires !DivisionFails(a, b) ==> IsQuotient(Val(a), Val(b), Val(q), Val(r))
    requires DivisionFails(a, b) ==> (Val(q) + 1) * Val(b) <= Val(a)
    requires DivisionFails(a, b) ==> (Val(r) == Val(a) % Val(b) <==> !RemainderFails(a, b))
    ensures !DivisionFails(a, b) <==> Val(q) == Val(a) / Val(b)
    ensures !RemainderFails(a, b) <==> Val(r) == Val(a) % Val(b)
    ensures DivisionFails(a, b) ==> Val(q) < Val(a) / Val(b)
  {
    hide Val, DivisionFails, RemainderFails;
    RemainderFailures(a, b);
    if DivisionFails(a, b) {
      FloorAtLeast(Val(a), Val(b), Val(q) + 1);
    } else {
      QuotientIs(Val(a), Val(b), Val(q), Val(r));
    }
  }

  /** 0x80000000_FFFFFFFE_00000000 and 0x80000000_FFFFFFFF. */
  function FailingDividend(): seq<u32> { [0, 0xFFFF_FFFE, 0x8000_0000] }

  function FailingDivisor(): seq<u32> { [0xFFFF_FFFF, 0x8000_0000] }

  /** The scaled operands of the failing division: the scaling factor is one. */
  lemma FailingScaled()
    ensures var a, b := FailingDividend(), FailingDivisor();
            Trimmed(a) && Trimmed(b) && NormFactor(b) == 1 && ScaledLimbs(b) == b && ScaledDividend(a, b) == a + [0]
    ensures Val(FailingDividend()) == 0x8000_0000_FFFF_FFFE * BASE && Val(FailingDivisor()) == 0x8000_0000_FFFF_FFFF
  {
    var a, b := FailingDividend(), FailingDivisor();
    ValTwo(b);
    ValThree(a);
    assert NormFactor(b) == 1 by { FloorIs(BASE, 0x8000_0001, 1); }
    assert ScaledLimbs(b) == b by { DigitsOfVal(b); }
    assert ScaledDividend(a, b) == a + [0] by {
      ValSnoc(a, 0);
      DigitsOfVal(a + [0]);
    }
  }

  /** Only the lowest of its two windows misfires. */
  lemma FailingWindows()
    ensures Normalised(FailingDivisor()) && Val(FailingDivisor()) > 0
    ensures LastMisfires(FailingDividend() + [0], FailingDivisor())
  {
    var a, b := FailingDividend(), FailingDivisor();
    var u, hi := a + [0], 0x8000_0000_FFFF_FFFE;
    FailingScaled();
    assert ExactWindow(u, b) == a by {
      assert u[1..] == a[1..] + [0];
      ValTwo(a[1..]);
      ValSnoc(a[1..], 0);
      QuotientIs(hi, Val(b), 0, hi);
      DigitsOfVal(a);
    }
    assert Misfire(a, b) by {
      QuotientIs(0xFFFF_FFFE, 0x8000_0000, 1, 0x7FFF_FFFE);
    }
    assert !Misfires(u[1..], b) by { FirstWindowIsQuiet(); }
  }

  lemma FirstWindowIsQuiet()
    ensures Normalised(FailingDivisor()) && Val(FailingDivisor()) > 0
    ensures !Misfires((FailingDividend() + [0])[1..], FailingDivisor())
  {
    var b := FailingDivisor();
    var t: seq<u32> := [0xFFFF_FFFE, 0x8000_0000, 0];
    FailingScaled();
    assert (FailingDividend() + [0])[1..] == t;
    assert ExactWindow(t, b) == t by {
      assert t[1..] == [0x8000_0000, 0];
      ValTwo(t[1..]);
      ValThree(t);
      QuotientIs(0x8000_0000, Val(b), 0, 0x8000_0000);
      DigitsOfVal(t);
    }
    MisfiresUnfold(t, b);
    assert !Misfires(t[1..], b);
  }

  /** A concrete failure of quotient and remainder. */
  lemma FailingOperands()
    ensures var a, b := FailingDividend(), FailingDivisor();
            Trimmed(a) && Trimmed(b) && DivisionFails(a, b) && RemainderFails(a, b)
  {
    hide Misfires, Misfire, ExactWindow, RemainderLost;
    var a, b := FailingDividend(), FailingDivisor();
    FailingScaled();
    FailingWindows();
    MisfiresUnfold(a + [0], b);
    assert !TakesSmallQuotientPath(a, b) by {
      assert Top2(0x8000_0000, 0xFFFF_FFFE) == 0x8000_0000_FFFF_FFFE;
      FloorAtLeast(0x8000_0000_FFFF_FFFE, 0x8000_0000, SMALL_Q_LIMIT);
    }
    RemainderFailures(a, b);
  }

  /** What the failing division leaves is 0xFFFFFFFE; the remainder is 0x7FFFFFFF_FFFFFFFF. */
  lemma FailingRemainder()
    ensures var a, b := FailingDividend(), FailingDivisor(); var u := a + [0];
      && Normalised(b) && Val(b) > 0
      && Val(Left(u, WrittenDigits(u, b), b)) == 0xFFFF_FFFE
      && Val(a) % Val(b) == 0x7FFF_FFFF_FFFF_FFFF
  {
    hide Val, Digits, Shift, WrittenDigits, Misfires, Surplus, LastDigitFails, LongDivisionFails;
    var a, b := FailingDividend(), FailingDivisor();
    var u := a + [0];
    FailingScaled();
    FailingWindows();
    assert LastDigitFails(a, b) by { LastIs(a, b); }
    WrittenQuotientIs(a, b);
    var q := WrittenQuotient(a, b);
    ScaledOperands(a, b);
    LeftIs(Val(a), Val(b), q, 1, 2);
    assert Shift(1, 2) == BASE * BASE by { TwoLimbs(); }
    QuotientIs(Val(a), Val(b), 0xFFFF_FFFF, 0x7FFF_FFFF_FFFF_FFFF);
    assert Surplus(1, Val(b), 2) == Val(b) by { FullSurplus(Val(b), 2); }
  }

  lemma LastIs(a: seq<u32>, b: seq<u32>)
    requires Trimmed(b) && |b| >= 2 && LastMisfires(ScaledDividend(a, b), ScaledLimbs(b))
    ensures LastDigitFails(a, b)
  {
  }

  lemma TwoLimbs()
    ensures Shift(1, 2) == BASE * BASE
  {
  }

  lemma FullSurplus(v: nat, n: nat)
    requires v < Shift(1, n)
    ensures Surplus(1, v, n) == v
  {
    hide Shift;
    QuotientIs(v, Shift(1, n), 0, v);
  }

  /** A test on the divisor alone: if its two leading limbs, scaled, add up to less than the base, no dividend fails. */
  lemma SafeDivisor(a: seq<u32>, b: seq<u32>)
    requires Trimmed(a) && Trimmed(b) && |b| >= 2
    requires ScaledLimbs(b)[|b| - 1] as int + ScaledLimbs(b)[|b| - 2] < BASE
    ensures !DivisionFails(a, b) && !RemainderFails(a, b)
  {
    hide Misfires, RemainderLost, RemainderFails;
    SafeWindows(ScaledDividend(a, b), ScaledLimbs(b));
    RemainderFailures(a, b);
  }

  lemma {:induction false} SafeWindows(u: seq<u32>, v: seq<u32>)
    requires Normalised(v) && Val(v) > 0 && v[|v| - 1] as int + v[|v| - 2] < BASE
    ensures !Misfires(u, v)
    decreases |u|
  {
    if |u| > |v| {
      hide Misfire, ExactWindow;
      SafeWindows(u[1..], v);
      ExactWindowBound(u, v);
      SafeWindow(ExactWindow(u, v), v);
    }
  }

  lemma ExactWindowBound(u: seq<u32>, v: seq<u32>)
    requires |u| > |v| > 0 && Val(v) > 0
    ensures Val(ExactWindow(u, v)) < Val(v) * BASE
  {
    hide Val, Digits;
    var r := Val(u[1..]) % Val(v);
    ValBound(v);
    MulMono(r + 1, Val(v), BASE);
    assert Shift(1, |v| + 1) == BASE * Shift(1, |v|);
    ValOfDigits(u[0] + BASE * r, |v| + 1);
  }

  /** Where the leading limbs are equal, the next limb of a window is at most that of the divisor. */
  lemma SafeWindow(w: seq<u32>, v: seq<u32>)
    requires Normalised(v) && |w| == |v| + 1 && Val(w) < Val(v) * BASE
    requires v[|v| - 1] as int + v[|v| - 2] < BASE
    ensures !Misfire(w, v)
  {
    hide Val;
    var n := |v|;
    if w[n] == v[n - 1] && w[n - 1] > v[n - 2] {
      var t := w[1..];
      assert w == [w[0]] + t;
      ValCons(w[0], t);
      NextLimbLess(v, t);
      MulMono(Val(v), Val(t), BASE);
    }
  }

  lemma NextLimbLess(v: seq<u32>, t: seq<u32>)
    requires |v| == |t| >= 2 && v[|v| - 1] == t[|v| - 1] && v[|v| - 2] < t[|v| - 2]
    ensures Val(v) < Val(t)
  {
    hide Val;
    var n := |v|;
    TopLess(v[..n - 1], t[..n - 1]);
    assert v[..n] == v && t[..n] == t;
    ValPrefix(v, n - 1);
    ValPrefix(t, n - 1);
  }

  // ---------------------------------------------------------------------------------------------
  // Operands on which every failure costs the remainder
  // ---------------------------------------------------------------------------------------------

  /** A test on the operands alone: the divisor is odd, the scaling factor is a power of two, and the scaled dividend is
      below the divisor moved up by its own length. Then every failing quotient has a wrong remainder. */
  lemma OddDivisor(a: seq<u32>, b: seq<u32>, s: nat)
    requires Trimmed(a) && Trimmed(b) && |b| >= 2
    requires b[0] % 2 == 1 && NormFactor(b) == Pow2(s) && Val(a) * Pow2(s) < Val(b) * Shift(1, |b|)
    ensures RemainderFails(a, b) <==> DivisionFails(a, b)
  {
    hide Val, Shift, Pow2, NormFactor, LongDivisionFails, TakesSmallQuotientPath, WrittenQuotient, Surplus, ScaledLimbs;
    RemainderFailures(a, b);
    if DivisionFails(a, b) {
      if |a| < |b| { LongerIsGreater(a, b); }
      ScaledOperands(a, b);
      WrittenQuotientIs(a, b);
      OddValue(b);
      UnitIsPow2(|b|);
      var e := Val(a) / Val(b) - WrittenQuotient(a, b);
      OddShows(Val(a), Val(b), e, s, 32 * |b|);
      SurplusOfPow2(e, Val(b) * Pow2(s), |b|);
    }
  }

  /** In particular, without scaling: an odd divisor with its top bit set and more than half as many limbs as the
      dividend. */
  lemma OddUnscaled(a: seq<u32>, b: seq<u32>)
    requires Trimmed(a) && Trimmed(b) && |b| >= 2
    requires b[0] % 2 == 1 && NormFactor(b) == 1 && |a| < 2 * |b|
    ensures RemainderFails(a, b) <==> DivisionFails(a, b)
  {
    hide Val, Shift, NormFactor, DivisionFails, RemainderFails;
    assert Pow2(0) == 1;
    ValBound(a);
    TrimmedLower(b);
    var n := |b|;
    UnitMono(|a|, n - 1 + n);
    ShiftShift(1, n - 1, n);
    ShiftMul(1, Shift(1, n - 1), n);
    MulMono(Shift(1, n - 1), Val(b), Shift(1, n));
    OddDivisor(a, b, 0);
  }

  lemma SurplusOfPow2(e: int, v: nat, n: nat)
    requires Shift(1, n) == Pow2(32 * n)
    ensures Surplus(e, v, n) == e * v % Pow2(32 * n)
  {
    hide Shift, Pow2;
  }

  lemma OddValue(b: seq<u32>)
    requires |b| > 0 && b[0] % 2 == 1
    ensures Val(b) % 2 == 1
  {
    hide Val;
    assert b == [b[0]] + b[1..];
    ValCons(b[0], b[1..]);
    OddPlusLimbs(b[0], Val(b[1..]));
  }

  lemma OddPlusLimbs(x: int, y: int)
    requires x % 2 == 1
    ensures (x + BASE * y) % 2 == 1
  {
    QuotientIs(x + BASE * y, 2, x / 2 + 0x8000_0000 * y, 1);
  }

  lemma {:induction false} UnitIsPow2(n: nat)
    ensures Shift(1, n) == Pow2(32 * n)
  {
    hide Pow2;
    if n == 0 {
      PowersAdd(0, 0);
    } else {
      UnitIsPow2(n - 1);
      PowersAdd(32, 32 * (n - 1));
      Pow2Limb();
    }
  }

  lemma {:induction false} PowersAdd(j: nat, k: nat)
    ensures Pow2(j + k) == Pow2(j) * Pow2(k) && Pow2(0) == 1
  {
    if j > 0 {
      PowersAdd(j - 1, k);
      Associate(2, Pow2(j - 1), Pow2(k));
    }
  }

  /** If an odd number makes a multiple of 2^k, the other factor is one. */
  lemma {:induction false} OddCancels(x: nat, b: nat, l: int, k: nat) returns (t: int)
    requires b % 2 == 1 && x * b == l * Pow2(k)
    ensures x == t * Pow2(k)
  {
    if k == 0 {
      t := x;
    } else {
      var p := Pow2(k - 1);
      Associate(l, 2, p);
      Associate(2, l, p);
      OddTimes(x, b, l * p);
      t := OddCancels(x / 2, b, l, k - 1);
      Associate(t, 2, p);
      Associate(2, t, p);
    }
  }

  lemma OddTimes(x: nat, b: nat, y: int)
    requires b % 2 == 1 && x * b == 2 * y
    ensures x == 2 * (x / 2) && (x / 2) * b == y
  {
    var h := b / 2;
    Distribute(2 * h, 1, x);
    Associate(2, h, x);
    QuotientIs(x, 2, y - h * x, 0);
    Associate(2, x / 2, b);
  }

  /** What is missing of the quotient by an odd divisor shows modulo 2^k, above 2^s. */
  lemma OddShows(a: nat, b: nat, e: nat, s: nat, k: nat)
    requires b % 2 == 1 && 0 < e <= a / b && a * Pow2(s) < b * Pow2(k)
    ensures e * (b * Pow2(s)) % Pow2(k) >= Pow2(s)
  {
    hide Pow2;
    var d, m := Pow2(s), Pow2(k);
    var y, l := e * (b * d) % m, e * (b * d) / m;
    assert e * (b * d) == l * m + y;
    Associate(e, b, d);
    MissingBelow(a, b, e);
    if s >= k {
      PowersAdd(s - k, k);
      MulMono(1, Pow2(s - k), m);
      MulMono(b, a, d);
      MulMono(m, d, b);
    } else if y < d {
      PowersAdd(k - s, s);
      var n := Pow2(k - s);
      Associate(l, n, d);
      SameMultiple(e * b, l * n, d, y);
      var t := OddCancels(e, b, l, k - s);
      BelowModulus(a, b, e, d, n);
      QuotientIs(e, n, t, 0);
      QuotientIs(e, n, 0, e);
      assert false;
    }
  }

  lemma MissingBelow(a: nat, b: nat, e: nat)
    requires 0 < b && 0 < e <= a / b
    ensures e * b <= a && b <= a
  {
    MulMono(e, a / b, b);
    MulMono(1, e, b);
  }

  lemma BelowModulus(a: nat, b: nat, e: nat, d: nat, n: nat)
    requires 0 < d && e * b <= a && a * d < b * (n * d)
    ensures e < n
  {
    Associate(b, n, d);
    if n <= e {
      MulMono(n, e, b);
      MulMono(b * n, a, d);
    }
  }
}
