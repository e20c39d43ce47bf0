/** Multi-limb division of src/bigint.c: the in-place digit loop (Algorithm D of Knuth, TAOCP volume 2,
    section 4.3.1), as written, with the exact set of operands on which it goes wrong. */
module LongDivision {
  import opened Words
  import opened IntFacts
  import opened Limbs
  import opened LimbArithmetic
  import opened DigitEstimate

  // ---------------------------------------------------------------------------------------------
  // Multiply-and-subtract, and add-back
  // ---------------------------------------------------------------------------------------------

  function Times(q: int, v: seq<u32>): int {
    q * Val(v)
  }

  lemma SubMulStep(w: seq<u32>, v: seq<u32>, qhat: int, done: seq<u32>, owed: int, limb: u32, next: int)
    requires |done| < |v| <= |w|
    requires Val(done) == Val(w[..|done|]) - Times(qhat, v[..|done|]) + Shift(owed, |done|)
    requires limb as int + qhat * v[|done|] + owed == w[|done|] as int + BASE * next
    ensures Val(done + [limb]) == Val(w[..|done| + 1]) - Times(qhat, v[..|done| + 1]) + Shift(next, |done| + 1)
  {
    var i := |done|;
    ValPrefix(w, i);
    ValSnoc(done, limb);
    PartialProduct(qhat, v, 0, i);
    CarryStep(limb, qhat * v[i], owed, w[i], next, i);
  }

  /** The loop over the divisor's limbs; what is owed goes to the limb above. */
  method SubMulLimbs(u: array<u32>, v: seq<u32>, j: nat, qhat: u64) returns (carry: u64, borrow: int)
    requires j + |v| <= u.Length
    requires qhat < BASE
    modifies u
    ensures carry < BASE && 0 <= borrow <= 1
    ensures forall k :: 0 <= k < j || j + |v| <= k < u.Length ==> u[k] == old(u[k])
    ensures Val(u[j..j + |v|]) == old(Val(u[j..j + |v|])) - Times(qhat, v) + Shift(carry + borrow, |v|)
  {
    hide Val, Shift, Times;
    ghost var w := u[j..j + |v|];
    ghost var done: seq<u32> := [];
    assert w[..0] == v[..0] == done;
    NothingTimes(qhat);
    carry, borrow := 0, 0;
    var i := 0;
    while i < |v|
      invariant i <= |v| && |done| == i
      invariant carry < BASE && 0 <= borrow <= 1
      invariant forall k :: 0 <= k < j || j + i <= k < u.Length ==> u[k] == old(u[k])
      invariant forall k :: 0 <= k < i ==> u[j + k] == done[k]
      invariant Val(done) == Val(w[..i]) - Times(qhat, v[..i]) + Shift(carry + borrow, i)
    {
      var limb: u32, c: u64, b: int := SubMulDigit(u[j + i], qhat, v[i], carry, borrow);
      SubMulStep(w, v, qhat, done, carry + borrow, limb, c + b);
      u[j + i] := limb;
      done := done + [limb];
      carry, borrow := c, b;
      i := i + 1;
    }
    assert w[..|v|] == w && v[..|v|] == v;
    assert u[j..j + |v|] == done;
  }

  lemma NothingTimes(qhat: int)
    ensures Val([]) == 0 && Times(qhat, []) == 0
  {
  }

  lemma SubMulEnd(low: seq<u32>, low': seq<u32>, top: u32, top': u32, v: seq<u32>, qhat: int, owed: int, neg: int)
    requires |low| == |low'| == |v|
    requires Val(low') == Val(low) - Times(qhat, v) + Shift(owed, |v|)
    requires top' as int + owed == top as int + BASE * neg
    ensures Val(low' + [top']) == Val(low + [top]) - Times(qhat, v) + Shift(neg, |v| + 1)
  {
    hide Val, Times;
    ValSnoc(low, top);
    ValSnoc(low', top');
    CarryStep(top', 0, owed, top, neg, |v|);
  }

  /** u[j..j+n] -= qhat * v, reporting whether the window went below zero. */
  method SubMul(u: array<u32>, v: seq<u32>, j: nat, qhat: u64) returns (negative: bool)
    requires j + |v| < u.Length
    requires qhat < BASE
    modifies u
    ensures forall k :: 0 <= k < j || j + |v| < k < u.Length ==> u[k] == old(u[k])
    ensures Val(u[j..j + |v| + 1]) == old(Val(u[j..j + |v| + 1])) - Times(qhat, v)
                                      + if negative then Shift(1, |v| + 1) else 0
  {
    hide Val, Times;
    var n := |v|;
    ghost var low, top := u[j..j + n], u[j + n];
    assert u[j..j + n + 1] == low + [top];
    var carry, borrow := SubMulLimbs(u, v, j, qhat);
    ghost var low' := u[j..j + n];
    var t := u[j + n] as int - carry - borrow;
    negative := t < 0;
    u[j + n] := if negative then t + BASE else t;
    assert u[j..j + n + 1] == low' + [u[j + n]];
    SubMulEnd(low, low', top, u[j + n], v, qhat, carry + borrow, if negative then 1 else 0);
  }

  /** One limb of the multiply-and-subtract loop. */
  method SubMulDigit(x: u32, qhat: u64, y: u32, carry: u64, borrow: int)
    returns (limb: u32, nextCarry: u64, nextBorrow: int)
    requires qhat < BASE && carry < BASE && 0 <= borrow <= 1
    ensures nextCarry < BASE && 0 <= nextBorrow <= 1
    ensures limb as int + qhat * y + (carry + borrow) == x as int + BASE * (nextCarry + nextBorrow)
  {
    ProductBound(qhat, y);
    var p: u64 := qhat * y + carry;
    nextCarry := High32(p);
    var t := x as int - Low32(p) - borrow;
    if t < 0 {
      t := t + BASE;
      nextBorrow := 1;
    } else {
      nextBorrow := 0;
    }
    limb := t;
  }

  lemma AddBackStep(w: seq<u32>, v: seq<u32>, done: seq<u32>, carry: int, limb: u32, next: int)
    requires |done| < |v| <= |w|
    requires Val(done) + Shift(carry, |done|) == Val(w[..|done|]) + Val(v[..|done|])
    requires w[|done|] as int + v[|done|] + carry == limb + BASE * next
    ensures Val(done + [limb]) + Shift(next, |done| + 1) == Val(w[..|done| + 1]) + Val(v[..|done| + 1])
  {
    var i := |done|;
    ValPrefix(w, i);
    ValPrefix(v, i);
    ValSnoc(done, limb);
    CarryStep(w[i], v[i], carry, limb, next, i);
  }

  method AddLimbs(u: array<u32>, v: seq<u32>, j: nat) returns (carry: u64)
    requires j + |v| <= u.Length
    modifies u
    ensures carry <= 1
    ensures forall k :: 0 <= k < j || j + |v| <= k < u.Length ==> u[k] == old(u[k])
    ensures Val(u[j..j + |v|]) + Shift(carry, |v|) == old(Val(u[j..j + |v|])) + Val(v)
  {
    hide Val, Shift, Low32, High32;
    ghost var w := u[j..j + |v|];
    ghost var done: seq<u32> := [];
    assert w[..0] == v[..0] == done;
    ValNone();
    carry := 0;
    var i := 0;
    while i < |v|
      invariant i <= |v| && |done| == i
      invariant carry <= 1
      invariant forall k :: 0 <= k < j || j + i <= k < u.Length ==> u[k] == old(u[k])
      invariant forall k :: 0 <= k < i ==> u[j + k] == done[k]
      invariant Val(done) + Shift(carry, i) == Val(w[..i]) + Val(v[..i])
    {
      var sum: u64 := u[j + i] as int + v[i] + carry;
      var limb: u32 := Low32(sum);
      AddBackStep(w, v, done, carry, limb, High32(sum));
      u[j + i] := limb;
      done := done + [limb];
      carry := High32(sum);
      i := i + 1;
    }
    assert w[..|v|] == w && v[..|v|] == v;
    assert u[j..j + |v|] == done;
  }

  lemma AddBackSum(low: seq<u32>, low': seq<u32>, top: u32, top': u32, v: seq<u32>, carry: int, next: int)
    requires |low| == |low'| == |v|
    requires Val(low') + Shift(carry, |v|) == Val(low) + Val(v)
    requires top as int + carry == top' + BASE * next
    ensures Val(low' + [top']) + Shift(next, |v| + 1) == Val(low + [top]) + Val(v)
    ensures Val(low' + [top']) < Shift(1, |v| + 1)
  {
    ValSnoc(low, top);
    ValSnoc(low', top');
    CarryStep(top, 0, carry, top', next, |v|);
    ValBound(low' + [top']);
  }

  lemma AddBackEnd(low: seq<u32>, low': seq<u32>, top: u32, top': u32, v: seq<u32>, carry: int)
    requires |low| == |low'| == |v| && 0 <= carry <= 1
    requires Val(low') + Shift(carry, |v|) == Val(low) + Val(v)
    requires top' == Low32(top as int + carry)
    ensures var sum := Val(low + [top]) + Val(v);
            Val(low' + [top']) == if sum < Shift(1, |v| + 1) then sum else sum - Shift(1, |v| + 1)
  {
    var sum, x, unit := Val(low + [top]) + Val(v), Val(low' + [top']), Shift(1, |v| + 1);
    if top as int + carry < BASE {
      AddBackSum(low, low', top, top', v, carry, 0);
      assert x == sum;
    } else {
      assert top' == top as int + carry - BASE;
      AddBackSum(low, low', top, top', v, carry, 1);
      assert x == sum - unit;
    }
  }

  /** u[j..j+n] += v modulo BASE^(n+1). A carry leaving the window runs on into the limbs above it, which the
      digit loop never reads again; the limbs below the window are untouched. */
  method AddBack(u: array<u32>, v: seq<u32>, j: nat)
    requires j + |v| < u.Length
    modifies u
    ensures forall k :: 0 <= k < j ==> u[k] == old(u[k])
    ensures var sum := old(Val(u[j..j + |v| + 1])) + Val(v);
            Val(u[j..j + |v| + 1]) == if sum < Shift(1, |v| + 1) then sum else sum - Shift(1, |v| + 1)
  {
    hide Val, Shift, Low32;
    var n := |v|;
    ghost var low, top := u[j..j + n], u[j + n];
    assert u[j..j + n + 1] == low + [top];
    var carry := AddLimbs(u, v, j);
    ghost var low' := u[j..j + n];
    SpillCarry(u, j + n, carry);
    assert u[j..j + n + 1] == low' + [u[j + n]];
    AddBackEnd(low, low', top, u[j + n], v, carry);
  }

  /** The loop that runs a leftover carry up the array from limb `start`. */
  method SpillCarry(u: array<u32>, start: nat, first: u64)
    requires start < u.Length && first <= 1
    modifies u
    ensures forall k :: 0 <= k < start ==> u[k] == old(u[k])
    ensures u[start] == Low32(old(u[start]) as int + first)
  {
    var carry: u64 := first;
    var k := start;
    while carry != 0 && k < u.Length
      invariant start <= k <= u.Length
      invariant carry <= 1
      invariant forall l :: 0 <= l < start ==> u[l] == old(u[l])
      invariant k == start ==> u[start] == old(u[start]) && carry == first
      invariant k > start ==> u[start] == Low32(old(u[start]) as int + first)
    {
      var sum: u64 := u[k] as int + carry;
      u[k] := Low32(sum);
      carry := High32(sum);
      k := k + 1;
    }
  }

  // ---------------------------------------------------------------------------------------------
  // One quotient digit
  // ---------------------------------------------------------------------------------------------

  /** A divisor as the digit loop sees it: two limbs or more, leading bit set. */
  predicate Normalised(v: seq<u32>) {
    |v| >= 2 && BASE <= 2 * v[|v| - 1] as int
  }

  /** The window makes the written step fail: the estimate undershoots although the true digit is BASE - 1. */
  predicate Misfire(w: seq<u32>, v: seq<u32>)
    requires Normalised(v) && |w| == |v| + 1
  {
    var n := |v|;
    && Undershoots(w[n], w[n - 1], w[n - 2], v[n - 1], v[n - 2])
    && (BASE - 1) * Val(v) <= Val(w)
  }

  lemma ValTwo(s: seq<u32>)
    requires |s| == 2
    ensures Val(s) == Top2(s[1], s[0])
  {
    assert Val(s[1..]) == s[1];
  }

  lemma ValThree(s: seq<u32>)
    requires |s| == 3
    ensures Val(s) == Top2(s[2], s[1]) * BASE + s[0]
  {
    ValTwo(s[1..]);
  }

  lemma TopTwo(v: seq<u32>)
    requires |v| >= 2
    ensures Val(v) == Top2(v[|v| - 1], v[|v| - 2]) * Shift(1, |v| - 2) + Val(v[..|v| - 2])
  {
    hide Val, Shift, Top2;
    var k := |v| - 2;
    ValSplit(v, k);
    ValTwo(v[k..]);
    ShiftMul(1, Top2(v[k + 1], v[k]), k);
  }

  lemma TopThree(w: seq<u32>)
    requires |w| >= 3
    ensures Val(w) == (Top2(w[|w| - 1], w[|w| - 2]) * BASE + w[|w| - 3]) * Shift(1, |w| - 3) + Val(w[..|w| - 3])
  {
    hide Val, Shift, Top2;
    var k := |w| - 3;
    ValSplit(w, k);
    ValThree(w[k..]);
    ShiftMul(1, Top2(w[k + 2], w[k + 1]) * BASE + w[k], k);
  }

  /** The intended digit for a window below BASE times the divisor is the true digit or one more. */
  lemma IntendedDigit(w: seq<u32>, v: seq<u32>)
    requires Normalised(v) && |w| == |v| + 1
    requires Val(w) < Val(v) * BASE
    ensures Val(v) > 0
    ensures var n := |v|;
            var q := Intended(w[n], w[n - 1], w[n - 2], v[n - 1], v[n - 2]);
            Val(w) / Val(v) <= q <= Val(w) / Val(v) + 1
  {
    hide Val, Shift;
    var n := |v|;
    TopTwo(v);
    TopThree(w);
    ValBound(w[..n - 2]);
    ValBound(v[..n - 2]);
    var n3, d2 := Top2(w[n], w[n - 1]) * BASE + w[n - 2], Top2(v[n - 1], v[n - 2]);
    IntendedIsClose(Val(w), Val(v), n3, d2, Shift(1, n - 2), Val(w[..n - 2]), Val(v[..n - 2]), BASE);
  }

  lemma WindowBounds(w: seq<u32>, v: seq<u32>)
    requires |w| == |v| + 1 >= 2
    requires Val(w[1..]) < Val(v)
    ensures w[|v|] <= v[|v| - 1]
    ensures Val(w) < Val(v) * BASE
  {
    if v[|v| - 1] < w[|v|] {
      TopLess(v, w[1..]);
    }
  }

  /** True digit for the windows on which the written estimate undershoots. */
  lemma EstimateOutcome(w: seq<u32>, v: seq<u32>, qhat: int)
    requires Normalised(v) && |w| == |v| + 1
    requires Val(w[1..]) < Val(v)
    requires var n := |v|;
             qhat == if Undershoots(w[n], w[n - 1], w[n - 2], v[n - 1], v[n - 2]) then BASE - 2
                     else Intended(w[n], w[n - 1], w[n - 2], v[n - 1], v[n - 2])
    ensures Val(v) > 0
    ensures !Misfire(w, v) ==> Val(w) / Val(v) <= qhat <= Val(w) / Val(v) + 1
    ensures Misfire(w, v) ==> qhat == BASE - 2 && qhat * Val(v) <= Val(w)
  {
    hide Val, Intended, Top2, Undershoots, TestBound;
    WindowBounds(w, v);
    IntendedDigit(w, v);
    var n := |v|;
    if Undershoots(w[n], w[n - 1], w[n - 2], v[n - 1], v[n - 2]) {
      UndershootTop(w[n], w[n - 1], w[n - 2], v[n - 1], v[n - 2]);
      EqualTops(w[n - 1], w[n - 2], v[n - 1], v[n - 2]);
      var q := Val(w) / Val(v);
      assert q * Val(v) <= Val(w);
      if Misfire(w, v) {
        MulMono(BASE - 2, BASE - 1, Val(v));
      }
    }
  }

  lemma UndershootTop(u0: u32, u1: u32, u2: u32, v1: u32, v2: u32)
    requires v1 != 0 && Undershoots(u0, u1, u2, v1, v2)
    ensures u0 == v1 && u1 as int + v1 >= BASE
  {
  }

  /** The digit one pass of the loop as written puts out for a window, whatever the window is. */
  function DigitOf(w: seq<u32>, v: seq<u32>): (digit: u32)
    requires Normalised(v) && |w| == |v| + 1
  {
    var n := |v|;
    Corrected(Estimate(w[n], w[n - 1], w[n - 2], v[n - 1], v[n - 2]), Val(w), Val(v))
  }

  /** A trial digit after the correction by one. */
  function Corrected(qhat: nat, w: nat, v: nat): (q: nat)
    ensures q <= qhat
  {
    if qhat > 0 && qhat * v > w then qhat - 1 else qhat
  }

  /** Subtract and, if that went below zero, add back once. What is left is the low limbs of the difference, in two's
      complement if the digit was wrong. */
  method CorrectDigit(u: array<u32>, v: seq<u32>, j: nat, qhat: u64) returns (digit: u32)
    requires Val(v) > 0 && j + |v| < u.Length && qhat < BASE
    modifies u
    ensures forall k :: 0 <= k < j ==> u[k] == old(u[k])
    ensures digit == Corrected(qhat, old(Val(u[j..j + |v| + 1])), Val(v))
    ensures u[j..j + |v|] == Digits(old(Val(u[j..j + |v| + 1])) - digit * Val(v), |v|)
  {
    hide Val, Shift, Digits;
    var n := |v|;
    ghost var w := u[j..j + n + 1];
    var negative := SubMul(u, v, j, qhat);
    ghost var x := u[j..j + n + 1];
    ValBound(x);
    Distribute(qhat, -1, Val(v));
    digit := qhat;
    if negative {
      assert qhat > 0;
      digit := qhat - 1;
      AddBack(u, v, j);
    }
    ghost var y := u[j..j + n + 1];
    assert y[..n] == u[j..j + n];
    LowLimbs(y, Val(w) - digit * Val(v), if Val(y) == Val(w) - digit * Val(v) then 0
      else if Val(y) > Val(w) - digit * Val(v) then 1 else -1);
  }

  /** The low limbs of a window that is known up to a multiple of its size. */
  lemma LowLimbs(y: seq<u32>, x: int, c: int)
    requires |y| > 0 && Val(y) == x + Shift(c, |y|)
    ensures y[..|y| - 1] == Digits(x, |y| - 1)
  {
    hide Val, Digits;
    var n := |y| - 1;
    assert y[..n + 1] == y;
    ValPrefix(y, n);
    ShiftBase(c, n);
    ShiftAdd(BASE * c, -(y[n] as int), n);
    ShiftAdd(y[n], -(y[n] as int), n);
    assert Shift(0, n) == 0 by { ShiftZero(n); }
    DigitsOfVal(y[..n]);
    DigitsShift(x, BASE * c - y[n], n);
  }

  lemma {:induction false} ShiftZero(n: nat)
    ensures Shift(0, n) == 0
  {
    if n > 0 { ShiftZero(n - 1); }
  }

  /** A trial digit that is the true one or one more is corrected to the true one. */
  lemma CorrectedIsExact(w: nat, v: nat, qhat: nat)
    requires v > 0 && w / v <= qhat <= w / v + 1
    ensures Corrected(qhat, w, v) == w / v && w - (w / v) * v == w % v
  {
    DivMod(w, v);
    Distribute(w / v, 1, v);
  }

  lemma ExactDigits(w: seq<u32>, v: seq<u32>)
    requires |w| == |v| + 1 && Val(v) > 0
    ensures var rest := Digits(Val(w) - (Val(w) / Val(v)) * Val(v), |v|);
      Val(w) == (Val(w) / Val(v)) * Val(v) + Val(rest) && Val(rest) < Val(v)
  {
    hide Val, Digits;
    var r := Val(w) % Val(v);
    assert Val(w) == (Val(w) / Val(v)) * Val(v) + r;
    ValBound(v);
    ValOfDigits(r, |v|);
  }

  /** What one pass as written computes: the true digit and remainder, or BASE - 2 on a window that misfires. */
  lemma DigitOutcome(w: seq<u32>, v: seq<u32>)
    requires Normalised(v) && |w| == |v| + 1 && Val(w[1..]) < Val(v)
    ensures Val(v) > 0
    ensures Misfire(w, v) ==> DigitOf(w, v) == BASE - 2
    ensures !Misfire(w, v) ==>
      var rest := Digits(Val(w) - DigitOf(w, v) * Val(v), |v|);
      Val(w) == DigitOf(w, v) * Val(v) + Val(rest) && Val(rest) < Val(v)
  {
    hide Val, Digits, Estimate, Intended, Undershoots, Misfire;
    var n := |v|;
    WindowBounds(w, v);
    EstimateIs(w[n], w[n - 1], w[n - 2], v[n - 1], v[n - 2]);
    var qhat := Estimate(w[n], w[n - 1], w[n - 2], v[n - 1], v[n - 2]);
    EstimateOutcome(w, v, qhat);
    if !Misfire(w, v) {
      CorrectedIsExact(Val(w), Val(v), qhat);
      ExactDigits(w, v);
    }
  }

  /** One pass of the digit loop, lines 448-474 as written. */
  method DigitStep(u: array<u32>, v: seq<u32>, j: nat) returns (digit: u32)
    requires Normalised(v) && j + |v| < u.Length
    modifies u
    ensures forall k :: 0 <= k < j ==> u[k] == old(u[k])
    ensures digit == old(DigitOf(u[j..j + |v| + 1], v))
    ensures u[j..j + |v|] == Digits(old(Val(u[j..j + |v| + 1])) - digit * Val(v), |v|)
  {
    hide Val, Digits, Estimate, Corrected;
    var n := |v|;
    NormalisedPositive(v);
    var qhat := EstimateDigit(u[j + n], u[j + n - 1], u[j + n - 2], v[n - 1], v[n - 2]);
    digit := CorrectDigit(u, v, j, qhat);
  }

  /** The same with the estimate that was intended: exact for every window. */
  method IntendedStep(u: array<u32>, v: seq<u32>, j: nat) returns (digit: u32)
    requires Normalised(v) && j + |v| < u.Length && Val(u[j + 1..j + |v| + 1]) < Val(v)
    modifies u
    ensures forall k :: 0 <= k < j ==> u[k] == old(u[k])
    ensures old(Val(u[j..j + |v| + 1])) == digit * Val(v) + Val(u[j..j + |v|]) && Val(u[j..j + |v|]) < Val(v)
  {
    hide Val, Shift, Intended, Digits, Corrected;
    var n := |v|;
    ghost var w := u[j..j + n + 1];
    assert w[1..] == u[j + 1..j + n + 1];
    WindowBounds(w, v);
    IntendedDigit(w, v);
    var qhat := IntendedEstimate(u[j + n], u[j + n - 1], u[j + n - 2], v[n - 1], v[n - 2]);
    CorrectedIsExact(Val(w), Val(v), qhat);
    ExactDigits(w, v);
    digit := CorrectDigit(u, v, j, qhat);
  }

  // ---------------------------------------------------------------------------------------------
  // The whole loop
  // ---------------------------------------------------------------------------------------------

  /** The window of the digit loop when the limbs of u above u[0] have been divided exactly. */
  function ExactWindow(u: seq<u32>, v: seq<u32>): (w: seq<u32>)
    requires |u| > 0 && Val(v) > 0
    ensures |w| == |v| + 1
  {
    Digits(u[0] + BASE * (Val(u[1..]) % Val(v)), |v| + 1)
  }

  /** Some digit position of the normalised operands makes the written step fail. */
  predicate Misfires(u: seq<u32>, v: seq<u32>)
    requires Normalised(v) && Val(v) > 0
  {
    |u| > |v| && (Misfires(u[1..], v) || Misfire(ExactWindow(u, v), v))
  }

  lemma NormalisedPositive(v: seq<u32>)
    requires Normalised(v)
    ensures Val(v) > 0
  {
    TrimmedLower(v);
  }

  /** Only the lowest window misfires. */
  predicate LastMisfires(u: seq<u32>, v: seq<u32>)
    requires Normalised(v) && Val(v) > 0
  {
    |u| > |v| && !Misfires(u[1..], v) && Misfire(ExactWindow(u, v), v)
  }

  /** The limbs left in the window after the digits q of u are out. */
  function Left(u: seq<u32>, q: seq<u32>, v: seq<u32>): (r: seq<u32>)
    ensures |r| == |v|
  {
    Digits(Val(u) - Val(q) * Val(v), |v|)
  }

  /** The digits the loop as written puts out for the limbs u, whether or not it goes wrong on the way. */
  function WrittenDigits(u: seq<u32>, v: seq<u32>): (q: seq<u32>)
    requires Normalised(v)
    decreases |u|
  {
    if |u| <= |v| then [] else
      var q := WrittenDigits(u[1..], v);
      [DigitOf([u[0]] + Left(u[1..], q, v), v)] + q
  }

  /** What the digits q and the limbs r are worth for the limbs u. */
  ghost predicate Divided(u: seq<u32>, v: seq<u32>, q: seq<u32>, r: seq<u32>)
    requires Normalised(v) && Val(v) > 0
  {
    && (!Misfires(u, v) ==> Val(u) == Val(q) * Val(v) + Val(r) && Val(r) < Val(v))
    && (Misfires(u, v) ==> (Val(q) + 1) * Val(v) <= Val(u))
    && (LastMisfires(u, v) ==> Val(u) < (Val(q) + 2) * Val(v))
  }

  lemma ExactWindowIs(u: seq<u32>, v: seq<u32>, q: int, r: seq<u32>)
    requires |u| > 0 && |r| == |v|
    requires Val(u[1..]) == q * Val(v) + Val(r) && Val(r) < Val(v)
    ensures ExactWindow(u, v) == [u[0]] + r
  {
    hide Val, Digits;
    QuotientIs(Val(u[1..]), Val(v), q, Val(r));
    ValCons(u[0], r);
    DigitsOfVal([u[0]] + r);
  }

  lemma MisfiresUnfold(u: seq<u32>, v: seq<u32>)
    requires Normalised(v) && Val(v) > 0 && |u| > |v|
    ensures Misfires(u, v) <==> Misfires(u[1..], v) || Misfire(ExactWindow(u, v), v)
  {
  }

  /** The window of the next digit: what was left, below one more limb. */
  lemma LeftStep(u: seq<u32>, q: seq<u32>, v: seq<u32>, digit: u32)
    requires u != []
    ensures var w := [u[0]] + Left(u[1..], q, v);
      Digits(Val(w) - digit * Val(v), |v|) == Left(u, [digit] + q, v)
  {
    hide Val, Digits, Shift;
    var n, rest := |v|, u[1..];
    var x := Val(rest) - Val(q) * Val(v);
    var k := DigitsCongruent(x, n);
    assert u == [u[0]] + rest;
    ValCons(u[0], rest);
    ValCons(u[0], Left(rest, q, v));
    ValCons(digit, q);
    LeftArith(digit, Val(q), Val(v));
    ShiftMulBase(k, n);
    DigitsShift(Val(u) - Val([digit] + q) * Val(v), -BASE * k, n);
  }

  lemma LeftArith(digit: int, q: int, v: int)
    ensures (digit + BASE * q) * v == digit * v + BASE * (q * v)
  {
    Distribute(digit, BASE * q, v);
    assert (BASE * q) * v == BASE * (q * v);
  }

  lemma ShiftMulBase(k: int, n: nat)
    ensures BASE * Shift(k, n) == Shift(BASE * k, n) && Shift(-BASE * k, n) == -Shift(BASE * k, n)
  {
    ShiftMul(k, BASE, n);
    ShiftAdd(BASE * k, -BASE * k, n);
    ShiftZero(n);
  }

  /** One more digit keeps the loop's claim. */
  lemma DividedStep(u: seq<u32>, v: seq<u32>, q: seq<u32>, r: seq<u32>)
    requires Normalised(v) && Val(v) > 0
    requires |u| > |v| == |r| && Divided(u[1..], v, q, r)
    ensures var w := [u[0]] + r; var digit := DigitOf(w, v);
      Divided(u, v, [digit] + q, Digits(Val(w) - digit * Val(v), |v|))
  {
    hide Val, Misfires, Misfire, ExactWindow, Digits, DigitOf;
    var w := [u[0]] + r;
    var digit := DigitOf(w, v);
    var r' := Digits(Val(w) - digit * Val(v), |v|);
    assert u == [u[0]] + u[1..];
    ValCons(u[0], u[1..]);
    ValCons(u[0], r);
    ValCons(digit, q);
    MisfiresUnfold(u, v);
    if Misfires(u[1..], v) {
      StillShort(u[0], Val(u[1..]), Val(q), digit, Val(v));
    } else {
      ExactWindowIs(u, v, Val(q), r);
      assert w[1..] == r;
      DigitOutcome(w, v);
      if Misfire(w, v) {
        MisfireBound(w, v);
        WindowBounds(w, v);
        FallsShort(u[0], Val(u[1..]), Val(q), Val(r), Val(v));
      } else {
        StaysExact(u[0], Val(u[1..]), Val(q), Val(r), digit, Val(r'), Val(v));
      }
    }
  }

  /** What the loop as written computes. */
  lemma {:induction false} WrittenDivides(u: seq<u32>, v: seq<u32>)
    requires Normalised(v) && Val(v) > 0 && |v| <= |u| && Val(u[|u| - |v|..]) < Val(v)
    ensures Divided(u, v, WrittenDigits(u, v), Left(u, WrittenDigits(u, v), v))
    decreases |u|
  {
    hide Val, Divided, DigitOf, Digits, Left;
    if |u| == |v| {
      assert u[0..] == u;
      LeftStart(u, v);
      DividedStart(u, v);
    } else {
      var rest := u[1..];
      assert rest[|rest| - |v|..] == u[|u| - |v|..];
      WrittenDivides(rest, v);
      var q := WrittenDigits(rest, v);
      DividedStep(u, v, q, Left(rest, q, v));
      LeftStep(u, q, v, DigitOf([u[0]] + Left(rest, q, v), v));
    }
  }

  lemma WrittenStep(u: seq<u32>, v: seq<u32>)
    requires Normalised(v)
    ensures |u| <= |v| ==> WrittenDigits(u, v) == []
    ensures |u| > |v| ==> var q := WrittenDigits(u[1..], v);
      WrittenDigits(u, v) == [DigitOf([u[0]] + Left(u[1..], q, v), v)] + q
  {
    hide DigitOf;
  }

  lemma LeftStart(u: seq<u32>, v: seq<u32>)
    requires |u| == |v|
    ensures Left(u, [], v) == u
  {
    DigitsOfVal(u);
  }

  lemma FirstAndRest(s: seq<u32>, i: nat, j: nat)
    requires i < j <= |s|
    ensures s[i..j] == [s[i]] + s[i + 1..j]
  {
  }

  /** The working copy of the dividend. */
  method CopyOf(s: seq<u32>) returns (u: array<u32>)
    ensures fresh(u) && u.Length == |s| && forall k :: 0 <= k < |s| ==> u[k] == s[k]
  {
    u := new u32[|s|](i requires 0 <= i < |s| => s[i]);
  }

  /** One round of the loop: the digit for limb j and what it leaves. */
  lemma NextDigit(us: seq<u32>, v: seq<u32>, j: nat, w: seq<u32>, higher: seq<u32>, digit: u32)
    requires Normalised(v) && j + |v| < |us| && higher == WrittenDigits(us[j + 1..], v)
    requires w == [us[j]] + Left(us[j + 1..], higher, v) && digit == DigitOf(w, v)
    ensures [digit] + higher == WrittenDigits(us[j..], v)
    ensures Digits(Val(w) - digit * Val(v), |v|) == Left(us[j..], [digit] + higher, v)
  {
    hide Val, Normalised, DigitOf, Digits, Left, WrittenDigits;
    assert us[j..][1..] == us[j + 1..];
    WrittenStep(us[j..], v);
    LeftStep(us[j..], higher, v, digit);
  }

  lemma MisfireBound(w: seq<u32>, v: seq<u32>)
    requires Normalised(v) && |w| == |v| + 1 && Misfire(w, v)
    ensures (BASE - 1) * Val(v) <= Val(w)
  {
  }

  lemma StaysExact(x: u32, hi: nat, q: nat, r: nat, digit: u32, r': nat, v: nat)
    requires hi == q * v + r && x + BASE * r == digit * v + r'
    ensures x + BASE * hi == (digit + BASE * q) * v + r'
  {
    Distribute(digit, BASE * q, v);
  }

  lemma StillShort(x: u32, hi: nat, q: nat, digit: u32, v: nat)
    requires (q + 1) * v <= hi
    ensures (digit + BASE * q + 1) * v <= x + BASE * hi
  {
    MulMono(digit + BASE * q + 1, BASE * (q + 1), v);
    assert BASE * (q + 1) * v == BASE * ((q + 1) * v);
  }

  lemma FallsShort(x: u32, hi: nat, q: nat, r: nat, v: nat)
    requires hi == q * v + r && (BASE - 1) * v <= x + BASE * r
    ensures (BASE - 2 + BASE * q + 1) * v <= x + BASE * hi
    ensures x + BASE * r < v * BASE ==> x + BASE * hi < (BASE - 2 + BASE * q + 2) * v
  {
    Distribute(BASE - 1, BASE * q, v);
    Distribute(BASE, BASE * q, v);
  }

  /** The scaling that brings the divisor's leading bit up, line 420. */
  function NormFactor(b: seq<u32>): (d: u32)
    requires |b| > 0 && Trimmed(b)
    ensures d > 0
  {
    QuotientBound(BASE, b[|b| - 1] as int + 1, BASE);
    FloorAtLeast(BASE, b[|b| - 1] as int + 1, 1);
    BASE / (b[|b| - 1] as int + 1)
  }

  lemma Headroom(h: int, t: int)
    requires 1 <= t < h
    ensures (2 * h - t) * t > (h - 1) * (t + 1)
  {
    assert (2 * h - t) * t - (h - 1) * (t + 1) == (h - t) * (t - 1) + 1;
    MulMono(0, h - t, t - 1);
  }

  /** d * t reaches half the base although d * (t + 1) does not exceed it. */
  lemma SwapFactors(x: int, y: int, z: int)
    ensures (x * y) * z == (x * z) * y
  {
  }

  lemma HalfReached(half: int, t: int, d: int)
    requires 1 <= t < 2 * half && d == 2 * half / (t + 1)
    ensures d * (t + 1) <= 2 * half && half <= d * t
  {
    var b, e, p := 2 * half, d * (t + 1), d * t;
    DivMod(b, t + 1);
    if t >= half {
      FloorIs(b, t + 1, 1);
    } else if p <= half - 1 {
      SwapFactors(d, t, t + 1);
      MulMono(p, half - 1, t + 1);
      MulMono(b - t, e, t);
      Headroom(half, t);
      assert false;
    }
  }

  lemma NormFactorBounds(b: seq<u32>)
    requires |b| > 0 && Trimmed(b)
    ensures var d, t := NormFactor(b), b[|b| - 1];
            d * (t as int + 1) <= BASE && BASE <= 2 * (d * t)
  {
    HalfReached(BASE / 2, b[|b| - 1], NormFactor(b));
  }

  /** The scaled divisor keeps its length and becomes normalised. */
  lemma ScaledDivisor(b: seq<u32>, v: seq<u32>)
    requires Trimmed(b) && |b| >= 2
    requires Val(v) == Val(b) * NormFactor(b)
    requires |b| <= |v| <= |b| + 1 && (|v| == |b| + 1 ==> Trimmed(v))
    ensures |v| == |b| && Normalised(v)
  {
    hide Val, Shift, NormFactor;
    var n, d, t := |b|, NormFactor(b) as int, b[|b| - 1] as int;
    NormFactorBounds(b);
    ScaledBetween(b, d);
    ShiftMono((t + 1) * d, BASE, n - 1);
    ShiftBase(1, n - 1);
    if |v| == n + 1 {
      TrimmedLower(v);
    }
    ValTop(v);
    ShiftMono(v[n - 1] as int + 1, t * d, n - 1);
  }

  lemma ScaledBetween(b: seq<u32>, d: int)
    requires |b| > 0 && 0 < d
    ensures Shift(b[|b| - 1] * d, |b| - 1) <= Val(b) * d < Shift((b[|b| - 1] as int + 1) * d, |b| - 1)
  {
    hide Val, Shift;
    var n, t := |b|, b[|b| - 1] as int;
    ValTop(b);
    ShiftMul(t + 1, d, n - 1);
    ShiftMul(t, d, n - 1);
    StrictMono(Val(b), Shift(t + 1, n - 1), d);
    MulMono(Shift(t, n - 1), Val(b), d);
  }

  lemma ScaledBelow(a: seq<u32>, d: int)
    requires 0 < d
    ensures Val(a) * d < Shift(d, |a|)
  {
    ValBound(a);
    StrictMono(Val(a), Shift(1, |a|), d);
    ShiftMul(1, d, |a|);
  }

  lemma ScaledAtLeast(b: seq<u32>, d: int)
    requires 0 < d && Trimmed(b) && |b| > 0
    ensures Shift(d, |b| - 1) <= Val(b) * d
  {
    TrimmedLower(b);
    MulMono(Shift(1, |b| - 1), Val(b), d);
    ShiftMul(1, d, |b| - 1);
  }

  /** Before the first digit the top |b| limbs of the scaled dividend are below the scaled divisor. */
  lemma TopBelowDivisor(u: seq<u32>, v: seq<u32>, d: int)
    requires 0 < |v| < |u|
    requires Val(u) < Shift(d, |u| - 1) && Shift(d, |v| - 1) <= Val(v)
    ensures Val(u[|u| - |v|..]) < Val(v)
  {
    hide Val, Shift;
    var k, n := |u| - |v|, |v|;
    ValSplit(u, k);
    ShiftShift(d, n - 1, k);
    ShiftMono(Shift(d, n - 1), Val(u[k..]), k);
  }

  function ScaledDividend(a: seq<u32>, b: seq<u32>): (u: seq<u32>)
    requires Trimmed(b) && |b| > 0
  {
    Digits(Val(a) * NormFactor(b), |a| + 1)
  }

  function ScaledLimbs(b: seq<u32>): (v: seq<u32>)
    requires Trimmed(b) && |b| >= 2
    ensures |v| == |b| && Normalised(v) && Val(v) == Val(b) * NormFactor(b) > 0
  {
    ScaledFits(b);
    ValOfDigits(Val(b) * NormFactor(b), |b|);
    ScaledDivisor(b, Digits(Val(b) * NormFactor(b), |b|));
    NormalisedPositive(Digits(Val(b) * NormFactor(b), |b|));
    Digits(Val(b) * NormFactor(b), |b|)
  }

  lemma ScaledFits(b: seq<u32>)
    requires Trimmed(b) && |b| > 0
    ensures 0 <= Val(b) * NormFactor(b) < Shift(1, |b|)
  {
    hide Val, Shift, NormFactor;
    NormFactorBounds(b);
    ScaledBetween(b, NormFactor(b));
    ShiftMono((b[|b| - 1] as int + 1) * NormFactor(b), BASE, |b| - 1);
    ShiftBase(1, |b| - 1);
  }

  /** The operands on which the long division returns a wrong quotient. */
  predicate LongDivisionFails(a: seq<u32>, b: seq<u32>)
    requires Trimmed(b) && |b| >= 2
  {
    Misfires(ScaledDividend(a, b), ScaledLimbs(b))
  }

  lemma Denormalise(a: nat, b: nat, q: nat, big: nat, d: nat, r: nat, rem: nat)
    requires 0 < d && a * d == q * (b * d) + big && big < b * d
    requires big == r * d + rem && rem < d
    ensures a == q * b + r && r < b && rem == 0
  {
    Associate(q, b, d);
    Distribute(q * b, r, d);
    SameMultiple(a, q * b + r, d, rem);
    if r >= b { MulMono(b, r, d); }
  }

  lemma Associate(x: int, y: int, z: int)
    ensures x * (y * z) == (x * y) * z
  {
  }

  lemma SameMultiple(a: int, k: int, d: int, rem: int)
    requires a * d == k * d + rem && 0 <= rem < d
    ensures a == k && rem == 0
  {
    QuotientIs(a * d, d, k, rem);
    QuotientIs(a * d, d, a, 0);
  }

  /** Scaling of the operands, lines 420-434. The paths that reallocate v or extend u past |a| + 1 limbs are
      never taken. */
  method Normalise(a: seq<u32>, b: seq<u32>) returns (d: u32, u: seq<u32>, v: seq<u32>)
    requires Trimmed(b) && 2 <= |b| <= |a|
    ensures d == NormFactor(b)
    ensures |u| == |a| + 1 && Val(u) == Val(a) * d && u == ScaledDividend(a, b)
    ensures |v| == |b| && Val(v) == Val(b) * d && v == ScaledLimbs(b)
    ensures Val(u[|u| - |v|..]) < Val(v)
  {
    hide Val, Shift, Digits, NormFactor;
    d := NormFactor(b);
    u := MulSmall(a, d);
    if |u| == |a| {
      ValSnoc(u, 0);
      u := u + [0];
    }
    v := MulSmall(b, d);
    ScaledDivisor(b, v);
    DigitsOfVal(u);
    DigitsOfVal(v);
    ScaledBelow(a, d);
    ScaledAtLeast(b, d);
    TopBelowDivisor(u, v, d);
  }

  lemma DividedStart(u: seq<u32>, v: seq<u32>)
    requires Normalised(v) && Val(v) > 0
    requires |u| == |v| && Val(u) < Val(v)
    ensures Divided(u, v, [], u)
  {
  }

  /** One round of the loop, at limb j. */
  method DivideAt(us: seq<u32>, v: seq<u32>, u: array<u32>, j: nat, ghost higher: seq<u32>) returns (digit: u32)
    requires Normalised(v) && j + |v| < |us| == u.Length && u[j] == us[j]
    requires higher == WrittenDigits(us[j + 1..], v) && u[j + 1..j + 1 + |v|] == Left(us[j + 1..], higher, v)
    modifies u
    ensures forall k :: 0 <= k < j ==> u[k] == old(u[k])
    ensures [digit] + higher == WrittenDigits(us[j..], v)
    ensures u[j..j + |v|] == Left(us[j..], [digit] + higher, v)
  {
    hide Val, Normalised, DigitOf, Digits, Left, WrittenDigits;
    ghost var w := u[j..j + |v| + 1];
    FirstAndRest(u[..], j, j + |v| + 1);
    assert u[..][j..j + |v| + 1] == w && u[..][j + 1..j + |v| + 1] == u[j + 1..j + 1 + |v|];
    digit := DigitStep(u, v, j);
    NextDigit(us, v, j, w, higher, digit);
  }

  /** The loop over quotient digits, lines 444-475. */
  method DivideLoop(us: seq<u32>, v: seq<u32>) returns (q: seq<u32>, r: seq<u32>)
    requires Normalised(v) && Val(v) > 0 && |v| < |us|
    requires Val(us[|us| - |v|..]) < Val(v)
    ensures q == WrittenDigits(us, v) && r == Left(us, q, v)
    ensures Divided(us, v, q, r)
  {
    hide Val, Divided, Normalised, DigitOf, Digits, Left, WrittenDigits, Shift;
    var n := |v|;
    var u := CopyOf(us);
    var m := |us| - n - 1;
    var digits := new u32[m + 1](_ => 0);
    var j := m + 1;
    assert us[j..] == u[j..j + n];
    assert digits[j..] == [];
    LeftStart(us[j..], v);
    WrittenStep(us[j..], v);
    while j > 0
      invariant 0 <= j <= m + 1
      invariant forall k :: 0 <= k < j ==> u[k] == us[k]
      invariant digits[j..] == WrittenDigits(us[j..], v)
      invariant u[j..j + n] == Left(us[j..], digits[j..], v)
    {
      j := j - 1;
      ghost var higher := digits[j + 1..];
      var digit := DivideAt(us, v, u, j, higher);
      digits[j] := digit;
      assert digits[j..] == [digit] + higher;
    }
    q, r := digits[..], u[..n];
    assert us[0..] == us && digits[0..] == q && u[0..n] == r;
    WrittenDivides(us, v);
  }

  // ---------------------------------------------------------------------------------------------
  // The remainder
  // ---------------------------------------------------------------------------------------------

  /** The quotient that the long division as written returns. */
  function WrittenQuotient(a: seq<u32>, b: seq<u32>): nat
    requires Trimmed(b) && |b| >= 2
  {
    Val(WrittenDigits(ScaledDividend(a, b), ScaledLimbs(b)))
  }

  /** The low n limbs of what the missing part of the quotient is worth. */
  function Surplus(missing: int, v: nat, n: nat): (x: nat)
    ensures x < Shift(1, n)
  {
    UnitMono(0, n);
    missing * v % Shift(1, n)
  }

  /** The operands on which the long division returns a wrong remainder: what the quotient misses shows in the limbs of
      the scaled divisor, above the scaling factor. */
  predicate RemainderLost(a: seq<u32>, b: seq<u32>)
    requires Trimmed(b) && |b| >= 2
  {
    Val(ScaledLimbs(b)) > 0 && Val(b) > 0 &&
    Surplus(Val(a) / Val(b) - WrittenQuotient(a, b), Val(b) * NormFactor(b), |b|) >= NormFactor(b)
  }

  /** x is t * d with a surplus of y, cut off at m. */
  lemma SurplusShows(t: nat, d: nat, v: nat, y: nat, m: nat, r: nat)
    requires 0 < d && (t + 1) * d <= v < m && y < m
    requires r == if t * d + y < m then t * d + y else t * d + y - m
    ensures r / d == t <==> y < d
  {
    Distribute(t, 1, d);
    if t * d + y < m {
      if y < d {
        QuotientIs(r, d, t, y);
      } else {
        FloorAtLeast(r, d, t + 1);
      }
    } else {
      QuotientBound(r, d, t);
    }
  }

  /** Two ways to write a number as a multiple of m and a rest. */
  lemma SameRest(m: int, k: int, r: int, l: int, s: int)
    requires k * m + r == l * m + s && 0 <= r < m && 0 <= s < m
    ensures r == s
  {
    QuotientIs(k * m + r, m, k, r);
    QuotientIs(l * m + s, m, l, s);
  }

  /** The limbs left are the true remainder plus the surplus, cut off at BASE^n. */
  lemma LeftIs(a: nat, b: nat, q: nat, d: nat, n: nat)
    requires b > 0 && d > 0 && b * d < Shift(1, n)
    ensures var y, t := Surplus(a / b - q, b * d, n), a % b;
      Val(Digits(a * d - q * (b * d), n)) == if t * d + y < Shift(1, n) then t * d + y else t * d + y - Shift(1, n)
  {
    hide Val, Digits, Shift, Surplus;
    var m, v, t, e := Shift(1, n), b * d, a % b, a / b - q;
    var r := Val(Digits(a * d - q * v, n));
    var k := DigitsCongruent(a * d - q * v, n);
    ShiftMul(1, k, n);
    ValBound(Digits(a * d - q * v, n));
    Unscale(a, b, q, d);
    StrictMono(t, b, d);
    MulMono(0, t, d);
    var l := SurplusIs(e, v, n);
    RestOfSum(m, k, r, l, Surplus(e, v, n), t * d);
  }

  lemma SurplusIs(e: int, v: nat, n: nat) returns (l: int)
    ensures e * v == l * Shift(1, n) + Surplus(e, v, n)
  {
    hide Shift;
    UnitMono(0, n);
    l := e * v / Shift(1, n);
  }

  lemma RestOfSum(m: nat, k: int, r: nat, l: int, y: nat, t: nat)
    requires r < m && y < m && t < m && r + k * m == t + (l * m + y)
    ensures r == if t + y < m then t + y else t + y - m
  {
    if t + y < m {
      SameRest(m, k, r, l, t + y);
    } else {
      Distribute(l, 1, m);
      SameRest(m, k, r, l + 1, t + y - m);
    }
  }

  lemma Unscale(a: nat, b: nat, q: int, d: nat)
    requires b > 0
    ensures a * d - q * (b * d) == (a % b) * d + (a / b - q) * (b * d)
  {
    var k, t := a / b, a % b;
    Distribute(k * b, t, d);
    Associate(k, b, d);
    Distribute(k, -q, b * d);
  }

  /** The remainder is right exactly when the surplus stays below the scaling factor. */
  lemma RemainderIff(a: nat, b: nat, q: nat, d: nat, n: nat)
    requires b > 0 && d > 0 && b * d < Shift(1, n)
    ensures Val(Digits(a * d - q * (b * d), n)) / d == a % b <==> Surplus(a / b - q, b * d, n) < d
  {
    hide Val, Digits, Shift, Surplus;
    var t := a % b;
    LeftIs(a, b, q, d, n);
    MulMono(t + 1, b, d);
    SurplusShows(t, d, b * d, Surplus(a / b - q, b * d, n), Shift(1, n), Val(Digits(a * d - q * (b * d), n)));
  }

  /** A quotient that is short by exactly one costs the remainder. */
  lemma OneMissing(v: nat, d: nat, n: nat)
    requires 0 < d <= v < Shift(1, n)
    ensures Surplus(1, v, n) >= d && Surplus(0, v, n) < d
  {
    hide Shift;
    QuotientIs(v, Shift(1, n), 0, v);
    QuotientIs(0, Shift(1, n), 0, 0);
  }

  /** The operands on which only the lowest digit goes wrong. */
  predicate LastDigitFails(a: seq<u32>, b: seq<u32>)
    requires Trimmed(b) && |b| >= 2
  {
    LastMisfires(ScaledDividend(a, b), ScaledLimbs(b))
  }

  lemma ScaledOperands(a: seq<u32>, b: seq<u32>)
    requires Trimmed(b) && 2 <= |b| <= |a|
    ensures var u, v, d := ScaledDividend(a, b), ScaledLimbs(b), NormFactor(b);
      Val(b) > 0 && Val(u) == Val(a) * d && |u| > |v| && Val(u[|u| - |v|..]) < Val(v)
      && Val(b) * d < Shift(1, |b|) && d <= Val(b) * d
  {
    hide Val, Shift, Digits, NormFactor;
    var d := NormFactor(b);
    TrimmedLower(b);
    UnitMono(0, |b| - 1);
    ScaledFits(b);
    ScaledBelow(a, d);
    ScaledAtLeast(b, d);
    MulMono(1, Val(b), d);
    ShiftMono(d, BASE, |a|);
    ShiftBase(1, |a|);
    ValOfDigits(Val(a) * d, |a| + 1);
    TopBelowDivisor(ScaledDividend(a, b), ScaledLimbs(b), d);
  }

  /** How far the written quotient is from the true one. */
  lemma WrittenQuotientIs(a: seq<u32>, b: seq<u32>)
    requires Trimmed(b) && 2 <= |b| <= |a|
    ensures Val(b) > 0
    ensures !LongDivisionFails(a, b) ==> WrittenQuotient(a, b) == Val(a) / Val(b)
    ensures LongDivisionFails(a, b) ==> WrittenQuotient(a, b) < Val(a) / Val(b)
    ensures LastDigitFails(a, b) ==> LongDivisionFails(a, b) && WrittenQuotient(a, b) + 1 == Val(a) / Val(b)
  {
    hide Val, Shift, Misfires, NormFactor, ScaledDividend, ScaledLimbs, WrittenDigits, Misfire, ExactWindow, Left;
    ScaledOperands(a, b);
    var u, v, d := ScaledDividend(a, b), ScaledLimbs(b), NormFactor(b);
    WrittenDivides(u, v);
    MisfiresUnfold(u, v);
    DividedQuotient(u, v, WrittenDigits(u, v), Left(u, WrittenDigits(u, v), v), Val(a), Val(b), d);
  }

  lemma DividedQuotient(u: seq<u32>, v: seq<u32>, q: seq<u32>, r: seq<u32>, a: nat, b: nat, d: nat)
    requires Normalised(v) && Val(v) > 0 && Divided(u, v, q, r)
    requires b > 0 && d > 0 && Val(u) == a * d && Val(v) == b * d
    ensures !Misfires(u, v) ==> Val(q) == a / b
    ensures Misfires(u, v) ==> Val(q) < a / b
    ensures Misfires(u, v) && LastMisfires(u, v) ==> Val(q) + 1 == a / b
  {
    hide Val, Misfires, LastMisfires, Normalised;
    QuotientFromScaled(a, b, d, Val(u), Val(v), Val(q), Val(r));
  }

  /** When the remainder is lost: never without a failing digit, always when only the lowest digit fails. */
  lemma WhenRemainderIsLost(a: seq<u32>, b: seq<u32>)
    requires Trimmed(b) && 2 <= |b| <= |a|
    ensures !LongDivisionFails(a, b) ==> !RemainderLost(a, b)
    ensures LastDigitFails(a, b) ==> RemainderLost(a, b)
  {
    hide Val, Shift, NormFactor, ScaledDividend, ScaledLimbs, WrittenQuotient, Surplus, LongDivisionFails, LastDigitFails;
    ScaledOperands(a, b);
    WrittenQuotientIs(a, b);
    OneMissing(Val(b) * NormFactor(b), NormFactor(b), |b|);
  }

  lemma QuotientFromScaled(a: nat, b: nat, d: nat, u: nat, v: nat, q: nat, r: nat)
    requires b > 0 && d > 0 && u == a * d && v == b * d
    ensures u == q * v + r && r < v ==> q == a / b
    ensures (q + 1) * v <= u ==> q < a / b
    ensures (q + 1) * v <= u < (q + 2) * v ==> q + 1 == a / b
  {
    var k := a / b;
    Unscale(a, b, k, d);
    MulMono(a % b + 1, b, d);
    Distribute(a % b, 1, d);
    QuotientIs(u, v, k, (a % b) * d);
    if u == q * v + r && r < v { QuotientIs(u, v, q, r); }
    if (q + 1) * v <= u { FloorAtLeast(u, v, q + 1); }
    if (q + 1) * v <= u < (q + 2) * v { FloorIs(u, v, q + 1); }
  }

  /** The long division path, lines 420-524, as written. The quotient is right if and only if no digit position of the
      scaled operands meets the failing branch, and too small otherwise; the remainder is right if and only if what the
      quotient misses does not show in it. */
  method LongDivide(a: seq<u32>, b: seq<u32>) returns (q: seq<u32>, r: seq<u32>)
    requires Trimmed(b) && 2 <= |b| <= |a|
    ensures Trimmed(q) && Trimmed(r)
    ensures Val(q) == WrittenQuotient(a, b)
    ensures !LongDivisionFails(a, b) ==> Val(a) == Val(q) * Val(b) + Val(r) && Val(r) < Val(b)
    ensures LongDivisionFails(a, b) ==> (Val(q) + 1) * Val(b) <= Val(a)
    ensures Val(b) > 0 && (Val(r) == Val(a) % Val(b) <==> !RemainderLost(a, b))
  {
    hide Val, Misfires, NormFactor, ScaledDividend, ScaledLimbs, Surplus, WrittenDigits, Digits, Shift;
    ScaledOperands(a, b);
    WrittenQuotientIs(a, b);
    WhenRemainderIsLost(a, b);
    var d, u, v := Normalise(a, b);
    q, r := DivideLoop(u, v);
    ghost var big := Val(r);
    RemainderIff(Val(a), Val(b), Val(q), d, |b|);
    assert q[..|q|] == q && r[..|r|] == r;
    var count := TrimCount(q, |q|);
    q := q[..count];
    if d == 1 {
      count := TrimCount(r, |r|);
      r := r[..count];
      assert Val(r) == big / d;
    } else {
      var rem: u32;
      r, rem := DivmodSmall(r, d);
      QuotientIs(big, d, Val(r), rem);
    }
    LongOutcome(Val(a), Val(b), Val(q), Val(r));
  }

  lemma LongOutcome(a: nat, b: nat, q: nat, r: nat)
    requires b > 0
    ensures q == a / b && r == a % b ==> a == q * b + r && r < b
    ensures q < a / b ==> (q + 1) * b <= a
  {
    if q < a / b { MulMono(q + 1, a / b, b); }
  }

  // ---------------------------------------------------------------------------------------------
  // The division that was intended
  // ---------------------------------------------------------------------------------------------

  ghost predicate Exact(u: seq<u32>, v: seq<u32>, q: seq<u32>, r: seq<u32>) {
    Val(u) == Val(q) * Val(v) + Val(r) && Val(r) < Val(v)
  }

  lemma ExactStep(u: seq<u32>, v: seq<u32>, q: seq<u32>, r: seq<u32>, digit: u32, r': seq<u32>)
    requires u != [] && Exact(u[1..], v, q, r)
    requires Val([u[0]] + r) == digit * Val(v) + Val(r') && Val(r') < Val(v)
    ensures Exact(u, v, [digit] + q, r')
  {
    hide Val;
    assert u == [u[0]] + u[1..];
    ValCons(u[0], u[1..]);
    ValCons(u[0], r);
    ValCons(digit, q);
    StaysExact(u[0], Val(u[1..]), Val(q), Val(r), digit, Val(r'), Val(v));
  }

  lemma NextExact(us: seq<u32>, v: seq<u32>, j: nat, q: seq<u32>, r: seq<u32>, digit: u32, r': seq<u32>)
    requires j < |us| && Exact(us[j + 1..], v, q, r)
    requires Val([us[j]] + r) == digit * Val(v) + Val(r') && Val(r') < Val(v)
    ensures Exact(us[j..], v, [digit] + q, r')
  {
    hide Val, Exact;
    assert us[j..][1..] == us[j + 1..];
    ExactStep(us[j..], v, q, r, digit, r');
  }

  /** The digit loop with the intended estimate. */
  method IntendedLoop(us: seq<u32>, v: seq<u32>) returns (q: seq<u32>, r: seq<u32>)
    requires Normalised(v) && |v| < |us| && Val(us[|us| - |v|..]) < Val(v)
    ensures |r| == |v| && Exact(us, v, q, r)
  {
    hide Val, Normalised, Exact;
    var n := |v|;
    var u := CopyOf(us);
    var m := |us| - n - 1;
    var digits := new u32[m + 1](_ => 0);
    var j := m + 1;
    assert us[j..] == u[j..j + n];
    assert digits[j..] == [];
    ExactStart(us[j..], v);
    while j > 0
      invariant 0 <= j <= m + 1
      invariant forall k :: 0 <= k < j ==> u[k] == us[k]
      invariant Exact(us[j..], v, digits[j..], u[j..j + n])
    {
      j := j - 1;
      ghost var rest, higher := u[j + 1..j + n + 1], digits[j + 1..];
      FirstAndRest(u[..], j, j + n + 1);
      assert u[..][j..j + n + 1] == u[j..j + n + 1] && u[..][j + 1..j + n + 1] == rest;
      ExactBelow(us[j + 1..], v, higher, rest);
      var digit := IntendedStep(u, v, j);
      NextExact(us, v, j, higher, rest, digit, u[j..j + n]);
      digits[j] := digit;
      assert digits[j..] == [digit] + higher;
    }
    q, r := digits[..], u[..n];
    assert us[0..] == us && digits[0..] == q && u[0..n] == r;
  }

  lemma ExactStart(r: seq<u32>, v: seq<u32>)
    requires Val(r) < Val(v)
    ensures Exact(r, v, [], r)
  {
  }

  lemma ExactBelow(u: seq<u32>, v: seq<u32>, q: seq<u32>, r: seq<u32>)
    requires Exact(u, v, q, r)
    ensures Val(r) < Val(v)
  {
  }

  /** Long division with the intended estimate: exact for all operands. */
  method IntendedDivide(a: seq<u32>, b: seq<u32>) returns (q: seq<u32>, r: seq<u32>)
    requires Trimmed(b) && 2 <= |b| <= |a|
    ensures Trimmed(q) && Trimmed(r)
    ensures Val(a) == Val(q) * Val(b) + Val(r) && Val(r) < Val(b)
  {
    hide Val, NormFactor, ScaledDividend, ScaledLimbs;
    var d, u, v := Normalise(a, b);
    q, r := IntendedLoop(u, v);
    ghost var big, q0 := Val(r), Val(q);
    assert q[..|q|] == q && r[..|r|] == r;
    var count := TrimCount(q, |q|);
    q := q[..count];
    if d == 1 {
      count := TrimCount(r, |r|);
      r := r[..count];
      Denormalise(Val(a), Val(b), q0, big, d, Val(r), 0);
    } else {
      var rem: u32;
      r, rem := DivmodSmall(r, d);
      Denormalise(Val(a), Val(b), q0, big, d, Val(r), rem);
    }
  }
}
