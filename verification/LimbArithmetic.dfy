/** The limb loops of src/bigint.c: trim, compare, add, subtract, multiply and single-limb divide. */
module LimbArithmetic {
  import opened Words
  import opened IntFacts
  import opened Limbs

  /** One step of a carry loop: two limbs and a carry become a limb and the next carry. */
  lemma CarryStep(x: int, y: int, carry: int, limb: int, next: int, i: nat)
    requires x + y + carry == limb + BASE * next
    ensures Shift(x, i) + Shift(y, i) + Shift(carry, i) == Shift(limb, i) + Shift(next, i + 1)
  {
    ShiftAdd(x, y, i);
    ShiftAdd(x + y, carry, i);
    ShiftAdd(limb, BASE * next, i);
    ShiftBase(next, i);
  }

  method TrimCount(limbs: seq<u32>, start: nat) returns (count: nat)
    requires start <= |limbs|
    ensures count <= start
    ensures Trimmed(limbs[..count])
    ensures Val(limbs[..count]) == Val(limbs[..start])
  {
    count := start;
    while count > 0 && limbs[count - 1] == 0
      invariant count <= start
      invariant Val(limbs[..count]) == Val(limbs[..start])
    {
      ValPrefix(limbs, count - 1);
      count := count - 1;
    }
  }

  /** Sign of a difference, as the C comparison functions return it. */
  function Sign(x: int): (r: int)
    ensures r == -1 || r == 0 || r == 1
    ensures (r < 0 <==> x < 0) && (r > 0 <==> x > 0)
  {
    if x < 0 then -1 else if x > 0 then 1 else 0
  }

  lemma TopLess(a: seq<u32>, b: seq<u32>)
    requires 0 < |a| == |b| && a[|a| - 1] < b[|a| - 1]
    ensures Val(a) < Val(b)
  {
    ValTop(a);
    ValTop(b);
    ShiftMono(a[|a| - 1] as int + 1, b[|a| - 1], |a| - 1);
  }

  lemma FirstDifference(a: seq<u32>, b: seq<u32>, i: nat)
    requires i < |a| == |b| && a[i + 1..] == b[i + 1..] && a[i] < b[i]
    ensures Val(a) < Val(b)
  {
    ValSplit(a, i + 1);
    ValSplit(b, i + 1);
    TopLess(a[..i + 1], b[..i + 1]);
  }

  method CompareAbs(a: seq<u32>, b: seq<u32>) returns (c: int)
    requires Trimmed(a) && Trimmed(b)
    ensures c == Sign(Val(a) - Val(b))
  {
    hide Val;
    if |a| < |b| {
      LongerIsGreater(a, b);
      return -1;
    }
    if |a| > |b| {
      LongerIsGreater(b, a);
      return 1;
    }
    var i := |a|;
    while i > 0
      invariant 0 <= i <= |a|
      invariant a[i..] == b[i..]
    {
      if a[i - 1] < b[i - 1] {
        FirstDifference(a, b, i - 1);
        return -1;
      }
      if a[i - 1] > b[i - 1] {
        FirstDifference(b, a, i - 1);
        return 1;
      }
      assert a[i - 1..] == [a[i - 1]] + a[i..];
      assert b[i - 1..] == [b[i - 1]] + b[i..];
      i := i - 1;
    }
    assert a == a[0..] == b[0..] == b;
    return 0;
  }

  /** Limb i, or zero past the end. */
  function LimbAt(s: seq<u32>, i: nat): u32 {
    if i < |s| then s[i] else 0
  }

  /** The value of the low i limbs, reading zeros past the end. */
  function Low(s: seq<u32>, i: nat): (r: nat)
  {
    Val(if i <= |s| then s[..i] else s)
  }

  lemma LowStep(s: seq<u32>, i: nat)
    ensures Low(s, i + 1) == Low(s, i) + Shift(LimbAt(s, i), i)
  {
    if i < |s| {
      ValPrefix(s, i);
    } else {
      assert i == |s| ==> s[..i] == s;
    }
  }

  lemma LowAll(s: seq<u32>, i: nat)
    requires |s| <= i
    ensures Low(s, i) == Val(s)
  {
    assert i == |s| ==> s[..i] == s;
  }

  lemma AddStep(a: seq<u32>, b: seq<u32>, done: seq<u32>, carry: int, limb: u32, next: int)
    requires Val(done) + Shift(carry, |done|) == Low(a, |done|) + Low(b, |done|)
    requires LimbAt(a, |done|) as int + LimbAt(b, |done|) + carry == limb + BASE * next
    ensures Val(done + [limb]) + Shift(next, |done| + 1) == Low(a, |done| + 1) + Low(b, |done| + 1)
  {
    var i := |done|;
    LowStep(a, i);
    LowStep(b, i);
    ValSnoc(done, limb);
    CarryStep(LimbAt(a, i), LimbAt(b, i), carry, limb, next, i);
  }

  lemma LowNone(s: seq<u32>)
    ensures Low(s, 0) == 0
  {
  }

  method AddAbs(a: seq<u32>, b: seq<u32>) returns (r: seq<u32>)
    ensures Trimmed(r)
    ensures Val(r) == Val(a) + Val(b)
  {
    hide Val, Shift, Low, Low32, High32;
    var maxCount := if |a| > |b| then |a| else |b|;
    var out: seq<u32> := [];
    var carry: u64 := 0;
    ValNone();
    LowNone(a);
    LowNone(b);
    while |out| < maxCount
      invariant |out| <= maxCount
      invariant carry <= 1
      invariant Val(out) + Shift(carry, |out|) == Low(a, |out|) + Low(b, |out|)
    {
      var sum: u64 := carry;
      if |out| < |a| { sum := sum + a[|out|]; }
      if |out| < |b| { sum := sum + b[|out|]; }
      AddStep(a, b, out, carry, Low32(sum), High32(sum));
      out, carry := out + [Low32(sum)], High32(sum);
    }
    LowAll(a, maxCount);
    LowAll(b, maxCount);
    if carry != 0 {
      ValSnoc(out, carry);
      out := out + [carry];
    }
    assert out[..|out|] == out;
    var count := TrimCount(out, |out|);
    r := out[..count];
  }

  lemma SubStep(a: seq<u32>, b: seq<u32>, done: seq<u32>, borrow: int, limb: u32, next: int)
    requires Val(done) == Low(a, |done|) - Low(b, |done|) + Shift(borrow, |done|)
    requires limb as int + LimbAt(b, |done|) + borrow == LimbAt(a, |done|) as int + BASE * next
    ensures Val(done + [limb]) == Low(a, |done| + 1) - Low(b, |done| + 1) + Shift(next, |done| + 1)
  {
    var i := |done|;
    LowStep(a, i);
    LowStep(b, i);
    ValSnoc(done, limb);
    CarryStep(limb, LimbAt(b, i), borrow, LimbAt(a, i), next, i);
  }

  method SubAbs(a: seq<u32>, b: seq<u32>) returns (r: seq<u32>)
    requires |b| <= |a|
    requires Val(b) <= Val(a)
    ensures Trimmed(r) && |r| <= |a|
    ensures Val(r) == Val(a) - Val(b)
  {
    var out: seq<u32> := [];
    var borrow: u64 := 0;
    while |out| < |a|
      invariant |out| <= |a|
      invariant borrow <= 1
      invariant Val(out) == Low(a, |out|) - Low(b, |out|) + Shift(borrow, |out|)
    {
      var i := |out|;
      var bv: u64 := if i < |b| then b[i] else 0;
      var sub: u64 := bv + borrow;
      var next: u64 := if a[i] < sub then 1 else 0;
      var d: u32 := Low32(a[i] as int - sub);
      SubStep(a, b, out, borrow, d, next);
      out, borrow := out + [d], next;
    }
    LowAll(a, |a|);
    LowAll(b, |a|);
    ValBound(out);
    assert out[..|out|] == out;
    var count := TrimCount(out, |out|);
    r := out[..count];
  }

  /** The largest limb product leaves room for two more limbs in 64 bits. */
  lemma ProductBound(x: u32, y: u32)
    ensures 0 <= x * y <= (BASE - 1) * (BASE - 1)
  {
    ProductUpTo(x, y, BASE - 1);
  }

  lemma ValUpdate(s: seq<u32>, k: nat, x: u32)
    requires k < |s|
    ensures Val(s[k := x]) == Val(s) - Shift(s[k], k) + Shift(x, k)
  {
    var t := s[k := x];
    ValSplit(s, k + 1);
    ValSplit(t, k + 1);
    assert s[k + 1..] == t[k + 1..];
    ValPrefix(s, k);
    ValPrefix(t, k);
    assert s[..k] == t[..k];
  }

  /** Adding `add` and the carry into limb k, and moving the overflow on to limb k + 1. */
  lemma Accumulate(s: seq<u32>, k: nat, add: int, carry: int, limb: u32, next: int)
    requires k < |s|
    requires s[k] as int + add + carry == limb + BASE * next
    ensures Val(s[k := limb]) + Shift(next, k + 1) == Val(s) + Shift(add, k) + Shift(carry, k)
  {
    ValUpdate(s, k, limb);
    CarryStep(s[k], add, carry, limb, next, k);
  }

  /** x times one more limb of b, placed i limbs up. */
  lemma PartialProduct(x: int, b: seq<u32>, i: nat, j: nat)
    requires j < |b|
    ensures Shift(x * Val(b[..j + 1]), i) == Shift(x * Val(b[..j]), i) + Shift(x * b[j], i + j)
  {
    var low, top := Val(b[..j]), Shift(b[j], j);
    ValPrefix(b, j);
    assert x * (low + top) == x * low + x * top;
    ShiftAdd(x * low, x * top, i);
    ShiftMul(b[j], x, j);
    assert x * top == Shift(x * b[j], j);
    ShiftShift(x * b[j], j, i);
  }

  /** Carries a digit upwards from limb k until it is absorbed. */
  method PropagateCarry(out: array<u32>, start: nat, first: u32)
    requires start <= out.Length
    requires Val(out[..]) + Shift(first, start) < Shift(1, out.Length)
    modifies out
    ensures Val(out[..]) == old(Val(out[..])) + Shift(first, start)
  {
    var carry: u64 := first;
    var k := start;
    while carry != 0 && k < out.Length
      invariant start <= k <= out.Length
      invariant carry < BASE
      invariant Val(out[..]) + Shift(carry, k) == old(Val(out[..])) + Shift(first, start)
    {
      var cur: u64 := out[k] as int + carry;
      var limb: u32 := Low32(cur);
      Accumulate(out[..], k, 0, carry, limb, High32(cur));
      ghost var before := out[..];
      out[k] := limb;
      assert out[..] == before[k := limb];
      carry := High32(cur);
      k := k + 1;
    }
    ShiftMono(1, carry, out.Length);
  }

  /** Adds x * b into the accumulator at limb i; the carry out belongs to limb i + |b|. */
  method AddScaled(out: array<u32>, x: u32, b: seq<u32>, i: nat) returns (carry: u32)
    requires i + |b| <= out.Length
    modifies out
    ensures Val(out[..]) + Shift(carry, i + |b|) == old(Val(out[..])) + Shift(x * Val(b), i)
  {
    hide Val, Shift, Low32, High32;
    var c: u64 := 0;
    var j := 0;
    NoProduct(x, b, i);
    while j < |b|
      invariant j <= |b|
      invariant c < BASE
      invariant Val(out[..]) + Shift(c, i + j) == old(Val(out[..])) + Shift(x * Val(b[..j]), i)
    {
      ProductBound(x, b[j]);
      ghost var prod := x * b[j];
      var cur: u64 := out[i + j] + x * b[j] + c;
      var limb: u32 := Low32(cur);
      Accumulate(out[..], i + j, prod, c, limb, High32(cur));
      PartialProduct(x, b, i, j);
      ghost var before := out[..];
      out[i + j] := limb;
      assert out[..] == before[i + j := limb];
      c := High32(cur);
      j := j + 1;
    }
    assert b[..j] == b;
    carry := c;
  }

  lemma NoProduct(x: u32, b: seq<u32>, i: nat)
    ensures Shift(x * Val(b[..0]), i) == 0
  {
    assert Val(b[..0]) == 0;
  }

  lemma ProductStep(a: seq<u32>, b: seq<u32>, i: nat)
    requires i < |a|
    ensures Val(a[..i]) * Val(b) + Shift(a[i] * Val(b), i) == Val(a[..i + 1]) * Val(b)
  {
    ValPrefix(a, i);
    ShiftMul(a[i], Val(b), i);
    Distribute(Val(a[..i]), Shift(a[i], i), Val(b));
  }

  lemma ProductBelow(a: seq<u32>, b: seq<u32>)
    ensures Val(a) * Val(b) <= Shift(1, |a| + |b|)
  {
    ValBound(a);
    ValBound(b);
    ShiftShift(1, |b|, |a|);
    var p, q := Shift(1, |a|), Shift(1, |b|);
    ShiftMul(1, q, |a|);
    MulMono(Val(a), p, Val(b));
    MulMono(Val(b), q, p);
  }

  lemma ProductFits(a: seq<u32>, b: seq<u32>, i: nat)
    requires i <= |a|
    ensures Val(a[..i]) * Val(b) < Shift(1, |a| + |b| + 1)
  {
    hide Val;
    ProductBelow(a[..i], b);
    UnitMono(i + |b|, |a| + |b|);
  }

  method MulAbs(a: seq<u32>, b: seq<u32>) returns (r: seq<u32>)
    ensures Trimmed(r)
    ensures Val(r) == Val(a) * Val(b)
  {
    if |a| == 0 || |b| == 0 {
      return [];
    }
    var len := |a| + |b|;
    var out := new u32[len + 1](_ => 0);
    ValZeros(out[..]);
    var i := 0;
    while i < |a|
      invariant i <= |a|
      invariant Val(out[..]) == Val(a[..i]) * Val(b)
    {
      ProductStep(a, b, i);
      ProductFits(a, b, i + 1);
      var carry := AddScaled(out, a[i], b, i);
      PropagateCarry(out, i + |b|, carry);
      i := i + 1;
    }
    assert a[..i] == a;
    assert out[..][..len + 1] == out[..];
    var count := TrimCount(out[..], len + 1);
    r := out[..][..count];
  }

  lemma MulStep(a: seq<u32>, m: int, add: int, done: seq<u32>, carry: int, limb: u32, next: int)
    requires |done| < |a|
    requires Val(done) + Shift(carry, |done|) == Val(a[..|done|]) * m + add
    requires a[|done|] * m + carry == limb + BASE * next
    ensures Val(done + [limb]) + Shift(next, |done| + 1) == Val(a[..|done| + 1]) * m + add
  {
    hide Val, Shift;
    var i := |done|;
    ValPrefix(a, i);
    ShiftMul(a[i], m, i);
    Distribute(Val(a[..i]), Shift(a[i], i), m);
    ValSnoc(done, limb);
    CarryStep(a[i] * m, 0, carry, limb, next, i);
  }

  /** The carry loop shared by bigint_mul_small and bigint_mul_add_small_inplace. */
  method MulAddLoop(a: seq<u32>, m: u32, add: u32) returns (out: seq<u32>, carry: u32)
    ensures |out| == |a|
    ensures Val(out) + Shift(carry, |a|) == Val(a) * m + add
  {
    var c: u64 := add;
    out := [];
    while |out| < |a|
      invariant |out| <= |a|
      invariant c < BASE
      invariant Val(out) + Shift(c, |out|) == Val(a[..|out|]) * m + add
    {
      ProductBound(a[|out|], m);
      var cur: u64 := a[|out|] * m + c;
      MulStep(a, m, add, out, c, Low32(cur), High32(cur));
      out := out + [Low32(cur)];
      c := High32(cur);
    }
    assert a[..|a|] == a;
    carry := c;
  }

  method MulSmall(a: seq<u32>, m: u32) returns (r: seq<u32>)
    ensures Val(r) == Val(a) * m
    ensures m == 0 ==> r == []
    ensures m != 0 ==> |a| <= |r| <= |a| + 1
    ensures |r| == |a| + 1 ==> Trimmed(r)
  {
    if |a| == 0 || m == 0 {
      return [];
    }
    var carry;
    r, carry := MulAddLoop(a, m, 0);
    if carry != 0 {
      ValSnoc(r, carry);
      r := r + [carry];
    }
  }

  method MulAddSmall(limbs: seq<u32>, m: u32, add: u32) returns (r: seq<u32>)
    ensures Val(r) == Val(limbs) * m + add
    ensures limbs != [] ==> Trimmed(r)
    ensures Trimmed(limbs) ==> Trimmed(r)
  {
    if |limbs| == 0 {
      if add == 0 {
        return [];
      }
      return [add];
    }
    var carry;
    r, carry := MulAddLoop(limbs, m, add);
    if carry != 0 {
      ValSnoc(r, carry);
      r := r + [carry];
    }
    assert r[..|r|] == r;
    var count := TrimCount(r, |r|);
    r := r[..count];
  }

  /** Bringing down one limb in a division by a single limb. */
  lemma DivStep(hi: nat, qhi: nat, d: nat, rem: nat, x: u32, cur: nat)
    requires 0 < d < BASE && rem < d
    requires hi == qhi * d + rem && cur == rem * BASE + x
    ensures cur < d * BASE
    ensures 0 <= cur / d < BASE
    ensures x + BASE * hi == (cur / d + BASE * qhi) * d + cur % d
  {
    MulMono(rem, d - 1, BASE);
    QuotientBound(cur, d, BASE);
    DivMod(cur, d);
    DivArith(hi, qhi, d, rem, x, cur, cur / d, cur % d);
  }

  lemma DivMod(x: nat, d: nat)
    requires d > 0
    ensures x == (x / d) * d + x % d && 0 <= x / d
  {
  }

  lemma DivArith(hi: nat, qhi: nat, d: nat, rem: nat, x: nat, cur: nat, q: nat, r: nat)
    requires hi == qhi * d + rem && cur == rem * BASE + x && cur == q * d + r
    ensures x + BASE * hi == (q + BASE * qhi) * d + r
  {
    Distribute(q, BASE * qhi, d);
    assert (BASE * qhi) * d == BASE * (qhi * d);
  }

  /** In-place division by one limb, most significant limb first. */
  method DivmodSmallInPlace(limbs: array<u32>, count: nat, d: u32) returns (newCount: nat, rem: u32)
    requires count <= limbs.Length
    modifies limbs
    ensures d == 0 ==> newCount == 0 && rem == 0 && limbs[..] == old(limbs[..])
    ensures d != 0 ==> newCount <= count && rem < d
    ensures d != 0 ==> old(Val(limbs[..count])) == Val(limbs[..newCount]) * d + rem
    ensures d != 0 ==> Trimmed(limbs[..newCount])
    ensures d != 0 ==> Val(limbs[..count]) == Val(limbs[..newCount])
  {
    if d == 0 {
      return 0, 0;
    }
    hide Val;
    ghost var orig := limbs[..count];
    var r: u64 := 0;
    var i := count;
    assert orig[i..] == [] && limbs[i..count] == [];
    ValNone();
    while i > 0
      invariant 0 <= i <= count
      invariant r < d
      invariant limbs[..i] == orig[..i]
      invariant Val(orig[i..]) == Val(limbs[i..count]) * d + r
    {
      var cur: u64 := r * BASE + limbs[i - 1];
      DivStep(Val(orig[i..]), Val(limbs[i..count]), d, r, limbs[i - 1], cur);
      ghost var high := limbs[i..count];
      ValCons(cur / d, high);
      ValCons(limbs[i - 1], orig[i..]);
      assert orig[i - 1..] == [limbs[i - 1]] + orig[i..];
      limbs[i - 1] := cur / d;
      assert limbs[i - 1..count] == [cur / d] + high;
      r := cur % d;
      i := i - 1;
    }
    rem := r;
    assert orig[0..] == orig && limbs[0..count] == limbs[..count] == limbs[..][..count];
    newCount := TrimCount(limbs[..], count);
    assert limbs[..][..newCount] == limbs[..newCount];
  }

  method DivmodSmall(a: seq<u32>, d: u32) returns (q: seq<u32>, rem: u32)
    requires d != 0
    ensures Trimmed(q) && |q| <= |a|
    ensures Val(a) == Val(q) * d + rem && rem < d
  {
    var digits := new u32[|a|](i requires 0 <= i < |a| => a[i]);
    assert digits[..|a|] == a;
    var count;
    count, rem := DivmodSmallInPlace(digits, |a|, d);
    q := digits[..count];
  }
}
