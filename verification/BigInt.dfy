/** Signed integers of src/bigint.c: sign and trimmed magnitude, each operation refining the mathematical one. */
module BigInt {
  import opened Words
  import opened IntFacts
  import opened Limbs
  import opened LimbArithmetic
  import opened DigitEstimate
  import opened Division

  datatype BigInt = BigInt(sign: int, limbs: seq<u32>)

  /** Every object the library hands out: trimmed, and signed exactly when nonzero. */
  predicate Valid(x: BigInt) {
    && Trimmed(x.limbs)
    && (x.sign == -1 || x.sign == 0 || x.sign == 1)
    && (x.sign == 0 <==> |x.limbs| == 0)
  }

  function Value(x: BigInt): int {
    x.sign * Val(x.limbs)
  }

  lemma SignOfValue(x: BigInt)
    requires Valid(x)
    ensures Sign(Value(x)) == x.sign
    ensures x.sign == 0 ==> Value(x) == 0
    ensures x.sign > 0 ==> Value(x) == Val(x.limbs) > 0
    ensures x.sign < 0 ==> Value(x) == -(Val(x.limbs) as int) < 0
  {
    if |x.limbs| > 0 { TrimmedLower(x.limbs); }
  }

  /** The representation is canonical. */
  lemma Canonical(x: BigInt, y: BigInt)
    requires Valid(x) && Valid(y) && Value(x) == Value(y)
    ensures x == y
  {
    SignOfValue(x);
    SignOfValue(y);
    TrimmedUnique(x.limbs, y.limbs);
  }

  const ZERO: BigInt := BigInt(0, [])

  method FromLimbs(sign: int, limbs: seq<u32>) returns (r: BigInt)
    ensures Valid(r)
    ensures Value(r) == if sign < 0 then -(Val(limbs) as int) else Val(limbs)
  {
    assert limbs[..|limbs|] == limbs;
    var count := TrimCount(limbs, |limbs|);
    if count == 0 {
      return ZERO;
    }
    r := BigInt(if sign < 0 then -1 else 1, limbs[..count]);
  }

  method Compare(a: BigInt, b: BigInt) returns (c: int)
    requires Valid(a) && Valid(b)
    ensures c == Sign(Value(a) - Value(b))
  {
    SignOfValue(a);
    SignOfValue(b);
    if a.sign != b.sign {
      return if a.sign < b.sign then -1 else 1;
    }
    if a.sign == 0 {
      return 0;
    }
    c := CompareAbs(a.limbs, b.limbs);
    c := if a.sign < 0 then -c else c;
  }

  method Add(a: BigInt, b: BigInt) returns (r: BigInt)
    requires Valid(a) && Valid(b)
    ensures Valid(r)
    ensures Value(r) == Value(a) + Value(b)
  {
    hide Val, Value;
    SignOfValue(a);
    SignOfValue(b);
    if a.sign == 0 {
      return b;
    }
    if b.sign == 0 {
      return a;
    }
    if a.sign == b.sign {
      var limbs := AddAbs(a.limbs, b.limbs);
      r := FromLimbs(a.sign, limbs);
      return;
    }
    var cmp := CompareAbs(a.limbs, b.limbs);
    if cmp == 0 {
      SignOfValue(ZERO);
      return ZERO;
    }
    if cmp > 0 {
      NotShorter(a.limbs, b.limbs);
      var limbs := SubAbs(a.limbs, b.limbs);
      r := FromLimbs(a.sign, limbs);
    } else {
      NotShorter(b.limbs, a.limbs);
      var limbs := SubAbs(b.limbs, a.limbs);
      r := FromLimbs(b.sign, limbs);
    }
  }

  lemma NotShorter(a: seq<u32>, b: seq<u32>)
    requires Trimmed(b) && Val(a) >= Val(b)
    ensures |a| >= |b|
  {
    if |a| < |b| { LongerIsGreater(a, b); }
  }

  method Sub(a: BigInt, b: BigInt) returns (r: BigInt)
    requires Valid(a) && Valid(b)
    ensures Valid(r)
    ensures Value(r) == Value(a) - Value(b)
  {
    var negB := BigInt(-b.sign, b.limbs);
    SignOfValue(b);
    SignOfValue(negB);
    r := Add(a, negB);
  }

  lemma SignProduct(x: int, y: int)
    requires (x == 1 || x == -1) && (y == 1 || y == -1)
    ensures x * y == if x == y then 1 else -1
  {
  }

  lemma SignedProduct(a: BigInt, b: BigInt)
    requires Valid(a) && Valid(b)
    ensures a.sign == 0 || b.sign == 0 ==> Value(a) * Value(b) == 0
    ensures a.sign != 0 && b.sign != 0 ==>
      var p := Val(a.limbs) * Val(b.limbs);
      Value(a) * Value(b) == if a.sign == b.sign then p else -p
  {
    hide Val, Value;
    SignOfValue(a);
    SignOfValue(b);
  }

  /** The choice between the single-limb and the schoolbook product. */
  method MulMagnitudes(a: seq<u32>, b: seq<u32>) returns (r: seq<u32>)
    ensures Val(r) == Val(a) * Val(b)
  {
    hide Val;
    if |a| == 1 {
      r := MulSmall(b, a[0]);
      ValOne(a[0]);
      assert a == [a[0]];
    } else if |b| == 1 {
      r := MulSmall(a, b[0]);
      ValOne(b[0]);
      assert b == [b[0]];
    } else {
      r := MulAbs(a, b);
    }
  }

  method Mul(a: BigInt, b: BigInt) returns (r: BigInt)
    requires Valid(a) && Valid(b)
    ensures Valid(r)
    ensures Value(r) == Value(a) * Value(b)
  {
    SignedProduct(a, b);
    if a.sign == 0 || b.sign == 0 {
      return ZERO;
    }
    var limbs := MulMagnitudes(a.limbs, b.limbs);
    SignProduct(a.sign, b.sign);
    hide Val, Value;
    var sign := if a.sign == b.sign then 1 else -1;
    assert sign == a.sign * b.sign;
    r := FromLimbs(sign, limbs);
  }

  /** C division: quotient truncated towards zero, remainder with the sign of the dividend. */
  function TruncDiv(x: int, y: int): int
    requires y != 0
  {
    Sign(x) * Sign(y) * (Abs(x) / Abs(y))
  }

  function TruncMod(x: int, y: int): int
    requires y != 0
  {
    Sign(x) * (Abs(x) % Abs(y))
  }

  function Abs(x: int): nat {
    if x < 0 then -x else x
  }

  lemma TruncDivMod(x: int, y: int)
    requires y != 0
    ensures x == TruncDiv(x, y) * y + TruncMod(x, y)
    ensures Abs(TruncMod(x, y)) < Abs(y) && (TruncMod(x, y) == 0 || Sign(TruncMod(x, y)) == Sign(x))
  {
    var q, r := Abs(x) / Abs(y), Abs(x) % Abs(y);
    assert Abs(x) == q * Abs(y) + r;
    assert (Sign(x) * Sign(y) * q) * y == Sign(x) * (q * Abs(y));
  }

  lemma SignedQuotient(a: BigInt, b: BigInt)
    requires Valid(a) && Valid(b) && b.sign != 0
    ensures Value(b) != 0
    ensures a.sign == 0 ==> TruncDiv(Value(a), Value(b)) == 0 == TruncMod(Value(a), Value(b))
    ensures a.sign != 0 ==>
      var q := Val(a.limbs) / Val(b.limbs);
      TruncDiv(Value(a), Value(b)) == if a.sign == b.sign then q else -q
    ensures a.sign != 0 ==>
      var r := Val(a.limbs) % Val(b.limbs);
      TruncMod(Value(a), Value(b)) == if a.sign > 0 then r else -r
  {
    hide Val, Value;
    SignOfValue(a);
    SignOfValue(b);
  }

  method Div(a: BigInt, b: BigInt) returns (q: BigInt, divByZero: bool)
    requires Valid(a) && Valid(b)
    ensures Valid(q)
    ensures divByZero <==> Value(b) == 0
    ensures divByZero ==> q == ZERO
    ensures Value(b) != 0 ==> (Value(q) == TruncDiv(Value(a), Value(b)) <==> !DivisionFails(a.limbs, b.limbs))
    ensures Value(b) != 0 && DivisionFails(a.limbs, b.limbs) ==> Abs(Value(q)) < Abs(TruncDiv(Value(a), Value(b)))
  {
    SignOfValue(a);
    SignOfValue(b);
    if b.sign == 0 {
      return ZERO, true;
    }
    divByZero := false;
    SignedQuotient(a, b);
    if a.sign == 0 {
      NoDivisionFailure(a.limbs, b.limbs);
      return ZERO, false;
    }
    SignProduct(a.sign, b.sign);
    hide Val, Value, DivisionFails, RemainderFails, TruncDiv;
    var limbs, r, zero := DivmodAbs(a.limbs, b.limbs);
    FailureIsExact(a.limbs, b.limbs, limbs, r);
    q := FromLimbs(if |limbs| == 0 then 0 else a.sign * b.sign, limbs);
    if |limbs| == 0 { ValNone(); }
  }

  lemma NoDivisionFailure(a: seq<u32>, b: seq<u32>)
    requires a == [] && Trimmed(b)
    ensures !DivisionFails(a, b) && !RemainderFails(a, b)
  {
  }

  method Mod(a: BigInt, b: BigInt) returns (r: BigInt, divByZero: bool)
    requires Valid(a) && Valid(b)
    ensures Valid(r)
    ensures divByZero <==> Value(b) == 0
    ensures divByZero ==> r == ZERO
    ensures Value(b) != 0 ==> (Value(r) == TruncMod(Value(a), Value(b)) <==> !RemainderFails(a.limbs, b.limbs))
  {
    SignOfValue(a);
    SignOfValue(b);
    if b.sign == 0 {
      return ZERO, true;
    }
    divByZero := false;
    SignedQuotient(a, b);
    if a.sign == 0 {
      NoDivisionFailure(a.limbs, b.limbs);
      return ZERO, false;
    }
    hide Val, Value, DivisionFails, RemainderFails, TruncMod;
    var q, limbs, zero := DivmodAbs(a.limbs, b.limbs);
    FailureIsExact(a.limbs, b.limbs, q, limbs);
    r := FromLimbs(if |limbs| == 0 then 0 else a.sign, limbs);
    if |limbs| == 0 { ValNone(); }
  }

  method Negate(a: BigInt) returns (r: BigInt)
    requires Valid(a)
    ensures Valid(r)
    ensures Value(r) == -Value(a)
  {
    SignOfValue(a);
    if a.sign == 0 {
      return a;
    }
    hide Val, Value;
    r := FromLimbs(-a.sign, a.limbs);
  }

  const INT64_MAX: int := 0x7FFF_FFFF_FFFF_FFFF
  const INT64_MIN: int := -0x8000_0000_0000_0000

  method FromInt64(value: i64) returns (r: BigInt)
    ensures Valid(r)
    ensures Value(r) == value
  {
    if value == 0 {
      return ZERO;
    }
    var absVal: u64 := if value < 0 then -(value + 1) + 1 else value;
    var rest: u64 := absVal;
    var limbs: seq<u32> := [];
    while rest > 0
      invariant |limbs| <= 2 && (|limbs| == 1 ==> rest < BASE) && (|limbs| == 2 ==> rest == 0)
      invariant Val(limbs) + Shift(rest, |limbs|) == absVal
      decreases rest
    {
      ValSnoc(limbs, Low32(rest));
      CarryStep(rest, 0, 0, Low32(rest), High32(rest), |limbs|);
      limbs, rest := limbs + [Low32(rest)], High32(rest);
    }
    r := FromLimbs(if value < 0 then -1 else 1, limbs);
  }

  /** Succeeds exactly on the values an int64_t can hold. */
  method ToInt64(x: BigInt) returns (ok: bool, out: i64)
    requires Valid(x)
    ensures ok <==> INT64_MIN <= Value(x) <= INT64_MAX
    ensures ok ==> out == Value(x)
  {
    hide Val, Value, High32;
    SignOfValue(x);
    if x.sign == 0 {
      return true, 0;
    }
    assert x.limbs[|x.limbs|..] == [];
    ValNone();
    var limit: u64 := if x.sign < 0 then INT64_MAX + 1 else INT64_MAX;
    var acc: u64 := 0;
    var i := |x.limbs|;
    while i > 0
      invariant 0 <= i <= |x.limbs|
      invariant acc == Val(x.limbs[i..]) <= limit
    {
      var limb: u64 := x.limbs[i - 1];
      NextFits(acc, limb, limit);
      assert x.limbs[i - 1..] == [x.limbs[i - 1]] + x.limbs[i..];
      ValCons(x.limbs[i - 1], x.limbs[i..]);
      if acc > High32(limit - limb) {
        SuffixBelow(x.limbs, i - 1);
        return false, 0;
      }
      acc := acc * BASE + limb;
      i := i - 1;
    }
    assert x.limbs[0..] == x.limbs;
    out := if x.sign < 0 then (if acc == limit then INT64_MIN else -(acc as int)) else acc;
    ok := true;
  }

  /** The test for room before one more limb is shifted in. */
  lemma NextFits(acc: nat, limb: nat, limit: nat)
    requires limb <= limit
    ensures acc > High32(limit - limb) <==> acc * BASE + limb > limit
  {
    var x := limit - limb;
    assert x == Low32(x) + BASE * High32(x);
  }

  lemma SuffixBelow(s: seq<u32>, i: nat)
    requires i <= |s|
    ensures Val(s[i..]) <= Val(s)
  {
    ValSplit(s, i);
  }
}
