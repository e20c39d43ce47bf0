/** Little-endian base 2^32 magnitudes, the representation of src/bigint.c, and their value. */
module Limbs {
  import opened Words

  const BASE: int := 0x1_0000_0000

  /** The part of x above its low 32 bits: x >> 32. */
  function High32(x: int): (r: int)
    ensures -BASE <= x < 0 ==> r == -1
    ensures 0 <= x < BASE ==> r == 0
    ensures BASE <= x < 2 * BASE ==> r == 1
    ensures 0 <= x < BASE * BASE ==> 0 <= r < BASE
  {
    x / BASE
  }

  /** Truncation to uint32_t. */
  function Low32(x: int): (r: u32)
    ensures x == r + BASE * High32(x)
  {
    x % BASE
  }

  lemma Pow2Limb()
    ensures Pow2(32) == BASE
  {
    assert Pow2(8) == 0x100;
    assert Pow2(16) == 0x1_0000;
    assert Pow2(24) == 0x100_0000;
  }

  /** x shifted up by n limbs: x * BASE^n. */
  function Shift(x: int, n: nat): (r: int)
    ensures x == 0 ==> r == 0
    ensures x >= 0 ==> r >= x
    ensures x < 0 ==> r < 0
  {
    if n == 0 then x else BASE * Shift(x, n - 1)
  }

  /** The natural number a limb sequence stands for. */
  function Val(s: seq<u32>): nat {
    if |s| == 0 then 0 else s[0] + BASE * Val(s[1..])
  }

  /** No leading (most significant) zero limb. */
  predicate Trimmed(s: seq<u32>) {
    |s| > 0 ==> s[|s| - 1] != 0
  }

  lemma {:induction false} ShiftAdd(x: int, y: int, n: nat)
    ensures Shift(x + y, n) == Shift(x, n) + Shift(y, n)
  {
    if n > 0 { ShiftAdd(x, y, n - 1); }
  }

  lemma {:induction false} ShiftBase(x: int, n: nat)
    ensures Shift(BASE * x, n) == Shift(x, n + 1)
  {
    if n > 0 { ShiftBase(x, n - 1); }
  }

  lemma {:induction false} ShiftMono(x: int, y: int, n: nat)
    ensures x <= y <==> Shift(x, n) <= Shift(y, n)
  {
    if n > 0 { ShiftMono(x, y, n - 1); }
  }

  lemma {:induction false} ShiftMul(x: int, y: int, n: nat)
    ensures Shift(x * y, n) == Shift(x, n) * y
  {
    if n > 0 {
      ShiftMul(x, y, n - 1);
      assert BASE * (Shift(x, n - 1) * y) == (BASE * Shift(x, n - 1)) * y;
    }
  }

  lemma {:induction false} ShiftShift(x: int, m: nat, n: nat)
    ensures Shift(Shift(x, m), n) == Shift(x, m + n)
  {
    if n > 0 { ShiftShift(x, m, n - 1); }
  }

  /** More limbs, larger unit. */
  lemma {:induction false} UnitMono(m: nat, n: nat)
    requires m <= n
    ensures 1 <= Shift(1, m) <= Shift(1, n)
  {
    if m > 0 { UnitMono(m - 1, n - 1); } else if n > 0 { UnitMono(0, n - 1); }
  }

  lemma ValNone()
    ensures Val([]) == 0
  {
  }

  lemma ValOne(x: u32)
    ensures Val([x]) == x
  {
  }

  lemma ValCons(x: u32, s: seq<u32>)
    ensures Val([x] + s) == x + BASE * Val(s)
  {
    assert ([x] + s)[1..] == s;
  }

  lemma {:induction false} ValConcat(s: seq<u32>, t: seq<u32>)
    ensures Val(s + t) == Val(s) + Shift(Val(t), |s|)
  {
    if |s| == 0 {
      assert s + t == t;
    } else {
      assert (s + t)[1..] == s[1..] + t;
      ValConcat(s[1..], t);
    }
  }

  lemma ValSnoc(s: seq<u32>, x: u32)
    ensures Val(s + [x]) == Val(s) + Shift(x, |s|)
  {
    ValConcat(s, [x]);
    assert Val([x]) == x;
  }

  /** Extending a prefix by one limb. */
  lemma ValPrefix(s: seq<u32>, i: nat)
    requires i < |s|
    ensures Val(s[..i + 1]) == Val(s[..i]) + Shift(s[i], i)
  {
    assert s[..i + 1] == s[..i] + [s[i]];
    ValSnoc(s[..i], s[i]);
  }

  lemma ValSplit(s: seq<u32>, i: nat)
    requires i <= |s|
    ensures Val(s) == Val(s[..i]) + Shift(Val(s[i..]), i)
  {
    assert s == s[..i] + s[i..];
    ValConcat(s[..i], s[i..]);
  }

  lemma {:induction false} ValBound(s: seq<u32>)
    ensures Val(s) < Shift(1, |s|)
  {
    if |s| > 0 { ValBound(s[1..]); }
  }

  /** The top limb brackets the value. */
  lemma ValTop(s: seq<u32>)
    requires |s| > 0
    ensures Shift(s[|s| - 1], |s| - 1) <= Val(s) < Shift(s[|s| - 1] as int + 1, |s| - 1)
  {
    var n := |s| - 1;
    assert s[..n + 1] == s;
    ValPrefix(s, n);
    ValBound(s[..n]);
    ShiftAdd(s[n], 1, n);
  }

  lemma {:induction false} ValZeros(s: seq<u32>)
    requires forall k :: 0 <= k < |s| ==> s[k] == 0
    ensures Val(s) == 0
  {
    if |s| > 0 { ValZeros(s[1..]); }
  }

  /** A trimmed, nonempty magnitude is at least BASE^(count-1). */
  lemma TrimmedLower(s: seq<u32>)
    requires Trimmed(s) && |s| > 0
    ensures Shift(1, |s| - 1) <= Val(s)
  {
    ValTop(s);
    ShiftMono(1, s[|s| - 1], |s| - 1);
  }

  /** Equal lengths and equal values force equal limbs. */
  lemma {:induction false} ValInjective(s: seq<u32>, t: seq<u32>)
    requires |s| == |t| && Val(s) == Val(t)
    ensures s == t
  {
    if |s| > 0 {
      assert s[0] == t[0] && Val(s[1..]) == Val(t[1..]);
      ValInjective(s[1..], t[1..]);
      assert s == [s[0]] + s[1..] && t == [t[0]] + t[1..];
    }
  }

  lemma LongerIsGreater(s: seq<u32>, t: seq<u32>)
    requires Trimmed(t) && |s| < |t|
    ensures Val(s) < Val(t)
  {
    ValBound(s);
    TrimmedLower(t);
    UnitMono(|s|, |t| - 1);
  }

  /** Trimmed magnitudes are canonical: one limb sequence per natural number. */
  lemma TrimmedUnique(s: seq<u32>, t: seq<u32>)
    requires Trimmed(s) && Trimmed(t) && Val(s) == Val(t)
    ensures s == t
  {
    if |s| < |t| {
      LongerIsGreater(s, t);
    } else if |t| < |s| {
      LongerIsGreater(t, s);
    } else {
      ValInjective(s, t);
    }
  }

  /** The low n limbs of x, in two's complement when x is negative. */
  function Digits(x: int, n: nat): (s: seq<u32>)
    ensures |s| == n
    decreases n
  {
    if n == 0 then [] else [Low32(x)] + Digits(High32(x), n - 1)
  }

  lemma {:induction false} DigitsOfVal(s: seq<u32>)
    ensures Digits(Val(s), |s|) == s
  {
    if |s| > 0 {
      assert Val(s) == s[0] + BASE * Val(s[1..]);
      LowHigh(s[0], Val(s[1..]));
      DigitsOfVal(s[1..]);
      assert s == [s[0]] + s[1..];
    }
  }

  lemma LowHigh(x: u32, y: int)
    ensures Low32(x + BASE * y) == x && High32(x + BASE * y) == y
  {
    var z := x + BASE * y;
    assert z == Low32(z) + BASE * High32(z);
  }

  lemma {:induction false} ValOfDigits(x: nat, n: nat)
    requires x < Shift(1, n)
    ensures Val(Digits(x, n)) == x
  {
    if n > 0 {
      ValOfDigits(High32(x), n - 1);
      ValCons(Low32(x), Digits(High32(x), n - 1));
    }
  }

  /** Whole multiples of BASE^n do not show in the low n limbs. */
  lemma {:induction false} DigitsShift(x: int, k: int, n: nat)
    ensures Digits(x + Shift(k, n), n) == Digits(x, n)
    decreases n
  {
    if n > 0 {
      var y := Shift(k, n - 1);
      LowHigh(Low32(x), High32(x) + y);
      DigitsShift(High32(x), k, n - 1);
    }
  }

  /** The low n limbs differ from the number by a multiple of BASE^n. */
  lemma {:induction false} DigitsCongruent(x: int, n: nat) returns (k: int)
    ensures Val(Digits(x, n)) + Shift(k, n) == x
    decreases n
  {
    if n == 0 {
      k := x;
    } else {
      k := DigitsCongruent(High32(x), n - 1);
      ValCons(Low32(x), Digits(High32(x), n - 1));
    }
  }
}
