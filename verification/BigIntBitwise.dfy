/** Bitwise operators of src/bigint.c on signed integers, against infinite two's complement. */
module BigIntBitwise {
  import opened Words
  import opened IntFacts
  import opened Limbs
  import opened LimbArithmetic
  import opened BigInt

  /** Bit k of x in infinite two's complement; / rounds down, so negative numbers end in ones. */
  predicate Bit(x: int, k: nat)
    decreases k
  {
    if k == 0 then x % 2 == 1 else Bit(x / 2, k - 1)
  }

  /** The same bit, read off by division. */
  predicate TwosBit(x: int, k: nat) {
    x / Pow2(k) % 2 == 1
  }

  lemma {:induction false} BitIs(x: int, k: nat)
    ensures Bit(x, k) <==> TwosBit(x, k)
    decreases k
  {
    hide Pow2;
    if k == 0 {
      NoPower(x);
      QuotientIs(x, 1, x, 0);
    } else {
      BitIs(x / 2, k - 1);
      HalfThenMore(x, k);
    }
  }

  lemma HalfThenMore(x: int, k: nat)
    requires k > 0
    ensures x / 2 / Pow2(k - 1) == x / Pow2(k)
  {
    hide Pow2;
    Doubled(k);
    var p := Pow2(k - 1);
    var q, r := x / 2 / p, x / 2 % p;
    assert x / 2 == q * p + r && 2 * (q * p) == q * (2 * p) by { TwiceTimes(p, q); }
    QuotientIs(x, 2 * p, q, 2 * r + x % 2);
  }

  datatype BitOp = And | Or | Xor

  predicate Apply(op: BitOp, p: bool, q: bool) {
    match op
    case And => p && q
    case Or => p || q
    case Xor => p != q
  }

  /** The machine operation on the low n bits of two words. */
  function WordOp(op: BitOp, x: int, y: int, n: nat): (z: int)
    ensures 0 <= z < Pow2(n)
    decreases n
  {
    if n == 0 then 0 else
    (if Apply(op, x % 2 == 1, y % 2 == 1) then 1 else 0) + 2 * WordOp(op, x / 2, y / 2, n - 1)
  }

  function LimbOp(op: BitOp, x: u32, y: u32): u32 {
    Pow2Limb();
    WordOp(op, x, y, 32)
  }

  lemma {:induction false} WordOpBit(op: BitOp, x: int, y: int, n: nat, k: nat)
    requires k < n
    ensures Bit(WordOp(op, x, y, n), k) == Apply(op, Bit(x, k), Bit(y, k))
    decreases n
  {
    if k > 0 { WordOpBit(op, x / 2, y / 2, n - 1, k - 1); }
  }

  /** The low n bits and the bits above them. */
  lemma {:induction false} SplitBits(lo: int, hi: int, n: nat, k: nat)
    requires 0 <= lo < Pow2(n)
    ensures Bit(lo + Pow2(n) * hi, k) == if k < n then Bit(lo, k) else Bit(hi, k - n)
  {
    hide Bit, Pow2;
    if n == 0 {
      NoPower(hi);
    } else {
      HalfSplit(lo, hi, n);
      BitStep(lo + Pow2(n) * hi, k);
      BitStep(lo, k);
      if k > 0 { SplitBits(lo / 2, hi, n - 1, k - 1); }
    }
  }

  lemma BitStep(x: int, k: nat)
    ensures Bit(x, k) == if k == 0 then x % 2 == 1 else Bit(x / 2, k - 1)
  {
  }

  lemma NoPower(x: int)
    ensures Pow2(0) == 1 && Pow2(0) * x == x
  {
  }

  /** Halving takes one bit off the low part. */
  lemma HalfSplit(lo: int, hi: int, n: nat)
    requires n > 0 && 0 <= lo < Pow2(n)
    ensures var x := lo + Pow2(n) * hi; x % 2 == lo % 2 && x / 2 == lo / 2 + Pow2(n - 1) * hi
    ensures 0 <= lo / 2 < Pow2(n - 1)
  {
    hide Pow2;
    Doubled(n);
    var p := Pow2(n - 1) * hi;
    assert Pow2(n) * hi == 2 * p by { TwiceTimes(Pow2(n - 1), hi); }
    QuotientIs(lo + 2 * p, 2, lo / 2 + p, lo % 2);
  }

  lemma TwiceTimes(x: int, y: int)
    ensures (2 * x) * y == 2 * (x * y)
  {
  }

  lemma LimbBits(x: int, k: nat)
    ensures Bit(x, k) == if k < 32 then Bit(Low32(x), k) else Bit(High32(x), k - 32)
  {
    Pow2Limb();
    SplitBits(Low32(x), High32(x), 32, k);
  }

  /** What is left of x above its low n limbs. */
  function Tail(x: int, n: nat): int
    decreases n
  {
    if n == 0 then x else Tail(High32(x), n - 1)
  }

  /** The limbs the loop writes, and the word of sign bits that extends them. */
  function OpLimbs(op: BitOp, x: int, y: int, n: nat): (s: seq<u32>)
    ensures |s| == n
    decreases n
  {
    if n == 0 then [] else [LimbOp(op, Low32(x), Low32(y))] + OpLimbs(op, High32(x), High32(y), n - 1)
  }

  predicate IsSignWord(x: int) {
    x == 0 || x == -1
  }

  function SignWordOp(op: BitOp, x: int, y: int): int {
    if Apply(op, x == -1, y == -1) then -1 else 0
  }

  lemma {:induction false} SignWordBit(x: int, k: nat)
    requires IsSignWord(x)
    ensures Bit(x, k) <==> x == -1
  {
    if k > 0 { SignWordBit(x / 2, k - 1); }
  }

  lemma LimbOpBit(op: BitOp, x: u32, y: u32, k: nat)
    requires k < 32
    ensures Bit(LimbOp(op, x, y), k) == Apply(op, Bit(x, k), Bit(y, k))
  {
    hide Bit, WordOp;
    WordOpBit(op, x, y, 32, k);
  }

  lemma NoLimbs(s: seq<u32>)
    requires s == []
    ensures Val(s) == 0
  {
  }

  /** Limb-wise operations, sign-extended, are bit-wise at every index. */
  lemma {:induction false} OpBits(op: BitOp, x: int, y: int, n: nat, k: nat)
    requires IsSignWord(Tail(x, n)) && IsSignWord(Tail(y, n))
    ensures var z := Val(OpLimbs(op, x, y, n)) + Shift(SignWordOp(op, Tail(x, n), Tail(y, n)), n);
            Bit(z, k) == Apply(op, Bit(x, k), Bit(y, k))
    decreases n
  {
    hide Bit, LimbOp, Val, Apply;
    var t := SignWordOp(op, Tail(x, n), Tail(y, n));
    if n == 0 {
      SignWordBit(x, k);
      SignWordBit(y, k);
      SignWordBit(t, k);
      NoLimbs(OpLimbs(op, x, y, n));
    } else {
      var limb, rest := LimbOp(op, Low32(x), Low32(y)), OpLimbs(op, High32(x), High32(y), n - 1);
      ValCons(limb, rest);
      var hi := Val(rest) + Shift(t, n - 1);
      LowHigh(limb, hi);
      LimbBits(limb + BASE * hi, k);
      LimbBits(x, k);
      LimbBits(y, k);
      if k < 32 {
        LimbOpBit(op, Low32(x), Low32(y), k);
      } else {
        OpBits(op, High32(x), High32(y), n - 1, k - 32);
      }
    }
  }

  /** Two integers with the same bits are the same. */
  lemma {:induction false} BitsDetermine(x: int, y: int)
    requires forall k: nat :: Bit(x, k) == Bit(y, k)
    ensures x == y
    decreases Abs(x) + Abs(y)
  {
    assert Bit(x, 0) == Bit(y, 0);
    if IsSignWord(x) && IsSignWord(y) {
    } else {
      forall k: nat
        ensures Bit(x / 2, k) == Bit(y / 2, k)
      {
        assert Bit(x, k + 1) == Bit(y, k + 1);
      }
      BitsDetermine(x / 2, y / 2);
    }
  }

  /** Numbers below BASE^n in magnitude leave only their sign above n limbs. */
  lemma {:induction false} TailIsSign(x: int, n: nat)
    requires -Shift(1, n) <= x < Shift(1, n)
    ensures IsSignWord(Tail(x, n)) && (Tail(x, n) == -1 <==> x < 0)
    decreases n
  {
    if n > 0 {
      assert x == Low32(x) + BASE * High32(x);
      TailIsSign(High32(x), n - 1);
    }
  }

  lemma {:induction false} TailStep(x: int, n: nat)
    requires IsSignWord(Tail(x, n))
    ensures Tail(x, n + 1) == Tail(x, n)
    decreases n
  {
    if n > 0 { TailStep(High32(x), n - 1); }
  }

  lemma {:induction false} OnesOp(op: BitOp, p: bool, q: bool, n: nat)
    ensures WordOp(op, if p then Pow2(n) - 1 else 0, if q then Pow2(n) - 1 else 0, n)
            == if Apply(op, p, q) then Pow2(n) - 1 else 0
  {
    hide WordOp, Pow2;
    if n == 0 {
      NoPower(1);
      NoWord(op);
    } else {
      Ones(n);
      OnesOp(op, p, q, n - 1);
      WordOpStep(op, if p then Pow2(n) - 1 else 0, if q then Pow2(n) - 1 else 0, n);
    }
  }

  lemma NoWord(op: BitOp)
    ensures WordOp(op, 0, 0, 0) == 0
  {
  }

  lemma Ones(n: nat)
    requires n > 0
    ensures Pow2(n) == 2 * Pow2(n - 1) && (Pow2(n) - 1) % 2 == 1 && (Pow2(n) - 1) / 2 == Pow2(n - 1) - 1
  {
    var p := Pow2(n - 1);
    hide Pow2;
    assert Pow2(n) == 2 * p by { Doubled(n); }
    OddHalf(p);
  }

  lemma Doubled(n: nat)
    requires n > 0
    ensures Pow2(n) == 2 * Pow2(n - 1)
  {
  }

  lemma OddHalf(p: nat)
    requires p > 0
    ensures (2 * p - 1) % 2 == 1 && (2 * p - 1) / 2 == p - 1
  {
  }

  lemma WordOpStep(op: BitOp, x: int, y: int, n: nat)
    requires n > 0
    ensures WordOp(op, x, y, n) == (if Apply(op, x % 2 == 1, y % 2 == 1) then 1 else 0) + 2 * WordOp(op, x / 2, y / 2, n - 1)
  {
  }

  lemma SignLimbOp(op: BitOp, x: int, y: int)
    requires IsSignWord(x) && IsSignWord(y)
    ensures LimbOp(op, Low32(x), Low32(y)) == if SignWordOp(op, x, y) == -1 then BASE - 1 else 0
  {
    hide WordOp, Pow2;
    Pow2Limb();
    OnesOp(op, x == -1, y == -1, 32);
  }

  /** One limb above both magnitudes is enough: it is all sign, so its top bit is the sign of the result. */
  lemma {:induction false} TopLimb(op: BitOp, x: int, y: int, n: nat)
    requires IsSignWord(Tail(x, n)) && IsSignWord(Tail(y, n))
    ensures OpLimbs(op, x, y, n + 1)[n] == if SignWordOp(op, Tail(x, n), Tail(y, n)) == -1 then BASE - 1 else 0
    decreases n
  {
    hide LimbOp;
    if n == 0 {
      SignLimbOp(op, x, y);
    } else {
      TopLimb(op, High32(x), High32(y), n - 1);
    }
  }

  function MagnitudeAbove(x: BigInt, i: nat): nat {
    if i <= |x.limbs| then Val(x.limbs[i..]) else 0
  }

  /** The part of x still to be emitted by the limb-at-a-time negation when limb i is next. */
  function Remaining(x: BigInt, i: nat, carry: int): int {
    if x.sign < 0 then carry - 1 - MagnitudeAbove(x, i) else MagnitudeAbove(x, i)
  }

  lemma MagnitudeStep(x: BigInt, i: nat)
    ensures MagnitudeAbove(x, i) == LimbAt(x.limbs, i) + BASE * MagnitudeAbove(x, i + 1)
  {
    if i < |x.limbs| {
      assert x.limbs[i..][1..] == x.limbs[i + 1..];
    }
  }

  method TwosComplementLimb(x: BigInt, i: nat, carry: u64) returns (limb: u32, next: u64)
    requires carry <= 1
    ensures next <= 1
    ensures Low32(Remaining(x, i, carry)) == limb
    ensures High32(Remaining(x, i, carry)) == Remaining(x, i + 1, next)
  {
    hide MagnitudeAbove;
    MagnitudeStep(x, i);
    limb := LimbAt(x.limbs, i);
    if x.sign >= 0 {
      next := carry;
    } else {
      var sum: u64 := BASE - 1 - limb as int + carry;
      limb, next := Low32(sum), High32(sum);
    }
    LowHigh(limb, Remaining(x, i + 1, next));
  }

  lemma {:induction false} NegateStep(done: seq<u32>, orig: seq<u32>, carry: int, limb: u32, next: int)
    requires |done| < |orig|
    requires Val(done) + Val(orig[..|done|]) + Shift(carry, |done|) == Shift(1, |done|)
    requires BASE - 1 - orig[|done|] as int + carry == limb + BASE * next
    ensures Val(done + [limb]) + Val(orig[..|done| + 1]) + Shift(next, |done| + 1) == Shift(1, |done| + 1)
  {
    hide Val, Shift;
    var i := |done|;
    ValPrefix(orig, i);
    ValSnoc(done, limb);
    CarryStep(BASE - 1 - orig[i] as int, 0, carry, limb, next, i);
    ShiftAdd(orig[i], BASE - 1 - orig[i] as int, i);
    ShiftAdd(BASE - 1, 1, i);
    ShiftBase(1, i);
  }

  /** Complement and add one, limb by limb; a carry is left over only when the limbs were all zero. */
  method NegateLimbs(limbs: array<u32>) returns (carry: u64)
    modifies limbs
    ensures carry <= 1
    ensures Val(limbs[..]) + old(Val(limbs[..])) + Shift(carry, limbs.Length) == Shift(1, limbs.Length)
  {
    hide Val, Shift, Low32, High32;
    var n := limbs.Length;
    ghost var orig := limbs[..];
    assert orig[..0] == [];
    ValNone();
    carry := 1;
    ghost var done: seq<u32> := [];
    var i := 0;
    while i < n
      invariant i <= n && |done| == i && carry <= 1
      invariant limbs[i..] == orig[i..] && limbs[..i] == done
      invariant Val(done) + Val(orig[..i]) + Shift(carry, i) == Shift(1, i)
    {
      assert limbs[i] == limbs[i..][0] == orig[i];
      var sum: u64 := BASE - 1 - limbs[i] as int + carry;
      NegateStep(done, orig, carry, Low32(sum), High32(sum));
      limbs[i] := Low32(sum);
      done := done + [Low32(sum)];
      carry := High32(sum);
      i := i + 1;
    }
    assert orig[..n] == orig && limbs[..] == done;
  }

  /** Reads an array of limbs as a signed two's complement number, negating it in place when it is negative. */
  method FromTwosComplement(limbs: array<u32>) returns (r: BigInt)
    modifies limbs
    ensures Valid(r)
    ensures limbs.Length == 0 ==> Value(r) == 0
    ensures limbs.Length > 0 ==>
      Value(r) == old(Val(limbs[..])) + Shift(if old(limbs[limbs.Length - 1]) >= 0x8000_0000 then -1 else 0, limbs.Length)
  {
    if limbs.Length == 0 {
      return ZERO;
    }
    hide Val, Shift, Value;
    var n := limbs.Length;
    ghost var orig := limbs[..];
    ShiftAdd(1, -1, n);
    if limbs[n - 1] < 0x8000_0000 {
      r := FromLimbs(1, limbs[..]);
      ShiftNothing(n);
      return;
    }
    TrimmedLower(orig);
    UnitMono(0, n - 1);
    var carry := NegateLimbs(limbs);
    r := FromLimbs(-1, limbs[..]);
  }

  lemma {:induction false} ShiftNothing(n: nat)
    ensures Shift(0, n) == 0
  {
    if n > 0 { ShiftNothing(n - 1); }
  }

  lemma InRange(x: BigInt, n: nat)
    requires Valid(x) && |x.limbs| <= n
    ensures -Shift(1, n) <= Value(x) < Shift(1, n)
  {
    SignOfValue(x);
    ValBound(x.limbs);
    UnitMono(|x.limbs|, n);
  }

  lemma RemainingStart(x: BigInt)
    requires Valid(x)
    ensures Remaining(x, 0, if x.sign < 0 then 1 else 0) == Value(x)
  {
    SignOfValue(x);
    assert x.limbs[0..] == x.limbs;
  }

  /** The limb loop shared by and, or and xor. */
  method OpLoop(a: BigInt, b: BigInt, op: BitOp, n: nat) returns (out: array<u32>)
    requires Valid(a) && Valid(b)
    ensures fresh(out) && out.Length == n
    ensures out[..] == OpLimbs(op, Value(a), Value(b), n)
  {
    hide Val, Value, Remaining, LimbOp, OpLimbs, Low32, High32;
    ghost var goal := OpLimbs(op, Value(a), Value(b), n);
    out := new u32[n](_ => 0);
    var carryA: u64 := if a.sign < 0 then 1 else 0;
    var carryB: u64 := if b.sign < 0 then 1 else 0;
    RemainingStart(a);
    RemainingStart(b);
    var i := 0;
    assert goal[0..] == goal;
    while i < n
      invariant i <= n && carryA <= 1 && carryB <= 1
      invariant forall k :: 0 <= k < i ==> out[k] == goal[k]
      invariant goal[i..] == OpLimbs(op, Remaining(a, i, carryA), Remaining(b, i, carryB), n - i)
    {
      var la, nextA := TwosComplementLimb(a, i, carryA);
      var lb, nextB := TwosComplementLimb(b, i, carryB);
      OpStep(op, Remaining(a, i, carryA), Remaining(b, i, carryB), n - i);
      assert goal[i] == goal[i..][0] && goal[i + 1..] == goal[i..][1..];
      out[i] := LimbOp(op, la, lb);
      carryA, carryB := nextA, nextB;
      i := i + 1;
    }
    assert out[..] == goal;
  }

  lemma OpStep(op: BitOp, x: int, y: int, n: nat)
    requires n > 0
    ensures var s := OpLimbs(op, x, y, n);
      s[0] == LimbOp(op, Low32(x), Low32(y)) && s[1..] == OpLimbs(op, High32(x), High32(y), n - 1)
  {
    hide LimbOp;
  }

  /** What the limbs of the loop mean once sign-extended. */
  lemma OpResult(a: BigInt, b: BigInt, op: BitOp, m: nat, z: int)
    requires Valid(a) && Valid(b) && |a.limbs| <= m && |b.limbs| <= m
    requires var s := OpLimbs(op, Value(a), Value(b), m + 1);
             z == Val(s) + Shift(if s[m] >= 0x8000_0000 then -1 else 0, m + 1)
    ensures forall k: nat :: Bit(z, k) == Apply(op, Bit(Value(a), k), Bit(Value(b), k))
  {
    hide Val, Value, LimbOp, Tail, OpLimbs, Shift, Bit;
    var x, y := Value(a), Value(b);
    InRange(a, m);
    InRange(b, m);
    TailIsSign(x, m);
    TailIsSign(y, m);
    TopLimb(op, x, y, m);
    TailStep(x, m);
    TailStep(y, m);
    forall k: nat
      ensures Bit(z, k) == Apply(op, Bit(x, k), Bit(y, k))
    {
      OpBits(op, x, y, m + 1, k);
    }
  }

  /** z is made of the bits of x and y, by conjunction, disjunction or difference. */
  ghost predicate IsBitwise(op: BitOp, x: int, y: int, z: int) {
    && (op.And? ==> forall k: nat :: TwosBit(z, k) <==> TwosBit(x, k) && TwosBit(y, k))
    && (op.Or? ==> forall k: nat :: TwosBit(z, k) <==> TwosBit(x, k) || TwosBit(y, k))
    && (op.Xor? ==> forall k: nat :: TwosBit(z, k) <==> TwosBit(x, k) != TwosBit(y, k))
  }

  lemma BitsGive(op: BitOp, x: int, y: int, z: int)
    requires forall k: nat :: Bit(z, k) == Apply(op, Bit(x, k), Bit(y, k))
    ensures IsBitwise(op, x, y, z)
  {
    hide Bit, TwosBit;
    forall k: nat ensures TwosBit(z, k) == Apply(op, TwosBit(x, k), TwosBit(y, k)) {
      BitIs(x, k);
      BitIs(y, k);
      BitIs(z, k);
    }
  }

  /** bigint_bitwise_binary_op: every bit of the result is the operation on the operands' bits. */
  method BitwiseOp(a: BigInt, b: BigInt, op: BitOp) returns (r: BigInt)
    requires Valid(a) && Valid(b)
    ensures Valid(r)
    ensures IsBitwise(op, Value(a), Value(b), Value(r))
  {
    hide Val, Value, OpLimbs, Bit, IsBitwise;
    var m := if |a.limbs| > |b.limbs| then |a.limbs| else |b.limbs|;
    var out := OpLoop(a, b, op, m + 1);
    r := FromTwosComplement(out);
    OpResult(a, b, op, m, Value(r));
    BitsGive(op, Value(a), Value(b), Value(r));
  }

  lemma {:induction false} SignedDigits(x: int, n: nat)
    ensures x == Val(Digits(x, n)) + Shift(Tail(x, n), n)
    decreases n
  {
    if n > 0 {
      SignedDigits(High32(x), n - 1);
      ValCons(Low32(x), Digits(High32(x), n - 1));
    }
  }

  lemma {:induction false} SignDigit(x: int, n: nat)
    requires IsSignWord(Tail(x, n))
    ensures Digits(x, n + 1)[n] == if Tail(x, n) == -1 then BASE - 1 else 0
    decreases n
  {
    if n > 0 { SignDigit(High32(x), n - 1); }
  }

  lemma NotSplit(x: int)
    ensures Low32(-x - 1) == BASE - 1 - Low32(x) as int && High32(-x - 1) == -High32(x) - 1
  {
    LowHigh(BASE - 1 - Low32(x) as int, -High32(x) - 1);
  }

  /** One more limb of the complement. */
  lemma NotStep(x: int, n: nat)
    requires n > 0
    ensures Digits(-x - 1, n)[0] == BASE - 1 - Low32(x) as int && Digits(-x - 1, n)[1..] == Digits(-High32(x) - 1, n - 1)
  {
    NotSplit(x);
  }

  /** The limb loop of the complement. */
  method NotLoop(a: BigInt, n: nat) returns (out: array<u32>)
    requires Valid(a)
    ensures fresh(out) && out.Length == n && out[..] == Digits(-Value(a) - 1, n)
  {
    hide Val, Value, Remaining, Tail, Digits, Low32, High32;
    out := new u32[n](_ => 0);
    var carry: u64 := if a.sign < 0 then 1 else 0;
    RemainingStart(a);
    ghost var goal := Digits(-Value(a) - 1, n);
    var i := 0;
    assert goal[0..] == goal;
    while i < n
      invariant i <= n && carry <= 1
      invariant forall k :: 0 <= k < i ==> out[k] == goal[k]
      invariant goal[i..] == Digits(-Remaining(a, i, carry) - 1, n - i)
    {
      var limb, next := TwosComplementLimb(a, i, carry);
      NotStep(Remaining(a, i, carry), n - i);
      assert goal[i] == goal[i..][0] && goal[i + 1..] == goal[i..][1..];
      out[i] := BASE - 1 - limb as int;
      carry := next;
      i := i + 1;
    }
    assert out[..] == goal;
  }

  method BitNot(a: BigInt) returns (r: BigInt)
    requires Valid(a)
    ensures Valid(r)
    ensures Value(r) == -Value(a) - 1
  {
    hide Val, Value, Remaining, Tail;
    var n := |a.limbs| + 1;
    ghost var y := -Value(a) - 1;
    var out := NotLoop(a, n);
    InRange(a, n - 1);
    TailIsSign(y, n - 1);
    SignDigit(y, n - 1);
    TailStep(y, n - 1);
    SignedDigits(y, n);
    r := FromTwosComplement(out);
  }
}
