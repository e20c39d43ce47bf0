/** Decimal and hexadecimal text of src/bigint.c: printing and parsing by chunks and limbs. */
module BigIntText {
  import opened Words
  import opened IntFacts
  import opened Limbs
  import opened LimbArithmetic
  import opened BigInt
  import opened Numerals
  import opened Division

  const DEC_BASE: int := 1_000_000_000
  const DEC_DIGITS: int := 9

  lemma DecBaseIsPow()
    ensures Pow(10, 9) == DEC_BASE
  {
    assert Pow(10, 3) == 1000;
    assert Pow(10, 6) == 1_000_000;
  }

  // ---------------------------------------------------------------------------------------------
  // Printing
  // ---------------------------------------------------------------------------------------------

  /** Base 10^9 digits, least significant first, with a part above them. */
  function ChunkValue(chunks: seq<u32>, above: nat): nat {
    if |chunks| == 0 then above else chunks[0] + DEC_BASE * ChunkValue(chunks[1..], above)
  }

  lemma {:induction false} ChunkSnoc(chunks: seq<u32>, c: u32, above: nat)
    ensures ChunkValue(chunks + [c], above) == ChunkValue(chunks, c + DEC_BASE * above)
  {
    if |chunks| > 0 {
      assert (chunks + [c])[1..] == chunks[1..] + [c];
      ChunkSnoc(chunks[1..], c, above);
    } else {
      assert (chunks + [c])[1..] == [];
    }
  }

  predicate IsChunks(chunks: seq<u32>) {
    |chunks| > 0 && chunks[|chunks| - 1] != 0 && forall i :: 0 <= i < |chunks| ==> chunks[i] < DEC_BASE
  }

  /** The repeated division by 10^9 shared by obj_bigint_to_string and obj_bigint_decimal_digits. */
  method ToChunks(limbs: seq<u32>) returns (chunks: seq<u32>)
    requires Trimmed(limbs) && |limbs| > 0
    ensures IsChunks(chunks)
    ensures ChunkValue(chunks, 0) == Val(limbs)
  {
    var work := new u32[|limbs|](i requires 0 <= i < |limbs| => limbs[i]);
    var count := |limbs|;
    assert work[..count] == limbs;
    TrimmedLower(limbs);
    chunks := [];
    hide Val, ChunkValue;
    ChunkNone(Val(limbs));
    while count > 0
      invariant count <= work.Length
      invariant Trimmed(work[..count])
      invariant forall i :: 0 <= i < |chunks| ==> chunks[i] < DEC_BASE
      invariant ChunkValue(chunks, Val(work[..count])) == Val(limbs)
      invariant count == 0 ==> |chunks| > 0 && chunks[|chunks| - 1] != 0
      decreases Val(work[..count])
    {
      ghost var before := Val(work[..count]);
      TrimmedLower(work[..count]);
      var rem: u32;
      count, rem := DivmodSmallInPlace(work, count, DEC_BASE);
      ghost var after := Val(work[..count]);
      assert before == rem + DEC_BASE * after;
      if count == 0 { ValNone(); assert work[..count] == []; }
      ChunkSnoc(chunks, rem, after);
      chunks := chunks + [rem];
    }
    assert work[..count] == [];
    ValNone();
  }

  lemma ChunkNone(above: nat)
    ensures ChunkValue([], above) == above
  {
  }

  /** Leading chunk as %u, the others as %09u. */
  function Render(chunks: seq<u32>): string
    requires |chunks| > 0
  {
    if |chunks| == 1 then Num(chunks[0], 10) else Render(chunks[1..]) + Padded(chunks[0], DEC_DIGITS, 10)
  }

  lemma {:induction false} RenderIsNum(chunks: seq<u32>)
    requires IsChunks(chunks)
    ensures ChunkValue(chunks, 0) > 0
    ensures Render(chunks) == Num(ChunkValue(chunks, 0), 10)
  {
    hide Num, Padded, Pow;
    if |chunks| == 1 {
      assert ChunkValue(chunks[1..], 0) == 0;
    } else {
      RenderIsNum(chunks[1..]);
      DecBaseIsPow();
      NumSplit(ChunkValue(chunks[1..], 0), chunks[0], 9, 10);
    }
  }

  lemma RenderStep(chunks: seq<u32>, i: nat)
    requires i < |chunks|
    ensures i == |chunks| - 1 ==> Render(chunks[i..]) == Num(chunks[i], 10)
    ensures i < |chunks| - 1 ==> Render(chunks[i..]) == Render(chunks[i + 1..]) + Padded(chunks[i], DEC_DIGITS, 10)
  {
    assert chunks[i..][1..] == chunks[i + 1..];
  }

  /** The two printf loops, writing after a prefix. */
  method WriteChunks(prefix: string, chunks: seq<u32>) returns (out: string)
    requires |chunks| > 0
    ensures out == prefix + Render(chunks)
  {
    hide Num, Padded, Render;
    var i := |chunks| - 1;
    RenderStep(chunks, i);
    out := prefix + Num(chunks[i], 10);
    while i > 0
      invariant 0 <= i < |chunks|
      invariant out == prefix + Render(chunks[i..])
    {
      RenderStep(chunks, i - 1);
      out := out + Padded(chunks[i - 1], DEC_DIGITS, 10);
      i := i - 1;
    }
    assert chunks[0..] == chunks;
  }

  method ToText(x: BigInt) returns (out: string)
    requires Valid(x)
    ensures out == DecimalText(Value(x))
  {
    SignOfValue(x);
    if |x.limbs| == 0 {
      return "0";
    }
    hide Val, Value, Num, Padded, ChunkValue, Render;
    var chunks := ToChunks(x.limbs);
    RenderIsNum(chunks);
    out := WriteChunks(if x.sign < 0 then "-" else "", chunks);
  }

  /** bigint_digits_u32. */
  function DigitsU32(value: u32): nat {
    if value >= 100000000 then 9
    else if value >= 10000000 then 8
    else if value >= 1000000 then 7
    else if value >= 100000 then 6
    else if value >= 10000 then 5
    else if value >= 1000 then 4
    else if value >= 100 then 3
    else if value >= 10 then 2
    else 1
  }

  lemma DigitsU32IsLength(value: u32)
    requires value < DEC_BASE
    ensures DigitsU32(value) == |Num(value, 10)|
  {
    assert Pow(10, 1) == 10 && Pow(10, 2) == 100 && Pow(10, 3) == 1000 && Pow(10, 4) == 10000;
    assert Pow(10, 5) == 100000 && Pow(10, 6) == 1000000 && Pow(10, 7) == 10000000 && Pow(10, 8) == 100000000;
    DecBaseIsPow();
    hide Num, Padded;
    PaddedIsNum(value, DigitsU32(value), 10);
  }

  lemma {:induction false} RenderLength(chunks: seq<u32>)
    requires |chunks| > 0
    ensures |Render(chunks)| == (|chunks| - 1) * DEC_DIGITS + |Num(chunks[|chunks| - 1], 10)|
  {
    hide Num, Padded;
    if |chunks| > 1 { RenderLength(chunks[1..]); }
  }

  /** The digit count, computed without printing, is the length of the printed magnitude. */
  method DecimalDigits(x: BigInt) returns (digits: nat)
    requires Valid(x)
    ensures digits == |Num(Abs(Value(x)), 10)|
  {
    SignOfValue(x);
    if |x.limbs| == 0 {
      return 1;
    }
    var chunks := ToChunks(x.limbs);
    hide Val, Value, Num, Padded, ChunkValue;
    RenderIsNum(chunks);
    RenderLength(chunks);
    DigitsU32IsLength(chunks[|chunks| - 1]);
    digits := (|chunks| - 1) * DEC_DIGITS + DigitsU32(chunks[|chunks| - 1]);
  }

  /** (x >> 4i) & 0xF. */
  function Nibble(x: nat, i: nat): (d: nat)
    ensures d < 16
    decreases i
  {
    if i == 0 then x % 16 else Nibble(x / 16, i - 1)
  }

  /** A word whose nibble k is its last one is below 16^k exactly when that nibble is zero. */
  lemma {:induction false} NibbleBound(x: nat, k: nat)
    requires x < Pow(16, k + 1)
    ensures Nibble(x, k) == 0 <==> x < Pow(16, k)
    decreases k
  {
    if k > 0 {
      assert x / 16 < Pow(16, k);
      NibbleBound(x / 16, k - 1);
    }
  }

  /** Nibbles k - 1 down to i, most significant first. */
  lemma {:induction false} PaddedNibble(x: nat, k: nat, i: nat)
    requires i < k
    ensures Padded(x, k, 16)[k - 1 - i] == DigitChar(Nibble(x, i))
    decreases k
  {
    if i > 0 { PaddedNibble(x / 16, k - 1, i - 1); }
  }

  method WriteNibbles(prefix: string, x: u32, k: nat) returns (out: string)
    ensures out == prefix + Padded(x, k, 16)
  {
    hide Padded, Nibble;
    out := prefix;
    var i := k;
    while i > 0
      invariant 0 <= i <= k
      invariant out == prefix + Padded(x, k, 16)[..k - i]
    {
      PaddedNibble(x, k, i - 1);
      out := out + [DigitChar(Nibble(x, i - 1))];
      i := i - 1;
    }
    assert Padded(x, k, 16)[..k] == Padded(x, k, 16);
  }

  lemma HexLimb()
    ensures Pow(16, 8) == BASE
  {
    assert Pow(16, 4) == 0x1_0000;
  }

  /** The width of the leading limb, lines 1089-1095. */
  method LeadingNibbles(ms: u32) returns (k: nat)
    requires ms > 0
    ensures k > 0 && Padded(ms, k, 16) == Num(ms, 16)
  {
    hide Padded, Num, Nibble, Pow;
    HexLimb();
    k := 8;
    while k > 1
      invariant 1 <= k <= 8 && ms < Pow(16, k)
    {
      NibbleBound(ms, k - 1);
      if Nibble(ms, k - 1) != 0 {
        break;
      }
      k := k - 1;
    }
    PaddedIsNum(ms, k, 16);
  }

  lemma {:induction false} HexSplit(limbs: seq<u32>, i: nat)
    requires Trimmed(limbs) && i + 1 < |limbs|
    ensures Num(Val(limbs[i..]), 16) == Num(Val(limbs[i + 1..]), 16) + Padded(limbs[i], 8, 16)
  {
    hide Num, Padded, Pow;
    assert limbs[i..] == [limbs[i]] + limbs[i + 1..];
    ValCons(limbs[i], limbs[i + 1..]);
    TrimmedLower(limbs[i + 1..]);
    HexLimb();
    NumSplit(Val(limbs[i + 1..]), limbs[i], 8, 16);
  }

  method WriteLimbs(prefix: string, limbs: seq<u32>) returns (out: string)
    requires Trimmed(limbs) && |limbs| > 0
    ensures out == prefix + Num(Val(limbs), 16)
  {
    hide Val, Num, Padded;
    var li := |limbs| - 1;
    var ms := limbs[li];
    var k := LeadingNibbles(ms);
    out := WriteNibbles(prefix, ms, k);
    assert limbs[li..] == [ms];
    ValOne(ms);
    while li > 0
      invariant 0 <= li < |limbs|
      invariant out == prefix + Num(Val(limbs[li..]), 16)
    {
      HexSplit(limbs, li - 1);
      out := WriteNibbles(out, limbs[li - 1], 8);
      li := li - 1;
    }
    assert limbs[0..] == limbs;
  }

  method ToHexText(x: BigInt) returns (out: string)
    requires Valid(x)
    ensures out == HexText(Value(x))
  {
    SignOfValue(x);
    if |x.limbs| == 0 {
      return "0x0";
    }
    hide Val, Value, Num;
    out := WriteLimbs(if x.sign < 0 then "-0x" else "0x", x.limbs);
  }

  // ---------------------------------------------------------------------------------------------
  // Parsing
  // ---------------------------------------------------------------------------------------------

  /** A C string: the terminating NUL is not part of it. */
  type CString = s: string | '\0' !in s

  function CharAt(s: string, i: nat): char {
    if i < |s| then s[i] else '\0'
  }

  predicate HasSign(s: string) {
    |s| > 0 && (s[0] == '-' || s[0] == '+')
  }

  function Body(s: string): string {
    if HasSign(s) then s[1..] else s
  }

  predicate HasHexPrefix(body: string) {
    |body| >= 2 && body[0] == '0' && (body[1] == 'x' || body[1] == 'X')
  }

  /** The strings the parser takes: an optional sign, then 0x and hexadecimal digits or decimal digits. */
  predicate Accepts(s: string) {
    var body := Body(s);
    if HasHexPrefix(body) then |body| > 2 && IsNumeral(body[2..], 16) else |body| > 0 && IsNumeral(body, 10)
  }

  function ParsedMagnitude(s: string): nat
    requires Accepts(s)
  {
    var body := Body(s);
    if HasHexPrefix(body) then NumValue(body[2..], 16) else NumValue(body, 10)
  }

  function ParsedValue(s: string): int
    requires Accepts(s)
  {
    if |s| > 0 && s[0] == '-' then -(ParsedMagnitude(s) as int) else ParsedMagnitude(s)
  }

  /** The digits of a base as characters, in either letter case. */
  predicate DigitText(s: string, b: nat) {
    s != "" && forall i :: 0 <= i < |s| ==>
      '0' <= s[i] <= '9' || (b == 16 && ('a' <= s[i] <= 'f' || 'A' <= s[i] <= 'F'))
  }

  lemma DigitTextIs(s: string, b: nat)
    requires b == 10 || b == 16
    ensures DigitText(s, b) <==> s != "" && IsNumeral(s, b)
  {
    forall c: char ensures IsDigit(c, b) <==> '0' <= c <= '9' || (b == 16 && ('a' <= c <= 'f' || 'A' <= c <= 'F')) {
      DigitsInOrder(c, c);
    }
  }

  /** A sign or none, a hexadecimal prefix or none, and digits. */
  predicate IsForm(sign: string, prefix: string, digits: string) {
    && sign in ["", "+", "-"] && prefix in ["", "0x", "0X"]
    && DigitText(digits, if prefix == "" then 10 else 16)
  }

  lemma BodyIs(sign: string, rest: string)
    requires sign in ["", "+", "-"] && rest != "" && rest[0] != '+' && rest[0] != '-'
    ensures var s := sign + rest; Body(s) == rest && s != "" && (s[0] == '-' <==> sign == "-")
  {
    var s := sign + rest;
    if sign == "" {
      assert s == rest;
    } else {
      assert s[0] == sign[0] && s[1..] == rest;
    }
  }

  lemma RestIs(prefix: string, digits: string)
    requires prefix in ["", "0x", "0X"] && DigitText(digits, if prefix == "" then 10 else 16)
    ensures var rest := prefix + digits;
      && rest != "" && rest[0] != '+' && rest[0] != '-' && (HasHexPrefix(rest) <==> prefix != "")
      && (if prefix == "" then rest == digits else |rest| > 2 && rest[2..] == digits)
  {
    var rest := prefix + digits;
    if prefix == "" {
      assert rest == digits;
    } else {
      assert rest[0] == '0' && rest[1] == prefix[1] && rest[2..] == digits;
    }
  }

  /** Every such text is accepted, and has the value of its digits with its sign. */
  lemma FormParses(sign: string, prefix: string, digits: string)
    requires IsForm(sign, prefix, digits)
    ensures var s := sign + prefix + digits; var b := if prefix == "" then 10 else 16;
      && IsNumeral(digits, b) && Accepts(s)
      && ParsedValue(s) == if sign == "-" then 0 - NumValue(digits, b) as int else NumValue(digits, b)
  {
    hide NumValue, Body, HasHexPrefix, DigitText, IsNumeral;
    DigitTextIs(digits, if prefix == "" then 10 else 16);
    RestIs(prefix, digits);
    BodyIs(sign, prefix + digits);
    assert sign + prefix + digits == sign + (prefix + digits);
    NotEmpty(digits, if prefix == "" then 10 else 16);
  }

  lemma NotEmpty(s: string, b: nat)
    requires DigitText(s, b)
    ensures s != ""
  {
  }

  /** And nothing else is accepted. */
  lemma AcceptedForm(s: string) returns (sign: string, prefix: string, digits: string)
    requires Accepts(s)
    ensures IsForm(sign, prefix, digits) && s == sign + prefix + digits
  {
    var body := Body(s);
    sign := if HasSign(s) then [s[0]] else "";
    assert s == sign + body;
    if HasHexPrefix(body) {
      prefix, digits := body[..2], body[2..];
      assert prefix == ['0', body[1]];
      assert body == prefix + digits;
      DigitTextIs(digits, 16);
    } else {
      prefix, digits := "", body;
      DigitTextIs(digits, 10);
    }
  }

  method ScanDigits(s: string, b: nat) returns (ok: bool)
    ensures ok <==> IsNumeral(s, b)
  {
    var c := 0;
    while c < |s|
      invariant c <= |s|
      invariant forall i :: 0 <= i < c ==> IsDigit(s[i], b)
    {
      if !IsDigit(s[c], b) {
        return false;
      }
      c := c + 1;
    }
    return true;
  }

  lemma DropZero(s: string, b: nat)
    requires IsBase(b) && IsNumeral(s, b) && |s| > 0 && s[0] == '0'
    ensures IsNumeral(s[1..], b) && NumValue(s[1..], b) == NumValue(s, b)
  {
    assert s == "0" + s[1..];
    NumValueConcat("0", s[1..], b);
    NumValueEmpty("0"[..0], b);
    assert NumValue("0", b) == 0;
  }

  method StripZeros(digits: string, b: nat) returns (r: string)
    requires IsBase(b) && IsNumeral(digits, b) && |digits| > 0
    ensures |r| > 0 && IsNumeral(r, b) && NumValue(r, b) == NumValue(digits, b)
    ensures |r| > 1 ==> r[0] != '0'
  {
    hide NumValue;
    r := digits;
    while r[0] == '0' && |r| > 1
      invariant |r| > 0 && IsNumeral(r, b) && NumValue(r, b) == NumValue(digits, b)
    {
      DropZero(r, b);
      r := r[1..];
    }
  }

  /** One chunk of at most nine decimal digits, or eight hexadecimal ones. */
  method ReadChunk(digits: string, b: nat, limit: nat) returns (chunk: u32)
    requires IsBase(b) && IsNumeral(digits, b)
    requires Pow(b, |digits|) <= limit <= BASE
    ensures chunk == NumValue(digits, b)
  {
    hide NumValue, Pow, DigitValue;
    chunk := 0;
    var i := 0;
    assert digits[..0] == [];
    NumValueEmpty(digits[..0], b);
    while i < |digits|
      invariant i <= |digits|
      invariant chunk == NumValue(digits[..i], b)
    {
      assert digits[..i + 1] == digits[..i] + [digits[i]];
      NumValueSnoc(digits[..i], digits[i], b);
      PrefixBound(digits, i + 1, b);
      chunk := chunk * b + DigitValue(digits[i]);
      i := i + 1;
    }
    assert digits[..i] == digits;
  }

  lemma PrefixBound(s: string, i: nat, b: nat)
    requires IsBase(b) && IsNumeral(s, b) && i <= |s|
    ensures IsNumeral(s[..i], b) && NumValue(s[..i], b) < Pow(b, |s|)
  {
    hide NumValue;
    NumValueBound(s[..i], b);
    PowMono(b, i, |s|);
  }

  lemma {:induction false} PowMono(b: nat, i: nat, k: nat)
    requires IsBase(b) && i <= k
    ensures Pow(b, i) <= Pow(b, k)
  {
    if i < k {
      PowMono(b, i, k - 1);
      MulMono(1, b, Pow(b, k - 1));
    }
  }

  /** Lines 709-725: nine digits at a time, a shorter chunk first. */
  method ParseDecimal(p: string) returns (limbs: seq<u32>)
    requires IsNumeral(p, 10) && |p| > 0
    ensures Trimmed(limbs) && Val(limbs) == NumValue(p, 10)
  {
    hide Val, NumValue, Pow, WholeGroups;
    var first := |p| % DEC_DIGITS;
    if first == 0 { first := DEC_DIGITS; }
    FirstGroup(|p|, first);
    limbs := [];
    var offset := 0;
    assert p[..0] == [];
    ValNone();
    NumValueEmpty(p[..0], 10);
    while offset < |p|
      invariant offset == 0 || (offset <= |p| && WholeGroups(|p| - offset))
      invariant offset == 0 ==> limbs == []
      invariant Trimmed(limbs) && Val(limbs) == NumValue(p[..offset], 10)
    {
      if offset > 0 { NextGroup(|p| - offset); }
      var len := if offset == 0 then first else DEC_DIGITS;
      var group := p[offset..offset + len];
      DecBaseIsPow();
      PowMono(10, len, 9);
      var chunk := ReadChunk(group, 10, DEC_BASE);
      AppendGroup(p, offset, len);
      limbs := MulAddSmall(limbs, DEC_BASE, chunk);
      offset := offset + len;
    }
    assert p[..offset] == p;
  }

  predicate WholeGroups(n: nat) { n % DEC_DIGITS == 0 }

  lemma FirstGroup(n: nat, first: nat)
    requires n > 0 && first == if n % DEC_DIGITS == 0 then DEC_DIGITS else n % DEC_DIGITS
    ensures 0 < first <= n && first <= DEC_DIGITS && WholeGroups(n - first)
  {
  }

  lemma NextGroup(n: nat)
    requires n > 0 && WholeGroups(n)
    ensures n >= DEC_DIGITS && WholeGroups(n - DEC_DIGITS)
  {
  }

  /** A group of digits extends the value read so far; the first group may be short because nothing precedes it. */
  lemma AppendGroup(p: string, offset: nat, len: nat)
    requires IsNumeral(p, 10) && offset + len <= |p| && (offset == 0 || len == DEC_DIGITS)
    ensures NumValue(p[..offset + len], 10)
            == NumValue(p[..offset], 10) * DEC_BASE + NumValue(p[offset..offset + len], 10)
  {
    hide NumValue, Pow;
    assert p[..offset + len] == p[..offset] + p[offset..offset + len];
    NumValueConcat(p[..offset], p[offset..offset + len], 10);
    DecBaseIsPow();
    if offset == 0 { NumValueEmpty(p[..offset], 10); }
  }

  lemma {:induction false} HexGroups(s: string, c: nat)
    requires IsNumeral(s, 16) && 8 * c <= |s|
    ensures var cut := |s| - 8 * c;
            NumValue(s, 16) == Shift(NumValue(s[..cut], 16), c) + NumValue(s[cut..], 16)
  {
    hide NumValue;
    var cut := |s| - 8 * c;
    assert s == s[..cut] + s[cut..];
    NumValueConcat(s[..cut], s[cut..], 16);
    HexPow(c);
    ShiftMul(1, NumValue(s[..cut], 16), c);
  }

  lemma {:induction false} HexPow(c: nat)
    ensures Pow(16, 8 * c) == Shift(1, c)
  {
    hide Pow;
    if c == 0 {
      PowZero(16);
    } else {
      HexPow(c - 1);
      var k := 8 * c;
      TwoDigits(k);
      TwoDigits(k - 2);
      TwoDigits(k - 4);
      TwoDigits(k - 6);
    }
  }

  lemma TwoDigits(k: nat)
    requires k >= 2
    ensures Pow(16, k) == 0x100 * Pow(16, k - 2)
  {
    hide Pow;
    PowStep(16, k);
    PowStep(16, k - 1);
  }

  /** Lines 664-678: eight digits to a limb, from the right. */
  method ParseHex(p: string) returns (limbs: seq<u32>)
    requires IsNumeral(p, 16) && |p| > 0 && p[0] != '0'
    ensures Trimmed(limbs) && Val(limbs) == NumValue(p, 16)
  {
    var pos := |p|;
    limbs := [];
    assert p[pos..] == [];
    ValNone();
    NumValueEmpty(p[pos..], 16);
    hide Val, NumValue, Pow;
    while pos > 0
      invariant 0 <= pos <= |p|
      invariant pos > 0 ==> pos == |p| - 8 * |limbs|
      invariant pos == 0 ==> Trimmed(limbs)
      invariant Val(limbs) == NumValue(p[pos..], 16)
    {
      var start := if pos >= 8 then pos - 8 else 0;
      var group := p[start..pos];
      HexLimb();
      PowMono(16, |group|, 8);
      var limb := ReadChunk(group, 16, BASE);
      ghost var tail := p[start..];
      assert tail[..|tail| - 8 * |limbs|] == group && tail[|tail| - 8 * |limbs|..] == p[pos..];
      HexGroups(tail, |limbs|);
      ValSnoc(limbs, limb);
      if start == 0 { LeadingDigit(group, 16); }
      limbs := limbs + [limb];
      pos := start;
    }
    assert p[pos..] == p;
  }

  lemma LeadingDigit(s: string, b: nat)
    requires IsBase(b) && IsNumeral(s, b) && |s| > 0 && s[0] != '0'
    ensures NumValue(s, b) > 0
  {
    var d := [s[0]];
    assert s == d + s[1..];
    NumValueConcat(d, s[1..], b);
    assert NumValue(d, b) == DigitValue(s[0]) by { NumValueEmpty(d[..0], b); }
    MulMono(1, NumValue(d, b), Pow(b, |s| - 1));
  }

  /** The digits after sign and prefix: a lone zero is special, the rest goes to the base's loop. */
  method ParseMagnitude(digits: string, b: nat) returns (limbs: seq<u32>)
    requires b == 10 || b == 16
    requires IsNumeral(digits, b) && |digits| > 0
    ensures Trimmed(limbs) && Val(limbs) == NumValue(digits, b)
  {
    var p := StripZeros(digits, b);
    if p[0] == '0' {
      assert p == "0";
      DropZero(p, b);
      NumValueEmpty(p[1..], b);
      return [];
    }
    if b == 16 {
      limbs := ParseHex(p);
    } else {
      limbs := ParseDecimal(p);
    }
  }

  method ParseString(str: CString) returns (ok: bool, sign: int, limbs: seq<u32>)
    ensures ok <==> Accepts(str)
    ensures ok ==> Valid(BigInt(sign, limbs)) && Value(BigInt(sign, limbs)) == ParsedValue(str)
  {
    var p := 0;
    sign, limbs := 1, [];
    if CharAt(str, p) == '-' {
      sign, p := -1, 1;
    } else if CharAt(str, p) == '+' {
      p := 1;
    }
    assert str[p..] == Body(str);
    hide Val, NumValue;
    if CharAt(str, p) == '\0' {
      return false, 0, [];
    }
    if CharAt(str, p) == '0' && (CharAt(str, p + 1) == 'x' || CharAt(str, p + 1) == 'X') {
      assert HasHexPrefix(Body(str));
      if CharAt(str, p + 2) == '\0' {
        return false, 0, [];
      }
      var digits := str[p + 2..];
      assert digits == Body(str)[2..];
      ok := ScanDigits(digits, 16);
      if !ok {
        return;
      }
      limbs := ParseMagnitude(digits, 16);
    } else {
      ok := ScanDigits(str[p..], 10);
      if !ok {
        return;
      }
      limbs := ParseMagnitude(str[p..], 10);
    }
    if |limbs| == 0 {
      ValNone();
      sign := 0;
    }
    SignOfValue(BigInt(sign, limbs));
  }

  method TryFromString(str: CString) returns (ok: bool, r: BigInt)
    ensures ok <==> Accepts(str)
    ensures Valid(r)
    ensures Value(r) == if ok then ParsedValue(str) else 0
  {
    var sign, limbs;
    ok, sign, limbs := ParseString(str);
    if !ok {
      return false, ZERO;
    }
    SignOfValue(BigInt(sign, limbs));
    r := FromLimbs(sign, limbs);
  }

  // ---------------------------------------------------------------------------------------------
  // Round trips
  // ---------------------------------------------------------------------------------------------

  lemma NumIsPlain(n: nat, b: nat)
    requires IsBase(b)
    ensures IsNumeral(Num(n, b), b)
    ensures var s := Num(n, b); !HasSign(s) && (b == 10 ==> !HasHexPrefix(s))
  {
    ReadNum(n, b);
    var s := Num(n, b);
    assert IsDigit(s[0], b);
    if |s| > 1 { assert IsDigit(s[1], b); }
  }

  /** Parsing what was printed gives the number back, in either base. */
  lemma ParsePrinted(v: int)
    ensures Accepts(DecimalText(v)) && ParsedValue(DecimalText(v)) == v
    ensures Accepts(HexText(v)) && ParsedValue(HexText(v)) == v
  {
    hide Num, NumValue;
    var n := Abs(v);
    NumIsPlain(n, 10);
    ReadNum(n, 10);
    ReadNum(n, 16);
    var d, h := Num(n, 10), Num(n, 16);
    assert ("-" + d)[1..] == d;
    assert ("-0x" + h)[1..] == "0x" + h && ("0x" + h)[2..] == h;
  }

  /** The decimal strings that are the text of some integer. */
  predicate IsCanonicalText(s: string) {
    var m := if |s| > 0 && s[0] == '-' then s[1..] else s;
    |m| > 0 && IsNumeral(m, 10) && (m[0] == '0' ==> s == "0")
  }

  /** The hexadecimal ones. */
  predicate IsCanonicalHex(s: string) {
    var t := if |s| > 0 && s[0] == '-' then s[1..] else s;
    var m := if |t| > 2 then t[2..] else "";
    t[..|t| - |m|] == "0x" && |m| > 0 && IsPrinted(m) && (m[0] == '0' ==> s == "0x0")
  }

  lemma DecimalDigit(c: char)
    requires IsDigit(c, 10)
    ensures c == DigitChar(DigitValue(c))
  {
  }

  /** Printing what was parsed gives the string back exactly when it was canonical, in either base. */
  lemma PrintParsed(s: string)
    requires Accepts(s)
    ensures DecimalText(ParsedValue(s)) == s <==> IsCanonicalText(s)
    ensures HexText(ParsedValue(s)) == s <==> IsCanonicalHex(s)
  {
    hide Accepts, ParsedValue, IsCanonicalText, IsCanonicalHex, Num;
    if IsCanonicalText(s) {
      PrintCanonical(s);
    } else {
      TextIsCanonical(ParsedValue(s));
    }
    if IsCanonicalHex(s) {
      PrintCanonicalHex(s);
    } else {
      HexIsCanonical(ParsedValue(s));
    }
  }

  lemma PrintCanonicalHex(s: string)
    requires Accepts(s) && IsCanonicalHex(s)
    ensures HexText(ParsedValue(s)) == s
  {
    hide Num, NumValue, DigitChar;
    var t := if s[0] == '-' then s[1..] else s;
    var m := t[2..];
    assert t == "0x" + m && t == Body(s);
    WriteValue(m, 16);
    if s[0] == '-' { assert s == "-" + t && "-" + ("0x" + m) == "-0x" + m; }
  }

  lemma HexIsCanonical(v: int)
    ensures IsCanonicalHex(HexText(v))
  {
    hide Num;
    var m := Num(Abs(v), 16);
    NumIsPrinted(Abs(v), 16);
    NumLeads(Abs(v), 16);
    assert ("-0x" + m)[1..] == "0x" + m && ("0x" + m)[2..] == m && ("0x" + m)[..2] == "0x";
  }

  lemma PrintCanonical(s: string)
    requires Accepts(s) && IsCanonicalText(s)
    ensures DecimalText(ParsedValue(s)) == s
  {
    hide Num, NumValue, DigitChar;
    var m := if s[0] == '-' then s[1..] else s;
    forall i | 0 <= i < |m| ensures m[i] == DigitChar(DigitValue(m[i])) {
      DecimalDigit(m[i]);
    }
    assert IsDigit(m[0], 10);
    if |m| > 1 { assert IsDigit(m[1], 10); }
    WriteValue(m, 10);
    if s[0] == '-' { assert s == "-" + m; }
  }

  lemma TextIsCanonical(v: int)
    ensures IsCanonicalText(DecimalText(v))
  {
    hide Num;
    NumIsPlain(Abs(v), 10);
    NumLeads(Abs(v), 10);
    assert ("-" + Num(Abs(v), 10))[1..] == Num(Abs(v), 10);
  }
}
