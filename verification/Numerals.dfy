/** Decimal and hexadecimal numerals: the canonical text of a number and the value of a digit string. */
module Numerals {
  import opened IntFacts

  /** The digit alphabet of both printers; hexadecimal digits are lower case. */
  function DigitChar(d: nat): (c: char)
    requires d < 16
    ensures c != '\0' && c != '-' && c != '+' && c != 'x' && c != 'X'
  {
    if d < 10 then '0' + d as char else 'a' + (d - 10) as char
  }

  /** bigint_hex_digit_value: -1 outside the alphabet, either case accepted. */
  function DigitValue(c: char): (d: int)
    ensures -1 <= d < 16
  {
    if '0' <= c <= '9' then c as int - '0' as int
    else if 'a' <= c <= 'f' then c as int - 'a' as int + 10
    else if 'A' <= c <= 'F' then c as int - 'A' as int + 10
    else -1
  }

  /** The printers' digits, in order of their values. */
  lemma Alphabet(d: nat)
    requires d < 16
    ensures DigitChar(d) == "0123456789abcdef"[d] && DigitValue(DigitChar(d)) == d
  {
  }

  /** The same letter in the other case. */
  function Upper(c: char): char { if 'a' <= c <= 'z' then 'A' + (c - 'a') else c }

  /** Digits are read the same in either case, and of two that are read as different the greater one is the later one in
      its own run of characters. */
  lemma DigitsInOrder(c: char, e: char)
    ensures DigitValue(Upper(c)) == DigitValue(c)
    ensures ('0' <= c < e <= '9' || 'a' <= c < e <= 'f' || 'A' <= c < e <= 'F') ==> DigitValue(c) < DigitValue(e)
    ensures '0' <= c <= '9' && ('a' <= e <= 'f' || 'A' <= e <= 'F') ==> DigitValue(c) < 10 <= DigitValue(e)
    ensures DigitValue(c) >= 0 <==> '0' <= c <= '9' || 'a' <= c <= 'f' || 'A' <= c <= 'F'
  {
  }

  function UpperText(s: string): (t: string)
    ensures |t| == |s| && forall i :: 0 <= i < |s| ==> t[i] == Upper(s[i])
  {
    seq(|s|, i requires 0 <= i < |s| => Upper(s[i]))
  }

  /** Letter case changes neither whether a text is a numeral nor its value. */
  lemma {:induction false} CaseDoesNotMatter(s: string, b: nat)
    ensures IsNumeral(UpperText(s), b) <==> IsNumeral(s, b)
    ensures IsNumeral(s, b) ==> NumValue(UpperText(s), b) == NumValue(s, b)
  {
    forall i | 0 <= i < |s| ensures DigitValue(UpperText(s)[i]) == DigitValue(s[i]) { DigitsInOrder(s[i], s[i]); }
    if IsNumeral(s, b) && s != "" {
      var n := |s| - 1;
      CaseDoesNotMatter(s[..n], b);
      assert UpperText(s)[..n] == UpperText(s[..n]);
    }
  }

  predicate IsDigit(c: char, b: nat) {
    0 <= DigitValue(c) < b
  }

  predicate IsNumeral(s: string, b: nat) {
    forall i :: 0 <= i < |s| ==> IsDigit(s[i], b)
  }

  predicate IsBase(b: nat) {
    2 <= b <= 16
  }

  function Pow(b: nat, k: nat): (r: nat)
    requires IsBase(b)
    ensures r >= 1
  {
    if k == 0 then 1 else b * Pow(b, k - 1)
  }

  /** The canonical numeral of n. */
  function Num(n: nat, b: nat): (s: string)
    requires IsBase(b)
    ensures |s| > 0
  {
    if n < b then [DigitChar(n)] else Num(n / b, b) + [DigitChar(n % b)]
  }

  /** Exactly k digits, padded with zeros: printf's %0ku. */
  function Padded(n: nat, k: nat, b: nat): (s: string)
    requires IsBase(b)
    ensures |s| == k
    decreases k
  {
    if k == 0 then [] else Padded(n / b, k - 1, b) + [DigitChar(n % b)]
  }

  /** The value of a digit string, most significant digit first. */
  function NumValue(s: string, b: nat): nat
    requires IsNumeral(s, b)
  {
    if |s| == 0 then 0 else NumValue(s[..|s| - 1], b) * b + DigitValue(s[|s| - 1])
  }

  lemma NumValueSnoc(s: string, c: char, b: nat)
    requires IsNumeral(s, b) && IsDigit(c, b)
    ensures IsNumeral(s + [c], b)
    ensures NumValue(s + [c], b) == NumValue(s, b) * b + DigitValue(c)
  {
    assert (s + [c])[..|s|] == s;
  }

  lemma NumValueEmpty(s: string, b: nat)
    requires |s| == 0
    ensures NumValue(s, b) == 0
  {
  }

  lemma ConcatStep(x: int, p: int, y: int, b: int)
    ensures (x * p + y) * b == x * (b * p) + y * b
  {
    Distribute(x * p, y, b);
    assert (x * p) * b == x * (b * p);
  }

  lemma {:induction false} NumValueConcat(s: string, t: string, b: nat)
    requires IsBase(b) && IsNumeral(s, b) && IsNumeral(t, b)
    ensures IsNumeral(s + t, b)
    ensures NumValue(s + t, b) == NumValue(s, b) * Pow(b, |t|) + NumValue(t, b)
    decreases |t|
  {
    hide NumValue, DigitValue;
    if |t| == 0 {
      assert s + t == s;
      NumValueEmpty(t, b);
    } else {
      var t', c := t[..|t| - 1], t[|t| - 1];
      assert s + t == (s + t') + [c] && t == t' + [c];
      NumValueConcat(s, t', b);
      NumValueSnoc(s + t', c, b);
      NumValueSnoc(t', c, b);
      ConcatStep(NumValue(s, b), Pow(b, |t'|), NumValue(t', b), b);
    }
  }

  lemma {:induction false} NumValueBound(s: string, b: nat)
    requires IsBase(b) && IsNumeral(s, b)
    ensures NumValue(s, b) < Pow(b, |s|)
  {
    if |s| > 0 {
      NumValueBound(s[..|s| - 1], b);
      var x := NumValue(s[..|s| - 1], b);
      MulMono(x + 1, Pow(b, |s| - 1), b);
      Distribute(x, 1, b);
    }
  }

  lemma DivLess(n: nat, b: nat)
    requires IsBase(b) && n >= b
    ensures 0 < n / b < n && n == (n / b) * b + n % b
  {
  }

  /** Reading a canonical numeral gives the number back. */
  lemma {:induction false} ReadNum(n: nat, b: nat)
    requires IsBase(b)
    ensures IsNumeral(Num(n, b), b) && NumValue(Num(n, b), b) == n
  {
    if n < b {
      assert Num(n, b)[..0] == [];
    } else {
      DivLess(n, b);
      ReadNum(n / b, b);
      NumValueSnoc(Num(n / b, b), DigitChar(n % b), b);
    }
  }

  /** No leading zero, unless the numeral is zero itself. */
  lemma {:induction false} NumLeads(n: nat, b: nat)
    requires IsBase(b)
    ensures Num(n, b)[0] == '0' <==> n == 0
    ensures n == 0 ==> Num(n, b) == "0"
  {
    if n >= b {
      DivLess(n, b);
      NumLeads(n / b, b);
    }
  }

  /** The printer's own alphabet: upper case hexadecimal digits are read but not written. */
  predicate IsPrinted(s: string) {
    forall i :: 0 <= i < |s| ==> DigitValue(s[i]) >= 0 && s[i] == DigitChar(DigitValue(s[i]))
  }

  lemma {:induction false} NumIsPrinted(n: nat, b: nat)
    requires IsBase(b)
    ensures IsPrinted(Num(n, b))
  {
    if n >= b {
      DivLess(n, b);
      NumIsPrinted(n / b, b);
    }
  }

  /** Printing the value of a canonical numeral, written in the printer's alphabet, gives the numeral back. */
  lemma {:induction false} WriteValue(s: string, b: nat)
    requires IsBase(b) && IsNumeral(s, b) && |s| > 0
    requires |s| > 1 ==> s[0] != '0'
    requires IsPrinted(s)
    ensures Num(NumValue(s, b), b) == s
    ensures s[0] != '0' ==> NumValue(s, b) > 0
  {
    var t, c := s[..|s| - 1], s[|s| - 1];
    assert s == t + [c];
    if |s| > 1 {
      WriteValue(t, b);
      var hi, n := NumValue(t, b), NumValue(s, b);
      assert n == hi * b + DigitValue(c);
      assert n >= b && n / b == hi && n % b == DigitValue(c) by {
        QuotientIs(n, b, hi, DigitValue(c));
        MulMono(1, hi, b);
      }
    }
  }

  /** A numeral splits into the numeral of its high part and a padded low part. */
  lemma {:induction false} NumSplit(hi: nat, lo: nat, k: nat, b: nat)
    requires IsBase(b) && hi > 0 && lo < Pow(b, k)
    ensures Num(hi * Pow(b, k) + lo, b) == Num(hi, b) + Padded(lo, k, b)
    decreases k
  {
    hide Pow, Num, Padded, DigitChar;
    if k == 0 {
      PowZero(b);
      PaddedNone(lo, b);
      assert Num(hi, b) + [] == Num(hi, b);
    } else {
      var rest, c := LastDigit(hi, lo, k, b);
      NumSplit(hi, rest, k - 1, b);
      assert Num(hi, b) + (Padded(rest, k - 1, b) + [c]) == Num(hi, b) + Padded(rest, k - 1, b) + [c];
    }
  }

  /** The last digit of both, and what stands before it. */
  lemma LastDigit(hi: nat, lo: nat, k: nat, b: nat) returns (rest: nat, c: char)
    requires IsBase(b) && hi > 0 && k > 0 && lo < Pow(b, k)
    ensures rest < Pow(b, k - 1)
    ensures Num(hi * Pow(b, k) + lo, b) == Num(hi * Pow(b, k - 1) + rest, b) + [c]
    ensures Padded(lo, k, b) == Padded(rest, k - 1, b) + [c]
  {
    hide Num, DigitChar, Pow, Padded;
    rest, c := lo / b, DigitChar(lo % b);
    PowStep(b, k);
    PaddedStep(lo, k, b);
    SplitStep(hi, lo, Pow(b, k - 1), b);
    NumStep(hi * Pow(b, k) + lo, b);
  }

  lemma NumStep(n: nat, b: nat)
    requires IsBase(b) && n >= b
    ensures Num(n, b) == Num(n / b, b) + [DigitChar(n % b)]
  {
  }

  lemma PaddedStep(n: nat, k: nat, b: nat)
    requires IsBase(b) && k > 0
    ensures Padded(n, k, b) == Padded(n / b, k - 1, b) + [DigitChar(n % b)]
  {
  }

  lemma PaddedNone(n: nat, b: nat)
    requires IsBase(b)
    ensures Padded(n, 0, b) == []
  {
  }

  lemma SplitStep(hi: nat, lo: nat, p: nat, b: nat)
    requires hi > 0 && b > 0 && p >= 1 && lo < b * p
    ensures lo / b < p
    ensures var n, q := hi * (b * p) + lo, hi * p + lo / b;
            q > 0 && n / b == q && n % b == lo % b && n >= b
  {
    var n, q := hi * (b * p) + lo, hi * p + lo / b;
    assert hi * (b * p) == (hi * p) * b;
    Distribute(hi * p, lo / b, b);
    assert n == q * b + lo % b;
    MulMono(1, hi, p);
    QuotientBound(lo, b, p);
    QuotientIs(n, b, q, lo % b);
    MulMono(1, q, b);
  }

  /** Padding to the natural width changes nothing. */
  lemma {:induction false} PaddedIsNum(n: nat, k: nat, b: nat)
    requires IsBase(b) && k > 0 && n < Pow(b, k)
    requires k > 1 ==> Pow(b, k - 1) <= n
    ensures Padded(n, k, b) == Num(n, b)
    decreases k
  {
    hide Pow, DigitChar;
    PowStep(b, k);
    if k == 1 {
      PowZero(b);
      PaddedOne(n, b);
    } else {
      PowStep(b, k - 1);
      WidthStep(n, Pow(b, k - 2), b);
      PaddedIsNum(n / b, k - 1, b);
    }
  }

  lemma PaddedOne(n: nat, b: nat)
    requires IsBase(b) && n < b
    ensures Padded(n, 1, b) == Num(n, b)
  {
    assert Padded(n / b, 0, b) == [];
    QuotientIs(n, b, 0, n);
  }

  lemma PowZero(b: nat)
    requires IsBase(b)
    ensures Pow(b, 0) == 1
  {
  }

  lemma PowStep(b: nat, k: nat)
    requires IsBase(b) && k > 0
    ensures Pow(b, k) == b * Pow(b, k - 1)
  {
  }

  lemma WidthStep(n: nat, p: nat, b: nat)
    requires b > 0 && p >= 1 && b * p <= n < b * (b * p)
    ensures b <= n && p <= n / b < b * p
  {
    MulMono(1, p, b);
    FloorAtLeast(n, b, p);
    QuotientBound(n, b, b * p);
  }

  /** The text of an integer in either base. */
  function DecimalText(v: int): string {
    if v < 0 then "-" + Num(-v, 10) else Num(v, 10)
  }

  function HexText(v: int): string {
    if v < 0 then "-0x" + Num(-v, 16) else "0x" + Num(v, 16)
  }
}
