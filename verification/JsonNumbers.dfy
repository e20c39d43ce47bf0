/** parse_number of src/cJSON.c takes the longest numeral that stands at an offset, and gives its value. */
module JsonNumbers {
  import opened Words
  import opened Parsing
  import opened Options
  import opened Numerals
  import opened Json
  import opened JsonGrammar

  lemma {:induction false} DigitRunIs(s: string, i: nat)
    requires i <= |s|
    ensures forall k :: i <= k < DigitRun(s, i) ==> '0' <= s[k] <= '9'
    ensures DigitRun(s, i) < |s| ==> !('0' <= s[DigitRun(s, i)] <= '9')
    decreases |s| - i
  {
    if i < |s| && '0' <= s[i] <= '9' { DigitRunIs(s, i + 1); }
  }

  /** The digits at i go as far as any run of digits that stands there, and further only if there are more. */
  lemma DigitsAt(s: string, i: nat, w: string)
    requires At(s, i, w) && Digits(w)
    ensures i + |w| <= DigitRun(s, i)
    ensures i + |w| < DigitRun(s, i) ==> '0' <= s[i + |w|] <= '9'
  {
    hide DigitRun;
    DigitRunIs(s, i);
    var j := DigitRun(s, i);
    assert forall k :: 0 <= k < |w| ==> s[i + k] == w[k];
  }

  // ---------------------------------------------------------------------------------------------
  // Exponents
  // ---------------------------------------------------------------------------------------------

  function ExponentStart(s: string, c: nat): (e: nat)
    requires c <= |s|
    ensures c <= e <= |s|
  {
    if c < |s| && (s[c] == 'e' || s[c] == 'E') then
      (if c + 1 < |s| && (s[c + 1] == '-' || s[c + 1] == '+') then c + 2 else c + 1) else c
  }

  function ExponentEnd(s: string, c: nat): (e: nat)
    requires c <= |s|
    ensures c <= e <= |s|
  {
    var e := ExponentStart(s, c);
    if e > c && DigitRun(s, e) > e then DigitRun(s, e) else c
  }

  function SplitExponent(s: string, c: nat): Option<Exponent>
    requires c <= |s|
  {
    var e := ExponentStart(s, c);
    if e > c && DigitRun(s, e) > e then Some(Exponent(s[c], s[c + 1..e], s[e..DigitRun(s, e)])) else None
  }

  lemma ExponentStands(s: string, c: nat)
    requires c <= |s|
    ensures ExponentOk(SplitExponent(s, c)) && ExponentText(SplitExponent(s, c)) == s[c..ExponentEnd(s, c)]
  {
    hide DigitRun;
    var e := ExponentStart(s, c);
    if e > c && DigitRun(s, e) > e {
      DigitRunIs(s, e);
      var sign := s[c + 1..e];
      assert sign == if e == c + 1 then "" else [s[c + 1]];
    }
  }

  lemma ExponentLongest(s: string, c: nat, x: Option<Exponent>)
    requires c <= |s| && ExponentOk(x) && At(s, c, ExponentText(x))
    ensures c + |ExponentText(x)| <= ExponentEnd(s, c)
    ensures c + |ExponentText(x)| == ExponentEnd(s, c) ==> x == SplitExponent(s, c)
  {
    hide DigitRun;
    if x.Some? {
      var y := x.value;
      AtConcat(s, c, [y.mark], y.sign + y.digits);
      AtConcat(s, c + 1, y.sign, y.digits);
      var e := c + 1 + |y.sign|;
      assert s[c] == y.mark && s[e] == y.digits[0];
      assert y.sign != "" ==> s[c + 1] == y.sign[0];
      assert ExponentStart(s, c) == e;
      DigitsAt(s, e, y.digits);
    }
  }

  // ---------------------------------------------------------------------------------------------
  // Numerals
  // ---------------------------------------------------------------------------------------------

  /** The text starts like a number. */
  predicate Begins(s: string) { s != "" && (s[0] == '-' || '0' <= s[0] <= '9') }

  function SignEnd(s: string): (a: nat)
    requires Begins(s)
    ensures a <= |s|
  {
    if s[0] == '-' then 1 else 0
  }

  function FractionEnd(s: string, b: nat): (c: nat)
    requires b <= |s|
    ensures b <= c <= |s|
  {
    if b < |s| && s[b] == '.' then DigitRun(s, b + 1) else b
  }

  function SplitFraction(s: string, b: nat): Option<string>
    requires b <= |s|
  {
    if b < |s| && s[b] == '.' then Some(s[b + 1..DigitRun(s, b + 1)]) else None
  }

  function Split(s: string): Numeral
    requires Begins(s)
  {
    var a := SignEnd(s);
    var b := DigitRun(s, a);
    Numeral(a == 1, s[a..b], SplitFraction(s, b), SplitExponent(s, FractionEnd(s, b)))
  }

  lemma DoubleEndIs(s: string)
    requires Begins(s)
    ensures var a := SignEnd(s); var b := DigitRun(s, a); var c := FractionEnd(s, b);
      DoubleEnd(s) == if c == a || (c == b + 1 && b == a) then 0 else ExponentEnd(s, c)
  {
    hide DigitRun;
  }

  lemma FractionStands(s: string, b: nat)
    requires b <= |s|
    ensures FractionText(SplitFraction(s, b)) == s[b..FractionEnd(s, b)]
    ensures SplitFraction(s, b).Some? ==> Digits(SplitFraction(s, b).value)
  {
    hide DigitRun;
    if b < |s| && s[b] == '.' { DigitRunIs(s, b + 1); }
  }

  lemma FractionLongest(s: string, b: nat, f: Option<string>)
    requires b <= |s| && (f.Some? ==> Digits(f.value)) && At(s, b, FractionText(f))
    ensures b + |FractionText(f)| <= FractionEnd(s, b)
    ensures b + |FractionText(f)| == FractionEnd(s, b) ==> f == SplitFraction(s, b)
    ensures b + |FractionText(f)| < FractionEnd(s, b) ==> f == None || '0' <= s[b + |FractionText(f)|] <= '9'
    ensures f == None && b < FractionEnd(s, b) ==> s[b] == '.'
  {
    hide DigitRun;
    if f.Some? {
      AtConcat(s, b, ".", f.value);
      assert s[b] == '.';
      DigitsAt(s, b + 1, f.value);
    }
  }

  /** What strtod takes is a numeral. */
  lemma SplitStands(s: string)
    requires Begins(s) && DoubleEnd(s) > 0
    ensures NumeralOk(Split(s)) && NumeralText(Split(s)) == s[..DoubleEnd(s)]
  {
    hide DigitRun, DoubleEnd, ExponentEnd, SplitExponent, ExponentText, FractionText, ExponentOk;
    DoubleEndIs(s);
    var a := SignEnd(s);
    var b := DigitRun(s, a);
    var c := FractionEnd(s, b);
    DigitRunIs(s, a);
    FractionStands(s, b);
    ExponentStands(s, c);
    var n := Split(s);
    assert (if n.minus then "-" else "") == s[..a];
    assert FractionText(n.fraction) == s[b..c] && ExponentText(n.exponent) == s[c..DoubleEnd(s)];
    Assemble(s, a, b, c, DoubleEnd(s));
    assert n.whole == "" ==> a == b && n.fraction.Some? && n.fraction.value != "";
  }

  lemma Assemble(s: string, a: nat, b: nat, c: nat, e: nat)
    requires a <= b <= c <= e <= |s|
    ensures s[..a] + (s[a..b] + (s[b..c] + s[c..e])) == s[..e]
  {
  }

  /** No numeral at the start of s is longer, and only one is as long. */
  lemma SplitLongest(s: string, n: Numeral)
    requires NumeralOk(n) && At(s, 0, NumeralText(n))
    ensures Begins(s) && 0 < |NumeralText(n)| <= DoubleEnd(s)
    ensures |NumeralText(n)| == DoubleEnd(s) ==> n == Split(s)
  {
    hide DigitRun, DoubleEnd, ExponentEnd, SplitExponent, SplitFraction, ExponentText, FractionText, ExponentOk;
    Pieces(s, n);
    DoubleEndIs(s);
    var a := SignEnd(s);
    var b, c := DigitRun(s, a), FractionEnd(s, DigitRun(s, a));
    DigitsAt(s, a, n.whole);
    var p := a + |n.whole|;
    var q := p + |FractionText(n.fraction)|;
    Firsts(n);
    if p == b {
      FractionLongest(s, b, n.fraction);
      if q == c { ExponentLongest(s, c, n.exponent); }
    }
  }

  /** Where the parts of the numeral stand. */
  lemma Pieces(s: string, n: Numeral)
    requires NumeralOk(n) && At(s, 0, NumeralText(n))
    ensures Begins(s) && n.minus == (SignEnd(s) == 1)
    ensures var p := SignEnd(s) + |n.whole|; var q := p + |FractionText(n.fraction)|;
      && At(s, SignEnd(s), n.whole) && At(s, p, FractionText(n.fraction)) && At(s, q, ExponentText(n.exponent))
      && |NumeralText(n)| == q + |ExponentText(n.exponent)|
  {
    hide ExponentText, FractionText;
    var sign := if n.minus then "-" else "";
    var f, e := FractionText(n.fraction), ExponentText(n.exponent);
    AtConcat(s, 0, sign, n.whole + (f + e));
    AtConcat(s, |sign|, n.whole, f + e);
    AtConcat(s, |sign| + |n.whole|, f, e);
    assert n.minus ==> s[0] == '-';
    assert !n.minus ==> s[0] == n.whole[0];
  }

  /** What a fraction and an exponent begin with. */
  lemma Firsts(n: Numeral)
    requires NumeralOk(n)
    ensures n.fraction.None? <==> FractionText(n.fraction) == ""
    ensures n.fraction.Some? ==> FractionText(n.fraction)[0] == '.'
    ensures n.whole == "" ==> |FractionText(n.fraction)| >= 2
    ensures n.exponent.None? <==> ExponentText(n.exponent) == ""
    ensures n.exponent.Some? ==> ExponentText(n.exponent)[0] == 'e' || ExponentText(n.exponent)[0] == 'E'
  {
  }

  // ---------------------------------------------------------------------------------------------
  // Numbers in a text
  // ---------------------------------------------------------------------------------------------

  lemma {:induction false} DecimalIs(s: string)
    requires Digits(s)
    ensures IsNumeral(s, 10) && NumValue(s, 10) == Decimal(s)
  {
    if s != "" { DecimalIs(s[..|s| - 1]); }
  }

  lemma NumeralChars(n: Numeral)
    requires NumeralOk(n)
    ensures forall k :: 0 <= k < |NumeralText(n)| ==> NumeralChar(NumeralText(n)[k])
  {
    var sign: string := if n.minus then "-" else "";
    var f, e := FractionText(n.fraction), ExponentText(n.exponent);
    assert forall k :: 0 <= k < |f| ==> NumeralChar(f[k]);
    assert forall k :: 0 <= k < |e| ==> NumeralChar(e[k]);
    assert forall k :: 0 <= k < |n.whole| ==> NumeralChar(n.whole[k]);
    assert NumeralText(n) == sign + (n.whole + (f + e));
  }

  /** The characters of numerals from i on. */
  function Run(d: string, i: nat): string
    requires i <= |d|
  {
    d[i..NumberEnd(d, i)]
  }

  /** A numeral stands at i exactly when it stands at the start of the run. */
  lemma InRun(d: string, i: nat, n: Numeral)
    requires i <= |d| && NumeralOk(n)
    ensures At(d, i, NumeralText(n)) <==> At(Run(d, i), 0, NumeralText(n))
    ensures At(d, i, NumeralText(n)) ==> (Followed(d, i + |NumeralText(n)|) <==> |NumeralText(n)| < |Run(d, i)|)
  {
    hide NumeralText, NumberEnd;
    var t, s, e := NumeralText(n), Run(d, i), NumberEnd(d, i);
    NumeralChars(n);
    if At(d, i, t) {
      assert forall k :: 0 <= k < |t| ==> d[i + k] == t[k];
      assert e >= i + |t|;
      assert s[0..|t|] == t;
    }
    if At(s, 0, t) { assert d[i..i + |t|] == s[0..|t|]; }
  }

  /** What the integer path of parse_number gives. */
  function IntegerOf(s: string): Option<i64> {
    if '.' in s || 'e' in s || 'E' in s then None else IntOf(s)
  }

  /** It takes a whole run of digits. */
  lemma IntegerRun(s: string)
    requires Begins(s) && IntOf(s).Some?
    ensures DoubleEnd(s) == |s|
  {
    hide DigitRun, NumValue;
    var a := SignEnd(s);
    var w := s[a..];
    assert Digits(w);
    DigitsAt(s, a, w);
    DoubleEndIs(s);
  }

  lemma PlainInteger(s: string, n: Numeral)
    requires Begins(s) && NumeralOk(n) && NumeralText(n) == s && n.fraction.None? && n.exponent.None?
    ensures NumeralValue(n, false) == if IntegerOf(s).Some? then Int(IntegerOf(s).value) else Double(s)
  {
    hide NumValue, Decimal;
    var w := n.whole;
    assert s == (if n.minus then "-" else "") + w;
    assert if n.minus then s[0] == '-' && s[1..] == w else s == w;
    assert forall k :: 0 <= k < |s| ==> s[k] == '-' || '0' <= s[k] <= '9';
    DecimalIs(w);
    assert s[0] != '+' && w != "";
  }

  lemma NoInteger(s: string, n: Numeral)
    requires NumeralOk(n) && NumeralText(n) == s && (n.fraction.Some? || n.exponent.Some?)
    ensures IntegerOf(s).None?
  {
    hide IntOf;
    Firsts(n);
    var sign: string := if n.minus then "-" else "";
    var f, e := FractionText(n.fraction), ExponentText(n.exponent);
    var p := |sign| + |n.whole|;
    assert s == sign + n.whole + f + e;
    if n.fraction.Some? {
      assert s[p] == '.';
    } else {
      assert s[p] == e[0];
    }
  }

  /** The number that stands at i is what is parsed there. */
  lemma ReadNumber(d: string, i: nat, n: Numeral, cut: bool)
    requires TokenAt(d, i, Number(n, cut))
    ensures ParseNumber(d, i) == Ok(NumeralValue(n, cut), i + |NumeralText(n)|)
  {
    hide NumeralText, NumeralOk, DoubleEnd, NumberEnd, Split, NumeralValue, IntOf;
    var s := Run(d, i);
    InRun(d, i, n);
    SplitLongest(s, n);
    SplitStands(s);
    InRun(d, i, Split(s));
    assert |NumeralText(n)| == DoubleEnd(s);
    NumberIs(d, i, n, cut);
  }

  lemma NumberIs(d: string, i: nat, n: Numeral, cut: bool)
    requires i <= |d| && Begins(Run(d, i)) && NumeralOk(n)
    requires DoubleEnd(Run(d, i)) > 0 && NumeralText(n) == Run(d, i)[..DoubleEnd(Run(d, i))]
    requires cut <==> DoubleEnd(Run(d, i)) < |Run(d, i)|
    ensures ParseNumber(d, i) == Ok(NumeralValue(n, cut), i + DoubleEnd(Run(d, i)))
  {
    hide NumeralText, NumeralOk, DoubleEnd, NumberEnd, IntOf;
    var s := Run(d, i);
    if cut {
      if IntOf(s).Some? { IntegerRun(s); }
    } else {
      assert s[..DoubleEnd(s)] == s;
      if n.fraction.None? && n.exponent.None? { PlainInteger(s, n); } else { NoInteger(s, n); }
    }
  }

  /** And what is parsed stands there as a number. */
  lemma NumberStands(d: string, i: nat) returns (n: Numeral, cut: bool)
    requires i < |d| && (d[i] == '-' || '0' <= d[i] <= '9') && ParseNumber(d, i).Ok?
    ensures TokenAt(d, i, Number(n, cut)) && ParseNumber(d, i) == Ok(NumeralValue(n, cut), i + |NumeralText(n)|)
  {
    hide NumeralText, NumeralOk, DoubleEnd, NumberEnd, Split, NumeralValue, IntOf;
    var s := Run(d, i);
    assert NumberEnd(d, i) > i;
    if IntOf(s).Some? { IntegerRun(s); }
    SplitStands(s);
    n := Split(s);
    cut := DoubleEnd(s) < |s|;
    NumberIs(d, i, n, cut);
    InRun(d, i, n);
    forall m | NumeralOk(m) && At(d, i, NumeralText(m)) ensures |NumeralText(m)| <= DoubleEnd(s) {
      InRun(d, i, m);
      SplitLongest(s, m);
    }
  }
}
