/** Parsing undoes printing, in both styles. */
module JsonRoundTrip {
  import opened Words
  import opened Parsing
  import opened Options
  import opened Numerals
  import opened Json

  // ---------------------------------------------------------------------------------------------
  // Strings
  // ---------------------------------------------------------------------------------------------

  /** The \u escape of a control character: four digits without a quote or a backslash, that read back as the code. */
  lemma ControlEscape(c: char)
    requires c as int < 32
    ensures var p := Padded(c as int, 4, 16);
      && (forall k :: 0 <= k < 4 ==> p[k] != '\"' && p[k] != '\\')
      && Hex4(p) == c as int
  {
    var n := c as int;
    var a, b := n / 16, n % 16;
    assert a / 16 == 0 && a / 16 / 16 == 0;
    assert Padded(n, 4, 16) == Padded(a, 3, 16) + [DigitChar(b)];
    assert Padded(a, 3, 16) == Padded(0, 2, 16) + [DigitChar(a % 16)];
    assert Padded(0, 2, 16) == Padded(0, 1, 16) + [DigitChar(0)];
    assert Padded(0, 1, 16) == [] + [DigitChar(0)];
    DigitBack(a);
    DigitBack(b);
  }

  lemma DigitBack(x: nat)
    requires x < 16
    ensures DigitValue(DigitChar(x)) == x && DigitChar(x) != '\"' && DigitChar(x) != '\\'
  {
  }

  /** One escaped character is read as that character and nothing else. */
  lemma UnitBack(c: char, rest: string)
    ensures Unit(Escaped(c) + rest) == Some(([c], |Escaped(c)|))
  {
    var s := Escaped(c) + rest;
    if c as int < 32 && Escaped(c)[1] == 'u' {
      ControlEscape(c);
      assert s[2..6] == Padded(c as int, 4, 16);
      assert s[1] == 'u';
    } else if |Escaped(c)| == 2 {
      assert s[1] == Escaped(c)[1];
    }
  }

  lemma {:induction false} UnescapeBack(s: string)
    ensures Unescape(EscapedText(s)) == Some(s)
  {
    if s != "" {
      var e, rest := Escaped(s[0]), EscapedText(s[1..]);
      UnitBack(s[0], rest);
      assert (e + rest)[|e|..] == rest;
      UnescapeBack(s[1..]);
      assert s == [s[0]] + s[1..];
    }
  }

  /** The scan for the closing quote passes over one escaped character. */
  lemma ScanOne(d: string, j: nat, c: char)
    requires At(d, j, Escaped(c))
    ensures ScanEnd(d, j) == ScanEnd(d, j + |Escaped(c)|)
  {
    hide ScanEnd, Escaped, Padded;
    var e := Escaped(c);
    EscapedShape(c);
    EachAt(d, j, e);
    if e[0] == '\\' {
      ScanPair(d, j);
      if |e| == 6 { ScanPlain(d, j + 2, 4); }
    } else {
      ScanPlain(d, j, 1);
    }
  }

  lemma EachAt(d: string, j: nat, e: string)
    requires At(d, j, e)
    ensures j + |e| <= |d| && forall k :: j <= k < j + |e| ==> d[k] == e[k - j]
  {
    forall k | j <= k < j + |e| ensures d[k] == e[k - j] { assert d[j..j + |e|][k - j] == d[k]; }
  }

  /** An escaped character is itself, a backslash and one more, or a backslash, one more and four plain ones. */
  lemma EscapedShape(c: char)
    ensures var e := Escaped(c);
      || (|e| == 1 && IsPlain(e[0]))
      || (|e| == 2 && e[0] == '\\')
      || (|e| == 6 && e[0] == '\\' && forall k :: 2 <= k < 6 ==> IsPlain(e[k]))
  {
    hide Padded;
    PaddedIsPlain(c as int, 4);
  }

  predicate IsPlain(c: char) { c != '\\' && c != '\"' }

  lemma {:induction false} PaddedIsPlain(n: nat, k: nat)
    ensures forall i :: 0 <= i < k ==> IsPlain(Padded(n, k, 16)[i])
    decreases k
  {
    if k > 0 { PaddedIsPlain(n / 16, k - 1); }
  }

  lemma ScanPair(d: string, j: nat)
    requires j + 1 < |d| && d[j] == '\\'
    ensures ScanEnd(d, j) == ScanEnd(d, j + 2)
  {
  }

  lemma {:induction false} ScanPlain(d: string, j: nat, n: nat)
    requires j + n <= |d| && forall k :: j <= k < j + n ==> IsPlain(d[k])
    ensures ScanEnd(d, j) == ScanEnd(d, j + n)
    decreases n
  {
    hide ScanEnd;
    if n > 0 {
      ScanPast(d, j);
      ScanPlain(d, j + 1, n - 1);
    }
  }

  lemma ScanPast(d: string, j: nat)
    requires j < |d| && IsPlain(d[j])
    ensures ScanEnd(d, j) == ScanEnd(d, j + 1)
  {
  }

  lemma {:induction false} ScanBack(d: string, j: nat, s: string)
    requires At(d, j, EscapedText(s) + "\"")
    ensures ScanEnd(d, j) == Some(j + |EscapedText(s)|)
    decreases |s|
  {
    hide Escaped, EscapedText, ScanEnd, At;
    var e := EscapedText(s);
    AtConcat(d, j, e, "\"");
    EscapedTextIs(s);
    if s != "" {
      var first, rest := Escaped(s[0]), EscapedText(s[1..]);
      AtConcat(d, j, first, rest);
      AtConcat(d, j + |first|, rest, "\"");
      ScanOne(d, j, s[0]);
      ScanBack(d, j + |first|, s[1..]);
    } else {
      HeadOf(d, j, "\"");
      ScanQuote(d, j);
    }
  }

  lemma EscapedTextIs(s: string)
    ensures EscapedText(s) == if s == "" then "" else Escaped(s[0]) + EscapedText(s[1..])
  {
  }

  lemma ScanQuote(d: string, j: nat)
    requires j < |d| && d[j] == '\"'
    ensures ScanEnd(d, j) == Some(j)
  {
  }

  /** A printed string reads back, if it is a C string. */
  lemma StringBack(d: string, i: nat, s: string)
    requires '\0' !in s && At(d, i, Quoted(s))
    ensures ParseString(d, i) == Ok(s, i + |Quoted(s)|)
  {
    hide EscapedText, ScanEnd, Unescape;
    AtConcat(d, i, "\"", EscapedText(s) + "\"");
    assert d[i..i + 1] == "\"";
    ScanBack(d, i + 1, s);
    AtConcat(d, i + 1, EscapedText(s), "\"");
    UnescapeBack(s);
  }

  // ---------------------------------------------------------------------------------------------
  // Numbers
  // ---------------------------------------------------------------------------------------------

  predicate AllDigits(s: string) { forall k :: 0 <= k < |s| ==> '0' <= s[k] <= '9' }

  lemma NumeralChars(m: nat)
    ensures AllDigits(Num(m, 10))
  {
    hide Num, NumValue;
    var p := Num(m, 10);
    ReadNum(m, 10);
    forall k | 0 <= k < |p| ensures '0' <= p[k] <= '9' { assert IsDigit(p[k], 10); }
  }

  lemma IntOfDecimal(n: i64)
    ensures IntOf(DecimalText(n)) == Some(n)
  {
    hide Num, NumValue, IsNumeral;
    var m: nat := if n < 0 then 0 - (n as int) else n;
    var p, s := Num(m, 10), DecimalText(n);
    NumeralChars(m);
    ReadNum(m, 10);
    if n < 0 { assert s[1..] == p; }
  }

  predicate PlainNumberChar(c: char) { IsNumberChar(c) && c != '.' && c != 'e' && c != 'E' }

  lemma DecimalChars(n: i64)
    ensures var s := DecimalText(n);
      && s != "" && (s[0] == '-' || '0' <= s[0] <= '9') && IntOf(s) == Some(n)
      && (forall k :: 0 <= k < |s| ==> PlainNumberChar(s[k]))
  {
    hide Num, IntOf;
    var m: nat := if n < 0 then 0 - (n as int) else n;
    var p, s := Num(m, 10), DecimalText(n);
    NumeralChars(m);
    IntOfDecimal(n);
    forall k | 0 <= k < |s| ensures PlainNumberChar(s[k]) {
      assert s[k] == if n >= 0 then p[k] else if k > 0 then p[k - 1] else '-';
    }
    assert s[0] == if n >= 0 then p[0] else '-';
  }

  lemma {:induction false} NumberEndIs(d: string, i: nat, j: nat)
    requires i <= j <= |d| && (forall k :: i <= k < j ==> IsNumberChar(d[k])) && (j < |d| ==> !IsNumberChar(d[j]))
    ensures NumberEnd(d, i) == j
  {
  }

  /** What follows does not continue a number. */
  predicate Delimited(d: string, j: nat) {
    j <= |d| && (j < |d| ==> !IsNumberChar(d[j]))
  }

  lemma NumberBack(d: string, i: nat, n: i64)
    requires At(d, i, DecimalText(n)) && Delimited(d, i + |DecimalText(n)|)
    ensures ParseNumber(d, i) == Ok(Int(n), i + |DecimalText(n)|)
  {
    hide DecimalText, IntOf;
    var s := DecimalText(n);
    DecimalChars(n);
    assert d[i..i + |s|] == s;
    forall k | i <= k < i + |s| ensures IsNumberChar(d[k]) { assert d[k] == s[k - i] && PlainNumberChar(s[k - i]); }
    NumberEndIs(d, i, i + |s|);
  }

  // ---------------------------------------------------------------------------------------------
  // Blanks
  // ---------------------------------------------------------------------------------------------

  predicate IsBlank(w: string) { forall k :: 0 <= k < |w| ==> IsSpace(w[k]) }

  lemma SkipBlanks(d: string, i: nat, w: string)
    requires At(d, i, w) && IsBlank(w) && i + |w| < |d| && !IsSpace(d[i + |w|])
    ensures Skip(d, i) == i + |w|
  {
    assert d[i..i + |w|] == w;
    forall k | i <= k < i + |w| ensures IsSpace(d[k]) { assert d[k] == w[k - i]; }
  }

  lemma NoSkip(d: string, i: nat)
    requires i < |d| && !IsSpace(d[i])
    ensures Skip(d, i) == i
  {
  }

  // ---------------------------------------------------------------------------------------------
  // Values
  // ---------------------------------------------------------------------------------------------

  /** Printable, and every string and key a C string. */
  predicate Sound(v: Json) {
    match v
    case Double(_) => false
    case Str(s) => '\0' !in s
    case Arr(items) => forall k :: 0 <= k < |items| ==> Sound(items[k])
    case Obj(members) => forall k :: 0 <= k < |members| ==> '\0' !in members[k].key && Sound(members[k].value)
    case _ => true
  }

  /** How deep arrays and objects are nested. */
  function Nesting(v: Json): nat
    decreases v, 0
  {
    match v
    case Arr(items) => 1 + DeepestItem(items)
    case Obj(members) => 1 + DeepestMember(members)
    case _ => 0
  }

  function DeepestItem(items: seq<Json>): nat
    decreases items, 1
  {
    if items == [] then 0 else Max(Nesting(items[0]), DeepestItem(items[1..]))
  }

  function DeepestMember(members: seq<Member>): nat
    decreases members, 1
  {
    if members == [] then 0 else Max(Nesting(members[0].value), DeepestMember(members[1..]))
  }

  function Max(x: nat, y: nat): nat { if x < y then y else x }

  lemma {:induction false} SoundIsPrintable(v: Json)
    requires Sound(v)
    ensures Printable(v)
  {
    match v {
      case Arr(items) =>
        forall k | 0 <= k < |items| ensures Printable(items[k]) { SoundIsPrintable(items[k]); }
      case Obj(members) =>
        forall k | 0 <= k < |members| ensures Printable(members[k].value) {
          SoundIsPrintable(members[k].value);
        }
      case _ =>
    }
  }

  /** The first character of a printed value tells what it is. */
  lemma Opening(v: Json, format: bool, depth: nat)
    requires Printable(v)
    ensures var p := Print(v, format, depth); p != "" && !IsSpace(p[0]) && p[0] != ']' && p[0] != '}' && p[0] as int < 128
  {
    if v.Int? { DecimalChars(v.n); }
  }

  lemma HeadOf(d: string, i: nat, s: string)
    requires At(d, i, s) && s != ""
    ensures i < |d| && d[i] == s[0]
  {
    assert d[i..i + |s|][0] == s[0];
  }

  lemma TextOf(items: seq<Json>, format: bool, depth: nat)
    requires items != [] && forall k :: 0 <= k < |items| ==> Printable(items[k])
    ensures PrintItems(items, format, depth) == Print(items[0], format, depth)
      + ((if |items| == 1 then "" else if format then ", " else ",") + PrintItems(items[1..], format, depth))
    ensures var p := PrintItems(items, format, depth); p != "" && !IsSpace(p[0]) && p[0] != ']'
  {
    Opening(items[0], format, depth);
  }

  lemma IntBack(d: string, i: nat, n: i64, depth: nat)
    requires At(d, i, DecimalText(n)) && Delimited(d, i + |DecimalText(n)|)
    ensures ParseValue(d, i, depth) == Ok(Int(n), i + |DecimalText(n)|)
  {
    hide DecimalText, ParseNumber, ParseString, ParseArray, ParseObject, IntOf, IsNumberChar;
    DecimalChars(n);
    HeadOf(d, i, DecimalText(n));
    NumberBack(d, i, n);
    NotAWord(d, i);
  }

  lemma StrBack(d: string, i: nat, s: string, depth: nat)
    requires '\0' !in s && At(d, i, Quoted(s))
    ensures ParseValue(d, i, depth) == Ok(Str(s), i + |Quoted(s)|)
  {
    hide Quoted, ParseNumber, ParseString, ParseArray, ParseObject;
    QuotedHead(s);
    HeadOf(d, i, Quoted(s));
    StringBack(d, i, s);
    NotAWord(d, i);
  }

  lemma NotAWord(d: string, i: nat)
    requires i < |d| && d[i] != 'n' && d[i] != 'f' && d[i] != 't'
    ensures !At(d, i, "null") && !At(d, i, "false") && !At(d, i, "true")
  {
    if At(d, i, "null") { HeadOf(d, i, "null"); }
    if At(d, i, "false") { HeadOf(d, i, "false"); }
    if At(d, i, "true") { HeadOf(d, i, "true"); }
  }

  lemma WordBack(d: string, i: nat, w: string, depth: nat)
    requires At(d, i, w) && (w == "null" || w == "false" || w == "true")
    ensures ParseValue(d, i, depth) == Ok(if w == "null" then Null else if w == "false" then False else True, i + |w|)
  {
    hide ParseNumber, ParseString, ParseArray, ParseObject;
    HeadOf(d, i, w);
    if At(d, i, "null") { HeadOf(d, i, "null"); }
    if At(d, i, "false") { HeadOf(d, i, "false"); }
  }

  lemma QuotedHead(s: string)
    ensures Quoted(s) != "" && Quoted(s)[0] == '\"'
  {
  }

  /** A printed value reads back, if it is not nested too deeply where it stands; otherwise parsing fails. */
  lemma {:induction false} ValueBack(d: string, i: nat, v: Json, format: bool, level: nat, depth: nat)
    requires Sound(v) && Printable(v)
    requires At(d, i, Print(v, format, level)) && Delimited(d, i + |Print(v, format, level)|)
    requires depth <= NESTING_LIMIT
    ensures ParseValue(d, i, depth) == Expect(depth + Nesting(v) <= NESTING_LIMIT, v, i + |Print(v, format, level)|)
    decreases v, 0
  {
    hide ParseArray, ParseObject, PrintItems, PrintMembers, DecimalText, Quoted, ParseNumber, ParseString, At, Delimited;
    if v.Arr? {
      HeadOf(d, i, Print(v, format, level));
      NotAWord(d, i);
      ArrayBack(d, i, v, format, level, depth);
    } else if v.Obj? {
      HeadOf(d, i, Print(v, format, level));
      NotAWord(d, i);
      ObjectBack(d, i, v, format, level, depth);
    } else if v.Int? {
      IntBack(d, i, v.n, depth);
    } else if v.Str? {
      StrBack(d, i, v.s, depth);
    } else {
      WordBack(d, i, Print(v, format, level), depth);
    }
  }

  lemma {:induction false} ArrayBack(d: string, i: nat, v: Json, format: bool, level: nat, depth: nat)
    requires Sound(v) && Printable(v) && v.Arr? && depth <= NESTING_LIMIT
    requires At(d, i, Print(v, format, level))
    ensures i < |d|
    ensures ParseArray(d, i, depth) == Expect(depth + Nesting(v) <= NESTING_LIMIT, v, i + |Print(v, format, level)|)
    decreases v.items, 2
  {
    hide ParseItems, Skip, Print, PrintItems, Sound, Printable, Nesting, At;
    ArrayIs(v, format, level);
    var text := PrintItems(v.items, format, level + 1);
    AtConcat(d, i, "[", text);
    HeadOf(d, i, "[");
    if depth < NESTING_LIMIT {
      if v.items != [] { TextOf(v.items, format, level + 1); }
      HeadOf(d, i + 1, text);
      NoSkip(d, i + 1);
      if v.items != [] { ItemsBack(d, i + 1, i + 1, v.items, format, level + 1, depth + 1); }
    }
  }

  lemma ArrayIs(v: Json, format: bool, level: nat)
    requires v.Arr? && Sound(v) && Printable(v)
    ensures forall k :: 0 <= k < |v.items| ==> Sound(v.items[k]) && Printable(v.items[k])
    ensures Print(v, format, level) == "[" + PrintItems(v.items, format, level + 1)
    ensures v.items == [] ==> PrintItems(v.items, format, level + 1) == "]" && Nesting(v) == 1
    ensures Nesting(v) == 1 + DeepestItem(v.items)
  {
  }

  lemma {:induction false} ItemsBack(d: string, i: nat, j: nat, items: seq<Json>, format: bool, level: nat, depth: nat)
    requires items != [] && (forall k :: 0 <= k < |items| ==> Sound(items[k]) && Printable(items[k]))
    requires i <= |d| && Skip(d, i) == j && At(d, j, PrintItems(items, format, level)) && depth <= NESTING_LIMIT
    ensures ParseItems(d, i, depth)
      == Expect(depth + DeepestItem(items) <= NESTING_LIMIT, items, j + |PrintItems(items, format, level)|)
    decreases items, 1
  {
    hide ParseValue, Print, PrintItems, Skip, At, Sound, Printable, Nesting, Delimited, Separator;
    var p, sep := Print(items[0], format, level), Separator(items, format);
    var rest := PrintItems(items[1..], format, level);
    var k := j + |p|;
    assert PrintItems(items, format, level) == p + (sep + rest) by { TextOf(items, format, level); SeparatorIs(items, format); }
    AtConcat(d, j, p, sep + rest);
    AfterItem(d, k, items, format, level);
    ValueBack(d, j, items[0], format, level, depth);
    if |items| == 1 {
      assert items == [items[0]] && items[1..] == [];
    } else {
      ItemsBack(d, k + 1, k + |sep|, items[1..], format, level, depth);
      assert items == [items[0]] + items[1..];
    }
  }

  function Separator(items: seq<Json>, format: bool): string {
    if |items| <= 1 then "" else if format then ", " else ","
  }

  lemma SeparatorIs(items: seq<Json>, format: bool)
    requires items != []
    ensures Separator(items, format) == if |items| == 1 then "" else if format then ", " else ","
  {
  }

  /** What follows an item: the closing bracket, or a comma, blanks and the next item. */
  lemma AfterItem(d: string, k: nat, items: seq<Json>, format: bool, level: nat)
    requires items != [] && forall i :: 0 <= i < |items| ==> Printable(items[i])
    requires At(d, k, Separator(items, format) + PrintItems(items[1..], format, level))
    ensures k < |d| && Skip(d, k) == k && Delimited(d, k)
    ensures |items| == 1 ==> d[k] == ']' && |Separator(items, format) + PrintItems(items[1..], format, level)| == 1
    ensures |items| > 1 ==> d[k] == ',' && Skip(d, k + 1) == k + |Separator(items, format)|
    ensures |items| > 1 ==> At(d, k + |Separator(items, format)|, PrintItems(items[1..], format, level))
  {
    hide PrintItems, At, Printable, Skip, Delimited;
    var sep, rest := Separator(items, format), PrintItems(items[1..], format, level);
    if |items| == 1 {
      NoItems(format, level);
      assert items[1..] == [];
      HeadOf(d, k, sep + rest);
    } else {
      AtConcat(d, k, sep, rest);
      TextOf(items[1..], format, level);
      HeadOf(d, k + |sep|, rest);
      assert sep == "," + sep[1..];
      AtConcat(d, k, ",", sep[1..]);
      HeadOf(d, k, ",");
      SkipBlanks(d, k + 1, sep[1..]);
    }
    PlainAt(d, k);
  }

  lemma PlainAt(d: string, k: nat)
    requires k < |d| && (d[k] == ']' || d[k] == ',')
    ensures Skip(d, k) == k && Delimited(d, k)
  {
    NoSkip(d, k);
  }

  lemma NoItems(format: bool, level: nat)
    ensures PrintItems([], format, level) == "]"
  {
  }

  // ---------------------------------------------------------------------------------------------
  // Objects
  // ---------------------------------------------------------------------------------------------

  /** The blanks in front of the next key or of the closing brace. */
  function Margin(members: seq<Member>, format: bool, level: nat): (b: string)
    requires level > 0
    ensures IsBlank(b)
  {
    if !format then "" else if members == [] then Tabs(level - 1) else Tabs(level)
  }

  function Colon(format: bool): string { if format then ":\t" else ":" }

  function Newline(format: bool): (b: string)
    ensures IsBlank(b)
  {
    if format then "\n" else ""
  }

  /** What is printed after the margin. */
  function Ink(members: seq<Member>, format: bool, level: nat): (s: string)
    requires level > 0 && forall k :: 0 <= k < |members| ==> Printable(members[k].value)
    ensures s != "" && s[0] == if members == [] then '}' else '\"'
  {
    if members == [] then "}" else
      Quoted(members[0].key) + (Colon(format) + (Print(members[0].value, format, level) +
      ((if |members| == 1 then "" else ",") + (Newline(format) + PrintMembers(members[1..], format, level)))))
  }

  lemma InkAfterMargin(members: seq<Member>, format: bool, level: nat)
    requires level > 0 && forall k :: 0 <= k < |members| ==> Printable(members[k].value)
    ensures PrintMembers(members, format, level) == Margin(members, format, level) + Ink(members, format, level)
  {
    hide Print, Quoted;
  }

  lemma {:induction false} ObjectBack(d: string, i: nat, v: Json, format: bool, level: nat, depth: nat)
    requires Sound(v) && Printable(v) && v.Obj? && depth <= NESTING_LIMIT
    requires At(d, i, Print(v, format, level))
    ensures i < |d|
    ensures ParseObject(d, i, depth) == Expect(depth + Nesting(v) <= NESTING_LIMIT, v, i + |Print(v, format, level)|)
    decreases v.members, 2
  {
    hide ParseMembers, PrintMembers, Margin, Ink, At, Skip, Newline;
    var w, b, ink := Newline(format), Margin(v.members, format, level + 1), Ink(v.members, format, level + 1);
    assert Print(v, format, level) == "{" + (w + PrintMembers(v.members, format, level + 1)) by { NewlineIs(format); }
    InkAfterMargin(v.members, format, level + 1);
    AtConcat(d, i, "{", w + (b + ink));
    assert w + (b + ink) == (w + b) + ink;
    AtConcat(d, i + 1, w + b, ink);
    var j := i + 1 + |w + b|;
    HeadOf(d, i, "{");
    HeadOf(d, j, ink);
    if depth < NESTING_LIMIT {
      SkipBlanks(d, i + 1, w + b);
      if v.members == [] {
        NoMembers(format, level + 1);
      } else {
        NoSkip(d, j);
        MembersBack(d, j, j, v.members, format, level + 1, depth + 1);
      }
    }
  }

  lemma NewlineIs(format: bool)
    ensures Newline(format) == if format then "\n" else ""
  {
  }

  lemma NoMembers(format: bool, level: nat)
    requires level > 0
    ensures Ink([], format, level) == "}"
  {
  }

  /** One member, up to what follows its value. */
  lemma MemberBack(d: string, i: nat, j: nat, m: Member, format: bool, level: nat, depth: nat)
    requires '\0' !in m.key && Sound(m.value) && Printable(m.value) && depth <= NESTING_LIMIT
    requires i < |d| && Skip(d, i) == j
    requires var p := Print(m.value, format, level);
      At(d, j, Quoted(m.key) + (Colon(format) + p)) && Delimited(d, j + |Quoted(m.key)| + |Colon(format)| + |p|)
    ensures ParseMember(d, i, depth) == Expect(depth + Nesting(m.value) <= NESTING_LIMIT, m,
      j + |Quoted(m.key)| + |Colon(format)| + |Print(m.value, format, level)|)
    decreases m.value, 3
  {
    hide ParseString, ParseValue, Print, Quoted, At, Skip;
    var q, p := Quoted(m.key), Print(m.value, format, level);
    var k := j + |q|;
    AtConcat(d, j, q, Colon(format) + p);
    AtConcat(d, k, Colon(format), p);
    StringBack(d, j, m.key);
    assert Colon(format) == ":" + Colon(format)[1..];
    AtConcat(d, k, ":", Colon(format)[1..]);
    HeadOf(d, k, ":");
    NoSkip(d, k);
    Opening(m.value, format, level);
    HeadOf(d, k + |Colon(format)|, p);
    SkipBlanks(d, k + 1, Colon(format)[1..]);
    ValueBack(d, k + |Colon(format)|, m.value, format, level, depth);
  }

  lemma {:induction false} MembersBack(d: string, i: nat, j: nat, members: seq<Member>, format: bool, level: nat, depth: nat)
    requires members != [] && level > 0 && depth <= NESTING_LIMIT
    requires forall k :: 0 <= k < |members| ==> '\0' !in members[k].key && Sound(members[k].value) && Printable(members[k].value)
    requires i < |d| && Skip(d, i) == j && At(d, j, Ink(members, format, level))
    ensures ParseMembers(d, i, depth)
      == Expect(depth + DeepestMember(members) <= NESTING_LIMIT, members, j + |Ink(members, format, level)|)
    decreases members, 1
  {
    hide ParseMember, Print, PrintMembers, Quoted, Colon, Margin, Newline, Skip, At, Delimited, Sound, Printable,
         Nesting, Ink;
    var m, others := members[0], members[1..];
    var k, n := Layout(d, j, members, format, level);
    MemberBack(d, i, j, m, format, level, depth);
    if |members| == 1 {
      NoMembers(format, level);
      HeadOf(d, n, "}");
      assert members == [m];
    } else {
      NoSkip(d, k);
      MembersBack(d, k + 1, n, others, format, level, depth);
      assert members == [m] + others;
    }
  }

  /** Where the first member ends, and where the next one or the closing brace stands. */
  lemma Layout(d: string, j: nat, members: seq<Member>, format: bool, level: nat) returns (k: nat, n: nat)
    requires members != [] && level > 0 && forall k :: 0 <= k < |members| ==> Printable(members[k].value)
    requires At(d, j, Ink(members, format, level))
    ensures var m, others := members[0], members[1..];
      var q, c, p, ink := Quoted(m.key), Colon(format), Print(m.value, format, level), Ink(others, format, level);
      && k == j + |q| + |c| + |p| && At(d, j, q + (c + p)) && Delimited(d, k)
      && At(d, n, ink) && n + |ink| == j + |Ink(members, format, level)|
      && (|members| == 1 ==> Skip(d, k) == n)
      && (|members| > 1 ==> k + 1 < |d| && d[k] == ',' && Skip(d, k + 1) == n)
  {
    hide Print, PrintMembers, Quoted, Colon, Margin, Newline, Skip, At, Delimited, Printable, Ink;
    var m, others := members[0], members[1..];
    var q, c, p := Quoted(m.key), Colon(format), Print(m.value, format, level);
    var sep, w := if |members| == 1 then "" else ",", Newline(format);
    var b, ink := Margin(others, format, level), Ink(others, format, level);
    InkAfterMargin(others, format, level);
    var tail := sep + (w + (b + ink));
    assert Ink(members, format, level) == q + (c + (p + tail)) by { InkIs(members, format, level); }
    Regroup(q, c, p, tail);
    AtConcat(d, j, q + (c + p), tail);
    k := j + |q| + |c| + |p|;
    assert w + (b + ink) == (w + b) + ink;
    AtConcat(d, k, sep, (w + b) + ink);
    AtConcat(d, k + |sep|, w + b, ink);
    n := k + |sep| + |w + b|;
    HeadOf(d, n, ink);
    EndsNumber(d, k, sep, w, b, ink);
    if |members| > 1 { HeadOf(d, k, ","); }
    SkipBlanks(d, k + |sep|, w + b);
  }

  lemma InkIs(members: seq<Member>, format: bool, level: nat)
    requires members != [] && level > 0 && forall k :: 0 <= k < |members| ==> Printable(members[k].value)
    ensures Ink(members, format, level) == Quoted(members[0].key) + (Colon(format) + (Print(members[0].value, format, level) +
      ((if |members| == 1 then "" else ",") + (Newline(format) + PrintMembers(members[1..], format, level)))))
  {
  }

  lemma Regroup(a: string, b: string, c: string, t: string)
    ensures a + (b + (c + t)) == (a + (b + c)) + t
  {
  }

  /** A separator, blanks, a quote or a closing brace end a number. */
  lemma EndsNumber(d: string, k: nat, sep: string, w: string, b: string, ink: string)
    requires At(d, k, sep + (w + (b + ink))) && IsBlank(w) && IsBlank(b) && (sep == "" || sep == ",")
    requires ink != "" && (ink[0] == '}' || ink[0] == '\"')
    ensures Delimited(d, k)
  {
    HeadOf(d, k, sep + (w + (b + ink)));
  }

  // ---------------------------------------------------------------------------------------------
  // Whole texts
  // ---------------------------------------------------------------------------------------------

  /** cJSON_Parse and cJSON_ParseWithOpts undo cJSON_Print and cJSON_PrintUnformatted exactly for values nested at most
      NESTING_LIMIT deep; deeper ones are rejected. */
  lemma ParsePrinted(v: Json, format: bool, whole: bool)
    requires Sound(v)
    ensures Printable(v)
    ensures ParseText(Print(v, format, 0), whole) == if Nesting(v) <= NESTING_LIMIT then Some(v) else None
  {
    hide Print, ParseValue, Sound, Printable;
    SoundIsPrintable(v);
    var p := Print(v, format, 0);
    var d := p + "\0";
    Opening(v, format, 0);
    assert At(d, 0, p);
    AtStart(d);
    ValueBack(d, 0, v, format, 0, 0);
    AtEnd(p);
  }

  /** cJSON_ParseWithLength, on the text without its terminating zero. */
  lemma ParsePrintedBuffer(v: Json, format: bool)
    requires Sound(v)
    ensures Printable(v)
    ensures ParseBuffer(Print(v, format, 0), false) == if Nesting(v) <= NESTING_LIMIT then Some(v) else None
  {
    hide Print, ParseValue, Sound, Printable;
    SoundIsPrintable(v);
    var d := Print(v, format, 0);
    Opening(v, format, 0);
    assert At(d, 0, d);
    AtStart(d);
    ValueBack(d, 0, v, format, 0, 0);
  }

  lemma AtEnd(p: string)
    ensures CharIs(p + "\0", Skip(p + "\0", |p|), '\0')
  {
  }

  lemma AtStart(d: string)
    requires d != "" && !IsSpace(d[0]) && d[0] as int < 128
    ensures Start(d) == 0
  {
    NoSkip(d, 0);
  }
}
