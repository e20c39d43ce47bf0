/** JSON values and their text, as src/cJSON.c prints and parses them. A character stands for one byte of the text. */
module Json {
  import opened Words
  import opened Parsing
  import opened Options
  import opened Sequences
  import opened Numerals

  const NESTING_LIMIT: nat := 1000

  datatype Json =
    | Null
    | False
    | True
    | Int(n: i64)
    | Double(numeral: string)            // the double strtod reads from the numeral
    | Str(s: string)
    | Arr(items: seq<Json>)
    | Obj(members: seq<Member>)

  datatype Member = Member(key: string, value: Json)

  // ---------------------------------------------------------------------------------------------
  // Printing
  // ---------------------------------------------------------------------------------------------

  /** What is printed between the quotes for one character. */
  function Escaped(c: char): (s: string)
    ensures |s| >= 1
  {
    if c == '\\' then "\\\\"
    else if c == '\"' then "\\\""
    else if c as int == 8 then "\\b"
    else if c as int == 12 then "\\f"
    else if c == '\n' then "\\n"
    else if c == '\r' then "\\r"
    else if c == '\t' then "\\t"
    else if c as int < 32 then "\\u" + Padded(c as int, 4, 16)
    else [c]
  }

  function EscapedText(s: string): string {
    if s == "" then "" else Escaped(s[0]) + EscapedText(s[1..])
  }

  function Quoted(s: string): string { "\"" + (EscapedText(s) + "\"") }

  function Tabs(n: nat): string { seq(n, _ => '\t') }

  /** Printed text without doubles. */
  predicate Printable(v: Json) {
    match v
    case Double(_) => false
    case Arr(items) => forall k :: 0 <= k < |items| ==> Printable(items[k])
    case Obj(members) => forall k :: 0 <= k < |members| ==> Printable(members[k].value)
    case _ => true
  }

  function Print(v: Json, format: bool, depth: nat): string
    requires Printable(v)
    decreases v, 0
  {
    match v
    case Null => "null"
    case False => "false"
    case True => "true"
    case Int(n) => DecimalText(n)
    case Str(s) => Quoted(s)
    case Arr(items) => "[" + PrintItems(items, format, depth + 1)
    case Obj(members) => "{" + ((if format then "\n" else "") + PrintMembers(members, format, depth + 1))
  }

  /** The rest of an array from the given items on, with the closing bracket. */
  function PrintItems(items: seq<Json>, format: bool, depth: nat): string
    requires forall k :: 0 <= k < |items| ==> Printable(items[k])
    decreases items, 1
  {
    if items == [] then "]" else
      Print(items[0], format, depth) +
      ((if |items| == 1 then "" else if format then ", " else ",") + PrintItems(items[1..], format, depth))
  }

  /** The rest of an object from the given members on, with the closing brace. */
  function PrintMembers(members: seq<Member>, format: bool, depth: nat): string
    requires depth > 0 && forall k :: 0 <= k < |members| ==> Printable(members[k].value)
    decreases members, 1
  {
    if members == [] then (if format then Tabs(depth - 1) else "") + "}" else
      (if format then Tabs(depth) else "") + (Quoted(members[0].key) + ((if format then ":\t" else ":") +
      (Print(members[0].value, format, depth) +
      ((if |members| == 1 then "" else ",") + ((if format then "\n" else "") + PrintMembers(members[1..], format, depth))))))
  }

  // ---------------------------------------------------------------------------------------------
  // Scanning
  // ---------------------------------------------------------------------------------------------

  predicate IsSpace(c: char) { c as int <= 32 }

  /** The first character from i on that is not blank, or the end. */
  function FirstInk(d: string, i: nat): (j: nat)
    requires i <= |d|
    ensures i <= j <= |d|
    ensures forall k :: i <= k < j ==> IsSpace(d[k])
    ensures j < |d| ==> !IsSpace(d[j])
    decreases |d| - i
  {
    if i < |d| && IsSpace(d[i]) then FirstInk(d, i + 1) else i
  }

  /** buffer_skip_whitespace: at the end of the buffer it steps back onto the last character. */
  function Skip(d: string, i: nat): (j: nat)
    requires i <= |d|
    ensures i <= j <= |d| && (i < |d| ==> j < |d|)
  {
    if i < |d| && FirstInk(d, i) == |d| then |d| - 1 else FirstInk(d, i)
  }

  predicate CharIs(d: string, i: nat, c: char) { i < |d| && d[i] == c }

  // ---------------------------------------------------------------------------------------------
  // Strings
  // ---------------------------------------------------------------------------------------------

  /** The closing quote, skipping over escaped characters. */
  function ScanEnd(d: string, j: nat): (r: Option<nat>)
    requires j <= |d|
    ensures r.Some? ==> j <= r.value < |d| && d[r.value] == '\"'
    decreases |d| - j
  {
    if j >= |d| then None
    else if d[j] == '\"' then Some(j)
    else if d[j] == '\\' then (if j + 1 >= |d| then None else ScanEnd(d, j + 2))
    else ScanEnd(d, j + 1)
  }

  /** parse_hex4: zero when a digit is not hexadecimal. */
  function Hex4(s: string): (h: nat)
    requires |s| == 4
    ensures h < 0x10000
  {
    if forall k :: 0 <= k < 4 ==> IsDigit(s[k], 16)
    then ((DigitValue(s[0]) * 16 + DigitValue(s[1])) * 16 + DigitValue(s[2])) * 16 + DigitValue(s[3])
    else 0
  }

  function Byte(x: nat): char
    requires x < 256
  {
    x as char
  }

  /** The UTF-8 encoding of a code point. */
  function Utf8(cp: nat): (s: string)
    requires cp <= 0x10FFFF
    ensures 1 <= |s| <= 4
  {
    if cp < 0x80 then [Byte(cp)]
    else if cp < 0x800 then [Byte(0xC0 + cp / 64), Byte(0x80 + cp % 64)]
    else if cp < 0x10000 then [Byte(0xE0 + cp / 4096), Byte(0x80 + cp / 64 % 64), Byte(0x80 + cp % 64)]
    else [Byte(0xF0 + cp / 262144), Byte(0x80 + cp / 4096 % 64), Byte(0x80 + cp / 64 % 64), Byte(0x80 + cp % 64)]
  }

  /** utf16_literal_to_utf8 on the text from the backslash on: the bytes and the length of the literal. */
  function Utf16Literal(s: string): (r: Option<(string, nat)>)
    ensures r.Some? ==> r.value.1 <= |s|
    ensures r.Some? ==> (r.value.1 == 6 && 1 <= |r.value.0| <= 3) || (r.value.1 == 12 && 1 <= |r.value.0| <= 4)
  {
    if |s| < 6 then None else
      var first := Hex4(s[2..6]);
      if 0xDC00 <= first <= 0xDFFF then None
      else if 0xD800 <= first <= 0xDBFF then
        if |s| < 12 || s[6] != '\\' || s[7] != 'u' then None else
          var second := Hex4(s[8..12]);
          if second < 0xDC00 || second > 0xDFFF then None
          else Some((Utf8(0x10000 + (first - 0xD800) * 0x400 + (second - 0xDC00)), 12))
      else Some((Utf8(first), 6))
  }

  function Simple(c: char): Option<char> {
    if c == 'b' then Some(8 as char)
    else if c == 'f' then Some(12 as char)
    else if c == 'n' then Some('\n')
    else if c == 'r' then Some('\r')
    else if c == 't' then Some('\t')
    else if c == '\"' || c == '\\' || c == '/' then Some(c)
    else None
  }

  /** What one step of the copying loop reads, and how far it moves; the text is followed by the closing quote. */
  function Unit(s: string): (r: Option<(string, nat)>)
    requires s != ""
    ensures r.Some? ==> r.value.1 >= 1 && 1 <= |r.value.0| <= 4
  {
    if s[0] != '\\' then Some(([s[0]], 1)) else
      var c := if |s| > 1 then s[1] else '\"';
      if c == 'u' then Utf16Literal(s)
      else match Simple(c)
        case None => None
        case Some(x) => Some(([x], 2))
  }

  /** The bytes of a string literal, given the text between its quotes. */
  function Unescape(s: string): (r: Option<string>)
    decreases |s|
  {
    if s == "" then Some("") else
      var (out, n) :- Unit(s);
      var rest :- Unescape(if n <= |s| then s[n..] else "");
      Some(out + rest)
  }

  /** The C string in a buffer: what stands before the first zero. */
  function CString(s: string): (r: string)
    ensures '\0' !in r && |r| <= |s|
    ensures '\0' !in s ==> r == s
    ensures r == s[..|r|] && (|r| < |s| ==> s[|r|] == '\0')
  {
    Before(s, '\0')
  }

  function ParseString(d: string, i: nat): (r: Parse<string>)
    requires i <= |d|
    ensures r.Ok? ==> i < r.next <= |d| && '\0' !in r.value
  {
    if i >= |d| || d[i] != '\"' then Fail else
      match ScanEnd(d, i + 1)
      case None => Fail
      case Some(end) =>
        match Unescape(d[i + 1..end])
        case None => Fail
        case Some(out) => Ok(CString(out), end + 1)
  }

  // ---------------------------------------------------------------------------------------------
  // Numbers
  // ---------------------------------------------------------------------------------------------

  predicate IsNumberChar(c: char) {
    '0' <= c <= '9' || c == '+' || c == '-' || c == 'e' || c == 'E' || c == '.'
  }

  function NumberEnd(d: string, i: nat): (j: nat)
    requires i <= |d|
    ensures i <= j <= |d|
    ensures forall k :: i <= k < j ==> IsNumberChar(d[k])
    ensures j < |d| ==> !IsNumberChar(d[j])
    decreases |d| - i
  {
    if i < |d| && IsNumberChar(d[i]) then NumberEnd(d, i + 1) else i
  }

  /** The integer strtoll reads when it reads the whole text and the value fits. */
  function IntOf(s: string): Option<i64> {
    var signed := s != "" && (s[0] == '-' || s[0] == '+');
    var digits := if signed then s[1..] else s;
    if digits == "" || !IsNumeral(digits, 10) then None else
      var x := if signed && s[0] == '-' then 0 - NumValue(digits, 10) as int else NumValue(digits, 10);
      if -0x8000_0000_0000_0000 <= x <= 0x7FFF_FFFF_FFFF_FFFF then Some(x) else None
  }

  function DigitRun(s: string, i: nat): (j: nat)
    requires i <= |s|
    ensures i <= j <= |s|
    decreases |s| - i
  {
    if i < |s| && '0' <= s[i] <= '9' then DigitRun(s, i + 1) else i
  }

  /** How much strtod reads: sign, digits with at most one point, and an exponent if it has digits. */
  function DoubleEnd(s: string): (j: nat)
    ensures j <= |s|
  {
    var a := if s != "" && (s[0] == '-' || s[0] == '+') then 1 else 0;
    var b := DigitRun(s, a);
    var c := if b < |s| && s[b] == '.' then DigitRun(s, b + 1) else b;
    if c - a == 0 || (c == b + 1 && b == a) then 0 else
      var e := if c < |s| && (s[c] == 'e' || s[c] == 'E') then
                 (if c + 1 < |s| && (s[c + 1] == '-' || s[c + 1] == '+') then c + 2 else c + 1) else c;
      if e > c && DigitRun(s, e) > e then DigitRun(s, e) else c
  }

  function ParseNumber(d: string, i: nat): (r: Parse<Json>)
    requires i <= |d|
    ensures r.Ok? ==> i < r.next <= |d|
  {
    var s := d[i..NumberEnd(d, i)];
    var n := if '.' in s || 'e' in s || 'E' in s then None else IntOf(s);
    if n.Some? then Ok(Int(n.value), i + |s|)
    else if DoubleEnd(s) == 0 then Fail
    else Ok(Double(s[..DoubleEnd(s)]), i + DoubleEnd(s))
  }

  // ---------------------------------------------------------------------------------------------
  // Values
  // ---------------------------------------------------------------------------------------------

  function ParseValue(d: string, i: nat, depth: nat): (r: Parse<Json>)
    requires i <= |d|
    ensures r.Ok? ==> i < r.next <= |d|
    decreases |d| - i, 1
  {
    if At(d, i, "null") then Ok(Null, i + 4)
    else if At(d, i, "false") then Ok(False, i + 5)
    else if At(d, i, "true") then Ok(True, i + 4)
    else if i >= |d| then Fail
    else if d[i] == '\"' then
      var (s, j) :- ParseString(d, i);
      Ok(Str(s), j)
    else if d[i] == '-' || '0' <= d[i] <= '9' then ParseNumber(d, i)
    else if d[i] == '[' then ParseArray(d, i, depth)
    else if d[i] == '{' then ParseObject(d, i, depth)
    else Fail
  }

  function ParseArray(d: string, i: nat, depth: nat): (r: Parse<Json>)
    requires i < |d|
    ensures r.Ok? ==> i < r.next <= |d|
    decreases |d| - i, 0
  {
    if depth >= NESTING_LIMIT then Fail else
      var j := Skip(d, i + 1);
      if CharIs(d, j, ']') then Ok(Arr([]), j + 1)
      else if j >= |d| then Fail
      else
        var (items, k) :- ParseItems(d, j, depth + 1);
        Ok(Arr(items), k)
  }

  /** The items of an array from i on, up to the closing bracket. */
  function ParseItems(d: string, i: nat, depth: nat): (r: Parse<seq<Json>>)
    requires i <= |d|
    ensures r.Ok? ==> i < r.next <= |d|
    decreases |d| - i, 2
  {
    var (v, k) :- ParseValue(d, Skip(d, i), depth);
    var m := Skip(d, k);
    if CharIs(d, m, ',') then
      var (rest, n) :- ParseItems(d, m + 1, depth);
      Ok([v] + rest, n)
    else if CharIs(d, m, ']') then Ok([v], m + 1)
    else Fail
  }

  function ParseObject(d: string, i: nat, depth: nat): (r: Parse<Json>)
    requires i < |d|
    ensures r.Ok? ==> i < r.next <= |d|
    decreases |d| - i, 0
  {
    if depth >= NESTING_LIMIT then Fail else
      var j := Skip(d, i + 1);
      if CharIs(d, j, '}') then Ok(Obj([]), j + 1)
      else if j >= |d| then Fail
      else
        var (members, k) :- ParseMembers(d, j, depth + 1);
        Ok(Obj(members), k)
  }

  /** A key, a colon and a value. */
  function ParseMember(d: string, i: nat, depth: nat): (r: Parse<Member>)
    requires i <= |d|
    ensures r.Ok? ==> i < r.next <= |d|
    decreases |d| - i, 2
  {
    if i >= |d| then Fail else
      var (key, k) :- ParseString(d, Skip(d, i));
      var m := Skip(d, k);
      if !CharIs(d, m, ':') then Fail else
        var (v, o) :- ParseValue(d, Skip(d, m + 1), depth);
        Ok(Member(key, v), o)
  }

  /** The members of an object from i on, up to the closing brace. */
  function ParseMembers(d: string, i: nat, depth: nat): (r: Parse<seq<Member>>)
    requires i <= |d|
    ensures r.Ok? ==> i < r.next <= |d|
    decreases |d| - i, 3
  {
    var (member, o) :- ParseMember(d, i, depth);
    var p := Skip(d, o);
    if CharIs(d, p, ',') then
      var (rest, n) :- ParseMembers(d, p + 1, depth);
      Ok([member] + rest, n)
    else if CharIs(d, p, '}') then Ok([member], p + 1)
    else Fail
  }

  /** Where parsing starts: after a byte order mark and blanks. */
  function Start(d: string): (i: nat)
    requires d != ""
    ensures i <= |d|
  {
    Skip(d, if |d| > 4 && At(d, 0, [0xEF as char, 0xBB as char, 0xBF as char]) then 3 else 0)
  }

  /** cJSON_ParseWithLengthOpts: the value, if there is one, and with `whole` only blanks and the terminating zero after it. */
  function ParseBuffer(d: string, whole: bool): Option<Json> {
    if d == "" then None else
      match ParseValue(d, Start(d), 0)
      case Fail => None
      case Ok(v, next) => if whole && !CharIs(d, Skip(d, next), '\0') then None else Some(v)
  }

  /** cJSON_ParseWithOpts: the text and its terminating zero. */
  function ParseText(text: string, whole: bool): Option<Json> {
    ParseBuffer(text + "\0", whole)
  }
}
