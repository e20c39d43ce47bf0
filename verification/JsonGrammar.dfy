/** The texts of JSON values, written apart from the parser: tokens with blanks between them, and the trees that give a
    sequence of tokens its value. `Strict` picks out the trees of RFC 8259; the other trees are the ones that src/cJSON.c
    takes in addition. A character stands for one byte. */
module JsonGrammar {
  import opened Parsing
  import opened Options
  import opened Json

  // ---------------------------------------------------------------------------------------------
  // Strings
  // ---------------------------------------------------------------------------------------------

  /** What stands for one piece of a string. */
  datatype Piece =
    | Plain(c: char)                    // itself
    | Short(c: char)                    // a backslash and one character
    | Code(h: string)                   // \u and four hexadecimal digits
    | Pair(h: string, l: string)        // two of them, a high and a low surrogate
    | Broken(h: string)                 // \u and four characters that are not all hexadecimal digits
    | Lone                              // a backslash before the closing quote

  function PieceText(u: Piece): (s: string)
    ensures s != ""
  {
    match u
    case Plain(c) => [c]
    case Short(c) => ['\\', c]
    case Code(h) => "\\u" + h
    case Pair(h, l) => "\\u" + h + ("\\u" + l)
    case Broken(h) => "\\u" + h
    case Lone => "\\"
  }

  function HexDigit(c: char): int {
    if '0' <= c <= '9' then c as int - 48
    else if 'A' <= c <= 'F' then c as int - 55
    else if 'a' <= c <= 'f' then c as int - 87
    else -1
  }

  predicate IsHex(h: string) {
    |h| == 4 && HexDigit(h[0]) >= 0 && HexDigit(h[1]) >= 0 && HexDigit(h[2]) >= 0 && HexDigit(h[3]) >= 0
  }

  function Point(h: string): (x: nat)
    requires IsHex(h)
    ensures x < 0x10000
  {
    4096 * HexDigit(h[0]) + 256 * HexDigit(h[1]) + 16 * HexDigit(h[2]) + HexDigit(h[3])
  }

  predicate PieceOk(u: Piece) {
    match u
    case Plain(c) => c != '\\'
    case Short(c) => c in "\"\\/bfnrt"
    case Code(h) => IsHex(h) && !(0xD800 <= Point(h) <= 0xDFFF)
    case Pair(h, l) => IsHex(h) && IsHex(l) && 0xD800 <= Point(h) <= 0xDBFF && 0xDC00 <= Point(l) <= 0xDFFF
    case Broken(h) => |h| == 4 && !IsHex(h)
    case Lone => true
  }

  function PieceBytes(u: Piece): string
    requires PieceOk(u)
  {
    match u
    case Plain(c) => [c]
    case Short(c) =>
      if c == 'b' then [8 as char] else if c == 't' then [9 as char] else if c == 'n' then [10 as char]
      else if c == 'f' then [12 as char] else if c == 'r' then [13 as char] else [c]
    case Code(h) => Utf8(Point(h))
    case Pair(h, l) => Utf8(0x10000 + 0x400 * (Point(h) - 0xD800) + (Point(l) - 0xDC00))
    case Broken(_) => [0 as char]
    case Lone => "\""
  }

  predicate PiecesOk(us: seq<Piece>) {
    forall k :: 0 <= k < |us| ==> PieceOk(us[k]) && (us[k] == Lone ==> k == |us| - 1)
  }

  function PiecesText(us: seq<Piece>): string {
    if us == [] then "" else PieceText(us[0]) + PiecesText(us[1..])
  }

  function PiecesBytes(us: seq<Piece>): string
    requires PiecesOk(us)
  {
    if us == [] then "" else PieceBytes(us[0]) + PiecesBytes(us[1..])
  }

  /** No quote in it ends the string: each one has a backslash in front that is not itself escaped. */
  predicate Sealed(s: string) {
    s == "" || (if s[0] == '\\' then |s| >= 2 && Sealed(s[2..]) else s[0] != '\"' && Sealed(s[1..]))
  }

  /** RFC 8259: no control characters, quotes and backslashes only in escapes. */
  predicate StrictPiece(u: Piece) {
    match u
    case Plain(c) => 0x20 <= c as int && c != '\"' && c != '\\'
    case Broken(_) => false
    case Lone => false
    case _ => PieceOk(u)
  }

  predicate StrictPieces(us: seq<Piece>) { forall k :: 0 <= k < |us| ==> StrictPiece(us[k]) }

  // ---------------------------------------------------------------------------------------------
  // Numerals
  // ---------------------------------------------------------------------------------------------

  predicate Digits(s: string) { forall k :: 0 <= k < |s| ==> '0' <= s[k] <= '9' }

  /** An exponent: e or E, an optional sign, digits. */
  datatype Exponent = Exponent(mark: char, sign: string, digits: string)

  datatype Numeral = Numeral(minus: bool, whole: string, fraction: Option<string>, exponent: Option<Exponent>)

  function FractionText(f: Option<string>): string {
    match f case None => "" case Some(s) => "." + s
  }

  function ExponentText(e: Option<Exponent>): string {
    match e case None => "" case Some(x) => [x.mark] + (x.sign + x.digits)
  }

  function NumeralText(n: Numeral): string {
    (if n.minus then "-" else "") + (n.whole + (FractionText(n.fraction) + ExponentText(n.exponent)))
  }

  predicate ExponentOk(e: Option<Exponent>) {
    e.Some? ==> e.value.mark in "eE" && e.value.sign in ["", "+", "-"] && e.value.digits != "" && Digits(e.value.digits)
  }

  /** A digit before the exponent, and the minus sign or a digit in front. */
  predicate NumeralOk(n: Numeral) {
    && Digits(n.whole) && (n.fraction.Some? ==> Digits(n.fraction.value)) && ExponentOk(n.exponent)
    && (n.whole != "" || (n.minus && n.fraction.Some? && n.fraction.value != ""))
  }

  /** RFC 8259: no superfluous leading zero, digits on both sides of the point. */
  predicate StrictNumeral(n: Numeral) {
    NumeralOk(n) && n.whole != "" && (|n.whole| > 1 ==> n.whole[0] != '0') && (n.fraction.Some? ==> n.fraction.value != "")
  }

  function Decimal(s: string): nat
    requires Digits(s)
  {
    if s == "" then 0 else 10 * Decimal(s[..|s| - 1]) + (s[|s| - 1] as int - 48)
  }

  predicate NumeralChar(c: char) { '0' <= c <= '9' || c in "+-.eE" }

  /** An integer where it is one, fits 64 bits and is not cut off; otherwise the double that the numeral denotes. */
  function NumeralValue(n: Numeral, cut: bool): Json
    requires NumeralOk(n)
  {
    var x: int := if n.minus then -(Decimal(n.whole) as int) else Decimal(n.whole);
    if n.fraction.None? && n.exponent.None? && !cut && -0x8000_0000_0000_0000 <= x <= 0x7FFF_FFFF_FFFF_FFFF then Int(x)
    else Double(NumeralText(n))
  }

  // ---------------------------------------------------------------------------------------------
  // Tokens
  // ---------------------------------------------------------------------------------------------

  datatype Token =
    | Mark(c: char)
    | Word(w: string)
    | Text(pieces: seq<Piece>)
    | Number(n: Numeral, cut: bool)     // cut: a character of numerals follows

  function TokenText(t: Token): string {
    match t
    case Mark(c) => [c]
    case Word(w) => w
    case Text(us) => "\"" + (PiecesText(us) + "\"")
    case Number(n, _) => NumeralText(n)
  }

  /** The token stands at k; a number is the longest one that does. */
  ghost predicate TokenAt(d: string, k: nat, t: Token) {
    && At(d, k, TokenText(t))
    && match t
       case Text(us) => PiecesOk(us) && Sealed(PiecesText(us))
       case Number(n, cut) => NumeralOk(n) && Longest(d, k, |NumeralText(n)|) && (cut <==> Followed(d, k + |NumeralText(n)|))
       case _ => true
  }

  ghost predicate Longest(d: string, k: nat, size: nat) {
    forall n :: NumeralOk(n) && At(d, k, NumeralText(n)) ==> |NumeralText(n)| <= size
  }

  predicate Followed(d: string, j: nat) { j < |d| && NumeralChar(d[j]) }

  /** Only blanks from i to k: spaces and control characters. */
  predicate Gap(d: string, i: nat, k: nat) {
    i <= k <= |d| && forall m :: i <= m < k ==> d[m] as int <= 32
  }

  /** The blanks of RFC 8259: space, tab, line feed and carriage return. */
  predicate StrictGap(d: string, i: nat, k: nat) {
    i <= k <= |d| && forall m :: i <= m < k ==> d[m] as int in {32, 9, 10, 13}
  }

  /** From i to j there are these tokens, each after any run of blanks. */
  ghost predicate Spelled(d: string, i: nat, ts: seq<Token>, j: nat)
    decreases |ts|
  {
    if ts == [] then i == j else exists k: nat :: TokenFrom(d, i, k, ts, j)
  }

  /** The first of them is at k. */
  ghost predicate TokenFrom(d: string, i: nat, k: nat, ts: seq<Token>, j: nat)
    requires ts != []
    decreases |ts|, 0
  {
    Gap(d, i, k) && TokenAt(d, k, ts[0]) && Spelled(d, k + |TokenText(ts[0])|, ts[1..], j)
  }

  // ---------------------------------------------------------------------------------------------
  // Trees
  // ---------------------------------------------------------------------------------------------

  datatype Tree =
    | NullTree
    | FalseTree
    | TrueTree
    | NumberTree(n: Numeral, cut: bool)
    | TextTree(pieces: seq<Piece>)
    | ListTree(items: seq<Tree>)
    | RecordTree(entries: seq<Entry>)

  datatype Entry = Entry(key: seq<Piece>, value: Tree)

  function Tokens(t: Tree): (ts: seq<Token>)
    ensures ts != []
    decreases t, 0
  {
    match t
    case NullTree => [Word("null")]
    case FalseTree => [Word("false")]
    case TrueTree => [Word("true")]
    case NumberTree(n, cut) => [Number(n, cut)]
    case TextTree(us) => [Text(us)]
    case ListTree(items) => [Mark('[')] + (ItemTokens(items) + [Mark(']')])
    case RecordTree(entries) => [Mark('{')] + (EntryTokens(entries) + [Mark('}')])
  }

  /** Items with commas between them. */
  function ItemTokens(items: seq<Tree>): seq<Token>
    decreases items, 1
  {
    if items == [] then [] else
      Tokens(items[0]) + if |items| == 1 then [] else [Mark(',')] + ItemTokens(items[1..])
  }

  function EntryTokens(entries: seq<Entry>): seq<Token>
    decreases entries, 1
  {
    if entries == [] then [] else
      [Text(entries[0].key), Mark(':')] + Tokens(entries[0].value) +
      if |entries| == 1 then [] else [Mark(',')] + EntryTokens(entries[1..])
  }

  /** All strings and numbers in it are well formed. */
  predicate TreeOk(t: Tree) {
    match t
    case NumberTree(n, _) => NumeralOk(n)
    case TextTree(us) => PiecesOk(us)
    case ListTree(items) => forall k :: 0 <= k < |items| ==> TreeOk(items[k])
    case RecordTree(entries) => forall k :: 0 <= k < |entries| ==> PiecesOk(entries[k].key) && TreeOk(entries[k].value)
    case _ => true
  }

  /** Strings end at the first zero character. */
  function StringValue(us: seq<Piece>): string
    requires PiecesOk(us)
  {
    CString(PiecesBytes(us))
  }

  function TreeValue(t: Tree): Json
    requires TreeOk(t)
    decreases t, 0
  {
    match t
    case NullTree => Null
    case FalseTree => False
    case TrueTree => True
    case NumberTree(n, cut) => NumeralValue(n, cut)
    case TextTree(us) => Str(StringValue(us))
    case ListTree(items) => Arr(ItemValues(items))
    case RecordTree(entries) => Obj(EntryValues(entries))
  }

  function ItemValues(items: seq<Tree>): seq<Json>
    requires forall k :: 0 <= k < |items| ==> TreeOk(items[k])
    decreases items, 1
  {
    if items == [] then [] else [TreeValue(items[0])] + ItemValues(items[1..])
  }

  function EntryValues(entries: seq<Entry>): seq<Member>
    requires forall k :: 0 <= k < |entries| ==> PiecesOk(entries[k].key) && TreeOk(entries[k].value)
    decreases entries, 1
  {
    if entries == [] then [] else
      [Member(StringValue(entries[0].key), TreeValue(entries[0].value))] + EntryValues(entries[1..])
  }

  /** At most n arrays and objects inside each other. */
  predicate Within(t: Tree, n: nat)
    decreases t
  {
    match t
    case ListTree(items) => n > 0 && forall k :: 0 <= k < |items| ==> Within(items[k], n - 1)
    case RecordTree(entries) => n > 0 && forall k :: 0 <= k < |entries| ==> Within(entries[k].value, n - 1)
    case _ => true
  }

  /** The trees of RFC 8259. */
  predicate Strict(t: Tree) {
    match t
    case NumberTree(n, cut) => StrictNumeral(n) && !cut
    case TextTree(us) => StrictPieces(us)
    case ListTree(items) => forall k :: 0 <= k < |items| ==> Strict(items[k])
    case RecordTree(entries) => forall k :: 0 <= k < |entries| ==> StrictPieces(entries[k].key) && Strict(entries[k].value)
    case _ => true
  }

  // ---------------------------------------------------------------------------------------------
  // Texts of RFC 8259
  // ---------------------------------------------------------------------------------------------

  predicate StrictToken(t: Token) {
    match t
    case Text(us) => StrictPieces(us)
    case Number(n, cut) => StrictNumeral(n) && !cut
    case _ => true
  }

  /** From i to j there are these tokens, each after any run of the blanks of RFC 8259. */
  ghost predicate Written(d: string, i: nat, ts: seq<Token>, j: nat)
    decreases |ts|
  {
    if ts == [] then i == j else exists k: nat :: WrittenFrom(d, i, k, ts, j)
  }

  ghost predicate WrittenFrom(d: string, i: nat, k: nat, ts: seq<Token>, j: nat)
    requires ts != []
    decreases |ts|, 0
  {
    StrictGap(d, i, k) && At(d, k, TokenText(ts[0])) && Written(d, k + |TokenText(ts[0])|, ts[1..], j)
  }

  /** The text is the tree's, with blanks before, between and after its tokens. */
  ghost predicate IsText(text: string, t: Tree) {
    Strict(t) && exists j: nat :: Written(text, 0, Tokens(t), j) && StrictGap(text, j, |text|)
  }

  /** What src/cJSON.c takes as a token and RFC 8259 does not: a number with a superfluous leading zero, without digits on
      one side of its point, or with characters of numerals after it; a string with control characters, or with \u in
      front of anything but four hexadecimal digits. */
  ghost predicate Extra(t: Token) {
    match t
    case Number(n, cut) =>
      cut || n.whole == "" || n.fraction == Some("") || (|n.whole| > 1 && n.whole[0] == '0')
    case Text(us) => exists k :: 0 <= k < |us| && ExtraPiece(us[k])
    case _ => false
  }

  predicate ExtraPiece(u: Piece) { u.Broken? || (u.Plain? && u.c as int < 0x20) }
}
