/** Properties of the JSON parser over every input: what it returns can be printed and read again, \u literals denote
    their code points, and the buffer allocated for a string is large enough. */
module JsonTexts {
  import opened Words
  import opened Parsing
  import opened Options
  import opened Numerals
  import opened Json
  import opened JsonRoundTrip

  // ---------------------------------------------------------------------------------------------
  // Whatever is parsed can be printed and parsed again
  // ---------------------------------------------------------------------------------------------

  /** Free of doubles implies sound, and within the nesting limit. */
  predicate Stable(v: Json, depth: nat) {
    Printable(v) ==> Sound(v) && depth + Nesting(v) <= NESTING_LIMIT
  }

  lemma {:induction false} ValueStable(d: string, i: nat, depth: nat)
    requires i <= |d| && depth <= NESTING_LIMIT && ParseValue(d, i, depth).Ok?
    ensures Stable(ParseValue(d, i, depth).value, depth)
    decreases |d| - i, 1
  {
    hide ParseArray, ParseObject, ParseNumber, ParseString;
    var r := ParseValue(d, i, depth);
    if i < |d| && !At(d, i, "null") && !At(d, i, "false") && !At(d, i, "true") {
      if d[i] == '[' {
        ArrayStable(d, i, depth);
      } else if d[i] == '{' {
        ObjectStable(d, i, depth);
      } else if d[i] != '\"' {
        assert ParseNumber(d, i).Ok? && !ParseNumber(d, i).value.Arr? && !ParseNumber(d, i).value.Obj?
          && !ParseNumber(d, i).value.Str? by { NumberIsNumber(d, i); }
      }
    }
  }

  lemma NumberIsNumber(d: string, i: nat)
    requires i <= |d| && ParseNumber(d, i).Ok?
    ensures ParseNumber(d, i).value.Int? || ParseNumber(d, i).value.Double?
  {
  }

  lemma {:induction false} ArrayStable(d: string, i: nat, depth: nat)
    requires i < |d| && depth <= NESTING_LIMIT && ParseArray(d, i, depth).Ok?
    ensures Stable(ParseArray(d, i, depth).value, depth)
    decreases |d| - i, 0
  {
    hide ParseItems, Skip, Nesting;
    var v := ParseArray(d, i, depth).value;
    NestingOf(v);
    if v.items != [] { ItemsStable(d, Skip(d, i + 1), depth + 1); }
  }

  lemma NestingOf(v: Json)
    ensures v.Arr? ==> Nesting(v) == 1 + DeepestItem(v.items)
    ensures v.Obj? ==> Nesting(v) == 1 + DeepestMember(v.members)
  {
  }

  lemma {:induction false} ItemsStable(d: string, i: nat, depth: nat)
    requires i <= |d| && depth <= NESTING_LIMIT && ParseItems(d, i, depth).Ok?
    ensures var items := ParseItems(d, i, depth).value;
      (forall k :: 0 <= k < |items| ==> Printable(items[k])) ==>
        (forall k :: 0 <= k < |items| ==> Sound(items[k])) && depth + DeepestItem(items) <= NESTING_LIMIT
    decreases |d| - i, 2
  {
    hide ParseValue, Skip, Printable, Sound, Nesting;
    var items := ParseItems(d, i, depth).value;
    var first := ParseValue(d, Skip(d, i), depth);
    ValueStable(d, Skip(d, i), depth);
    var m := Skip(d, first.next);
    assert items[0] == first.value;
    if CharIs(d, m, ',') {
      ItemsStable(d, m + 1, depth);
      assert items[1..] == ParseItems(d, m + 1, depth).value;
    } else {
      assert items[1..] == [];
    }
    assert forall k :: 0 < k < |items| ==> items[k] == items[1..][k - 1];
  }

  lemma {:induction false} ObjectStable(d: string, i: nat, depth: nat)
    requires i < |d| && depth <= NESTING_LIMIT && ParseObject(d, i, depth).Ok?
    ensures Stable(ParseObject(d, i, depth).value, depth)
    decreases |d| - i, 0
  {
    hide ParseMembers, Skip, Nesting;
    var v := ParseObject(d, i, depth).value;
    NestingOf(v);
    if v.members != [] { MembersStable(d, Skip(d, i + 1), depth + 1); }
  }

  lemma {:induction false} MemberStable(d: string, i: nat, depth: nat)
    requires i <= |d| && depth <= NESTING_LIMIT && ParseMember(d, i, depth).Ok?
    ensures var m := ParseMember(d, i, depth).value; '\0' !in m.key && Stable(m.value, depth)
    decreases |d| - i, 2
  {
    hide ParseValue, Skip, ParseString, Stable;
    var key := ParseString(d, Skip(d, i));
    ValueStable(d, Skip(d, Skip(d, key.next) + 1), depth);
  }

  lemma {:induction false} MembersStable(d: string, i: nat, depth: nat)
    requires i <= |d| && depth <= NESTING_LIMIT && ParseMembers(d, i, depth).Ok?
    ensures var members := ParseMembers(d, i, depth).value;
      (forall k :: 0 <= k < |members| ==> Printable(members[k].value)) ==>
        (forall k :: 0 <= k < |members| ==> '\0' !in members[k].key && Sound(members[k].value))
        && depth + DeepestMember(members) <= NESTING_LIMIT
    decreases |d| - i, 3
  {
    hide ParseMember, Skip, Printable, Sound, Nesting;
    var members := ParseMembers(d, i, depth).value;
    var first := ParseMember(d, i, depth);
    MemberStable(d, i, depth);
    var p := Skip(d, first.next);
    assert members[0] == first.value;
    if CharIs(d, p, ',') {
      MembersStable(d, p + 1, depth);
      assert members[1..] == ParseMembers(d, p + 1, depth).value;
    } else {
      assert members[1..] == [];
    }
    assert forall k :: 0 < k < |members| ==> members[k] == members[1..][k - 1];
  }

  /** Whatever text was parsed, printing the value in either style and parsing that gives the same value. */
  lemma Reprint(d: string, whole: bool, format: bool)
    requires ParseBuffer(d, whole).Some? && Printable(ParseBuffer(d, whole).value)
    ensures var v := ParseBuffer(d, whole).value; ParseText(Print(v, format, 0), true) == Some(v)
  {
    hide ParseValue, Sound, Printable, Print, Nesting, ParseText;
    ValueStable(d, Start(d), 0);
    ParsePrinted(ParseBuffer(d, whole).value, format, true);
  }

  // ---------------------------------------------------------------------------------------------
  // \u literals
  // ---------------------------------------------------------------------------------------------

  /** The code point of a UTF-8 sequence, from the payload bits of its bytes. */
  function CodePoint(s: string): int
    requires 1 <= |s| <= 4
  {
    var b := (k: int) requires 0 <= k < |s| => s[k] as int;
    if |s| == 1 then b(0)
    else if |s| == 2 then (b(0) - 0xC0) * 64 + (b(1) - 0x80)
    else if |s| == 3 then ((b(0) - 0xE0) * 64 + (b(1) - 0x80)) * 64 + (b(2) - 0x80)
    else (((b(0) - 0xF0) * 64 + (b(1) - 0x80)) * 64 + (b(2) - 0x80)) * 64 + (b(3) - 0x80)
  }

  /** UTF-8 can be decoded, and uses the shortest form with the right marks. */
  lemma Utf8Decodes(cp: nat)
    requires cp <= 0x10FFFF
    ensures var s := Utf8(cp);
      && CodePoint(s) == cp
      && |s| == (if cp < 0x80 then 1 else if cp < 0x800 then 2 else if cp < 0x10000 then 3 else 4)
      && (forall k :: 0 < k < |s| ==> 0x80 <= s[k] as int < 0xC0)
      && s[0] as int < 0xF5
  {
    var q, r := cp / 64, cp % 64;
    var p := q / 64;
    assert cp == q * 64 + r && q == p * 64 + q % 64;
    assert cp / 4096 == p && cp / 262144 == p / 64 && p == p / 64 * 64 + p % 64;
  }

  /** The escapes RFC 8259 prescribes for a code point: one literal, or a surrogate pair. */
  function UEscape(cp: nat): string
    requires cp <= 0x10FFFF
  {
    if cp < 0x10000 then "\\u" + Padded(cp, 4, 16) else
      "\\u" + Padded(0xD800 + (cp - 0x10000) / 0x400, 4, 16) + ("\\u" + Padded(0xDC00 + (cp - 0x10000) % 0x400, 4, 16))
  }

  lemma Hex4Padded(x: nat)
    requires x < 0x10000
    ensures Hex4(Padded(x, 4, 16)) == x
  {
    var a, b, c := x / 16, x / 256, x / 4096;
    assert a / 16 == b && b / 16 == c && c / 16 == 0;
    assert x == a * 16 + x % 16 && a == b * 16 + a % 16 && b == c * 16 + b % 16;
    assert Padded(x, 4, 16) == Padded(a, 3, 16) + [DigitChar(x % 16)];
    assert Padded(a, 3, 16) == Padded(b, 2, 16) + [DigitChar(a % 16)];
    assert Padded(b, 2, 16) == Padded(c, 1, 16) + [DigitChar(b % 16)];
    assert Padded(c, 1, 16) == [] + [DigitChar(c % 16)];
    DigitBack(x % 16);
    DigitBack(a % 16);
    DigitBack(b % 16);
    DigitBack(c % 16);
  }

  /** Every code point written as \u escapes, surrogate pairs included, is read as its UTF-8 encoding. */
  lemma UEscapeBack(cp: nat, rest: string)
    requires cp <= 0x10FFFF && !(0xD800 <= cp <= 0xDFFF)
    ensures Utf16Literal(UEscape(cp) + rest) == Some((Utf8(cp), |UEscape(cp)|))
  {
    hide Hex4, Padded, Utf8;
    var s := UEscape(cp) + rest;
    if cp < 0x10000 {
      assert s[2..6] == Padded(cp, 4, 16);
      Hex4Padded(cp);
    } else {
      var x := cp - 0x10000;
      var hi, lo := 0xD800 + x / 0x400, 0xDC00 + x % 0x400;
      assert s[2..6] == Padded(hi, 4, 16) && s[8..12] == Padded(lo, 4, 16) && s[6] == '\\' && s[7] == 'u';
      Hex4Padded(hi);
      Hex4Padded(lo);
    }
  }

  /** A lone low surrogate and a high surrogate without its partner are rejected. */
  lemma LoneSurrogates(x: nat, rest: string)
    requires 0xD800 <= x <= 0xDFFF
    requires x <= 0xDBFF ==> |rest| < 2 || rest[0] != '\\' || rest[1] != 'u'
    ensures Utf16Literal("\\u" + Padded(x, 4, 16) + rest) == None
  {
    hide Hex4, Padded, Utf8;
    var s := "\\u" + Padded(x, 4, 16) + rest;
    assert s[2..6] == Padded(x, 4, 16);
    Hex4Padded(x);
    if x <= 0xDBFF && |s| >= 12 {
      assert s[6] == rest[0] && s[7] == rest[1];
    }
  }

  // ---------------------------------------------------------------------------------------------
  // The size of a string buffer
  // ---------------------------------------------------------------------------------------------

  /** The bytes the scan for the closing quote counts as skipped: one per backslash it passes over. A backslash at the
      very end does not occur there, since the scan would have passed over the quote. */
  function Skipped(s: string): (n: nat)
    ensures n <= |s|
  {
    if |s| <= 1 then 0
    else if s[0] == '\\' then 1 + Skipped(s[2..])
    else Skipped(s[1..])
  }

  /** Over n characters the scan counts at most half of them, if it goes on at m. */
  predicate Halves(s: string, n: nat, m: nat) {
    m <= |s| && 2 * Skipped(s) <= n + 1 + 2 * Skipped(s[m..])
  }

  /** It goes on after them, or one further. */
  lemma {:induction false} Advance(s: string, n: nat)
    requires n <= |s|
    ensures Halves(s, n, n) || Halves(s, n, n + 1)
    decreases n
  {
    hide Skipped;
    SkippedIs(s);
    if n == 0 {
      assert s[0..] == s;
    } else if |s| > 1 {
      if s[0] != '\\' {
        AdvanceBy(s, n, 1);
      } else if n >= 2 {
        AdvanceBy(s, n, 2);
      } else {
        assert s[n + 1..] == s[2..];
      }
    }
  }

  lemma AdvanceBy(s: string, n: nat, k: nat)
    requires 0 < k <= n <= |s| && 2 * Skipped(s) <= k + 2 * Skipped(s[k..])
    ensures Halves(s, n, n) || Halves(s, n, n + 1)
    decreases n, 0
  {
    hide Skipped;
    Advance(s[k..], n - k);
    assert s[k..][n - k..] == s[n..];
    assert n < |s| ==> s[k..][n - k + 1..] == s[n + 1..];
  }

  lemma UnitCases(s: string)
    requires s != "" && Unit(s).Some?
    ensures var (out, n) := Unit(s).value;
      || (n == 1 && |out| == 1 && s[0] != '\\')
      || (n == 2 && |out| == 1 && s[0] == '\\')
      || (n == 6 && |out| <= 3 && |s| >= 6 && s[0] == '\\')
      || (n == 12 && |out| <= 4 && |s| >= 12 && s[0] == '\\')
  {
  }

  /** Having copied out bytes from the first p characters, there is room for the rest: the scan either stood at p as
      well, or one further because invalid hexadecimal digits made the copying loop and the scan disagree. */
  predicate Room(s: string, p: nat, out: nat)
    requires p <= |s|
  {
    || out + Skipped(s) <= p + Skipped(s[p..])
    || (p < |s| && out + Skipped(s) <= p + Skipped(s[p + 1..]))
  }

  /** Every step of the copying loop stays within the room and keeps it. */
  lemma RoomStep(s: string, p: nat, out: nat)
    requires p < |s| && Room(s, p, out) && Unit(s[p..]).Some?
    ensures var (u, n) := Unit(s[p..]).value;
      out + |u| + Skipped(s) <= |s| && (p + n <= |s| ==> Room(s, p + n, out + |u|))
  {
    hide Unit, Skipped;
    var t := s[p..];
    var (u, n) := Unit(t).value;
    assert t[1..] == s[p + 1..];
    Worth(t);
    if n <= |t| {
      assert t[n..] == s[p + n..];
      assert n < |t| ==> t[n + 1..] == s[p + n + 1..];
    }
  }

  /** What the scan counts over the rest of the text, standing at p or one further. */
  predicate Pays(t: string, count: nat, size: nat, n: nat) {
    if n > |t| then size + count <= |t|
    else size + count <= n + Skipped(t[n..]) || (n < |t| && size + count <= n + Skipped(t[n + 1..]))
  }

  /** One step writes no more than it reads minus what the scan counted over it. */
  lemma Worth(t: string)
    requires t != "" && Unit(t).Some?
    ensures var (u, n) := Unit(t).value; Pays(t, Skipped(t), |u|, n) && Pays(t, Skipped(t[1..]), |u|, n)
  {
    hide Unit, Skipped;
    var (u, n) := Unit(t).value;
    UnitCases(t);
    if n == 1 {
      SkippedIs(t);
    } else if n == 2 {
      RoomForPair(t);
    } else {
      Advance(t, n);
      Advance(t[1..], n - 1);
      assert t[n..] == t[1..][n - 1..];
      assert n < |t| ==> t[n + 1..] == t[1..][n..];
    }
  }

  /** A backslash and the character after it, wherever the scan stood. */
  lemma RoomForPair(t: string)
    requires t != "" && t[0] == '\\'
    ensures |t| <= 2 ==> Skipped(t) <= |t| - 1 && Skipped(t[1..]) == 0
    ensures |t| == 2 ==> Skipped(t[2..]) == 0
    ensures |t| > 2 ==> Skipped(t) == 1 + Skipped(t[2..])
    ensures |t| > 2 ==> Skipped(t[1..]) == Skipped(t[2..]) || Skipped(t[1..]) == 1 + Skipped(t[3..])
  {
    hide Skipped;
    SkippedIs(t);
    SkippedIs(t[1..]);
    if |t| > 1 { SkippedIs(t[2..]); }
    if |t| > 2 { assert t[1..][1..] == t[2..] && t[1..][2..] == t[3..]; }
  }

  lemma SkippedIs(s: string)
    ensures Skipped(s) == if |s| <= 1 then 0 else if s[0] == '\\' then 1 + Skipped(s[2..]) else Skipped(s[1..])
  {
  }

  lemma {:induction false} RoomForAll(s: string, p: nat, out: nat)
    requires p <= |s| && Room(s, p, out) && Unescape(s[p..]).Some?
    ensures out + |Unescape(s[p..]).value| + Skipped(s) <= |s|
    decreases |s| - p
  {
    hide Unit;
    if p < |s| {
      RoomStep(s, p, out);
      var (u, n) := Unit(s[p..]).value;
      if p + n <= |s| {
        assert s[p..][n..] == s[p + n..];
        RoomForAll(s, p + n, out + |u|);
      }
    }
  }

  /** The bytes of a string literal never outgrow the text between the quotes minus the bytes skipped. */
  lemma UnescapeFits(s: string)
    requires Unescape(s).Some?
    ensures |Unescape(s).value| <= |s| - Skipped(s)
  {
    assert s[0..] == s;
    RoomForAll(s, 0, 0);
  }
}
