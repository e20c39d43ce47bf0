/** The parser of src/cJSON.c as it runs: a cursor with a nesting counter, and strings decoded into a buffer in place. */
module JsonParser {
  import opened Words
  import opened Parsing
  import opened Options
  import opened Json
  import opened JsonTexts
  import JsonDerivations
  import JsonRfc
  import JsonRoundTrip

  // ---------------------------------------------------------------------------------------------
  // Decoding a string in place
  // ---------------------------------------------------------------------------------------------

  /** The UTF-8 bytes of a code point, the last ones first. */
  method WriteUtf8(output: array<char>, at: nat, cp: nat)
    requires cp <= 0x10FFFF && at + |Utf8(cp)| <= output.Length
    modifies output
    ensures output[at..at + |Utf8(cp)|] == Utf8(cp)
    ensures output[..at] == old(output[..at])
  {
    hide Utf8, Above, Follower;
    var length := if cp < 0x80 then 1 else if cp < 0x800 then 2 else if cp < 0x10000 then 3 else 4;
    var mark := if length == 1 then 0 else if length == 2 then 0xC0 else if length == 3 then 0xE0 else 0xF0;
    var rest := cp;
    var position := length - 1;
    Utf8Bytes(cp, length, mark);
    AboveStep(cp, 0);
    while position > 0
      invariant 0 <= position < length
      invariant rest == Above(cp, length - 1 - position)
      invariant forall k :: position < k < length ==> output[at + k] == Utf8(cp)[k]
      invariant output[..at] == old(output[..at])
    {
      output[at + position] := Follower(rest);
      AboveStep(cp, length - position);
      rest := rest / 64;
      position := position - 1;
    }
    output[at] := Byte(mark + rest);
    assert output[at..at + length] == Utf8(cp);
  }

  /** The code point without its lowest n groups of six bits. */
  function Above(cp: nat, n: nat): nat {
    if n == 0 then cp else Above(cp, n - 1) / 64
  }

  lemma AboveStep(cp: nat, n: nat)
    ensures Above(cp, n) == if n == 0 then cp else Above(cp, n - 1) / 64
  {
  }

  /** The byte of the lowest six bits. */
  function Follower(x: nat): char {
    Byte(0x80 + x % 64)
  }

  /** The bytes of the encoding, each from its own six bits. */
  lemma Utf8Bytes(cp: nat, length: nat, mark: nat)
    requires cp <= 0x10FFFF
    requires length == if cp < 0x80 then 1 else if cp < 0x800 then 2 else if cp < 0x10000 then 3 else 4
    requires mark == if length == 1 then 0 else if length == 2 then 0xC0 else if length == 3 then 0xE0 else 0xF0
    ensures |Utf8(cp)| == length && mark + Above(cp, length - 1) < 256 && Utf8(cp)[0] == Byte(mark + Above(cp, length - 1))
    ensures forall k :: 0 < k < length ==> Utf8(cp)[k] == Follower(Above(cp, length - 1 - k))
  {
    assert Above(cp, 1) == cp / 64 && Above(cp, 2) == cp / 4096 && Above(cp, 3) == cp / 262144;
  }

  /** utf16_literal_to_utf8 at position p of the text: the length of the literal, zero when it is refused. */
  method DecodeLiteral(text: string, p: nat, output: array<char>, out: nat) returns (length: nat, written: nat)
    requires p <= |text| && out <= output.Length
    requires var r := Utf16Literal(text[p..]); r.Some? ==> out + |r.value.0| <= output.Length
    modifies output
    ensures length == 0 <==> Utf16Literal(text[p..]).None?
    ensures length > 0 ==> var u := Utf16Literal(text[p..]).value;
      && length == u.1 && written == out + |u.0| <= output.Length && output[..written] == old(output[..out]) + u.0
  {
    hide Utf8, Hex4;
    ghost var t := text[p..];
    written := out;
    if |text| - p < 6 { return 0, out; }
    assert text[p + 2..p + 6] == t[2..6];
    var first := Hex4(text[p + 2..p + 6]);
    if 0xDC00 <= first <= 0xDFFF { return 0, out; }
    var cp := first;
    length := 6;
    if 0xD800 <= first <= 0xDBFF {
      if |text| - (p + 6) < 6 { return 0, out; }
      assert text[p + 6] == t[6] && text[p + 7] == t[7];
      if text[p + 6] != '\\' || text[p + 7] != 'u' { return 0, out; }
      assert text[p + 8..p + 12] == t[8..12];
      var second := Hex4(text[p + 8..p + 12]);
      if second < 0xDC00 || second > 0xDFFF { return 0, out; }
      cp := 0x10000 + (first - 0xD800) * 0x400 + (second - 0xDC00);
      length := 12;
    }
    assert Utf16Literal(t) == Some((Utf8(cp), length));
    WriteUtf8(output, out, cp);
    written := out + |Utf8(cp)|;
    assert output[..written] == output[..out] + output[out..written];
  }

  /** What is still to be decoded from position p on; a lone backslash at the end takes the closing quote with it. */
  function Rest(text: string, p: nat): string {
    if p <= |text| then text[p..] else ""
  }

  /** The text decodes to what has been copied followed by what the rest decodes to. */
  ghost predicate Progress(text: string, p: nat, copied: string) {
    Unescape(text) == match Unescape(Rest(text, p)) case None => None case Some(r) => Some(copied + r)
  }

  lemma ProgressStep(text: string, p: nat, copied: string)
    requires p < |text| && Progress(text, p, copied)
    ensures Unit(text[p..]).None? ==> Unescape(text).None?
    ensures Unit(text[p..]).Some? ==> Progress(text, p + Unit(text[p..]).value.1, copied + Unit(text[p..]).value.0)
  {
    hide Unit;
    var t := text[p..];
    if Unit(t).Some? {
      var (u, n) := Unit(t).value;
      assert Rest(text, p + n) == if n <= |t| then t[n..] else "";
      if Unescape(Rest(text, p + n)).Some? {
        var r := Unescape(Rest(text, p + n)).value;
        assert copied + (u + r) == copied + u + r;
      }
    }
  }

  /** The second pass of parse_string: decode the text between the quotes into the buffer. */
  method Decode(text: string, output: array<char>) returns (r: Option<string>)
    requires output.Length == |text| + 1 - Skipped(text) + 1
    modifies output
    ensures r == match Unescape(text) case None => None case Some(out) => Some(CString(out))
  {
    hide Unescape, Unit, Utf16Literal, Skipped, CString, Progress, Room;
    var p: nat, out: nat := 0, 0;
    assert output[..0] == "";
    Beginning(text);
    while p < |text|
      invariant out <= output.Length
      invariant p <= |text| ==> Room(text, p, out)
      invariant out + Skipped(text) <= |text|
      invariant Progress(text, p, output[..out])
      decreases |text| - p
    {
      ghost var t, copied := text[p..], output[..out];
      ProgressStep(text, p, copied);
      if Unit(t).Some? { RoomStep(text, p, out); }
      UnitIs(t);
      if text[p] != '\\' {
        output[out] := text[p];
        assert output[..out + 1] == copied + [text[p]];
        p, out := p + 1, out + 1;
      } else {
        var c := if p + 1 < |text| then text[p + 1] else '\"';
        if c == 'u' {
          var length, written := DecodeLiteral(text, p, output, out);
          if length == 0 { return None; }
          p, out := p + length, written;
        } else {
          var x := Simple(c);
          if x.None? { return None; }
          output[out] := x.value;
          assert output[..out + 1] == copied + [x.value];
          p, out := p + 2, out + 1;
        }
      }
    }
    output[out] := '\0';
    Done(text, p, output[..out]);
    r := Some(CString(output[..out]));
  }

  lemma Beginning(text: string)
    ensures Progress(text, 0, "") && Room(text, 0, 0)
  {
    hide Unescape, Skipped;
    assert text[0..] == text;
    if Unescape(text).Some? { assert "" + Unescape(text).value == Unescape(text).value; }
  }

  lemma UnitIs(t: string)
    requires t != ""
    ensures Unit(t) == if t[0] != '\\' then Some(([t[0]], 1)) else
      var c := if |t| > 1 then t[1] else '\"';
      if c == 'u' then Utf16Literal(t)
      else if Simple(c).None? then None else Some(([Simple(c).value], 2))
  {
  }

  lemma Done(text: string, p: nat, copied: string)
    requires p >= |text| && Progress(text, p, copied)
    ensures Unescape(text) == Some(copied)
  {
    assert Rest(text, p) == "";
    assert copied + "" == copied;
  }

  /** The first pass of parse_string has counted what lies between start and j. */
  ghost predicate Counted(d: string, start: nat, j: nat, skipped: nat)
    requires start <= j <= |d|
  {
    var end := ScanEnd(d, start);
    && ScanEnd(d, j) == end
    && (end.Some? ==> j <= end.value && skipped + Skipped(d[j..end.value]) == Skipped(d[start..end.value]))
  }

  lemma CountedStep(d: string, start: nat, j: nat, skipped: nat)
    requires start <= j < |d| && Counted(d, start, j, skipped) && d[j] != '\"'
    ensures d[j] != '\\' ==> Counted(d, start, j + 1, skipped)
    ensures d[j] == '\\' && j + 1 < |d| ==> Counted(d, start, j + 2, skipped + 1)
    ensures d[j] == '\\' && j + 1 >= |d| ==> ScanEnd(d, start).None?
  {
    var end := ScanEnd(d, start);
    if end.Some? {
      var t := d[j..end.value];
      if d[j] != '\\' {
        assert t[1..] == d[j + 1..end.value];
      } else if j + 1 < |d| {
        assert t[2..] == d[j + 2..end.value];
      }
    }
  }

  class Cursor {
    const content: string
    var offset: nat
    var depth: nat

    constructor (d: string)
      ensures content == d && offset == 0 && depth == 0
    {
      content, offset, depth := d, 0, 0;
    }

    ghost predicate Valid()
      reads this
    {
      offset <= |content|
    }

    /** The outcome is that of the specification, and after a success the cursor stands where it ends. */
    ghost predicate Did<T>(spec: Parse<T>, r: Option<T>)
      reads this
    {
      match spec
      case Fail => r.None?
      case Ok(x, next) => r == Some(x) && offset == next
    }

    predicate CanAccess(index: nat)
      reads this
    {
      offset + index < |content|
    }

    /** buffer_skip_whitespace. */
    method SkipWhitespace()
      requires Valid()
      modifies this`offset
      ensures Valid() && offset == Skip(content, old(offset))
    {
      if !CanAccess(0) { return; }
      while CanAccess(0) && content[offset] as int <= 32
        invariant old(offset) <= offset <= |content| && FirstInk(content, offset) == FirstInk(content, old(offset))
        decreases |content| - offset
      {
        offset := offset + 1;
      }
      if offset == |content| { offset := offset - 1; }
    }

    /** parse_string; every caller has made sure that a character is there. */
    method TakeString() returns (r: Option<string>)
      requires Valid() && offset < |content|
      modifies this`offset
      ensures Valid() && Did(ParseString(content, old(offset)), r)
    {
      hide ScanEnd, Unescape, Skipped, CString;
      if content[offset] != '\"' { return None; }
      var start, end, skipped := offset + 1, offset + 1, 0;
      while end < |content| && content[end] != '\"'
        invariant offset == old(offset) && start <= end <= |content| && Counted(content, start, end, skipped)
        decreases |content| - end
      {
        CountedStep(content, start, end, skipped);
        if content[end] == '\\' {
          if end + 1 >= |content| { return None; }
          skipped := skipped + 1;
          end := end + 1;
        }
        end := end + 1;
      }
      Stopped(content, start, end, skipped);
      if end >= |content| { return None; }
      var allocation := (end - offset) - skipped;
      var output := new char[allocation + 1];
      r := Decode(content[start..end], output);
      if r.Some? { offset := end + 1; }
    }

    /** parse_number. */
    method TakeNumber() returns (r: Option<Json>)
      requires Valid()
      modifies this`offset
      ensures Valid() && Did(ParseNumber(content, old(offset)), r)
    {
      hide IntOf, DoubleEnd;
      var length, hasPoint := 0, false;
      while CanAccess(length) && IsNumberChar(content[offset + length])
        invariant offset + length <= |content| && NumberEnd(content, offset + length) == NumberEnd(content, offset)
        invariant hasPoint <==> '.' in content[offset..offset + length]
        decreases |content| - (offset + length)
      {
        var c := content[offset + length];
        assert content[offset..offset + length + 1] == content[offset..offset + length] + [c];
        if c == '.' { hasPoint := true; }
        length := length + 1;
      }
      var numeral := content[offset..offset + length];
      if !hasPoint && 'e' !in numeral && 'E' !in numeral {
        var n := IntOf(numeral);
        if n.Some? {
          offset := offset + length;
          return Some(Int(n.value));
        }
      }
      var k := DoubleEnd(numeral);
      if k == 0 { return None; }
      offset := offset + k;
      r := Some(Double(numeral[..k]));
    }

    /** parse_value. */
    method TakeValue() returns (r: Option<Json>)
      requires Valid()
      modifies this
      ensures Valid() && Did(ParseValue(content, old(offset), old(depth)), r) && (r.Some? ==> depth == old(depth))
      decreases |content| - offset, 1
    {
      hide ParseString, ParseNumber, ParseArray, ParseObject;
      if At(content, offset, "null") {
        offset := offset + 4;
        return Some(Null);
      }
      if At(content, offset, "false") {
        offset := offset + 5;
        return Some(False);
      }
      if At(content, offset, "true") {
        offset := offset + 4;
        return Some(True);
      }
      if CanAccess(0) && content[offset] == '\"' {
        var s :- TakeString();
        return Some(Str(s));
      }
      if CanAccess(0) && (content[offset] == '-' || '0' <= content[offset] <= '9') {
        r := TakeNumber();
        return;
      }
      if CanAccess(0) && content[offset] == '[' {
        r := TakeArray();
        return;
      }
      if CanAccess(0) && content[offset] == '{' {
        r := TakeObject();
        return;
      }
      return None;
    }

    /** parse_array. */
    method TakeArray() returns (r: Option<Json>)
      requires Valid() && CanAccess(0) && content[offset] == '['
      modifies this
      ensures Valid() && Did(ParseArray(content, old(offset), old(depth)), r) && (r.Some? ==> depth == old(depth))
      ensures old(depth) <= 1000 ==> ByGrammar(content, old(offset), old(depth), if r.Some? then Ok(r.value, offset) else Fail)
      decreases |content| - offset, 0
    {
      hide ParseItems, Skip, ByGrammar;
      GrammarDecides(content, offset, depth);
      if depth >= NESTING_LIMIT { return None; }
      depth := depth + 1;
      offset := offset + 1;
      SkipWhitespace();
      if CanAccess(0) && content[offset] == ']' {
        depth := depth - 1;
        offset := offset + 1;
        return Some(Arr([]));
      }
      if !CanAccess(0) { return None; }
      offset := offset - 1;
      var items :- TakeItems();
      depth := depth - 1;
      r := Some(Arr(items));
    }

    /** The loop of parse_array over the items, from the character in front of the first one to the closing bracket. */
    method TakeItems() returns (r: Option<seq<Json>>)
      requires Valid() && CanAccess(0)
      modifies this
      ensures Valid() && Did(ParseItems(content, old(offset) + 1, old(depth)), r) && (r.Some? ==> depth == old(depth))
      decreases |content| - offset - 1, 2
    {
      hide ParseValue, ParseItems, Skip;
      ghost var from := offset + 1;
      var items: seq<Json> := [];
      var more := true;
      Whole(ParseItems(content, from, depth));
      while more
        invariant from <= offset + 1 && offset < |content| && depth == old(depth)
        invariant more ==> ParseItems(content, from, depth) == Prepend(items, ParseItems(content, offset + 1, depth))
        invariant !more ==> ParseItems(content, from, depth) == AfterItems(content, items, offset)
        decreases more, |content| - offset
      {
        ghost var here := offset + 1;
        ItemsUnfold(content, here, depth);
        offset := offset + 1;
        SkipWhitespace();
        var v :- TakeValue();
        SkipWhitespace();
        if !CanAccess(0) { return None; }
        more := content[offset] == ',';
        if more { PrependTwice(items, [v], ParseItems(content, offset + 1, depth)); }
        items := items + [v];
      }
      if content[offset] != ']' { return None; }
      offset := offset + 1;
      r := Some(items);
    }

    /** parse_object. */
    method TakeObject() returns (r: Option<Json>)
      requires Valid() && CanAccess(0) && content[offset] == '{'
      modifies this
      ensures Valid() && Did(ParseObject(content, old(offset), old(depth)), r) && (r.Some? ==> depth == old(depth))
      ensures old(depth) <= 1000 ==> ByGrammar(content, old(offset), old(depth), if r.Some? then Ok(r.value, offset) else Fail)
      decreases |content| - offset, 0
    {
      hide ParseMembers, Skip, ByGrammar;
      GrammarDecides(content, offset, depth);
      if depth >= NESTING_LIMIT { return None; }
      depth := depth + 1;
      offset := offset + 1;
      SkipWhitespace();
      if CanAccess(0) && content[offset] == '}' {
        depth := depth - 1;
        offset := offset + 1;
        return Some(Obj([]));
      }
      if !CanAccess(0) { return None; }
      offset := offset - 1;
      var members :- TakeMembers();
      depth := depth - 1;
      r := Some(Obj(members));
    }

    method TakeMember() returns (r: Option<Member>)
      requires Valid() && CanAccess(0)
      modifies this
      ensures Valid() && Did(ParseMember(content, old(offset) + 1, old(depth)), r) && (r.Some? ==> depth == old(depth))
      decreases |content| - offset - 1, 2
    {
      hide ParseValue, ParseString, Skip;
      if !CanAccess(1) { return None; }
      offset := offset + 1;
      SkipWhitespace();
      var key :- TakeString();
      SkipWhitespace();
      if !CanAccess(0) || content[offset] != ':' { return None; }
      offset := offset + 1;
      SkipWhitespace();
      var v :- TakeValue();
      r := Some(Member(key, v));
    }

    /** The loop of parse_object over the members, from the character in front of the first one to the closing brace. */
    method TakeMembers() returns (r: Option<seq<Member>>)
      requires Valid() && CanAccess(0)
      modifies this
      ensures Valid() && Did(ParseMembers(content, old(offset) + 1, old(depth)), r) && (r.Some? ==> depth == old(depth))
      decreases |content| - offset - 1, 3
    {
      hide ParseMember, ParseMembers, Skip;
      ghost var from := offset + 1;
      var members: seq<Member> := [];
      var more := true;
      Whole(ParseMembers(content, from, depth));
      while more
        invariant from <= offset + 1 && offset < |content| && depth == old(depth)
        invariant more ==> ParseMembers(content, from, depth) == Prepend(members, ParseMembers(content, offset + 1, depth))
        invariant !more ==> ParseMembers(content, from, depth) == AfterMembers(content, members, offset)
        decreases more, |content| - offset
      {
        ghost var here := offset + 1;
        MembersUnfold(content, here, depth);
        var m :- TakeMember();
        SkipWhitespace();
        if !CanAccess(0) { return None; }
        more := content[offset] == ',';
        if more { PrependTwice(members, [m], ParseMembers(content, offset + 1, depth)); }
        members := members + [m];
      }
      if content[offset] != '}' { return None; }
      offset := offset + 1;
      r := Some(members);
    }
  }

  /** The outcome at i is the value of the tree that the grammar derives there, and failure when there is none. */
  ghost predicate ByGrammar(d: string, i: nat, depth: nat, r: Parse<Json>)
    requires depth <= 1000
  {
    && (r.Ok? ==> exists t :: JsonDerivations.Derives(d, i, t, r.value, r.next, depth))
    && forall t, v, j :: JsonDerivations.Derives(d, i, t, v, j, depth) ==> r == Ok(v, j)
  }

  lemma GrammarDecides(d: string, i: nat, depth: nat)
    requires i < |d| && (d[i] == '[' || d[i] == '{')
    ensures depth <= 1000 ==> ByGrammar(d, i, depth, if d[i] == '[' then ParseArray(d, i, depth) else ParseObject(d, i, depth))
  {
    hide ParseArray, ParseObject, JsonDerivations.Derives;
    var r := if d[i] == '[' then ParseArray(d, i, depth) else ParseObject(d, i, depth);
    JsonRoundTrip.NotAWord(d, i);
    if depth <= 1000 {
      if r.Ok? { JsonDerivations.ValueExact(d, i, r.value, r.next, depth); }
      forall t, v, j | JsonDerivations.Derives(d, i, t, v, j, depth) ensures r == Ok(v, j) {
        JsonDerivations.ValueExact(d, i, v, j, depth);
      }
    }
  }

  /** cJSON_ParseWithLengthOpts. */
  method ParseWithLength(d: string, whole: bool) returns (r: Option<Json>)
    ensures r == ParseBuffer(d, whole)
    ensures r.Some? ==> exists t, j :: JsonRfc.Holds(d, whole, t, r.value, j)
    ensures forall t, v, j :: JsonRfc.Holds(d, whole, t, v, j) ==> r == Some(v)
  {
    hide ParseValue, Skip, JsonRfc.Holds;
    if ParseBuffer(d, whole).Some? { JsonRfc.BufferExact(d, whole, ParseBuffer(d, whole).value); }
    forall t, v, j | JsonRfc.Holds(d, whole, t, v, j) ensures ParseBuffer(d, whole) == Some(v) {
      JsonRfc.BufferExact(d, whole, v);
    }
    if |d| == 0 { return None; }
    var buffer := new Cursor(d);
    if buffer.CanAccess(4) && At(d, 0, [0xEF as char, 0xBB as char, 0xBF as char]) { buffer.offset := 3; }
    buffer.SkipWhitespace();
    var v :- buffer.TakeValue();
    if whole {
      buffer.SkipWhitespace();
      if buffer.offset >= |d| || d[buffer.offset] != '\0' { return None; }
    }
    r := Some(v);
  }

  /** What follows the last item: the closing bracket, or an error. */
  function AfterItems(d: string, items: seq<Json>, j: nat): Parse<seq<Json>> {
    if CharIs(d, j, ']') then Ok(items, j + 1) else Fail
  }

  function AfterMembers(d: string, members: seq<Member>, j: nat): Parse<seq<Member>> {
    if CharIs(d, j, '}') then Ok(members, j + 1) else Fail
  }

  lemma ItemsUnfold(d: string, i: nat, depth: nat)
    requires i <= |d|
    ensures var p := ParseValue(d, Skip(d, i), depth);
      ParseItems(d, i, depth) == if p.Fail? then Fail
      else if CharIs(d, Skip(d, p.next), ',') then Prepend([p.value], ParseItems(d, Skip(d, p.next) + 1, depth))
      else AfterItems(d, [p.value], Skip(d, p.next))
  {
    hide ParseValue, Skip;
  }

  lemma MembersUnfold(d: string, i: nat, depth: nat)
    requires i <= |d|
    ensures var p := ParseMember(d, i, depth);
      ParseMembers(d, i, depth) == if p.Fail? then Fail
      else if CharIs(d, Skip(d, p.next), ',') then Prepend([p.value], ParseMembers(d, Skip(d, p.next) + 1, depth))
      else AfterMembers(d, [p.value], Skip(d, p.next))
  {
    hide ParseMember, Skip;
  }

  lemma Stopped(d: string, start: nat, end: nat, skipped: nat)
    requires start <= end <= |d| && Counted(d, start, end, skipped) && (end < |d| ==> d[end] == '\"')
    ensures end == |d| ==> ScanEnd(d, start).None?
    ensures end < |d| ==> ScanEnd(d, start) == Some(end) && skipped == Skipped(d[start..end])
  {
  }
}
