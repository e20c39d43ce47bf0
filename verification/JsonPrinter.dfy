/** The printer of src/cJSON.c as it runs: text appended to a buffer with a depth counter. */
module JsonPrinter {
  import opened Words
  import opened Numerals
  import opened Json

  // ---------------------------------------------------------------------------------------------
  // Escaping a string in place
  // ---------------------------------------------------------------------------------------------

  predicate IsShortEscape(c: char) {
    c == '\"' || c == '\\' || c as int == 8 || c as int == 12 || c == '\n' || c == '\r' || c == '\t'
  }

  function Extra(s: string): nat {
    if s == "" then 0 else (if IsShortEscape(s[0]) then 1 else if s[0] as int < 32 then 5 else 0) + Extra(s[1..])
  }

  lemma {:induction false} ExtraIsExact(s: string)
    ensures |EscapedText(s)| == |s| + Extra(s)
    ensures Extra(s) == 0 ==> EscapedText(s) == s
  {
    if s != "" {
      ExtraIsExact(s[1..]);
      assert s == [s[0]] + s[1..];
    }
  }

  lemma {:induction false} ExtraSnoc(s: string, i: nat)
    requires i < |s|
    ensures Extra(s[i..]) == (if IsShortEscape(s[i]) then 1 else if s[i] as int < 32 then 5 else 0) + Extra(s[i + 1..])
    ensures EscapedText(s[i..]) == Escaped(s[i]) + EscapedText(s[i + 1..])
  {
    assert s[i..][1..] == s[i + 1..];
  }

  method CountEscapes(input: string) returns (escapes: nat)
    ensures escapes == Extra(input)
  {
    hide Extra, IsShortEscape;
    escapes := 0;
    for i := 0 to |input|
      invariant escapes + Extra(input[i..]) == Extra(input)
    {
      ExtraSnoc(input, i);
      var c := input[i];
      if IsShortEscape(c) {
        escapes := escapes + 1;
      } else if c as int < 32 {
        escapes := escapes + 5;
      }
    }
    Nothing(input[|input|..]);
  }

  /** print_string_ptr: the space is counted first, and the escaped text fills it exactly. */
  method Quote(input: string) returns (output: array<char>)
    ensures fresh(output) && output[..] == Quoted(input)
  {
    hide Escaped, EscapedText, Extra, IsShortEscape;
    var escapes := CountEscapes(input);
    ExtraIsExact(input);
    var length := |input| + escapes;
    output := new char[length + 2];
    output[0] := '\"';
    if escapes == 0 {
      forall i | 0 <= i < length { output[1 + i] := input[i]; }
    } else {
      Fill(input, output);
    }
    output[length + 1] := '\"';
    assert output[1..length + 1] == EscapedText(input);
    assert output[..] == "\"" + (output[1..length + 1] + "\"");
  }

  method Fill(input: string, output: array<char>)
    requires output.Length == |EscapedText(input)| + 2
    modifies output
    ensures output[0] == old(output[0]) && output[1..|EscapedText(input)| + 1] == EscapedText(input)
  {
    hide Escaped, EscapedText;
    ghost var length := |EscapedText(input)|;
    var at := 1;
    assert input[0..] == input;
    for i := 0 to |input|
      invariant 1 <= at <= length + 1
      invariant output[0] == old(output[0]) && output[1..at] + EscapedText(input[i..]) == EscapedText(input)
    {
      ExtraSnoc(input, i);
      var e := Escaped(input[i]);
      ghost var done, rest := output[1..at], EscapedText(input[i + 1..]);
      assert done + (e + rest) == done + e + rest;
      forall k | 0 <= k < |e| { output[at + k] := e[k]; }
      assert output[1..at + |e|] == done + e;
      at := at + |e|;
    }
    Nothing(input[|input|..]);
    assert output[1..at] + "" == output[1..at];
  }

  lemma Nothing(s: string)
    requires s == ""
    ensures Extra(s) == 0 && EscapedText(s) == ""
  {
  }

  // ---------------------------------------------------------------------------------------------
  // The buffer
  // ---------------------------------------------------------------------------------------------

  class PrintBuffer {
    const format: bool
    var text: string
    var depth: nat

    constructor (f: bool)
      ensures format == f && text == "" && depth == 0
    {
      format, text, depth := f, "", 0;
    }

    method PrintString(s: string)
      modifies this`text
      ensures text == old(text) + Quoted(s)
    {
      var output := Quote(s);
      text := text + output[..];
    }

    method PrintTabs(n: nat)
      modifies this`text
      ensures text == old(text) + Tabs(n)
    {
      for i := 0 to n
        invariant text == old(text) + Tabs(i)
      {
        text := text + "\t";
        assert Tabs(i + 1) == Tabs(i) + "\t";
      }
    }

    /** print_value. */
    method PrintValue(v: Json)
      requires Printable(v)
      modifies this
      ensures text == old(text) + Print(v, format, old(depth)) && depth == old(depth)
      decreases v, 0
    {
      hide PrintItems, PrintMembers, Quoted, DecimalText;
      match v {
        case Null => text := text + "null";
        case False => text := text + "false";
        case True => text := text + "true";
        case Int(n) => text := text + DecimalText(n);
        case Str(s) => PrintString(s);
        case Arr(items) => PrintArray(items);
        case Obj(members) => PrintObject(members);
      }
    }

    /** print_array. */
    method PrintArray(items: seq<Json>)
      requires forall k :: 0 <= k < |items| ==> Printable(items[k])
      modifies this
      ensures text == old(text) + ("[" + PrintItems(items, format, old(depth) + 1)) && depth == old(depth)
      decreases items, 1
    {
      hide Print, PrintItems;
      text := text + "[";
      depth := depth + 1;
      ghost var start, level := text, depth;
      for i := 0 to |items|
        invariant depth == level
        invariant text + PrintItems(items[i..], format, level) == start + PrintItems(items, format, level)
      {
        ghost var before := text;
        PrintValue(items[i]);
        var sep := if i + 1 == |items| then "" else if format then ", " else ",";
        text := text + sep;
        NextItem(before, items, i, format, level);
      }
      LastItem(items[|items|..], format, level);
      text := text + "]";
      depth := depth - 1;
      assert text == start + PrintItems(items, format, level);
    }

    /** One round of the loop of print_object. */
    method PrintMember(m: Member, last: bool)
      requires Printable(m.value)
      modifies this
      ensures text == old(text) + MemberText(m, last, format, old(depth)) && depth == old(depth)
      decreases m.value, 1
    {
      hide Print, Quoted, Tabs;
      if format { PrintTabs(depth); }
      PrintString(m.key);
      text := text + if format then ":\t" else ":";
      PrintValue(m.value);
      text := text + if last then "" else ",";
      text := text + if format then "\n" else "";
    }

    /** print_object. */
    method PrintObject(members: seq<Member>)
      requires forall k :: 0 <= k < |members| ==> Printable(members[k].value)
      modifies this
      ensures text == old(text) + ("{" + ((if format then "\n" else "") + PrintMembers(members, format, old(depth) + 1)))
      ensures depth == old(depth)
      decreases members, 1
    {
      hide Print, PrintMembers, Quoted, Tabs;
      text := text + "{";
      depth := depth + 1;
      if format { text := text + "\n"; }
      ghost var start, level := text, depth;
      for i := 0 to |members|
        invariant depth == level
        invariant text + PrintMembers(members[i..], format, level) == start + PrintMembers(members, format, level)
      {
        ghost var before := text;
        PrintMember(members[i], i + 1 == |members|);
        NextMember(before, members, i, format, level);
      }
      LastMember(members[|members|..], format, level);
      if format { PrintTabs(depth - 1); }
      text := text + "}";
      depth := depth - 1;
      assert text == start + PrintMembers(members, format, level);
    }
  }

  lemma NextItem(before: string, items: seq<Json>, i: nat, format: bool, level: nat)
    requires i < |items| && forall k :: 0 <= k < |items| ==> Printable(items[k])
    ensures var sep := if i + 1 == |items| then "" else if format then ", " else ",";
      before + Print(items[i], format, level) + sep + PrintItems(items[i + 1..], format, level)
      == before + PrintItems(items[i..], format, level)
  {
    hide Print;
    assert items[i..][1..] == items[i + 1..];
  }

  lemma LastItem(items: seq<Json>, format: bool, level: nat)
    requires items == []
    ensures PrintItems(items, format, level) == "]"
  {
  }

  lemma NextMember(before: string, members: seq<Member>, i: nat, format: bool, level: nat)
    requires level > 0 && i < |members| && forall k :: 0 <= k < |members| ==> Printable(members[k].value)
    ensures before + MemberText(members[i], i + 1 == |members|, format, level) + PrintMembers(members[i + 1..], format, level)
      == before + PrintMembers(members[i..], format, level)
  {
    hide Print, Quoted, Tabs;
    assert members[i..][1..] == members[i + 1..];
  }

  /** A member with what stands around it. */
  function MemberText(m: Member, last: bool, format: bool, level: nat): string
    requires Printable(m.value)
  {
    var lead, colon := if format then Tabs(level) else "", if format then ":\t" else ":";
    var sep, newline := if last then "" else ",", if format then "\n" else "";
    lead + (Quoted(m.key) + (colon + (Print(m.value, format, level) + (sep + newline))))
  }

  lemma LastMember(members: seq<Member>, format: bool, level: nat)
    requires level > 0 && members == []
    ensures PrintMembers(members, format, level) == (if format then Tabs(level - 1) else "") + "}"
  {
  }

  /** cJSON_Print and cJSON_PrintUnformatted. */
  method PrintText(v: Json, format: bool) returns (text: string)
    requires Printable(v)
    ensures text == Print(v, format, 0)
  {
    var buffer := new PrintBuffer(format);
    buffer.PrintValue(v);
    text := buffer.text;
  }
}
