/** The parser of src/cJSON.c and the grammar: a text that is derived parses to its value, and a text that parses is derived. */
module JsonDerivations {
  import opened Parsing
  import opened Options
  import opened Json
  import opened JsonGrammar
  import opened JsonNumbers
  import opened JsonStrings
  import JsonRoundTrip

  // ---------------------------------------------------------------------------------------------
  // Tokens one after another
  // ---------------------------------------------------------------------------------------------

  /** The first token, and the rest of them after it. */
  lemma FirstToken(d: string, i: nat, t: Token, ts: seq<Token>, j: nat) returns (k: nat)
    requires Spelled(d, i, [t] + ts, j)
    ensures Gap(d, i, k) && TokenAt(d, k, t) && Spelled(d, k + |TokenText(t)|, ts, j)
  {
    hide TokenAt, TokenText, Gap;
    var all := [t] + ts;
    k :| TokenFrom(d, i, k, all, j);
    assert all[1..] == ts;
  }

  lemma PutFirst(d: string, i: nat, k: nat, t: Token, ts: seq<Token>, j: nat)
    requires Gap(d, i, k) && TokenAt(d, k, t) && Spelled(d, k + |TokenText(t)|, ts, j)
    ensures Spelled(d, i, [t] + ts, j)
  {
    hide TokenAt, TokenText, Gap;
    var all := [t] + ts;
    assert all[1..] == ts;
    assert TokenFrom(d, i, k, all, j);
  }

  lemma {:induction false} Cut(d: string, i: nat, a: seq<Token>, b: seq<Token>, j: nat) returns (k: nat)
    requires Spelled(d, i, a + b, j)
    ensures Spelled(d, i, a, k) && Spelled(d, k, b, j)
    decreases |a|
  {
    hide TokenAt, TokenText, Gap;
    if a == [] {
      k := i;
      assert a + b == b;
    } else {
      assert a + b == [a[0]] + (a[1..] + b);
      var m := FirstToken(d, i, a[0], a[1..] + b, j);
      k := Cut(d, m + |TokenText(a[0])|, a[1..], b, j);
      PutFirst(d, i, m, a[0], a[1..], k);
      assert [a[0]] + a[1..] == a;
    }
  }

  lemma {:induction false} Join(d: string, i: nat, a: seq<Token>, k: nat, b: seq<Token>, j: nat)
    requires Spelled(d, i, a, k) && Spelled(d, k, b, j)
    ensures Spelled(d, i, a + b, j)
    decreases |a|
  {
    hide TokenAt, TokenText, Gap;
    if a == [] {
      assert a + b == b;
    } else {
      assert a == [a[0]] + a[1..];
      var m := FirstToken(d, i, a[0], a[1..], k);
      Join(d, m + |TokenText(a[0])|, a[1..], k, b, j);
      PutFirst(d, i, m, a[0], a[1..] + b, j);
      assert a + b == [a[0]] + (a[1..] + b);
    }
  }

  /** Blanks in front change nothing. */
  lemma Indent(d: string, i: nat, m: nat, ts: seq<Token>, j: nat)
    requires ts != [] && Gap(d, i, m) && Spelled(d, m, ts, j)
    ensures Spelled(d, i, ts, j)
  {
    hide TokenAt, TokenText;
    assert ts == [ts[0]] + ts[1..];
    var k := FirstToken(d, m, ts[0], ts[1..], j);
    PutFirst(d, i, k, ts[0], ts[1..], j);
  }

  // ---------------------------------------------------------------------------------------------
  // Blanks
  // ---------------------------------------------------------------------------------------------

  lemma SkipIs(d: string, i: nat, k: nat)
    requires Gap(d, i, k) && k < |d| && d[k] as int > 32
    ensures Skip(d, i) == k
  {
    hide FirstInk;
    var m := FirstInk(d, i);
    assert m <= k ==> m == k;
    assert k <= m ==> m == k;
  }

  lemma SkipGap(d: string, i: nat)
    requires i <= |d|
    ensures Gap(d, i, Skip(d, i)) && Skip(d, Skip(d, i)) == Skip(d, i)
  {
  }

  lemma MarkAt(d: string, k: nat, c: char)
    ensures TokenAt(d, k, Mark(c)) <==> CharIs(d, k, c)
    ensures |TokenText(Mark(c))| == 1
  {
    hide Longest;
    if k < |d| { assert d[k..k + 1] == [d[k]]; }
  }

  /** The mark that comes next, when the rest starts with one. */
  lemma NextMark(d: string, i: nat, c: char, ts: seq<Token>, j: nat) returns (k: nat)
    requires c as int > 32 && Spelled(d, i, [Mark(c)] + ts, j)
    ensures i <= k < |d| && Skip(d, i) == k && d[k] == c && Spelled(d, k + 1, ts, j)
  {
    hide TokenAt, TokenText, Spelled, Skip;
    k := FirstToken(d, i, Mark(c), ts, j);
    MarkAt(d, k, c);
    SkipIs(d, i, k);
  }

  lemma MarkStands(d: string, i: nat, c: char, ts: seq<Token>, j: nat)
    requires i <= |d| && CharIs(d, Skip(d, i), c) && Spelled(d, Skip(d, i) + 1, ts, j)
    ensures Spelled(d, i, [Mark(c)] + ts, j)
  {
    hide TokenAt, TokenText, Spelled, Skip;
    SkipGap(d, i);
    MarkAt(d, Skip(d, i), c);
    PutFirst(d, i, Skip(d, i), Mark(c), ts, j);
  }

  // ---------------------------------------------------------------------------------------------
  // A derived text parses to its value
  // ---------------------------------------------------------------------------------------------

  /** What an item of an array is parsed as. */
  ghost predicate Parses(d: string, i: nat, t: Tree, j: nat, depth: nat)
    requires i <= |d| && TreeOk(t)
  {
    ParseValue(d, Skip(d, i), depth) == Ok(TreeValue(t), j)
  }

  lemma ReadWord(d: string, i: nat, t: Tree, j: nat, depth: nat)
    requires i <= |d| && (t.NullTree? || t.FalseTree? || t.TrueTree?) && Spelled(d, i, Tokens(t), j)
    ensures Parses(d, i, t, j, depth)
  {
    hide Spelled, Skip, ParseValue, Longest;
    var w := if t.NullTree? then "null" else if t.FalseTree? then "false" else "true";
    assert Tokens(t) == [Word(w)] + [];
    var k := FirstToken(d, i, Word(w), [], j);
    JsonRoundTrip.HeadOf(d, k, w);
    SkipIs(d, i, k);
    JsonRoundTrip.WordBack(d, k, w, depth);
    Over(d, k + |w|, j);
  }

  lemma Over(d: string, i: nat, j: nat)
    requires Spelled(d, i, [], j)
    ensures i == j
  {
  }

  lemma ReadTheText(d: string, i: nat, us: seq<Piece>, ts: seq<Token>, j: nat) returns (e: nat)
    requires i <= |d| && Spelled(d, i, [Text(us)] + ts, j)
    ensures i <= Skip(d, i) < |d| && PiecesOk(us) && d[Skip(d, i)] == '\"' && ParseString(d, Skip(d, i)) == Ok(StringValue(us), e)
    ensures Spelled(d, e, ts, j)
  {
    hide Spelled, Skip, TokenAt, TokenText, ParseString, PiecesOk, StringValue;
    var k := FirstToken(d, i, Text(us), ts, j);
    Parts(d, k, us);
    SkipIs(d, i, k);
    ReadString(d, k, us);
    e := k + |TokenText(Text(us))|;
  }

  lemma ReadLeaf(d: string, i: nat, t: Tree, j: nat, depth: nat)
    requires i <= |d| && TreeOk(t) && (t.NumberTree? || t.TextTree?) && Spelled(d, i, Tokens(t), j)
    ensures Parses(d, i, t, j, depth)
  {
    hide Spelled, Skip, ParseString, ParseNumber, NumeralValue, StringValue, TokenText, NumeralText, NumeralOk, PiecesOk;
    if t.TextTree? {
      assert Tokens(t) == [Text(t.pieces)] + [];
      var e := ReadTheText(d, i, t.pieces, [], j);
      JsonRoundTrip.NotAWord(d, Skip(d, i));
      Over(d, e, j);
    } else {
      var token := Number(t.n, t.cut);
      assert Tokens(t) == [token] + [];
      var k := FirstToken(d, i, token, [], j);
      NumberBegins(d, k, t.n, t.cut);
      SkipIs(d, i, k);
      ReadNumber(d, k, t.n, t.cut);
      JsonRoundTrip.NotAWord(d, k);
      Over(d, k + |TokenText(token)|, j);
      NumberText(t.n, t.cut);
    }
  }

  lemma NumberText(n: Numeral, cut: bool)
    ensures TokenText(Number(n, cut)) == NumeralText(n)
  {
  }

  lemma NumberBegins(d: string, k: nat, n: Numeral, cut: bool)
    requires TokenAt(d, k, Number(n, cut))
    ensures k < |d| && (d[k] == '-' || '0' <= d[k] <= '9')
  {
    hide Longest;
    assert NumeralText(n) != "" && (NumeralText(n)[0] == '-' || '0' <= NumeralText(n)[0] <= '9');
    JsonRoundTrip.HeadOf(d, k, NumeralText(n));
  }

  lemma {:induction false} ReadTree(d: string, i: nat, t: Tree, j: nat, depth: nat)
    requires i <= |d| && depth <= 1000 && TreeOk(t) && Within(t, 1000 - depth) && Spelled(d, i, Tokens(t), j)
    ensures Parses(d, i, t, j, depth)
    decreases t, 1
  {
    hide Spelled, Parses, Tokens;
    match t
    case NumberTree(_, _) => ReadLeaf(d, i, t, j, depth);
    case TextTree(_) => ReadLeaf(d, i, t, j, depth);
    case ListTree(_) => ReadList(d, i, t, j, depth);
    case RecordTree(_) => ReadRecord(d, i, t, j, depth);
    case _ => ReadWord(d, i, t, j, depth);
  }

  lemma {:induction false} ReadList(d: string, i: nat, t: Tree, j: nat, depth: nat)
    requires i <= |d| && depth <= 1000 && t.ListTree? && TreeOk(t) && Within(t, 1000 - depth) && Spelled(d, i, Tokens(t), j)
    ensures Parses(d, i, t, j, depth)
    decreases t, 0
  {
    hide Spelled, Skip, ParseItems, ItemTokens, ItemValues, TreeOk, Within;
    var items := t.items;
    ListParts(t, 1000 - depth);
    var k := NextMark(d, i, '[', ItemTokens(items) + [Mark(']')], j);
    JsonRoundTrip.NotAWord(d, k);
    if items == [] {
      NoItems();
      var m := NextMark(d, k + 1, ']', [], j);
      Over(d, m + 1, j);
      assert ParseArray(d, k, depth) == Ok(Arr([]), j);
      assert TreeValue(t) == Arr([]);
    } else {
      ReadItems(d, k + 1, items, j, depth + 1);
      SkipGap(d, k + 1);
      ItemsAgain(d, k + 1, depth + 1);
    }
  }

  lemma NoItems()
    ensures ItemTokens([]) + [Mark(']')] == [Mark(']')] + [] && ItemValues([]) == []
    ensures EntryTokens([]) + [Mark('}')] == [Mark('}')] + [] && EntryValues([]) == []
  {
  }

  lemma ListParts(t: Tree, n: nat)
    requires t.ListTree? && TreeOk(t) && Within(t, n)
    ensures n > 0 && forall k :: 0 <= k < |t.items| ==> TreeOk(t.items[k]) && Within(t.items[k], n - 1)
  {
  }

  /** Blanks before the items of an array are skipped once more. */
  lemma ItemsAgain(d: string, i: nat, depth: nat)
    requires i <= |d| && ParseItems(d, i, depth).Ok?
    ensures ParseItems(d, Skip(d, i), depth) == ParseItems(d, i, depth)
    ensures Skip(d, i) < |d| && d[Skip(d, i)] != ']'
  {
    hide Skip, ParseArray, ParseObject, ParseNumber, ParseString;
    SkipGap(d, i);
    assert ParseValue(d, Skip(d, i), depth).Ok?;
    ValueStart(d, Skip(d, i), depth);
  }

  lemma ValueStart(d: string, i: nat, depth: nat)
    requires i <= |d| && ParseValue(d, i, depth).Ok?
    ensures i < |d| && d[i] != ']' && d[i] as int > 32
  {
    hide ParseArray, ParseObject, ParseNumber, ParseString;
    if At(d, i, "null") { JsonRoundTrip.HeadOf(d, i, "null"); }
    if At(d, i, "false") { JsonRoundTrip.HeadOf(d, i, "false"); }
    if At(d, i, "true") { JsonRoundTrip.HeadOf(d, i, "true"); }
  }

  /** The tokens after the first item. */
  function MoreItems(items: seq<Tree>): seq<Token>
    requires items != []
  {
    if |items| == 1 then [Mark(']')] + [] else [Mark(',')] + (ItemTokens(items[1..]) + [Mark(']')])
  }

  lemma ItemsSplit(items: seq<Tree>)
    requires items != []
    ensures ItemTokens(items) + [Mark(']')] == Tokens(items[0]) + MoreItems(items)
  {
    hide Tokens;
    var a, m := Tokens(items[0]), [Mark(']')];
    if |items| > 1 {
      var rest := ItemTokens(items[1..]);
      assert a + ([Mark(',')] + rest) + m == a + ([Mark(',')] + (rest + m));
    } else {
      assert a + [] + m == a + (m + []);
    }
  }

  lemma {:induction false} ReadItems(d: string, i: nat, items: seq<Tree>, j: nat, depth: nat)
    requires i <= |d| && depth <= 1000 && items != []
    requires forall k :: 0 <= k < |items| ==> TreeOk(items[k]) && Within(items[k], 1000 - depth)
    requires Spelled(d, i, ItemTokens(items) + [Mark(']')], j)
    ensures ParseItems(d, i, depth) == Ok(ItemValues(items), j)
    decreases items, 2
  {
    hide Spelled, Skip, ParseValue, Tokens, TreeValue, TreeOk, Within, ItemTokens;
    ItemsSplit(items);
    var k := Cut(d, i, Tokens(items[0]), MoreItems(items), j);
    ReadTree(d, i, items[0], k, depth);
    if |items| == 1 {
      var m := NextMark(d, k, ']', [], j);
      Over(d, m + 1, j);
      assert items[1..] == [] && ItemValues(items) == [TreeValue(items[0])];
    } else {
      var m := NextMark(d, k, ',', ItemTokens(items[1..]) + [Mark(']')], j);
      ReadItems(d, m + 1, items[1..], j, depth);
    }
  }

  lemma {:induction false} ReadRecord(d: string, i: nat, t: Tree, j: nat, depth: nat)
    requires i <= |d| && depth <= 1000 && t.RecordTree? && TreeOk(t) && Within(t, 1000 - depth) && Spelled(d, i, Tokens(t), j)
    ensures Parses(d, i, t, j, depth)
    decreases t, 0
  {
    hide Spelled, Skip, ParseMembers, EntryTokens, EntryValues, TreeOk, Within;
    var entries := t.entries;
    RecordParts(t, 1000 - depth);
    var k := NextMark(d, i, '{', EntryTokens(entries) + [Mark('}')], j);
    JsonRoundTrip.NotAWord(d, k);
    if entries == [] {
      NoItems();
      var m := NextMark(d, k + 1, '}', [], j);
      Over(d, m + 1, j);
      assert ParseObject(d, k, depth) == Ok(Obj([]), j);
      assert TreeValue(t) == Obj([]);
    } else {
      ReadEntries(d, k + 1, entries, j, depth + 1);
      SkipGap(d, k + 1);
      MembersAgain(d, k + 1, depth + 1);
    }
  }

  predicate EntriesOk(entries: seq<Entry>, n: nat) {
    forall k :: 0 <= k < |entries| ==> PiecesOk(entries[k].key) && TreeOk(entries[k].value) && Within(entries[k].value, n)
  }

  lemma RecordParts(t: Tree, n: nat)
    requires t.RecordTree? && TreeOk(t) && Within(t, n)
    ensures n > 0 && EntriesOk(t.entries, n - 1)
  {
  }

  lemma MembersAgain(d: string, i: nat, depth: nat)
    requires i <= |d| && ParseMembers(d, i, depth).Ok?
    ensures ParseMembers(d, Skip(d, i), depth) == ParseMembers(d, i, depth)
    ensures Skip(d, i) < |d| && d[Skip(d, i)] == '\"'
  {
    hide ParseValue, Skip, ScanEnd, Unescape;
    SkipGap(d, i);
    assert ParseMember(d, i, depth).Ok?;
    assert ParseString(d, Skip(d, i)).Ok?;
    assert ParseMember(d, Skip(d, i), depth) == ParseMember(d, i, depth);
  }

  function MoreEntries(entries: seq<Entry>): seq<Token>
    requires entries != []
  {
    if |entries| == 1 then [Mark('}')] + [] else [Mark(',')] + (EntryTokens(entries[1..]) + [Mark('}')])
  }

  lemma EntriesSplit(entries: seq<Entry>)
    requires entries != []
    ensures EntryTokens(entries) + [Mark('}')]
      == [Text(entries[0].key)] + ([Mark(':')] + (Tokens(entries[0].value) + MoreEntries(entries)))
  {
    hide Tokens;
    var key, a, m := [Text(entries[0].key)], Tokens(entries[0].value), [Mark('}')];
    assert [Text(entries[0].key), Mark(':')] == key + [Mark(':')];
    if |entries| > 1 {
      var rest := EntryTokens(entries[1..]);
      Regroup(key, [Mark(':')], a, [Mark(',')] + rest, m);
      assert [Mark(',')] + rest + m == [Mark(',')] + (rest + m);
    } else {
      Regroup(key, [Mark(':')], a, [], m);
      assert [] + m == m + [];
    }
  }

  lemma Regroup(a: seq<Token>, b: seq<Token>, c: seq<Token>, e: seq<Token>, f: seq<Token>)
    ensures a + b + c + e + f == a + (b + (c + (e + f)))
  {
    Assoc(a + b + c, e, f);
    Assoc(a + b, c, e + f);
    Assoc(a, b, c + (e + f));
  }

  lemma Assoc(a: seq<Token>, b: seq<Token>, c: seq<Token>)
    ensures a + b + c == a + (b + c)
  {
  }

  lemma {:induction false} ReadEntry(d: string, i: nat, e: Entry, ts: seq<Token>, j: nat, depth: nat) returns (k: nat)
    requires i <= |d| && depth <= 1000 && PiecesOk(e.key) && TreeOk(e.value) && Within(e.value, 1000 - depth)
    requires Spelled(d, i, [Text(e.key)] + ([Mark(':')] + (Tokens(e.value) + ts)), j)
    ensures ParseMember(d, i, depth) == Ok(Member(StringValue(e.key), TreeValue(e.value)), k) && Spelled(d, k, ts, j)
    decreases e, 2
  {
    hide Spelled, Skip, ParseValue, ParseString, Tokens, TreeValue, TreeOk, Within, PiecesOk, StringValue;
    var a := ReadTheText(d, i, e.key, [Mark(':')] + (Tokens(e.value) + ts), j);
    var c := NextMark(d, a, ':', Tokens(e.value) + ts, j);
    k := Cut(d, c + 1, Tokens(e.value), ts, j);
    ReadTree(d, c + 1, e.value, k, depth);
  }

  lemma {:induction false} ReadEntries(d: string, i: nat, entries: seq<Entry>, j: nat, depth: nat)
    requires i <= |d| && depth <= 1000 && entries != []
    requires EntriesOk(entries, 1000 - depth) && Spelled(d, i, EntryTokens(entries) + [Mark('}')], j)
    ensures ParseMembers(d, i, depth) == Ok(EntryValues(entries), j)
    decreases entries, 3
  {
    hide Spelled, Skip, ParseMember, Tokens, TreeValue, TreeOk, Within, EntryTokens, PiecesOk, StringValue;
    EntriesSplit(entries);
    var k := ReadEntry(d, i, entries[0], MoreEntries(entries), j, depth);
    if |entries| == 1 {
      var m := NextMark(d, k, '}', [], j);
      Over(d, m + 1, j);
      assert entries[1..] == [] && EntryValues(entries) == [ParseMember(d, i, depth).value];
    } else {
      var m := NextMark(d, k, ',', EntryTokens(entries[1..]) + [Mark('}')], j);
      ReadEntries(d, m + 1, entries[1..], j, depth);
    }
  }

  // ---------------------------------------------------------------------------------------------
  // A text that parses is derived
  // ---------------------------------------------------------------------------------------------

  /** The tree's tokens stand from i to j, it is well formed and not too deep, and has this value. */
  ghost predicate Derives(d: string, i: nat, t: Tree, v: Json, j: nat, depth: nat)
    requires depth <= 1000
  {
    TreeOk(t) && Within(t, 1000 - depth) && TreeValue(t) == v && Spelled(d, i, Tokens(t), j)
  }

  lemma SingleToken(d: string, i: nat, t: Token)
    requires i <= |d| && TokenAt(d, i, t)
    ensures Spelled(d, i, [t], i + |TokenText(t)|)
  {
    hide TokenAt, TokenText;
    PutFirst(d, i, i, t, [], i + |TokenText(t)|);
    assert [t] + [] == [t];
  }

  lemma {:induction false} ValueDerived(d: string, i: nat, depth: nat) returns (t: Tree)
    requires i <= |d| && depth <= 1000 && ParseValue(d, i, depth).Ok?
    ensures Derives(d, i, t, ParseValue(d, i, depth).value, ParseValue(d, i, depth).next, depth)
    decreases |d| - i, 1
  {
    hide Spelled, ParseArray, ParseObject, ParseNumber, ParseString, NumeralValue, NumeralOk, PiecesOk, StringValue,
         Longest, NumeralText, PiecesText;
    if At(d, i, "null") || At(d, i, "false") || At(d, i, "true") {
      t := if At(d, i, "null") then NullTree else if At(d, i, "false") then FalseTree else TrueTree;
      SingleToken(d, i, Tokens(t)[0]);
    } else if d[i] == '\"' {
      var us := StringStands(d, i);
      t := TextTree(us);
      SingleToken(d, i, Text(us));
    } else if d[i] == '[' {
      t := ArrayDerived(d, i, depth);
    } else if d[i] == '{' {
      t := ObjectDerived(d, i, depth);
    } else {
      var n, cut := NumberStands(d, i);
      t := NumberTree(n, cut);
      SingleToken(d, i, Number(n, cut));
    }
  }

  lemma {:induction false} ArrayDerived(d: string, i: nat, depth: nat) returns (t: Tree)
    requires i < |d| && d[i] == '[' && depth <= 1000 && ParseArray(d, i, depth).Ok?
    ensures Derives(d, i, t, ParseArray(d, i, depth).value, ParseArray(d, i, depth).next, depth)
    decreases |d| - i, 0
  {
    hide Spelled, Skip, ParseItems, ItemTokens, ItemValues;
    var items: seq<Tree> := [];
    var j := ParseArray(d, i, depth).next;
    NoItems();
    SkipGap(d, i + 1);
    if CharIs(d, Skip(d, i + 1), ']') {
      Nothing(d, j);
      MarkStands(d, i + 1, ']', [], j);
    } else {
      items := ItemsDerived(d, Skip(d, i + 1), depth + 1);
      Indent(d, i + 1, Skip(d, i + 1), ItemTokens(items) + [Mark(']')], j);
    }
    t := ListTree(items);
    MarkAt(d, i, '[');
    PutFirst(d, i, i, Mark('['), ItemTokens(items) + [Mark(']')], j);
  }

  lemma Nothing(d: string, j: nat)
    ensures Spelled(d, j, [], j)
  {
  }

  lemma {:induction false} ItemsDerived(d: string, i: nat, depth: nat) returns (items: seq<Tree>)
    requires i <= |d| && depth <= 1000 && ParseItems(d, i, depth).Ok?
    ensures items != [] && forall k :: 0 <= k < |items| ==> TreeOk(items[k]) && Within(items[k], 1000 - depth)
    ensures ItemValues(items) == ParseItems(d, i, depth).value
    ensures Spelled(d, i, ItemTokens(items) + [Mark(']')], ParseItems(d, i, depth).next)
    decreases |d| - i, 2
  {
    hide Spelled, Skip, ParseValue, Tokens, TreeValue, TreeOk, Within, ItemTokens;
    SkipGap(d, i);
    var r := ParseItems(d, i, depth);
    var first := ParseValue(d, Skip(d, i), depth);
    var t := ValueDerived(d, Skip(d, i), depth);
    Indent(d, i, Skip(d, i), Tokens(t), first.next);
    var m := Skip(d, first.next);
    items := [t];
    if CharIs(d, m, ',') {
      var rest := ItemsDerived(d, m + 1, depth);
      items := [t] + rest;
      assert items[1..] == rest;
      MarkStands(d, first.next, ',', ItemTokens(rest) + [Mark(']')], r.next);
    } else {
      assert items[1..] == [] && ItemValues(items) == [TreeValue(t)];
      Nothing(d, r.next);
      MarkStands(d, first.next, ']', [], r.next);
    }
    ItemsSplit(items);
    Join(d, i, Tokens(t), first.next, MoreItems(items), r.next);
  }

  lemma {:induction false} ObjectDerived(d: string, i: nat, depth: nat) returns (t: Tree)
    requires i < |d| && d[i] == '{' && depth <= 1000 && ParseObject(d, i, depth).Ok?
    ensures Derives(d, i, t, ParseObject(d, i, depth).value, ParseObject(d, i, depth).next, depth)
    decreases |d| - i, 0
  {
    hide Spelled, Skip, ParseMembers, EntryTokens, EntryValues;
    var entries: seq<Entry> := [];
    var j := ParseObject(d, i, depth).next;
    NoItems();
    SkipGap(d, i + 1);
    if CharIs(d, Skip(d, i + 1), '}') {
      Nothing(d, j);
      MarkStands(d, i + 1, '}', [], j);
    } else {
      entries := EntriesDerived(d, Skip(d, i + 1), depth + 1);
      Indent(d, i + 1, Skip(d, i + 1), EntryTokens(entries) + [Mark('}')], j);
    }
    t := RecordTree(entries);
    MarkAt(d, i, '{');
    PutFirst(d, i, i, Mark('{'), EntryTokens(entries) + [Mark('}')], j);
  }

  lemma {:induction false} MemberDerived(d: string, i: nat, depth: nat) returns (e: Entry)
    requires i <= |d| && depth <= 1000 && ParseMember(d, i, depth).Ok?
    ensures PiecesOk(e.key) && TreeOk(e.value) && Within(e.value, 1000 - depth)
    ensures ParseMember(d, i, depth).value == Member(StringValue(e.key), TreeValue(e.value))
    ensures Spelled(d, i, [Text(e.key)] + ([Mark(':')] + Tokens(e.value)), ParseMember(d, i, depth).next)
    decreases |d| - i, 2
  {
    hide Spelled, Skip, ParseValue, ParseString, Tokens, TreeValue, TreeOk, Within, PiecesOk, StringValue, Longest,
         TokenText, PiecesText;
    var end := ParseMember(d, i, depth).next;
    SkipGap(d, i);
    var key := ParseString(d, Skip(d, i));
    var us := StringStands(d, Skip(d, i));
    var m := Skip(d, key.next);
    SkipGap(d, m + 1);
    var t := ValueDerived(d, Skip(d, m + 1), depth);
    e := Entry(us, t);
    Indent(d, m + 1, Skip(d, m + 1), Tokens(t), end);
    MarkStands(d, key.next, ':', Tokens(t), end);
    PutFirst(d, i, Skip(d, i), Text(us), [Mark(':')] + Tokens(t), end);
  }

  lemma {:induction false} EntriesDerived(d: string, i: nat, depth: nat) returns (entries: seq<Entry>)
    requires i <= |d| && depth <= 1000 && ParseMembers(d, i, depth).Ok?
    ensures entries != [] && EntriesOk(entries, 1000 - depth)
    ensures EntryValues(entries) == ParseMembers(d, i, depth).value
    ensures Spelled(d, i, EntryTokens(entries) + [Mark('}')], ParseMembers(d, i, depth).next)
    decreases |d| - i, 3
  {
    hide Spelled, Skip, ParseMember, Tokens, TreeValue, TreeOk, Within, EntryTokens, PiecesOk, StringValue;
    var r := ParseMembers(d, i, depth);
    var first := ParseMember(d, i, depth);
    var e := MemberDerived(d, i, depth);
    var m := Skip(d, first.next);
    entries := [e];
    if CharIs(d, m, ',') {
      var rest := EntriesDerived(d, m + 1, depth);
      entries := [e] + rest;
      assert entries[1..] == rest;
      MarkStands(d, first.next, ',', EntryTokens(rest) + [Mark('}')], r.next);
    } else {
      assert entries[1..] == [] && EntryValues(entries) == [first.value];
      Nothing(d, r.next);
      MarkStands(d, first.next, '}', [], r.next);
    }
    EntriesSplit(entries);
    var a, b := [Text(e.key)] + ([Mark(':')] + Tokens(e.value)), MoreEntries(entries);
    Join(d, i, a, first.next, b, r.next);
    Assoc([Text(e.key)], [Mark(':')] + Tokens(e.value), b);
    Assoc([Mark(':')], Tokens(e.value), b);
  }

  /** What parse_value gives at i is what the grammar derives there, no more and no less. */
  lemma ValueExact(d: string, i: nat, v: Json, j: nat, depth: nat)
    requires i <= |d| && depth <= 1000
    ensures ParseValue(d, i, depth) == Ok(v, j) <==>
      i < |d| && d[i] as int > 32 && exists t :: Derives(d, i, t, v, j, depth)
  {
    hide ParseValue, Spelled, TreeValue, TreeOk, Within, Tokens;
    if ParseValue(d, i, depth) == Ok(v, j) {
      ValueStart(d, i, depth);
      var t := ValueDerived(d, i, depth);
    }
    if i < |d| && d[i] as int > 32 && exists t :: Derives(d, i, t, v, j, depth) {
      var t :| Derives(d, i, t, v, j, depth);
      ReadTree(d, i, t, j, depth);
      SkipIs(d, i, i);
    }
  }
}
