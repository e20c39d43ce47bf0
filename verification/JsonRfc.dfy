/** The parser of src/cJSON.c and RFC 8259: every text of the standard within the nesting limit parses to its value, and
    what else is accepted is listed. */
module JsonRfc {
  import opened Parsing
  import opened Options
  import opened Json
  import opened JsonGrammar
  import opened JsonNumbers
  import opened JsonDerivations
  import JsonRoundTrip
  import JsonStrings

  // ---------------------------------------------------------------------------------------------
  // Whole buffers
  // ---------------------------------------------------------------------------------------------

  /** Where the text starts: after a byte order mark, if there is one and more than one character follows. */
  function TextStart(d: string): nat {
    if |d| > 4 && d[0] as int == 0xEF && d[1] as int == 0xBB && d[2] as int == 0xBF then 3 else 0
  }

  /** The buffer holds the tree's text up to j; with `whole` only blanks and a zero at the end follow. */
  ghost predicate Holds(d: string, whole: bool, t: Tree, v: Json, j: nat) {
    && Derives(d, TextStart(d), t, v, j, 0)
    && (whole ==> j < |d| && Gap(d, j, |d|) && d[|d| - 1] == '\0')
  }

  lemma MarkIs(d: string)
    ensures TextStart(d) == if |d| > 4 && At(d, 0, [0xEF as char, 0xBB as char, 0xBF as char]) then 3 else 0
    ensures TextStart(d) <= |d|
  {
    if |d| > 4 { assert d[0..3] == [d[0], d[1], d[2]]; }
  }

  lemma RestIs(d: string, j: nat)
    requires j <= |d|
    ensures CharIs(d, Skip(d, j), '\0') <==> j < |d| && Gap(d, j, |d|) && d[|d| - 1] == '\0'
  {
  }

  /** cJSON_ParseWithLengthOpts gives exactly the values of the trees whose text the buffer holds. */
  lemma BufferExact(d: string, whole: bool, v: Json)
    ensures ParseBuffer(d, whole) == Some(v) <==> exists t, j :: Holds(d, whole, t, v, j)
  {
    hide ParseValue, Spelled, Skip, Derives, Gap;
    MarkIs(d);
    if ParseBuffer(d, whole) == Some(v) {
      var t := BufferDerived(d, whole);
    }
    if t, j :| Holds(d, whole, t, v, j) { HeldParses(d, whole, t, v, j); }
  }

  lemma BufferDerived(d: string, whole: bool) returns (t: Tree)
    requires ParseBuffer(d, whole).Some?
    ensures Holds(d, whole, t, ParseBuffer(d, whole).value, ParseValue(d, Start(d), 0).next)
  {
    hide ParseValue, Spelled, Skip, TreeValue, TreeOk, Within, Tokens, Gap;
    MarkIs(d);
    var start := TextStart(d);
    t := ValueDerived(d, Start(d), 0);
    SkipGap(d, start);
    var j := ParseValue(d, Start(d), 0).next;
    Indent(d, start, Skip(d, start), Tokens(t), j);
    RestIs(d, j);
  }

  lemma HeldParses(d: string, whole: bool, t: Tree, v: Json, j: nat)
    requires Holds(d, whole, t, v, j)
    ensures ParseBuffer(d, whole) == Some(v)
  {
    hide ParseValue, Spelled, Skip, TreeValue, TreeOk, Within, Tokens, Gap;
    MarkIs(d);
    ReadTree(d, TextStart(d), t, j, 0);
    RestIs(d, j);
  }

  // ---------------------------------------------------------------------------------------------
  // What follows a number
  // ---------------------------------------------------------------------------------------------

  /** Ends a number. */
  predicate Stop(t: Token) { t.Mark? && !NumeralChar(t.c) && t.c as int > 32 }

  /** Only marks that end a number come after one. */
  predicate Chained(ts: seq<Token>) {
    forall k :: 0 <= k < |ts| - 1 && ts[k].Number? ==> Stop(ts[k + 1])
  }

  lemma Chain(a: seq<Token>, b: seq<Token>)
    requires Chained(a) && Chained(b)
    requires a == [] || b == [] || !a[|a| - 1].Number? || Stop(b[0])
    ensures Chained(a + b)
  {
    forall k | 0 <= k < |a + b| - 1 && (a + b)[k].Number? ensures Stop((a + b)[k + 1]) {
      if k < |a| - 1 {
        assert a[k].Number?;
      } else if k >= |a| {
        assert b[k - |a|].Number?;
      }
    }
  }

  lemma {:induction false} TreeChained(t: Tree)
    ensures Chained(Tokens(t))
    decreases t, 0
  {
    hide Chained;
    match t
    case ListTree(items) =>
      ItemsChained(items);
      OneMark('[');
      Chain([Mark('[')], ItemTokens(items) + [Mark(']')]);
    case RecordTree(entries) =>
      EntriesChained(entries);
      OneMark('{');
      Chain([Mark('{')], EntryTokens(entries) + [Mark('}')]);
    case _ => Alone(Tokens(t));
  }

  lemma OneMark(c: char)
    ensures Chained([Mark(c)])
  {
  }

  lemma Alone(ts: seq<Token>)
    requires |ts| <= 1
    ensures Chained(ts)
  {
  }

  lemma {:induction false} ItemsChained(items: seq<Tree>)
    ensures Chained(ItemTokens(items) + [Mark(']')])
    decreases items, 1
  {
    hide Chained, Tokens;
    OneMark(']');
    OneMark(',');
    NoItems();
    if items != [] {
      ItemsSplit(items);
      TreeChained(items[0]);
      if |items| > 1 {
        ItemsChained(items[1..]);
        Chain([Mark(',')], ItemTokens(items[1..]) + [Mark(']')]);
      } else {
        assert MoreItems(items) == [Mark(']')];
      }
      Chain(Tokens(items[0]), MoreItems(items));
    } else {
      assert ItemTokens(items) + [Mark(']')] == [Mark(']')];
    }
  }

  lemma {:induction false} EntriesChained(entries: seq<Entry>)
    ensures Chained(EntryTokens(entries) + [Mark('}')])
    decreases entries, 1
  {
    hide Chained, Tokens;
    OneMark('}');
    OneMark(',');
    OneMark(':');
    NoItems();
    if entries != [] {
      EntriesSplit(entries);
      TreeChained(entries[0].value);
      if |entries| > 1 {
        EntriesChained(entries[1..]);
        Chain([Mark(',')], EntryTokens(entries[1..]) + [Mark('}')]);
      } else {
        assert MoreEntries(entries) == [Mark('}')];
      }
      var value := Tokens(entries[0].value) + MoreEntries(entries);
      Chain(Tokens(entries[0].value), MoreEntries(entries));
      Chain([Mark(':')], value);
      Alone([Text(entries[0].key)]);
      Chain([Text(entries[0].key)], [Mark(':')] + value);
    } else {
      assert EntryTokens(entries) + [Mark('}')] == [Mark('}')];
    }
  }

  // ---------------------------------------------------------------------------------------------
  // Texts of RFC 8259
  // ---------------------------------------------------------------------------------------------

  predicate AllStrict(ts: seq<Token>) { forall k :: 0 <= k < |ts| ==> StrictToken(ts[k]) }

  lemma StrictJoin(a: seq<Token>, b: seq<Token>)
    ensures AllStrict(a + b) <==> AllStrict(a) && AllStrict(b)
  {
    if AllStrict(a + b) {
      assert forall k :: 0 <= k < |a| ==> (a + b)[k] == a[k];
      assert forall k :: 0 <= k < |b| ==> (a + b)[|a| + k] == b[k];
    }
  }

  /** A tree is one of the standard's exactly when its tokens are. */
  lemma {:induction false} StrictTokens(t: Tree)
    ensures Strict(t) <==> AllStrict(Tokens(t))
    decreases t, 0
  {
    match t
    case ListTree(items) =>
      StrictItems(items);
      StrictJoin([Mark('[')], ItemTokens(items) + [Mark(']')]);
      StrictJoin(ItemTokens(items), [Mark(']')]);
    case RecordTree(entries) =>
      StrictEntries(entries);
      StrictJoin([Mark('{')], EntryTokens(entries) + [Mark('}')]);
      StrictJoin(EntryTokens(entries), [Mark('}')]);
    case _ => assert AllStrict(Tokens(t)) <==> StrictToken(Tokens(t)[0]);
  }

  lemma {:induction false} StrictItems(items: seq<Tree>)
    ensures (forall k :: 0 <= k < |items| ==> Strict(items[k])) <==> AllStrict(ItemTokens(items))
    decreases items, 1
  {
    hide Tokens, AllStrict, Strict;
    if items == [] {
      NoneStrict();
    } else {
      var rest := items[1..];
      StrictTokens(items[0]);
      StrictItems(rest);
      StrictMark(',');
      NoneStrict();
      StrictJoin([Mark(',')], ItemTokens(rest));
      StrictJoin(Tokens(items[0]), if |items| == 1 then [] else [Mark(',')] + ItemTokens(rest));
      assert (forall k :: 0 <= k < |items| ==> Strict(items[k])) <==>
        Strict(items[0]) && forall k :: 0 <= k < |rest| ==> Strict(rest[k]) by { Heads(items, Strict); }
    }
  }

  lemma Heads<T>(xs: seq<T>, p: T -> bool)
    requires xs != []
    ensures (forall k :: 0 <= k < |xs| ==> p(xs[k])) <==> p(xs[0]) && forall k :: 0 <= k < |xs[1..]| ==> p(xs[1..][k])
  {
    if p(xs[0]) && forall k :: 0 <= k < |xs[1..]| ==> p(xs[1..][k]) {
      forall k | 0 <= k < |xs| ensures p(xs[k]) {
        if k > 0 { assert xs[k] == xs[1..][k - 1]; }
      }
    }
  }

  lemma NoneStrict()
    ensures AllStrict([])
  {
  }

  lemma StrictMark(c: char)
    ensures AllStrict([Mark(c)])
  {
  }

  predicate StrictEntry(e: Entry) { StrictPieces(e.key) && Strict(e.value) }

  lemma {:induction false} StrictEntries(entries: seq<Entry>)
    ensures (forall k :: 0 <= k < |entries| ==> StrictEntry(entries[k])) <==> AllStrict(EntryTokens(entries))
    decreases entries, 1
  {
    hide Tokens, AllStrict, Strict, StrictPieces;
    if entries == [] {
      NoneStrict();
    } else {
      var rest := entries[1..];
      var head, value := [Text(entries[0].key), Mark(':')], Tokens(entries[0].value);
      StrictTokens(entries[0].value);
      StrictEntries(rest);
      StrictMark(',');
      NoneStrict();
      StrictHead(entries[0].key);
      StrictJoin([Mark(',')], EntryTokens(rest));
      StrictJoin(head, value);
      StrictJoin(head + value, if |entries| == 1 then [] else [Mark(',')] + EntryTokens(rest));
      Heads(entries, StrictEntry);
    }
  }

  lemma StrictHead(us: seq<Piece>)
    ensures AllStrict([Text(us), Mark(':')]) <==> StrictPieces(us)
  {
    hide StrictPieces;
    var ts := [Text(us), Mark(':')];
    assert StrictToken(ts[0]) <==> StrictPieces(us);
  }

  // Strings.

  predicate Unquoted(s: string) { forall k :: 0 <= k < |s| ==> s[k] != '\"' && s[k] != '\\' }

  lemma {:induction false} SealedAfter(h: string, rest: string)
    requires Unquoted(h)
    ensures Sealed(h + rest) <==> Sealed(rest)
  {
    if h == "" {
      assert h + rest == rest;
    } else {
      SealedAfter(h[1..], rest);
      assert (h + rest)[1..] == h[1..] + rest;
    }
  }

  lemma HexUnquoted(h: string)
    requires IsHex(h)
    ensures Unquoted(h)
  {
  }

  lemma SealedEscape(c: char, rest: string)
    ensures Sealed(['\\', c] + rest) <==> Sealed(rest)
  {
    assert (['\\', c] + rest)[2..] == rest;
  }

  lemma SealedLiteral(h: string, rest: string)
    requires IsHex(h)
    ensures Sealed("\\u" + h + rest) <==> Sealed(rest)
  {
    hide Sealed, IsHex;
    HexUnquoted(h);
    assert "\\u" + h + rest == ['\\', 'u'] + (h + rest);
    SealedEscape('u', h + rest);
    SealedAfter(h, rest);
  }

  /** A well-formed piece of the standard, or a control character, leaves open whether the rest ends the string early. */
  lemma SealedPiece(u: Piece, rest: string)
    requires PieceOk(u) && !u.Broken? && !u.Lone? && u != Plain('\"')
    ensures Sealed(PieceText(u) + rest) <==> Sealed(rest)
  {
    hide IsHex, Point, Sealed;
    match u
    case Plain(c) => SealedAfter([c], rest);
    case Short(c) => SealedEscape(c, rest);
    case Code(h) => SealedLiteral(h, rest);
    case Pair(h, l) =>
      SealedLiteral(h, "\\u" + l + rest);
      SealedLiteral(l, rest);
      assert PieceText(u) + rest == "\\u" + h + ("\\u" + l + rest);
  }

  /** Strings without broken literals: then only control characters are beyond the standard. */
  lemma {:induction false} WithoutBroken(us: seq<Piece>)
    requires PiecesOk(us) && forall k :: 0 <= k < |us| ==> !us[k].Broken?
    ensures Sealed(PiecesText(us)) <==> forall k :: 0 <= k < |us| ==> us[k] != Lone && us[k] != Plain('\"')
  {
    hide Sealed, PieceOk;
    if us == [] {
      SealedNone();
    } else {
      JsonStrings.PiecesRest(us);
      var u, rest := us[0], us[1..];
      assert forall k :: 0 < k < |us| ==> us[k] == rest[k - 1];
      WithoutBroken(rest);
      if u == Lone {
        assert PiecesText(us) == "\\";
        SealedLone();
      } else if u == Plain('\"') {
        SealedQuote(PiecesText(rest));
      } else {
        SealedPiece(u, PiecesText(rest));
      }
    }
  }

  lemma SealedNone()
    ensures Sealed("")
  {
  }

  lemma SealedLone()
    ensures !Sealed("\\")
  {
  }

  lemma SealedQuote(rest: string)
    ensures !Sealed("\"" + rest)
  {
  }

  lemma StrictIsOk(us: seq<Piece>)
    requires StrictPieces(us)
    ensures PiecesOk(us) && Sealed(PiecesText(us))
  {
    hide Sealed;
    WithoutBroken(us);
  }

  // Numbers.

  /** A numeral that no character of numerals follows is the longest. */
  lemma EndsLongest(d: string, k: nat, n: Numeral)
    requires NumeralOk(n) && At(d, k, NumeralText(n)) && !Followed(d, k + |NumeralText(n)|)
    ensures Longest(d, k, |NumeralText(n)|)
  {
    hide NumeralText, NumeralOk;
    var e := k + |NumeralText(n)|;
    forall m | NumeralOk(m) && At(d, k, NumeralText(m)) ensures |NumeralText(m)| <= |NumeralText(n)| {
      NumeralChars(m);
      var t := NumeralText(m);
      assert forall x :: 0 <= x < |t| ==> d[k + x] == t[x];
    }
  }

  /** The character after a number, when a mark or the end of the text comes next. */
  lemma NotFollowed(d: string, e: nat, ts: seq<Token>, j: nat)
    requires Written(d, e, ts, j) && (ts != [] ==> Stop(ts[0])) && (ts == [] ==> !Followed(d, j))
    ensures !Followed(d, e)
  {
    hide Written;
    if ts == [] {
      WrittenNone(d, e, j);
    } else {
      var k := WrittenFirst(d, e, ts, j);
      assert d[k..k + 1] == [ts[0].c];
    }
  }

  lemma WrittenNone(d: string, i: nat, j: nat)
    requires Written(d, i, [], j)
    ensures i == j
  {
  }

  lemma WrittenFirst(d: string, i: nat, ts: seq<Token>, j: nat) returns (k: nat)
    requires ts != [] && Written(d, i, ts, j)
    ensures StrictGap(d, i, k) && At(d, k, TokenText(ts[0])) && Written(d, k + |TokenText(ts[0])|, ts[1..], j)
  {
    hide At, TokenText, StrictGap;
    k :| WrittenFrom(d, i, k, ts, j);
  }

  lemma StrictTokenAt(d: string, k: nat, t: Token)
    requires StrictToken(t) && At(d, k, TokenText(t)) && (t.Number? ==> !Followed(d, k + |TokenText(t)|))
    ensures TokenAt(d, k, t)
  {
    hide Longest, Sealed, PiecesOk, PiecesText, StrictPieces, NumeralText;
    match t
    case Text(us) => StrictIsOk(us);
    case Number(n, _) => EndsLongest(d, k, n);
    case _ =>
  }

  /** A text of the standard is one of the grammar: what follows a number always ends it. */
  lemma {:induction false} WrittenSpelled(d: string, i: nat, ts: seq<Token>, j: nat)
    requires Written(d, i, ts, j) && AllStrict(ts) && Chained(ts) && !Followed(d, j)
    ensures Spelled(d, i, ts, j)
    decreases |ts|
  {
    hide Written, Spelled, TokenAt, TokenText, StrictToken;
    if ts == [] {
      WrittenNone(d, i, j);
      Nothing(d, j);
    } else {
      var k := WrittenFirst(d, i, ts, j);
      var e := k + |TokenText(ts[0])|;
      WrittenSpelled(d, e, ts[1..], j);
      if ts[0].Number? { NotFollowed(d, e, ts[1..], j); }
      StrictTokenAt(d, k, ts[0]);
      PutFirst(d, i, k, ts[0], ts[1..], j);
      assert [ts[0]] + ts[1..] == ts;
    }
  }

  /** More text after it changes nothing. */
  lemma {:induction false} WrittenMore(d: string, more: string, i: nat, ts: seq<Token>, j: nat)
    requires Written(d, i, ts, j)
    ensures Written(d + more, i, ts, j)
    decreases |ts|
  {
    hide TokenText;
    if ts != [] {
      var k := WrittenFirst(d, i, ts, j);
      var t := TokenText(ts[0]);
      assert (d + more)[k..k + |t|] == d[k..k + |t|];
      WrittenMore(d, more, k + |t|, ts[1..], j);
      assert WrittenFrom(d + more, i, k, ts, j);
    }
  }

  lemma {:induction false} StrictTreeOk(t: Tree)
    requires Strict(t)
    ensures TreeOk(t)
  {
    match t
    case TextTree(us) => StrictIsOk(us);
    case ListTree(items) =>
      forall k | 0 <= k < |items| ensures TreeOk(items[k]) { StrictTreeOk(items[k]); }
    case RecordTree(entries) =>
      forall k | 0 <= k < |entries| ensures PiecesOk(entries[k].key) && TreeOk(entries[k].value) {
        StrictIsOk(entries[k].key);
        StrictTreeOk(entries[k].value);
      }
    case _ =>
  }

  /** A buffer that starts with a text of the standard, and does not go on as a number, holds it. */
  lemma WrittenHolds(d: string, t: Tree, j: nat)
    requires Strict(t) && Within(t, 1000) && Written(d, 0, Tokens(t), j) && !Followed(d, j)
    ensures TreeOk(t) && Holds(d, false, t, TreeValue(t), j)
  {
    hide Written, Spelled, AllStrict, Chained, Strict, Within, TreeValue, TreeOk, Tokens, ParseValue, Skip;
    StrictTreeOk(t);
    StrictTokens(t);
    TreeChained(t);
    WrittenSpelled(d, 0, Tokens(t), j);
    ReadTree(d, 0, t, j, 0);
    if TextStart(d) == 3 {
      SkipIs(d, 0, 0);
      MarkIsNoValue(d);
    }
  }

  lemma MarkIsNoValue(d: string)
    requires d != "" && d[0] as int == 0xEF
    ensures ParseValue(d, 0, 0).Fail?
  {
    JsonRoundTrip.NotAWord(d, 0);
  }

  /** Every text of RFC 8259 whose nesting is within the limit parses to its value: with its terminating zero, whether or
      not the whole text is asked for, and as a buffer without one. */
  lemma RfcText(text: string, t: Tree)
    requires IsText(text, t) && Within(t, 1000)
    ensures TreeOk(t) && ParseText(text, true) == Some(TreeValue(t)) == ParseText(text, false) == ParseBuffer(text, false)
  {
    hide Written, Spelled, Strict, Within, TreeValue, TreeOk, Tokens, ParseBuffer, Derives;
    var j: nat :| Written(text, 0, Tokens(t), j) && StrictGap(text, j, |text|);
    WrittenHolds(text, t, j);
    HeldParses(text, false, t, TreeValue(t), j);
    var d := text + "\0";
    WrittenMore(text, "\0", 0, Tokens(t), j);
    WrittenHolds(d, t, j);
    HeldParses(d, false, t, TreeValue(t), j);
    assert Gap(d, j, |d|) && d[|d| - 1] == '\0';
    HeldParses(d, true, t, TreeValue(t), j);
  }

  // ---------------------------------------------------------------------------------------------
  // What is accepted beyond RFC 8259
  // ---------------------------------------------------------------------------------------------

  /** A token that is taken and is not of the standard is one of the extra ones. */
  lemma ExtraTokens(d: string, k: nat, t: Token)
    requires TokenAt(d, k, t)
    ensures StrictToken(t) <==> !Extra(t)
  {
    hide Longest, Sealed, PiecesText, At;
    if t.Text? {
      var us := t.pieces;
      if !Extra(t) {
        assert forall m :: 0 <= m < |us| ==> !ExtraPiece(us[m]);
        WithoutBroken(us);
        forall m | 0 <= m < |us| ensures StrictPiece(us[m]) { assert !ExtraPiece(us[m]); }
      }
    }
  }

  /** A \u literal that is not four hexadecimal digits ends the string's value; what comes after it does not matter. */
  lemma BrokenEnds(us: seq<Piece>, k: nat)
    requires PiecesOk(us) && k < |us| && us[k].Broken?
    ensures PiecesOk(us[..k]) && StringValue(us) == StringValue(us[..k])
  {
    hide PieceOk, CString;
    BytesBefore(us, k);
    var a, all := PiecesBytes(us[..k]), PiecesBytes(us);
    var x, y := CString(all), CString(a);
    assert all[..|a|] == a && all[|a|] == '\0';
    assert |x| <= |a|;
    assert x == all[..|x|] == a[..|x|] && y == a[..|y|] == all[..|y|];
  }

  lemma {:induction false} BytesBefore(us: seq<Piece>, k: nat)
    requires PiecesOk(us) && k < |us| && us[k].Broken?
    ensures PiecesOk(us[..k])
    ensures var a := PiecesBytes(us[..k]); |a| < |PiecesBytes(us)| && PiecesBytes(us)[..|a|] == a && PiecesBytes(us)[|a|] == '\0'
  {
    hide PieceOk, PieceBytes;
    JsonStrings.PiecesRest(us);
    if k == 0 {
      assert us[..0] == [];
      BrokenByte(us[0]);
    } else {
      BytesBefore(us[1..], k - 1);
      assert us[..k][0] == us[0] && us[..k][1..] == us[1..][..k - 1];
    }
  }

  lemma BrokenByte(u: Piece)
    requires u.Broken? && PieceOk(u)
    ensures PieceBytes(u) == "\0"
  {
  }

  /** Only the last token can be a number with characters of numerals after it, so none inside an array or object is. */
  lemma {:induction false} CutIsLast(d: string, i: nat, ts: seq<Token>, j: nat, k: nat)
    requires Spelled(d, i, ts, j) && Chained(ts) && k < |ts| - 1 && ts[k].Number?
    ensures !ts[k].cut
    decreases |ts|
  {
    hide Spelled, TokenAt, TokenText, Chained;
    assert ts == [ts[0]] + ts[1..];
    var m := FirstToken(d, i, ts[0], ts[1..], j);
    ChainedRest(ts);
    if k > 0 {
      CutIsLast(d, m + |TokenText(ts[0])|, ts[1..], j, k - 1);
    } else {
      assert ts[1..] == [Mark(ts[1].c)] + ts[2..];
      var e := m + |TokenText(ts[0])|;
      var p := FirstToken(d, e, Mark(ts[1].c), ts[2..], j);
      MarkAt(d, p, ts[1].c);
      Uncut(d, m, ts[0]);
      assert !Followed(d, e);
    }
  }

  lemma ChainedRest(ts: seq<Token>)
    requires |ts| > 1 && Chained(ts)
    ensures Chained(ts[1..]) && (ts[0].Number? ==> Stop(ts[1]))
  {
  }

  lemma Uncut(d: string, k: nat, t: Token)
    requires TokenAt(d, k, t) && t.Number?
    ensures t.cut <==> Followed(d, k + |TokenText(t)|)
  {
  }

  lemma {:induction false} SpelledOrder(d: string, i: nat, ts: seq<Token>, j: nat)
    requires Spelled(d, i, ts, j)
    ensures i <= j
    decreases |ts|
  {
    hide TokenAt, TokenText;
    if ts != [] {
      assert ts == [ts[0]] + ts[1..];
      var k := FirstToken(d, i, ts[0], ts[1..], j);
      SpelledOrder(d, k + |TokenText(ts[0])|, ts[1..], j);
    }
  }

  /** Of spaces and control characters, only the blanks of RFC 8259 stand before e. */
  predicate Calm(d: string, e: nat)
    requires e <= |d|
  {
    forall m :: 0 <= m < e && d[m] as int <= 32 ==> d[m] as int in {32, 9, 10, 13}
  }

  lemma {:induction false} SpelledWritten(d: string, e: nat, i: nat, ts: seq<Token>, j: nat)
    requires Spelled(d, i, ts, j) && j <= e <= |d| && Calm(d, e)
    ensures Written(d[..e], i, ts, j)
    decreases |ts|
  {
    hide TokenText, Spelled, Longest, PiecesOk, Sealed, NumeralOk;
    if ts == [] {
      Over(d, i, j);
    } else {
      assert ts == [ts[0]] + ts[1..];
      var k := FirstToken(d, i, ts[0], ts[1..], j);
      var t := TokenText(ts[0]);
      SpelledOrder(d, k + |t|, ts[1..], j);
      SpelledWritten(d, e, k + |t|, ts[1..], j);
      assert d[..e][k..k + |t|] == d[k..k + |t|];
      assert WrittenFrom(d[..e], i, k, ts, j);
    }
  }

  lemma {:induction false} SpelledToken(d: string, i: nat, ts: seq<Token>, j: nat, n: nat) returns (k: nat)
    requires Spelled(d, i, ts, j) && n < |ts|
    ensures TokenAt(d, k, ts[n])
    decreases |ts|
  {
    hide TokenText, Spelled, TokenAt;
    assert ts == [ts[0]] + ts[1..];
    k := FirstToken(d, i, ts[0], ts[1..], j);
    if n > 0 { k := SpelledToken(d, k + |TokenText(ts[0])|, ts[1..], j, n - 1); }
  }

  /** Nothing else is accepted: without a byte order mark, other control characters and the extra tokens, a text that
      parses as a whole is one of RFC 8259. */
  lemma NothingElse(d: string, t: Tree, v: Json, j: nat)
    requires Holds(d, true, t, v, j) && TextStart(d) == 0 && Calm(d, |d| - 1)
    requires forall k :: 0 <= k < |Tokens(t)| ==> !Extra(Tokens(t)[k])
    ensures IsText(d[..|d| - 1], t)
  {
    hide Spelled, Written, Strict, TreeOk, Within, TreeValue, Tokens, TokenAt, Extra, StrictToken;
    var ts, e := Tokens(t), |d| - 1;
    forall n | 0 <= n < |ts| ensures StrictToken(ts[n]) {
      var k := SpelledToken(d, 0, ts, j, n);
      ExtraTokens(d, k, ts[n]);
    }
    StrictTokens(t);
    SpelledWritten(d, e, 0, ts, j);
    assert StrictGap(d[..e], j, e);
  }
}
