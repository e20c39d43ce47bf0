/** parse_string of src/cJSON.c takes the string that stands at an offset, and gives its bytes. */
module JsonStrings {
  import opened Parsing
  import opened Options
  import opened Numerals
  import opened Json
  import opened JsonGrammar
  import JsonRoundTrip

  // ---------------------------------------------------------------------------------------------
  // The closing quote
  // ---------------------------------------------------------------------------------------------

  lemma {:induction false} ScanSealed(d: string, j: nat, s: string)
    requires At(d, j, s + "\"") && Sealed(s)
    ensures ScanEnd(d, j) == Some(j + |s|)
    decreases |s|
  {
    AtConcat(d, j, s, "\"");
    assert d[j + |s|] == '\"';
    if s != "" {
      var n := if s[0] == '\\' then 2 else 1;
      assert s == s[..n] + s[n..] && d[j] == s[0];
      assert s + "\"" == s[..n] + (s[n..] + "\"");
      AtConcat(d, j, s[..n], s[n..] + "\"");
      ScanSealed(d, j + n, s[n..]);
    }
  }

  lemma {:induction false} ScanBack(d: string, j: nat)
    requires j <= |d| && ScanEnd(d, j).Some?
    ensures Sealed(d[j..ScanEnd(d, j).value])
    decreases |d| - j
  {
    var e := ScanEnd(d, j).value;
    if d[j] != '\"' {
      var n := if d[j] == '\\' then 2 else 1;
      ScanBack(d, j + n);
      assert d[j..e][n..] == d[j + n..e];
    }
  }

  // ---------------------------------------------------------------------------------------------
  // The pieces
  // ---------------------------------------------------------------------------------------------

  lemma HexIs(h: string)
    requires |h| == 4
    ensures Hex4(h) == if IsHex(h) then Point(h) else 0
  {
    assert forall c: char :: DigitValue(c) == HexDigit(c);
    assert forall k :: 0 <= k < 4 ==> DigitValue(h[k]) == HexDigit(h[k]);
    assert (forall k :: 0 <= k < 4 ==> IsDigit(h[k], 16)) <==>
      IsDigit(h[0], 16) && IsDigit(h[1], 16) && IsDigit(h[2], 16) && IsDigit(h[3], 16);
  }

  /** How far the copying loop moves over a piece. */
  function Step(u: Piece): nat { if u.Lone? then 2 else |PieceText(u)| }

  lemma ReadPiece(u: Piece, rest: string)
    requires PieceOk(u) && (u.Lone? ==> rest == "")
    ensures Unit(PieceText(u) + rest) == Some((PieceBytes(u), Step(u)))
  {
    hide Hex4, Utf8, IsHex, Point;
    var s := PieceText(u) + rest;
    match u
    case Plain(c) =>
    case Short(c) => assert s[1] == c;
    case Code(h) =>
      HexLength(h);
      assert s[2..6] == h && s[1] == 'u';
      HexIs(h);
    case Pair(h, l) =>
      HexLength(h);
      HexLength(l);
      assert s[2..6] == h && s[8..12] == l && s[1] == 'u' && s[6] == '\\' && s[7] == 'u';
      HexIs(h);
      HexIs(l);
    case Broken(h) =>
      assert s[2..6] == h && s[1] == 'u';
      HexIs(h);
      assert Utf8(0) == [0 as char] by { Zero(); }
    case Lone => assert s == "\\";
  }

  lemma HexLength(h: string)
    requires IsHex(h)
    ensures |h| == 4
  {
  }

  lemma Zero()
    ensures Utf8(0) == [0 as char]
  {
  }

  lemma PieceBack(s: string) returns (u: Piece, rest: string)
    requires s != "" && Unit(s).Some?
    ensures PieceOk(u) && (u.Lone? ==> rest == "") && s == PieceText(u) + rest
    ensures Unit(s) == Some((PieceBytes(u), Step(u)))
  {
    hide Hex4, Utf8, IsHex, Point;
    if s[0] != '\\' {
      u, rest := Plain(s[0]), s[1..];
    } else if |s| == 1 {
      u, rest := Lone, "";
    } else if s[1] != 'u' {
      u, rest := Short(s[1]), s[2..];
    } else {
      var h := s[2..6];
      HexIs(h);
      if !IsHex(h) {
        u, rest := Broken(h), s[6..];
        assert Utf8(0) == [0 as char] by { Zero(); }
      } else if 0xD800 <= Point(h) <= 0xDFFF {
        var l := s[8..12];
        HexIs(l);
        u, rest := Pair(h, l), s[12..];
        assert s == "\\u" + h + ("\\u" + l) + rest;
      } else {
        u, rest := Code(h), s[6..];
      }
    }
  }

  lemma PiecesRest(us: seq<Piece>)
    requires us != [] && PiecesOk(us)
    ensures PiecesOk(us[1..]) && PieceOk(us[0]) && (us[0].Lone? ==> us[1..] == [])
  {
    assert forall k :: 0 <= k < |us| - 1 ==> us[1..][k] == us[k + 1];
  }

  lemma {:induction false} ReadPieces(us: seq<Piece>)
    requires PiecesOk(us)
    ensures Unescape(PiecesText(us)) == Some(PiecesBytes(us))
  {
    hide Unit, PieceOk, PieceText, PieceBytes;
    if us != [] {
      PiecesRest(us);
      var rest := PiecesText(us[1..]);
      ReadPiece(us[0], rest);
      LoneIs();
      ReadPieces(us[1..]);
      var s := PiecesText(us);
      assert !us[0].Lone? ==> s[Step(us[0])..] == rest;
    }
  }

  lemma LoneIs()
    ensures PieceText(Lone) == "\\"
  {
  }

  lemma {:induction false} PiecesBack(s: string) returns (us: seq<Piece>)
    requires Unescape(s).Some?
    ensures PiecesOk(us) && PiecesText(us) == s && Unescape(s) == Some(PiecesBytes(us))
    decreases |s|
  {
    hide Unit, PieceOk, PieceText, PieceBytes;
    if s == "" {
      us := [];
    } else {
      var u, rest := PieceBack(s);
      LoneIs();
      var n := Step(u);
      assert (if n <= |s| then s[n..] else "") == rest;
      var more := PiecesBack(rest);
      us := [u] + more;
      assert us[1..] == more;
      if u.Lone? { NoPieces(more); }
    }
  }

  lemma NoPieces(us: seq<Piece>)
    requires PiecesText(us) == ""
    ensures us == []
  {
  }

  // ---------------------------------------------------------------------------------------------
  // Strings in a text
  // ---------------------------------------------------------------------------------------------

  lemma Parts(d: string, i: nat, us: seq<Piece>)
    requires TokenAt(d, i, Text(us))
    ensures i < |d| && d[i] == '\"' && At(d, i + 1, PiecesText(us) + "\"") && At(d, i + 1, PiecesText(us))
    ensures PiecesOk(us) && Sealed(PiecesText(us))
  {
    hide PiecesText, PiecesOk, Sealed, Longest, NumeralOk, NumeralText;
    var s, q := PiecesText(us), "\"";
    assert TokenText(Text(us)) == q + (s + q);
    hide At, TokenText;
    AtConcat(d, i, q, s + q);
    AtConcat(d, i + 1, s, q);
    JsonRoundTrip.HeadOf(d, i, q);
  }

  /** The string that stands at i is what is parsed there. */
  lemma ReadString(d: string, i: nat, us: seq<Piece>)
    requires TokenAt(d, i, Text(us))
    ensures ParseString(d, i) == Ok(StringValue(us), i + |TokenText(Text(us))|)
  {
    hide PiecesText, PiecesBytes, PiecesOk, Sealed, ScanEnd, Unescape, TokenAt, CString;
    var s := PiecesText(us);
    Parts(d, i, us);
    ScanSealed(d, i + 1, s);
    ReadPieces(us);
    assert d[i + 1..i + 1 + |s|] == s;
  }

  /** And what is parsed stands there as a string. */
  lemma StringStands(d: string, i: nat) returns (us: seq<Piece>)
    requires i <= |d| && ParseString(d, i).Ok?
    ensures TokenAt(d, i, Text(us)) && ParseString(d, i) == Ok(StringValue(us), i + |TokenText(Text(us))|)
  {
    hide PiecesText, PiecesBytes, PiecesOk, Sealed, ScanEnd, Unescape;
    var end := ScanEnd(d, i + 1).value;
    var s := d[i + 1..end];
    ScanBack(d, i + 1);
    us := PiecesBack(s);
    assert d[i..end + 1] == "\"" + (s + "\"");
  }
}
