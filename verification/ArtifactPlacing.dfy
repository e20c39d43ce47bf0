/** The writer of src/artifact.c puts every field where the layout says, for every artifact it writes. */
module ArtifactPlacing {
  import opened Words
  import opened Parsing
  import opened IntFacts
  import opened ByteCodec
  import opened Options
  import opened ArtifactFormat
  import opened ArtifactLayout
  import opened ArtifactWriting

  // ---------------------------------------------------------------------------------------------
  // Numbers and strings
  // ---------------------------------------------------------------------------------------------

  lemma LeFour(x: nat)
    ensures Le(x, 4) == [x % 256, x / 0x100 % 256, x / 0x1_0000 % 256, x / 0x100_0000 % 256]
  {
    assert x / 256 / 256 == x / 0x1_0000 && x / 0x1_0000 / 256 == x / 0x100_0000;
    assert Le(x / 0x100_0000, 1) == [x / 0x100_0000 % 256];
    assert Le(x / 0x1_0000, 2) == [x / 0x1_0000 % 256] + Le(x / 0x100_0000, 1);
    assert Le(x / 0x100, 3) == [x / 0x100 % 256] + Le(x / 0x1_0000, 2);
  }

  lemma PlaceWord(d: seq<u8>, i: nat, x: nat)
    requires At(d, i, Le(x, 4))
    ensures Word(d, i, x)
  {
    hide Le;
    LeFour(x);
    var s := d[i..i + 4];
    assert s[0] == d[i] && s[1] == d[i + 1] && s[2] == d[i + 2] && s[3] == d[i + 3];
  }

  lemma {:induction false} LeSplit(x: nat, m: nat, n: nat)
    ensures Le(x, m + n) == Le(x, m) + Le(Above(x, m), n)
    decreases m
  {
    if m > 0 { LeSplit(x / 256, m - 1, n); }
  }

  function Above(x: nat, m: nat): nat
    decreases m
  {
    if m == 0 then x else Above(x / 256, m - 1)
  }

  lemma AboveFour(x: nat)
    ensures Above(x, 4) == x / 0x1_0000_0000
  {
    assert x / 256 / 256 == x / 0x1_0000 && x / 0x1_0000 / 256 == x / 0x100_0000 && x / 0x100_0000 / 256 == x / 0x1_0000_0000;
    assert Above(x / 0x1_0000, 2) == Above(x / 0x100_0000, 1);
    assert Above(x / 0x100_0000, 1) == x / 0x1_0000_0000;
  }

  lemma PlaceLong(d: seq<u8>, i: nat, x: nat)
    requires At(d, i, Le(x, 8))
    ensures Long(d, i, x)
  {
    hide Le, Above, Word;
    LeSplit(x, 4, 4);
    AboveFour(x);
    AtConcat(d, i, Le(x, 4), Le(x / 0x1_0000_0000, 4));
    PlaceWord(d, i, x);
    PlaceWord(d, i + 4, x / 0x1_0000_0000);
  }

  /** Adding a multiple of 2^32 changes none of the four bytes. */
  lemma SameWord(d: seq<u8>, i: nat, x: int, k: int)
    ensures Word(d, i, x + 0x1_0000_0000 * k) <==> Word(d, i, x)
  {
    SameBytes(x, k);
  }

  lemma SameBytes(x: int, k: int)
    ensures var y := x + 0x1_0000_0000 * k;
      && y % 256 == x % 256 && y / 0x100 % 256 == x / 0x100 % 256
      && y / 0x1_0000 % 256 == x / 0x1_0000 % 256 && y / 0x100_0000 % 256 == x / 0x100_0000 % 256
  {
    QuotientIs(x + 0x1_0000_0000 * k, 0x100, x / 0x100 + 0x100_0000 * k, x % 0x100);
    QuotientIs(x + 0x1_0000_0000 * k, 0x1_0000, x / 0x1_0000 + 0x1_0000 * k, x % 0x1_0000);
    QuotientIs(x + 0x1_0000_0000 * k, 0x100_0000, x / 0x100_0000 + 0x100 * k, x % 0x100_0000);
    SameByte(x / 0x100, 0x1_0000 * k);
    SameByte(x / 0x1_0000, 0x100 * k);
    SameByte(x / 0x100_0000, k);
  }

  lemma SameByte(x: int, k: int)
    ensures (x + 0x100 * k) % 256 == x % 256
  {
    QuotientIs(x + 0x100 * k, 0x100, x / 0x100 + k, x % 0x100);
  }

  lemma SignedWord(d: seq<u8>, i: nat, x: i32)
    ensures Word(d, i, U32(x)) <==> Word(d, i, x)
  {
    hide Word;
    SameWord(d, i, x, 1);
  }

  lemma SignedLong(d: seq<u8>, i: nat, x: i64)
    ensures Long(d, i, U64(x)) <==> Long(d, i, x)
  {
    hide Word;
    if x < 0 {
      SameWord(d, i, x, 0x1_0000_0000);
      SameWord(d, i + 4, x / 0x1_0000_0000, 1);
      assert (x as int + 0x1_0000_0000_0000_0000) / 0x1_0000_0000 == x / 0x1_0000_0000 + 0x1_0000_0000;
    }
  }

  lemma PlaceI32(d: seq<u8>, i: nat, x: i32)
    requires At(d, i, Le(U32(x), 4))
    ensures Word(d, i, x)
  {
    hide Word, Le;
    PlaceWord(d, i, U32(x));
    SignedWord(d, i, x);
  }

  lemma PlaceI64(d: seq<u8>, i: nat, x: i64)
    requires At(d, i, Le(U64(x), 8))
    ensures Long(d, i, x)
  {
    hide Long, Le;
    PlaceLong(d, i, U64(x));
    SignedLong(d, i, x);
  }

  lemma PlaceByte(d: seq<u8>, i: nat, x: u8)
    requires At(d, i, Le(x, 1))
    ensures Tiny(d, i, x)
  {
    assert Le(x, 1) == [x];
    assert d[i..i + 1][0] == d[i];
  }

  lemma PlaceText(d: seq<u8>, i: nat, t: Text)
    requires At(d, i, EncText(t))
    ensures TextAt(d, i, t) && |EncText(t)| == TextSize(t)
  {
    hide Le, Word;
    AtConcat(d, i, Le(|Bytes(t)|, 4), Bytes(t));
    PlaceWord(d, i, |Bytes(t)|);
  }

  // ---------------------------------------------------------------------------------------------
  // Rows
  // ---------------------------------------------------------------------------------------------

  /** Wherever the bytes of x stand, x stands. */
  ghost predicate Places<T>(write: T -> seq<u8>, at: (seq<u8>, nat, T) -> bool, size: T -> nat, x: T) {
    |write(x)| == size(x) && forall d, i: nat :: PlacesAt(write, at, x, d, i)
  }

  ghost predicate PlacesAt<T>(write: T -> seq<u8>, at: (seq<u8>, nat, T) -> bool, x: T, d: seq<u8>, i: nat) {
    At(d, i, write(x)) ==> at(d, i, x)
  }

  lemma {:induction false} PlaceRow<T>(d: seq<u8>, i: nat, xs: seq<T>, write: T -> seq<u8>, at: (seq<u8>, nat,
          T) -> bool, size: T -> nat)
    requires forall k :: 0 <= k < |xs| ==> Places(write, at, size, xs[k])
    requires At(d, i, WriteMany(xs, write))
    ensures Row(d, i, xs, at, size) && |WriteMany(xs, write)| == RowSize(xs, size)
    decreases |xs|
  {
    if xs != [] {
      AtConcat(d, i, write(xs[0]), WriteMany(xs[1..], write));
      assert Places(write, at, size, xs[0]);
      assert PlacesAt(write, at, xs[0], d, i);
      PlaceRow(d, i + size(xs[0]), xs[1..], write, at, size);
    }
  }

  lemma {:induction false} PlaceWordRow(d: seq<u8>, i: nat, xs: seq<i32>)
    requires At(d, i, WriteInts(U32s(xs), Fours(|xs|)))
    ensures |WriteInts(U32s(xs), Fours(|xs|))| == 4 * |xs| && i + 4 * |xs| <= |d|
    ensures forall k :: 0 <= k < |xs| ==> Word(d, i + 4 * k, xs[k])
    decreases |xs|
  {
    hide Word, Le;
    if xs != [] {
      var ys, ws := U32s(xs), Fours(|xs|);
      assert ys[1..] == U32s(xs[1..]) && ws[1..] == Fours(|xs| - 1);
      AtConcat(d, i, Le(ys[0], 4), WriteInts(ys[1..], ws[1..]));
      PlaceI32(d, i, xs[0]);
      PlaceWordRow(d, i + 4, xs[1..]);
      forall k | 0 < k < |xs| ensures Word(d, i + 4 * k, xs[k]) {
        assert xs[k] == xs[1..][k - 1] && i + 4 + 4 * (k - 1) == i + 4 * k;
      }
    }
  }

  lemma PlaceWords(d: seq<u8>, i: nat, xs: seq<i32>)
    requires At(d, i, EncWords(xs))
    ensures WordsAt(d, i, xs) && |EncWords(xs)| == WordsSize(xs)
  {
    hide Word, Le, WriteInts;
    AtConcat(d, i, Le(|xs|, 4), WriteInts(U32s(xs), Fours(|xs|)));
    PlaceWord(d, i, |xs|);
    PlaceWordRow(d, i + 4, xs);
  }

  /** Where the numbers of a record stand in it. */
  function Offset(ws: seq<nat>, k: nat): nat
    requires k <= |ws|
  {
    if k == 0 then 0 else Offset(ws, k - 1) + ws[k - 1]
  }

  lemma {:induction false} OffsetShift(ws: seq<nat>, k: nat)
    requires 0 < k <= |ws|
    ensures Offset(ws, k) == ws[0] + Offset(ws[1..], k - 1)
  {
    if k > 1 { OffsetShift(ws, k - 1); }
  }

  lemma WriteIntsStep(xs: seq<nat>, ws: seq<nat>)
    requires |xs| == |ws| > 0
    ensures WriteInts(xs, ws) == Le(xs[0], ws[0]) + WriteInts(xs[1..], ws[1..])
  {
  }

  lemma {:induction false} FieldAt(d: seq<u8>, i: nat, xs: seq<nat>, ws: seq<nat>, k: nat)
    requires |xs| == |ws| && k < |ws| && At(d, i, WriteInts(xs, ws))
    ensures At(d, i + Offset(ws, k), Le(xs[k], ws[k]))
    decreases k
  {
    hide At, WriteInts, Le, Offset;
    WriteIntsStep(xs, ws);
    AtConcat(d, i, Le(xs[0], ws[0]), WriteInts(xs[1..], ws[1..]));
    if k == 0 {
      NoOffset(ws);
    } else {
      OffsetShift(ws, k);
      FieldAt(d, i + ws[0], xs[1..], ws[1..], k - 1);
    }
  }

  lemma {:induction false} RecordLength(xs: seq<nat>, ws: seq<nat>)
    requires |xs| == |ws|
    ensures |WriteInts(xs, ws)| == Offset(ws, |ws|)
    decreases |ws|
  {
    if ws != [] {
      WriteIntsStep(xs, ws);
      OffsetShift(ws, |ws|);
      RecordLength(xs[1..], ws[1..]);
    }
  }

  lemma RecordAt(d: seq<u8>, i: nat, xs: seq<nat>, ws: seq<nat>)
    requires |xs| == |ws| && At(d, i, WriteInts(xs, ws))
    ensures forall k :: 0 <= k < |ws| ==> At(d, i + Offset(ws, k), Le(xs[k], ws[k]))
    ensures |WriteInts(xs, ws)| == Offset(ws, |ws|)
  {
    hide At, WriteInts, Le, Offset;
    forall k | 0 <= k < |ws| ensures At(d, i + Offset(ws, k), Le(xs[k], ws[k])) { FieldAt(d, i, xs, ws, k); }
    RecordLength(xs, ws);
  }

  lemma NoOffset(ws: seq<nat>)
    ensures Offset(ws, 0) == 0
  {
  }

  lemma Offset7(ws: seq<nat>)
    requires |ws| >= 1
    ensures Offset(ws, 0) == 0 && Offset(ws, 1) == ws[0]
    ensures |ws| >= 2 ==> Offset(ws, 2) == ws[0] + ws[1]
    ensures |ws| >= 3 ==> Offset(ws, 3) == ws[0] + ws[1] + ws[2]
    ensures |ws| >= 4 ==> Offset(ws, 4) == ws[0] + ws[1] + ws[2] + ws[3]
    ensures |ws| >= 5 ==> Offset(ws, 5) == ws[0] + ws[1] + ws[2] + ws[3] + ws[4]
    ensures |ws| >= 6 ==> Offset(ws, 6) == ws[0] + ws[1] + ws[2] + ws[3] + ws[4] + ws[5]
    ensures |ws| >= 7 ==> Offset(ws, 7) == ws[0] + ws[1] + ws[2] + ws[3] + ws[4] + ws[5] + ws[6]
  {
  }

  // ---------------------------------------------------------------------------------------------
  // The parts of a function
  // ---------------------------------------------------------------------------------------------

  lemma PlaceHint(d: seq<u8>, i: nat, h: Hint)
    requires At(d, i, EncHint(h))
    ensures HintAt(d, i, 16, h) && |EncHint(h)| == HintSize(16)
  {
    hide Word, Long, Tiny, Le, WriteInts, At, U32, U64, Offset;
    RecordAt(d, i, HintInts(h), HintWidths(16));
    Offset7(HintWidths(16));
    PlaceI32(d, i, h.kind);
    PlaceI32(d, i + 4, h.op);
    PlaceByte(d, i + 8, h.flags);
    PlaceByte(d, i + 9, h.slotA);
    PlaceByte(d, i + 10, h.slotB);
    PlaceI64(d, i + 11, h.const0);
    PlaceI64(d, i + 19, h.const1);
  }

  lemma PlaceSummary(d: seq<u8>, i: nat, s: Summary)
    requires At(d, i, WriteInts(SummaryInts(s), SummaryWidths()))
    ensures SummaryAt(d, i, s) && |WriteInts(SummaryInts(s), SummaryWidths())| == 26
  {
    hide Word, Long, Tiny, Le, WriteInts, At, U32, U64, Offset;
    RecordAt(d, i, SummaryInts(s), SummaryWidths());
    Offset7(SummaryWidths());
    PlaceI32(d, i, s.kind);
    PlaceI32(d, i + 4, s.op);
    PlaceByte(d, i + 8, s.slot0);
    PlaceByte(d, i + 9, s.slot1);
    PlaceI64(d, i + 10, s.const0);
    PlaceI64(d, i + 18, s.const1);
  }

  lemma PlaceMasks(d: seq<u8>, i: nat, p: Profile)
    requires At(d, i, WriteInts(ProfileInts(p), ProfileWidths(16)))
    ensures Tiny(d, i, p.flags) && Tiny(d, i + 1, p.support) && Tiny(d, i + 2, p.family) && CountsAt(d, i + 3, p)
    ensures |WriteInts(ProfileInts(p), ProfileWidths(16))| == 15
  {
    hide Word, Long, Tiny, Le, WriteInts, At, U32, Offset;
    RecordAt(d, i, ProfileInts(p), ProfileWidths(16));
    Offset7(ProfileWidths(16));
    PlaceByte(d, i, p.flags);
    PlaceByte(d, i + 1, p.support);
    PlaceByte(d, i + 2, p.family);
    PlaceI32(d, i + 3, p.params);
    PlaceI32(d, i + 7, p.locals);
    PlaceI32(d, i + 11, p.captures);
  }

  lemma PlaceProfile(d: seq<u8>, i: nat, p: Profile)
    requires At(d, i, EncProfile(p))
    ensures ProfileAt(d, i, 16, p) && |EncProfile(p)| == ProfileSize(16)
  {
    hide WriteInts, At, Tiny, CountsAt, SummaryAt;
    var s, t := WriteInts(ProfileInts(p), ProfileWidths(VERSION)), WriteInts(SummaryInts(p.summary), SummaryWidths());
    AtConcat(d, i, s, t);
    PlaceMasks(d, i, p);
    PlaceSummary(d, i + 15, p.summary);
  }

  lemma PlaceCounts(d: seq<u8>, i: nat, f: Func)
    requires At(d, i, WriteInts(HeadInts(f), HeadWidths(16)))
    ensures Flag(d, i, f.isAsync, true) && Word(d, i + 1, f.deferHandlerIp) && Word(d, i + 5, f.deferReturnSlot)
    ensures Word(d, i + 9, f.paramCount) && Word(d, i + 13, f.localCount)
    ensures |WriteInts(HeadInts(f), HeadWidths(16))| == 17
  {
    hide Word, Long, Le, WriteInts, At, U32, Offset;
    RecordAt(d, i, HeadInts(f), HeadWidths(16));
    Offset7(HeadWidths(16));
    var async: u8 := if f.isAsync then 1 else 0;
    PlaceByte(d, i, async);
    PlaceI32(d, i + 1, f.deferHandlerIp);
    PlaceI32(d, i + 5, f.deferReturnSlot);
    PlaceI32(d, i + 9, f.paramCount);
    PlaceI32(d, i + 13, f.localCount);
  }

  lemma PlaceHead(d: seq<u8>, i: nat, f: Func)
    requires At(d, i, EncHead(f))
    ensures HeadAt(d, i, 16, f, true) && |EncHead(f)| == HeadSize(16, f)
  {
    hide Word, TextAt, TextSize, EncText, WriteInts, At, Flag;
    var rest := WriteInts(HeadInts(f), HeadWidths(VERSION));
    AtConcat(d, i, EncText(f.name), EncText(f.sourceFile) + rest);
    PlaceText(d, i, f.name);
    var j := i + TextSize(f.name);
    AtConcat(d, j, EncText(f.sourceFile), rest);
    PlaceText(d, j, f.sourceFile);
    PlaceCounts(d, j + TextSize(f.sourceFile), f);
  }

  lemma PlaceConstant(d: seq<u8>, i: nat, c: Const)
    requires IsConst(c) && ConstWritable(c) && At(d, i, EncConst(c))
    ensures ConstantAt(d, i, c)
  {
    hide Word, Long, Le, TextAt, EncText, At, U32, U64;
    match c {
      case NumConst(t, x) =>
        AtConcat(d, i, Le(U32(t), 4), Le(U64(x), 8));
        PlaceI32(d, i, t);
        PlaceI64(d, i + 4, x);
      case DoubleConst(x) =>
        AtConcat(d, i, Le(1, 4), Le(x, 8));
        PlaceWord(d, i, 1);
        PlaceLong(d, i + 4, x);
      case TextConst(t, s) =>
        AtConcat(d, i, Le(U32(t), 4), EncText(s));
        PlaceI32(d, i, t);
        PlaceText(d, i + 4, s);
    }
  }

  lemma ConstantPlaces(c: Const)
    requires IsConst(c) && ConstWritable(c)
    ensures Places(EncConst, ConstantAt, ConstantSize, c)
  {
    hide ConstantAt, At;
    forall d, i: nat ensures PlacesAt(EncConst, ConstantAt, c, d, i) {
      if At(d, i, EncConst(c)) { PlaceConstant(d, i, c); }
    }
  }

  lemma TextPlaces(t: Text)
    ensures Places(EncText, TextAt, TextSize, t)
  {
    hide TextAt, At;
    forall d, i: nat ensures PlacesAt(EncText, TextAt, t, d, i) {
      if At(d, i, EncText(t)) { PlaceText(d, i, t); }
    }
  }

  lemma PlaceConstants(d: seq<u8>, i: nat, cs: seq<Const>)
    requires All(cs, IsConst) && All(cs, ConstWritable) && At(d, i, EncCounted(cs, EncConst))
    ensures ConstantsAt(d, i, cs) && |EncCounted(cs, EncConst)| == ConstantsSize(cs)
  {
    hide Word, Le, At, WriteMany, Row, Places;
    AtConcat(d, i, Le(|cs|, 4), WriteMany(cs, EncConst));
    PlaceWord(d, i, |cs|);
    forall k | 0 <= k < |cs| ensures Places(EncConst, ConstantAt, ConstantSize, cs[k]) {
      assert IsConst(cs[k]) && ConstWritable(cs[k]);
      ConstantPlaces(cs[k]);
    }
    PlaceRow(d, i + 4, cs, EncConst, ConstantAt, ConstantSize);
  }

  lemma PlaceNames(d: seq<u8>, i: nat, ts: seq<Text>)
    requires At(d, i, WriteMany(ts, EncText))
    ensures Row(d, i, ts, TextAt, TextSize) && |WriteMany(ts, EncText)| == RowSize(ts, TextSize)
  {
    hide At, WriteMany, Row, Places;
    forall k | 0 <= k < |ts| ensures Places(EncText, TextAt, TextSize, ts[k]) { TextPlaces(ts[k]); }
    PlaceRow(d, i, ts, EncText, TextAt, TextSize);
  }

  lemma PlaceCode(d: seq<u8>, i: nat, code: seq<u8>)
    requires At(d, i, EncCode(code))
    ensures CodeAt(d, i, code) && |EncCode(code)| == 4 + |code|
  {
    hide Word, Le;
    AtConcat(d, i, Le(|code|, 4), code);
    PlaceWord(d, i, |code|);
  }

  // ---------------------------------------------------------------------------------------------
  // Functions and artifacts
  // ---------------------------------------------------------------------------------------------

  lemma PlaceFunction(d: seq<u8>, i: nat, f: Func)
    requires IsFunc(f) && FuncWritable(f) && At(d, i, EncFunction(f))
    ensures FunctionAt(d, i, 16, f, true) && |EncFunction(f)| == FunctionSize(16, f)
  {
    hide HeadAt, HeadSize, WordsAt, WordsSize, Row, RowSize, CodeAt, ConstantsAt, ConstantsSize, HintAt, ProfileAt, At;
    hide EncHead, EncWords, WriteMany, EncCode, EncCounted, EncHint, EncProfile;
    var profile, hint, constants := EncProfile(f.profile), EncHint(f.hint), EncCounted(f.constants, EncConst);
    var lines, code, names, captures := EncWords(f.lines), EncCode(f.code), WriteMany(f.debugNames, EncText), EncWords(f.captures);
    AtConcat(d, i, EncHead(f), captures + (names + (code + (lines + (constants + (hint + profile))))));
    PlaceHead(d, i, f);
    var j := CapturesOffset(i, 16, f);
    AtConcat(d, j, captures, names + (code + (lines + (constants + (hint + profile)))));
    PlaceWords(d, j, f.captures);
    j := NamesOffset(i, 16, f);
    AtConcat(d, j, names, code + (lines + (constants + (hint + profile))));
    PlaceNames(d, j, f.debugNames);
    j := CodeOffset(i, 16, f);
    AtConcat(d, j, code, lines + (constants + (hint + profile)));
    PlaceCode(d, j, f.code);
    j := LinesOffset(i, 16, f);
    AtConcat(d, j, lines, constants + (hint + profile));
    PlaceWords(d, j, f.lines);
    j := ConstantsOffset(i, 16, f);
    AtConcat(d, j, constants, hint + profile);
    PlaceConstants(d, j, f.constants);
    j := HintOffset(i, 16, f);
    AtConcat(d, j, hint, profile);
    PlaceHint(d, j, f.hint);
    PlaceProfile(d, ProfileOffset(i, 16, f), f.profile);
  }

  lemma {:induction false} FunctionLength(f: Func)
    requires IsFunc(f) && FuncWritable(f)
    ensures |EncFunction(f)| == FunctionSize(16, f)
  {
    hide FunctionAt, FunctionSize, EncFunction;
    var d := EncFunction(f);
    assert At(d, 0, d);
    PlaceFunction(d, 0, f);
  }

  lemma FunctionPlaces(f: Func)
    requires IsFunc(f) && FuncWritable(f)
    ensures Places(EncFunction, FunctionPlacer(16, true), FunctionSizer(16), f)
  {
    hide FunctionAt, FunctionSize, EncFunction, At;
    FunctionLength(f);
    forall d, i: nat ensures PlacesAt(EncFunction, FunctionPlacer(16, true), f, d, i) {
      if At(d, i, EncFunction(f)) { PlaceFunction(d, i, f); }
    }
  }

  lemma PlaceDependency(d: seq<u8>, i: nat, p: Dependency)
    requires At(d, i, EncDependency(p))
    ensures DependencyAt(d, i, p)
  {
    hide TextAt, Long, Le, EncText, At, U64;
    AtConcat(d, i, EncText(p.path), Le(U64(p.mtime), 8));
    PlaceText(d, i, p.path);
    PlaceI64(d, i + TextSize(p.path), p.mtime);
  }

  lemma DependencyPlaces(p: Dependency)
    ensures Places(EncDependency, DependencyAt, DependencySize, p)
  {
    hide DependencyAt, At;
    forall d, i: nat ensures PlacesAt(EncDependency, DependencyAt, p, d, i) {
      if At(d, i, EncDependency(p)) { PlaceDependency(d, i, p); }
    }
  }

  lemma PlaceDispatch(d: seq<u8>, i: nat, p: Dispatch)
    requires At(d, i, EncDispatch(p))
    ensures DispatchAt(d, i, p)
  {
    hide TextAt, TextSize, EncText, At;
    var a, b, c, e := EncText(p.interfaceName), EncText(p.recordName), EncText(p.methodName), EncText(p.functionName);
    AtConcat(d, i, a, b + (c + e));
    PlaceText(d, i, p.interfaceName);
    var j := i + TextSize(p.interfaceName);
    AtConcat(d, j, b, c + e);
    PlaceText(d, j, p.recordName);
    j := j + TextSize(p.recordName);
    AtConcat(d, j, c, e);
    PlaceText(d, j, p.methodName);
    PlaceText(d, j + TextSize(p.methodName), p.functionName);
  }

  lemma DispatchPlaces(p: Dispatch)
    ensures Places(EncDispatch, DispatchAt, DispatchSize, p)
  {
    hide DispatchAt, At;
    forall d, i: nat ensures PlacesAt(EncDispatch, DispatchAt, p, d, i) {
      if At(d, i, EncDispatch(p)) { PlaceDispatch(d, i, p); }
    }
  }

  /** A count and the items after it. */
  lemma PlaceCounted<T>(d: seq<u8>, i: nat, xs: seq<T>, write: T -> seq<u8>, at: (seq<u8>, nat, T) -> bool, size: T -> nat)
    requires forall k :: 0 <= k < |xs| ==> Places(write, at, size, xs[k])
    requires At(d, i, EncCounted(xs, write))
    ensures Word(d, i, |xs|) && Row(d, i + 4, xs, at, size) && |EncCounted(xs, write)| == 4 + RowSize(xs, size)
  {
    hide Word, Le, At, WriteMany, Row, Places;
    AtConcat(d, i, Le(|xs|, 4), WriteMany(xs, write));
    PlaceWord(d, i, |xs|);
    PlaceRow(d, i + 4, xs, write, at, size);
  }

  /** The functions of an artifact, and the initialiser after them. */
  lemma PlaceFunctions(d: seq<u8>, i: nat, a: Artifact)
    requires IsArtifact(a) && Writable(a) && At(d, i, WriteMany(a.functions, EncFunction) + EncInit(a.init))
    ensures Row(d, i, a.functions, FunctionPlacer(16, true), FunctionSizer(16))
    ensures var j := i + RowSize(a.functions, FunctionSizer(16));
      && (a.init.Some? ==> FunctionAt(d, j, 16, a.init.value, true))
      && i + |WriteMany(a.functions, EncFunction) + EncInit(a.init)|
         == j + if a.init.Some? then FunctionSize(16, a.init.value) else 0
  {
    hide At, WriteMany, Row, Places, FunctionAt, FunctionSize, EncFunction, RowSize;
    AtConcat(d, i, WriteMany(a.functions, EncFunction), EncInit(a.init));
    forall k | 0 <= k < |a.functions| ensures Places(EncFunction, FunctionPlacer(16, true), FunctionSizer(16), a.functions[k]) {
      assert IsFunc(a.functions[k]) && FuncWritable(a.functions[k]);
      FunctionPlaces(a.functions[k]);
    }
    PlaceRow(d, i, a.functions, EncFunction, FunctionPlacer(16, true), FunctionSizer(16));
    if a.init.Some? {
      PlaceFunction(d, i + RowSize(a.functions, FunctionSizer(16)), a.init.value);
    }
  }

  /** The letters and the version. */
  lemma PlaceMagic(d: seq<u8>)
    requires At(d, 0, MAGIC)
    ensures Tiny(d, 0, 'T' as int) && Tiny(d, 1, 'B' as int) && Tiny(d, 2, 'L' as int) && Tiny(d, 3, 'C' as int)
  {
    var s := d[0..4];
    assert s[0] == d[0] && s[1] == d[1] && s[2] == d[2] && s[3] == d[3];
  }

  /** Every artifact that is written has every field where the layout says. */
  lemma SavedLayout(a: Artifact)
    requires IsArtifact(a) && Writable(a)
    ensures Save(a).Some? && FileIs(Save(a).value, 16, a, true)
  {
    hide At, WriteMany, Row, Places, FunctionAt, FunctionSize, EncFunction, RowSize, Word, Tiny, Flag, Le, EncCounted,
         EncInit, U32, IsArtifact;
    var d := Save(a).value;
    var rest := WriteMany(a.functions, EncFunction) + EncInit(a.init);
    var init: u8 := if a.init.Some? then 1 else 0;
    var deps, dispatch := EncCounted(a.dependencies, EncDependency), EncCounted(a.dispatch, EncDispatch);
    var table := Le(|a.functions|, 4) + (Le(U32(a.mainIndex), 4) + (Le(init, 1) + rest));
    AllOf(d);
    AtConcat(d, 0, MAGIC, Le(VERSION, 4) + EncBody(a));
    PlaceMagic(d);
    AtConcat(d, 4, Le(VERSION, 4), EncBody(a));
    PlaceWord(d, 4, 16);
    AtConcat(d, 8, Le(a.flags, 4), deps + (dispatch + table));
    PlaceWord(d, 8, a.flags);
    AtConcat(d, 12, deps, dispatch + table);
    forall k | 0 <= k < |a.dependencies| ensures Places(EncDependency, DependencyAt, DependencySize, a.dependencies[k]) {
      DependencyPlaces(a.dependencies[k]);
    }
    PlaceCounted(d, 12, a.dependencies, EncDependency, DependencyAt, DependencySize);
    var j := DispatchOffset(a);
    AtConcat(d, j, dispatch, table);
    forall k | 0 <= k < |a.dispatch| ensures Places(EncDispatch, DispatchAt, DispatchSize, a.dispatch[k]) {
      DispatchPlaces(a.dispatch[k]);
    }
    PlaceCounted(d, j, a.dispatch, EncDispatch, DispatchAt, DispatchSize);
    PlaceTable(d, TableOffset(16, a), a, init, rest);
  }

  lemma AllOf(d: seq<u8>)
    ensures At(d, 0, d)
  {
  }

  lemma PlaceTable(d: seq<u8>, i: nat, a: Artifact, init: u8, rest: seq<u8>)
    requires IsArtifact(a) && Writable(a) && init == (if a.init.Some? then 1 else 0)
    requires rest == WriteMany(a.functions, EncFunction) + EncInit(a.init)
    requires At(d, i, Le(|a.functions|, 4) + (Le(U32(a.mainIndex), 4) + (Le(init, 1) + rest)))
    ensures Word(d, i, |a.functions|) && Word(d, i + 4, a.mainIndex) && Flag(d, i + 8, a.init.Some?, true)
    ensures Row(d, i + 9, a.functions, FunctionPlacer(16, true), FunctionSizer(16))
    ensures var j := i + 9 + RowSize(a.functions, FunctionSizer(16));
      && (a.init.Some? ==> FunctionAt(d, j, 16, a.init.value, true))
      && i + 9 + |rest| == j + if a.init.Some? then FunctionSize(16, a.init.value) else 0
  {
    hide At, WriteMany, Row, FunctionAt, FunctionSize, EncFunction, RowSize, Word, Le, EncInit, U32, IsArtifact, Writable;
    AtConcat(d, i, Le(|a.functions|, 4), Le(U32(a.mainIndex), 4) + (Le(init, 1) + rest));
    PlaceWord(d, i, |a.functions|);
    AtConcat(d, i + 4, Le(U32(a.mainIndex), 4), Le(init, 1) + rest);
    PlaceI32(d, i + 4, a.mainIndex);
    AtConcat(d, i + 8, Le(init, 1), rest);
    PlaceByte(d, i + 8, init);
    PlaceFunctions(d, i + 9, a);
  }
}
