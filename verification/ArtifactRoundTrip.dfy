/** Loading what was saved: part by part, then whole artifacts. */
module ArtifactRoundTrip {
  import opened Words
  import opened Parsing
  import opened ByteCodec
  import opened ArtifactFormat
  import opened ArtifactWriting
  import opened Options

  lemma IntAt(d: seq<u8>, i: nat, x: nat)
    requires x <= UINT32_MAX && At(d, i, Le(x, 4))
    ensures ReadInt(d, i, 4) == Ok(x, i + 4)
  {
    hide ReadInt, Le;
    Pow256Four();
    ReadIntAt(d, i, x, 4);
  }

  lemma TextAt(d: seq<u8>, i: nat, t: Text)
    requires TextWritable(t) && At(d, i, EncText(t))
    ensures ReadString(d, i) == Expect(TextFits(t), Bytes(t), i + |EncText(t)|)
  {
    ReadStringAt(d, i, Bytes(t));
  }

  lemma TextComesBack(t: Text)
    requires IsText(t)
    ensures NullIfEmpty(Bytes(t)) == NoEmpty(t) && Some(CString(Bytes(t))) == NoNull(t)
  {
  }

  // ---------------------------------------------------------------------------------------------
  // Fixed-size records
  // ---------------------------------------------------------------------------------------------

  lemma HintAt(d: seq<u8>, i: nat, h: Hint)
    requires At(d, i, EncHint(h))
    ensures ReadHint(d, i, VERSION) == Ok(h, i + |EncHint(h)|)
  {
    hide WriteInts, ReadInts;
    Pow256Four();
    SignedRoundTrip(h.kind, h.const0);
    SignedRoundTrip(h.op, h.const1);
    ReadIntsAt(d, i, HintInts(h), HintWidths(VERSION));
  }

  lemma SummaryAt(d: seq<u8>, i: nat, s: Summary)
    requires At(d, i, WriteInts(SummaryInts(s), SummaryWidths()))
    ensures var r := ReadInts(d, i, SummaryWidths());
      r == Ok(SummaryInts(s), i + |WriteInts(SummaryInts(s), SummaryWidths())|) && SummaryOf(r.value) == s
  {
    hide WriteInts, ReadInts;
    Pow256Four();
    SignedRoundTrip(s.kind, s.const0);
    SignedRoundTrip(s.op, s.const1);
    ReadIntsAt(d, i, SummaryInts(s), SummaryWidths());
  }

  lemma ProfileAt(d: seq<u8>, i: nat, p: Profile, h: Head, captures: i32, hintKind: i32)
    requires h.params <= INT_MAX && h.locals <= INT_MAX && captures >= 0
    requires At(d, i, EncProfile(p))
    ensures ReadProfile(d, i, VERSION, h, captures, hintKind) == Ok(p, i + |EncProfile(p)|)
  {
    hide WriteInts, ReadInts;
    Pow256Four();
    SignedRoundTrip(p.params, 0);
    SignedRoundTrip(p.locals, 0);
    SignedRoundTrip(p.captures, 0);
    var front := WriteInts(ProfileInts(p), ProfileWidths(VERSION));
    AtConcat(d, i, front, WriteInts(SummaryInts(p.summary), SummaryWidths()));
    ReadIntsAt(d, i, ProfileInts(p), ProfileWidths(VERSION));
    SummaryAt(d, i + |front|, p.summary);
  }

  lemma HeadIntsFit(f: Func)
    ensures Fit(HeadInts(f), HeadWidths(VERSION))
  {
    Pow256Four();
  }

  function HeadFor(f: Func): Head
    requires f.paramCount >= 0 && f.localCount >= 0
  {
    Head(NoEmpty(f.name), NoEmpty(f.sourceFile), f.isAsync, f.deferHandlerIp, f.deferReturnSlot, f.paramCount, f.localCount)
  }

  lemma HeadOfHeadInts(f: Func)
    requires f.paramCount >= 0 && f.localCount >= 0 && IsText(f.name) && IsText(f.sourceFile)
    ensures Fit(HeadInts(f), HeadWidths(VERSION))
    ensures HeadOf(VERSION, Bytes(f.name), Bytes(f.sourceFile), HeadInts(f)) == HeadFor(f)
  {
    hide Pow256;
    HeadIntsFit(f);
    SignedRoundTrip(f.deferHandlerIp, 0);
    SignedRoundTrip(f.deferReturnSlot, 0);
    TextComesBack(f.name);
    TextComesBack(f.sourceFile);
  }

  lemma HeadAt(d: seq<u8>, i: nat, f: Func)
    requires IsFunc(f) && FuncWritable(f) && At(d, i, EncHead(f))
    ensures ReadHead(d, i, VERSION) == Expect(TextFits(f.name) && TextFits(f.sourceFile), HeadFor(f), i + |EncHead(f)|)
  {
    hide WriteInts, ReadInts, EncText, ReadString, IsFunc, FuncWritable, HeadOf, Pow256;
    var ints := WriteInts(HeadInts(f), HeadWidths(VERSION));
    assert f.paramCount >= 0 && f.localCount >= 0 && IsText(f.name) && IsText(f.sourceFile) && TextWritable(f.name)
      && TextWritable(f.sourceFile) by { FuncBasics(f); }
    AtConcat(d, i, EncText(f.name), EncText(f.sourceFile) + ints);
    TextAt(d, i, f.name);
    var j := i + |EncText(f.name)|;
    AtConcat(d, j, EncText(f.sourceFile), ints);
    TextAt(d, j, f.sourceFile);
    HeadOfHeadInts(f);
    ReadIntsAt(d, j + |EncText(f.sourceFile)|, HeadInts(f), HeadWidths(VERSION));
  }

  lemma FuncBasics(f: Func)
    requires IsFunc(f) && FuncWritable(f)
    ensures f.paramCount >= 0 && f.localCount >= 0
    ensures IsText(f.name) && IsText(f.sourceFile) && TextWritable(f.name) && TextWritable(f.sourceFile)
  {
  }

  // ---------------------------------------------------------------------------------------------
  // Word lists, code, names, constants
  // ---------------------------------------------------------------------------------------------

  lemma WordsBack(xs: seq<i32>)
    ensures Fit(U32s(xs), Fours(|xs|)) && ToI32s(U32s(xs)) == xs
  {
    hide Pow256, I32, U32;
    forall k | 0 <= k < |xs| ensures U32s(xs)[k] < Pow256(4) && I32(U32s(xs)[k]) == xs[k] {
      SignedRoundTrip(xs[k], 0);
    }
  }

  lemma WordsAt(d: seq<u8>, i: nat, xs: seq<i32>)
    requires |xs| <= INT_MAX && At(d, i, EncWords(xs))
    ensures ReadInt(d, i, 4) == Ok(|xs|, i + 4)
    ensures ReadInts(d, i + 4, Fours(|xs|)) == Ok(U32s(xs), i + |EncWords(xs)|)
  {
    hide WriteInts, ReadInts, ReadInt, Le;
    AtConcat(d, i, Le(|xs|, 4), WriteInts(U32s(xs), Fours(|xs|)));
    IntAt(d, i, |xs|);
    WordsBack(xs);
    ReadIntsAt(d, i + 4, U32s(xs), Fours(|xs|));
  }

  lemma CapturesAt(d: seq<u8>, i: nat, f: Func)
    requires IsFunc(f) && FuncWritable(f) && At(d, i, EncWords(f.captures))
    ensures ReadCaptures(d, i, f.paramCount, f.localCount) == Ok(f.captures, i + |EncWords(f.captures)|)
  {
    hide EncWords, ReadInts, ReadInt, IsText;
    WordsAt(d, i, f.captures);
    WordsBack(f.captures);
    var xs := U32s(f.captures);
    forall c | 0 <= c < |xs| ensures f.paramCount <= xs[c] < f.localCount {
      assert f.paramCount <= f.captures[c] < f.localCount;
    }
  }

  lemma LinesAt(d: seq<u8>, i: nat, lines: seq<i32>)
    requires |lines| <= INT_MAX && At(d, i, EncWords(lines))
    ensures ReadLines(d, i, |lines|) == Ok(lines, i + |EncWords(lines)|)
  {
    hide EncWords, ReadInts, ReadInt;
    WordsAt(d, i, lines);
    WordsBack(lines);
  }

  lemma CodeAt(d: seq<u8>, i: nat, code: seq<u8>)
    requires |code| <= INT_MAX && At(d, i, EncCode(code))
    ensures ReadCode(d, i) == Expect(|code| <= MAX_COUNT, code, i + |EncCode(code)|)
  {
    hide ReadInt, Le;
    AtConcat(d, i, Le(|code|, 4), code);
    IntAt(d, i, |code|);
  }

  lemma NamesBack(ts: seq<Text>)
    requires All(ts, IsText)
    ensures NullEach(Map(ts, Bytes)) == Map(ts, NoEmpty)
  {
    forall k | 0 <= k < |ts| ensures NullIfEmpty(Bytes(ts[k])) == NoEmpty(ts[k]) {
      assert IsText(ts[k]);
      TextComesBack(ts[k]);
    }
  }

  lemma TextDecodes(t: Text)
    requires TextWritable(t)
    ensures Decodes(ReadString, EncText(t), TextFits(t), Bytes(t))
  {
    hide ReadString, EncText;
    forall d, i: nat ensures DecodesAt(ReadString, d, i, EncText(t), TextFits(t), Bytes(t)) {
      if At(d, i, EncText(t)) { TextAt(d, i, t); }
    }
  }

  lemma NamesAt(d: seq<u8>, i: nat, ts: seq<Text>)
    requires All(ts, IsText) && All(ts, TextWritable) && At(d, i, WriteMany(ts, EncText))
    ensures ReadNames(d, i, VERSION, |ts|) == Expect(All(ts, TextFits), Map(ts, NoEmpty), i + |WriteMany(ts, EncText)|)
  {
    hide ReadMany, WriteMany, EncText, ReadString, NullEach, Map, TextFits, Bytes, NoEmpty, Decodes, At;
    forall k | 0 <= k < |ts| ensures Decodes(ReadString, EncText(ts[k]), TextFits(ts[k]), Bytes(ts[k])) {
      assert TextWritable(ts[k]);
      TextDecodes(ts[k]);
    }
    ReadManyAt(d, i, ts, ReadString, EncText, TextFits, Bytes);
    NamesBack(ts);
  }

  lemma ConstAt(d: seq<u8>, i: nat, c: Const)
    requires IsConst(c) && ConstWritable(c) && At(d, i, EncConst(c))
    ensures ReadConst(d, i) == Expect(ConstFits(c), CleanConst(c), i + |EncConst(c)|)
  {
    hide ReadInt, Le, ReadString, EncText, Pow256;
    Pow256Four();
    match c {
      case NumConst(t, x) =>
        SignedRoundTrip(t, x);
        AtConcat(d, i, Le(U32(t), 4), Le(U64(x), 8));
        IntAt(d, i, U32(t));
        ReadIntAt(d, i + 4, U64(x), 8);
      case DoubleConst(x) =>
        AtConcat(d, i, Le(1, 4), Le(x, 8));
        IntAt(d, i, 1);
        ReadIntAt(d, i + 4, x, 8);
      case TextConst(t, s) =>
        SignedRoundTrip(t, 0);
        AtConcat(d, i, Le(U32(t), 4), EncText(s));
        IntAt(d, i, U32(t));
        TextAt(d, i + 4, s);
        TextComesBack(s);
    }
  }

  lemma ConstDecodes(c: Const)
    requires IsConst(c) && ConstWritable(c)
    ensures Decodes(ReadConst, EncConst(c), ConstFits(c), CleanConst(c))
  {
    hide ReadConst, EncConst;
    forall d, i: nat ensures DecodesAt(ReadConst, d, i, EncConst(c), ConstFits(c), CleanConst(c)) {
      if At(d, i, EncConst(c)) { ConstAt(d, i, c); }
    }
  }

  lemma CountedAt<T, U>(d: seq<u8>, i: nat, xs: seq<T>, read: Reader<U>, write: T -> seq<u8>, fits: T -> bool, clean: T -> U)
    requires |xs| <= INT_MAX
    requires forall k :: 0 <= k < |xs| ==> Decodes(read, write(xs[k]), fits(xs[k]), clean(xs[k]))
    requires At(d, i, EncCounted(xs, write))
    ensures ReadCounted(d, i, read) == Expect(|xs| <= MAX_COUNT && All(xs, fits), Map(xs, clean), i + |EncCounted(xs, write)|)
  {
    hide ReadInt, Le, ReadMany, WriteMany, Decodes;
    AtConcat(d, i, Le(|xs|, 4), WriteMany(xs, write));
    IntAt(d, i, |xs|);
    ReadManyAt(d, i + 4, xs, read, write, fits, clean);
  }

  lemma ConstsAt(d: seq<u8>, i: nat, cs: seq<Const>)
    requires |cs| <= INT_MAX && All(cs, IsConst) && All(cs, ConstWritable) && At(d, i, EncCounted(cs, EncConst))
    ensures ReadCounted(d, i, ReadConst)
      == Expect(|cs| <= MAX_COUNT && All(cs, ConstFits), Map(cs, CleanConst), i + |EncCounted(cs, EncConst)|)
  {
    hide ReadCounted, EncCounted, ReadConst, EncConst, Decodes;
    forall k | 0 <= k < |cs| ensures Decodes(ReadConst, EncConst(cs[k]), ConstFits(cs[k]), CleanConst(cs[k])) {
      assert IsConst(cs[k]) && ConstWritable(cs[k]);
      ConstDecodes(cs[k]);
    }
    CountedAt(d, i, cs, ReadConst, EncConst, ConstFits, CleanConst);
  }

  // ---------------------------------------------------------------------------------------------
  // Functions
  // ---------------------------------------------------------------------------------------------

  /** The offsets at which the parts of a function start. */
  lemma FunctionParts(d: seq<u8>, i: nat, f: Func) returns (i1: nat, i2: nat, i3: nat, i4: nat, i5: nat, i6: nat, i7: nat)
    requires At(d, i, EncFunction(f))
    ensures i1 == i + |EncHead(f)| && At(d, i, EncHead(f))
    ensures i2 == i1 + |EncWords(f.captures)| && At(d, i1, EncWords(f.captures))
    ensures i3 == i2 + |WriteMany(f.debugNames, EncText)| && At(d, i2, WriteMany(f.debugNames, EncText))
    ensures i4 == i3 + |EncCode(f.code)| && At(d, i3, EncCode(f.code))
    ensures i5 == i4 + |EncWords(f.lines)| && At(d, i4, EncWords(f.lines))
    ensures i6 == i5 + |EncCounted(f.constants, EncConst)| && At(d, i5, EncCounted(f.constants, EncConst))
    ensures i7 == i6 + |EncHint(f.hint)| && At(d, i6, EncHint(f.hint))
    ensures At(d, i7, EncProfile(f.profile)) && i7 + |EncProfile(f.profile)| == i + |EncFunction(f)|
  {
    hide At, EncHead, EncWords, WriteMany, EncText, EncCode, EncCounted, EncConst, EncHint, EncProfile;
    var h, c, n, o := EncHead(f), EncWords(f.captures), WriteMany(f.debugNames, EncText), EncCode(f.code);
    var l, k, t, p := EncWords(f.lines), EncCounted(f.constants, EncConst), EncHint(f.hint), EncProfile(f.profile);
    AtConcat(d, i, h, c + (n + (o + (l + (k + (t + p))))));
    i1 := i + |h|;
    AtConcat(d, i1, c, n + (o + (l + (k + (t + p)))));
    i2 := i1 + |c|;
    AtConcat(d, i2, n, o + (l + (k + (t + p))));
    i3 := i2 + |n|;
    AtConcat(d, i3, o, l + (k + (t + p)));
    i4 := i3 + |o|;
    AtConcat(d, i4, l, k + (t + p));
    i5 := i4 + |l|;
    AtConcat(d, i5, k, t + p);
    i6 := i5 + |k|;
    AtConcat(d, i6, t, p);
    i7 := i6 + |t|;
  }

  lemma FunctionAt(d: seq<u8>, i: nat, f: Func)
    requires IsFunc(f) && FuncWritable(f) && At(d, i, EncFunction(f))
    ensures ReadFunction(d, i, VERSION) == Expect(FuncFits(f), CleanFunc(f), i + |EncFunction(f)|)
  {
    hide At, EncFunction, EncHead, EncWords, WriteMany, EncText, EncCode, EncCounted, EncConst, EncHint, EncProfile,
         ReadHead, ReadCaptures, ReadNames, ReadCode, ReadLines, ReadCounted, ReadHint, ReadProfile, Map, All, TextFits, NoEmpty;
    var i1, i2, i3, i4, i5, i6, i7 := FunctionParts(d, i, f);
    HeadAt(d, i, f);
    CapturesAt(d, i1, f);
    NamesAt(d, i2, f.debugNames);
    CodeAt(d, i3, f.code);
    LinesAt(d, i4, f.lines);
    ConstsAt(d, i5, f.constants);
    HintAt(d, i6, f.hint);
    ProfileAt(d, i7, f.profile, HeadFor(f), |f.captures|, f.hint.kind);
  }

  lemma FunctionDecodes(f: Func)
    requires IsFunc(f) && FuncWritable(f)
    ensures Decodes(FunctionReader(VERSION), EncFunction(f), FuncFits(f), CleanFunc(f))
  {
    hide ReadFunction, EncFunction, IsFunc, FuncWritable, FuncFits, CleanFunc, At;
    var read := FunctionReader(VERSION);
    forall d, i: nat ensures DecodesAt(read, d, i, EncFunction(f), FuncFits(f), CleanFunc(f)) {
      if At(d, i, EncFunction(f)) { FunctionAt(d, i, f); }
    }
  }

  lemma FunctionsAt(d: seq<u8>, i: nat, fs: seq<Func>)
    requires All(fs, IsFunc) && All(fs, FuncWritable) && At(d, i, WriteMany(fs, EncFunction))
    ensures ReadMany(d, i, |fs|, FunctionReader(VERSION))
      == Expect(All(fs, FuncFits), Map(fs, CleanFunc), i + |WriteMany(fs, EncFunction)|)
  {
    hide ReadMany, WriteMany, EncFunction, FunctionReader, Decodes, IsFunc, FuncWritable, FuncFits, CleanFunc;
    var read := FunctionReader(VERSION);
    forall k | 0 <= k < |fs| ensures Decodes(read, EncFunction(fs[k]), FuncFits(fs[k]), CleanFunc(fs[k])) {
      assert IsFunc(fs[k]) && FuncWritable(fs[k]);
      FunctionDecodes(fs[k]);
    }
    ReadManyAt(d, i, fs, read, EncFunction, FuncFits, CleanFunc);
  }

  lemma InitAt(d: seq<u8>, i: nat, init: Option<Func>)
    requires init.Some? ==> IsFunc(init.value) && FuncWritable(init.value)
    requires At(d, i, EncInit(init))
    ensures ReadInit(d, i, VERSION, init.Some?) == Expect(init.Some? ==> FuncFits(init.value),
      if init.Some? then Some(CleanFunc(init.value)) else None, i + |EncInit(init)|)
  {
    hide ReadFunction, EncFunction, IsFunc, FuncWritable, FuncFits, CleanFunc;
    if init.Some? { FunctionAt(d, i, init.value); }
  }

  // ---------------------------------------------------------------------------------------------
  // Whole artifacts
  // ---------------------------------------------------------------------------------------------

  lemma DependencyAt(d: seq<u8>, i: nat, p: Dependency)
    requires IsDependency(p) && DependencyWritable(p) && At(d, i, EncDependency(p))
    ensures ReadDependency(d, i) == Expect(DependencyFits(p), CleanDependency(p), i + |EncDependency(p)|)
  {
    hide ReadInt, Le, ReadString, EncText;
    AtConcat(d, i, EncText(p.path), Le(U64(p.mtime), 8));
    TextAt(d, i, p.path);
    SignedRoundTrip(0, p.mtime);
    ReadIntAt(d, i + |EncText(p.path)|, U64(p.mtime), 8);
    TextComesBack(p.path);
  }

  lemma DependenciesAt(d: seq<u8>, i: nat, ps: seq<Dependency>)
    requires |ps| <= INT_MAX && All(ps, IsDependency) && All(ps, DependencyWritable) && At(d, i, EncCounted(ps, EncDependency))
    ensures ReadCounted(d, i, ReadDependency)
      == Expect(|ps| <= MAX_COUNT && All(ps, DependencyFits), Map(ps, CleanDependency), i + |EncCounted(ps, EncDependency)|)
  {
    hide ReadCounted, EncCounted, ReadDependency, EncDependency;
    forall k | 0 <= k < |ps| ensures Decodes(ReadDependency, EncDependency(ps[k]), DependencyFits(ps[k]), CleanDependency(ps[k])) {
      assert IsDependency(ps[k]) && DependencyWritable(ps[k]);
      forall d, i: nat ensures DecodesAt(ReadDependency, d, i, EncDependency(ps[k]), DependencyFits(ps[k]), CleanDependency(ps[k])) {
        if At(d, i, EncDependency(ps[k])) { DependencyAt(d, i, ps[k]); }
      }
    }
    CountedAt(d, i, ps, ReadDependency, EncDependency, DependencyFits, CleanDependency);
  }

  lemma DispatchAt(d: seq<u8>, i: nat, p: Dispatch)
    requires IsDispatch(p) && DispatchWritable(p) && At(d, i, EncDispatch(p))
    ensures ReadDispatch(d, i) == Expect(DispatchFits(p), CleanDispatch(p), i + |EncDispatch(p)|)
  {
    hide At, ReadString, EncText, TextFits, Bytes, CString;
    var a, b, c, e := EncText(p.interfaceName), EncText(p.recordName), EncText(p.methodName), EncText(p.functionName);
    AtConcat(d, i, a, b + (c + e));
    AtConcat(d, i + |a|, b, c + e);
    AtConcat(d, i + |a| + |b|, c, e);
    TextAt(d, i, p.interfaceName);
    TextAt(d, i + |a|, p.recordName);
    TextAt(d, i + |a| + |b|, p.methodName);
    TextAt(d, i + |a| + |b| + |c|, p.functionName);
    TextComesBack(p.interfaceName);
    TextComesBack(p.recordName);
    TextComesBack(p.methodName);
    TextComesBack(p.functionName);
  }

  lemma DispatchesAt(d: seq<u8>, i: nat, ps: seq<Dispatch>)
    requires |ps| <= INT_MAX && All(ps, IsDispatch) && All(ps, DispatchWritable) && At(d, i, EncCounted(ps, EncDispatch))
    ensures ReadCounted(d, i, ReadDispatch)
      == Expect(|ps| <= MAX_COUNT && All(ps, DispatchFits), Map(ps, CleanDispatch), i + |EncCounted(ps, EncDispatch)|)
  {
    hide ReadCounted, EncCounted, ReadDispatch, EncDispatch;
    forall k | 0 <= k < |ps| ensures Decodes(ReadDispatch, EncDispatch(ps[k]), DispatchFits(ps[k]), CleanDispatch(ps[k])) {
      assert IsDispatch(ps[k]) && DispatchWritable(ps[k]);
      forall d, i: nat ensures DecodesAt(ReadDispatch, d, i, EncDispatch(ps[k]), DispatchFits(ps[k]), CleanDispatch(ps[k])) {
        if At(d, i, EncDispatch(ps[k])) { DispatchAt(d, i, ps[k]); }
      }
    }
    CountedAt(d, i, ps, ReadDispatch, EncDispatch, DispatchFits, CleanDispatch);
  }

  lemma BodyAt(d: seq<u8>, i: nat, a: Artifact)
    requires IsArtifact(a) && Writable(a) && At(d, i, EncBody(a))
    ensures ReadBody(d, i, VERSION) == Expect(Fits(a), CleanArtifact(a), i + |EncBody(a)|)
  {
    hide At, Le, ReadInt, EncCounted, EncDependency, EncDispatch, WriteMany, EncFunction, EncInit, FunctionReader,
         ReadCounted, ReadDependency, ReadDispatch, ReadMany, ReadInit, Map, All, CleanFunc, FuncFits;
    var p, q := EncCounted(a.dependencies, EncDependency), EncCounted(a.dispatch, EncDispatch);
    var n, m, h := Le(|a.functions|, 4), Le(U32(a.mainIndex), 4), Le(if a.init.Some? then 1 else 0, 1);
    var g, t := WriteMany(a.functions, EncFunction), EncInit(a.init);
    AtConcat(d, i, Le(a.flags, 4), p + (q + (n + (m + (h + (g + t))))));
    var i1 := i + 4;
    AtConcat(d, i1, p, q + (n + (m + (h + (g + t)))));
    var i2 := i1 + |p|;
    AtConcat(d, i2, q, n + (m + (h + (g + t))));
    var i3 := i2 + |q|;
    AtConcat(d, i3, n, m + (h + (g + t)));
    AtConcat(d, i3 + 4, m, h + (g + t));
    AtConcat(d, i3 + 8, h, g + t);
    AtConcat(d, i3 + 9, g, t);
    IntAt(d, i, a.flags);
    DependenciesAt(d, i1, a.dependencies);
    DispatchesAt(d, i2, a.dispatch);
    IntAt(d, i3, |a.functions|);
    SignedRoundTrip(a.mainIndex, 0);
    IntAt(d, i3 + 4, U32(a.mainIndex));
    Pow256Four();
    ReadIntAt(d, i3 + 8, if a.init.Some? then 1 else 0, 1);
    FunctionsAt(d, i3 + 9, a.functions);
    InitAt(d, i3 + 9 + |g|, a.init);
  }

  /** Loading a saved artifact gives it back, up to null and empty strings, exactly when it is within the limits of
      the reader; otherwise loading fails. */
  lemma LoadSaved(a: Artifact)
    requires IsArtifact(a) && Save(a).Some?
    ensures Load(Save(a).value) == if Fits(a) then Some(CleanArtifact(a)) else None
  {
    hide IsArtifact, Writable, Fits, CleanArtifact, EncBody, ReadBody, Le, ReadInt;
    var d := Save(a).value;
    var rest := Le(VERSION, 4) + EncBody(a);
    assert At(d, 0, MAGIC + rest);
    AtConcat(d, 0, MAGIC, rest);
    AtConcat(d, 4, Le(VERSION, 4), EncBody(a));
    IntAt(d, 4, VERSION);
    BodyAt(d, 8, a);
  }
}
