/** Loading and the layout: artifact_load_bytes_internal gives an artifact exactly when the file is laid out as its version
    says, and then gives the fields that stand there. */
module ArtifactLoading {
  import opened Words
  import opened Parsing
  import opened ByteCodec
  import opened Options
  import opened ArtifactFormat
  import opened ArtifactLayout
  import opened ArtifactReading
  import opened ArtifactRecords

  // ---------------------------------------------------------------------------------------------
  // Constants, names and code
  // ---------------------------------------------------------------------------------------------

  lemma ReadTheConstant(d: seq<u8>, i: nat, c: Const)
    requires ConstantAt(d, i, c) && ConstantReads(c)
    ensures ReadConst(d, i) == Ok(CutConstant(c), i + ConstantSize(c))
  {
    hide Word, Long, TextAt, ReadInt, ReadString, CString, Pow256;
    Pow256Four();
    match c
    case NumConst(t, x) =>
      ReadWord(d, i, t);
      ReadSignedLong(d, i + 4, x);
      SignedRoundTrip(0, x);
    case DoubleConst(bits) =>
      ReadWord(d, i, 1);
      ReadLong(d, i + 4, bits);
    case TextConst(t, s) =>
      ReadWord(d, i, t);
      ReadText(d, i + 4, s);
  }

  lemma ConstantStands(d: seq<u8>, i: nat) returns (c: Const)
    requires ReadConst(d, i).Ok?
    ensures Stands(d, i, c, ReadConst(d, i), ConstantAt, ConstantSize, CutConstant, ConstantReads)
  {
    hide Word, Long, TextAt, ReadInt, ReadString, CString, Pow256;
    Pow256Four();
    SignedBack(d, i);
    var t := I32(ReadInt(d, i, 4).value);
    if t == 0 || t == 4 {
      SignedLongBack(d, i + 4);
      c := NumConst(t, I64(ReadInt(d, i + 4, 8).value));
    } else if t == 1 {
      LongBack(d, i + 4);
      c := DoubleConst(ReadInt(d, i + 4, 8).value);
    } else {
      TextBack(d, i + 4);
      c := TextConst(t, Some(ReadString(d, i + 4).value));
    }
  }

  lemma ReadTheCounted<T, U>(d: seq<u8>, i: nat, xs: seq<T>, read: Reader<U>, at: (seq<u8>, nat, T) -> bool,
          size: T -> nat, cut: T -> U)
    requires Word(d, i, |xs|) && |xs| <= MAX_COUNT && Row(d, i + 4, xs, at, size)
    requires forall k :: 0 <= k < |xs| ==> Reads(d, xs[k], read, at, size, cut)
    ensures ReadCounted(d, i, read) == Ok(Map(xs, cut), i + 4 + RowSize(xs, size))
  {
    hide Word, ReadInt, Row, RowSize, Reads, ReadMany;
    ReadWord(d, i, |xs|);
    ReadRow(d, i + 4, xs, read, at, size, cut);
  }

  lemma CountedBack<T(!new), U>(d: seq<u8>, i: nat, read: Reader<U>, at: (seq<u8>, nat, T) -> bool, size: T -> nat,
          cut: T -> U, ok: T -> bool)
    returns (xs: seq<T>)
    requires ReadCounted(d, i, read).Ok? && forall j: nat :: Backs(d, j, read, at, size, cut, ok)
    ensures Word(d, i, |xs|) && |xs| <= MAX_COUNT && Row(d, i + 4, xs, at, size) && All(xs, ok)
    ensures ReadCounted(d, i, read) == Ok(Map(xs, cut), i + 4 + RowSize(xs, size)) && i + 4 + RowSize(xs, size) <= |d|
  {
    hide Word, ReadInt, Row, RowSize, Backs, ReadMany;
    WordBack(d, i);
    xs := RowBack(d, i + 4, ReadInt(d, i, 4).value, read, at, size, cut, ok);
  }

  lemma ReadTheConstants(d: seq<u8>, i: nat, cs: seq<Const>)
    requires ConstantsAt(d, i, cs) && |cs| <= MAX_COUNT && All(cs, ConstantReads)
    ensures ReadCounted(d, i, ReadConst) == Ok(Map(cs, CutConstant), i + ConstantsSize(cs))
  {
    hide Word, ReadCounted, ConstantAt, ConstantSize, CutConstant, ConstantReads, ReadConst;
    forall k | 0 <= k < |cs| ensures Reads(d, cs[k], ReadConst, ConstantAt, ConstantSize, CutConstant) {
      forall j: nat | ConstantAt(d, j, cs[k]) ensures ReadConst(d, j) == Ok(CutConstant(cs[k]), j + ConstantSize(cs[k])) {
        ReadTheConstant(d, j, cs[k]);
      }
    }
    ReadTheCounted(d, i, cs, ReadConst, ConstantAt, ConstantSize, CutConstant);
  }

  lemma ConstantsStand(d: seq<u8>, i: nat) returns (cs: seq<Const>)
    requires ReadCounted(d, i, ReadConst).Ok?
    ensures ConstantsAt(d, i, cs) && |cs| <= MAX_COUNT && All(cs, ConstantReads) && i + ConstantsSize(cs) <= |d|
    ensures ReadCounted(d, i, ReadConst) == Ok(Map(cs, CutConstant), i + ConstantsSize(cs))
  {
    hide Word, ReadCounted, ConstantAt, ConstantSize, CutConstant, ConstantReads, ReadConst;
    forall j: nat ensures Backs(d, j, ReadConst, ConstantAt, ConstantSize, CutConstant, ConstantReads) {
      if ReadConst(d, j).Ok? { var c := ConstantStands(d, j); }
    }
    cs := CountedBack(d, i, ReadConst, ConstantAt, ConstantSize, CutConstant, ConstantReads);
  }

  lemma NullEachStored(ts: seq<Text>)
    ensures NullEach(Map(ts, Stored)) == Map(ts, CutName)
  {
    hide CString;
  }

  lemma NoNames(d: seq<u8>, i: nat, v: nat, ts: seq<Text>)
    requires v < 8 && forall k :: 0 <= k < |ts| ==> ts[k] == None
    ensures ReadNames(d, i, v, |ts|) == Ok(Map(ts, CutName), i)
  {
    hide NullEach, CString, Map;
    var r := ReadNames(d, i, v, |ts|).value;
    assert r == Map(ts, CutName);
  }

  lemma ReadTheTexts(d: seq<u8>, i: nat, ts: seq<Text>)
    requires All(ts, TextReads) && Row(d, i, ts, TextAt, TextSize)
    ensures ReadMany(d, i, |ts|, ReadString) == Ok(Map(ts, Stored), i + RowSize(ts, TextSize))
  {
    hide TextAt, ReadString, TextReads, TextSize, Row, RowSize, Map, ReadMany;
    forall k | 0 <= k < |ts| ensures Reads(d, ts[k], ReadString, TextAt, TextSize, Stored) {
      forall j: nat | TextAt(d, j, ts[k]) ensures ReadString(d, j) == Ok(Stored(ts[k]), j + TextSize(ts[k])) {
        ReadText(d, j, ts[k]);
      }
    }
    ReadRow(d, i, ts, ReadString, TextAt, TextSize, Stored);
  }

  lemma ReadTheNames(d: seq<u8>, i: nat, v: nat, f: Func)
    requires FunctionReads(f) && Supplied(v, f) && (v >= 8 ==> Row(d, i, f.debugNames, TextAt, TextSize))
    ensures ReadNames(d, i, v, f.localCount) == Ok(Map(f.debugNames, CutName), i + NamesSize(v, f))
  {
    hide CutName, TextAt, ReadString, TextReads, TextSize, Row, RowSize, Map, ReadMany, NullEach, CString, ConstantReads;
    var ts := f.debugNames;
    if v >= 8 {
      NullEachStored(ts);
      ReadTheTexts(d, i, ts);
    } else {
      NoNames(d, i, v, ts);
    }
  }

  lemma NamesStand(d: seq<u8>, i: nat, v: nat, locals: nat) returns (ts: seq<Text>)
    requires i <= |d| && ReadNames(d, i, v, locals).Ok?
    ensures |ts| == locals && All(ts, TextReads)
    ensures v >= 8 ==> Row(d, i, ts, TextAt, TextSize)
    ensures v < 8 ==> forall k :: 0 <= k < |ts| ==> ts[k] == None
    ensures var size := if v >= 8 then RowSize(ts, TextSize) else 0;
      ReadNames(d, i, v, locals) == Ok(Map(ts, CutName), i + size) && i + size <= |d|
  {
    hide CString, TextAt, ReadString;
    if v >= 8 {
      forall j: nat ensures Backs(d, j, ReadString, TextAt, TextSize, Stored, TextReads) {
        if ReadString(d, j).Ok? {
          TextBack(d, j);
          assert Stands(d, j, Some(ReadString(d, j).value), ReadString(d, j), TextAt, TextSize, Stored, TextReads);
        }
      }
      ts := RowBack(d, i, locals, ReadString, TextAt, TextSize, Stored, TextReads);
    } else {
      ts := seq(locals, _ => None);
      NoNames(d, i, v, ts);
    }
    NullEachStored(ts);
  }

  lemma ReadTheCode(d: seq<u8>, i: nat, code: seq<u8>)
    requires CodeAt(d, i, code) && |code| <= MAX_COUNT
    ensures ReadCode(d, i) == Ok(code, i + 4 + |code|)
  {
    hide Word, ReadInt;
    ReadWord(d, i, |code|);
  }

  lemma CodeStands(d: seq<u8>, i: nat)
    requires ReadCode(d, i).Ok?
    ensures var r := ReadCode(d, i); CodeAt(d, i, r.value) && |r.value| <= MAX_COUNT && r.next == i + 4 + |r.value| <= |d|
  {
    hide Word, ReadInt;
    WordBack(d, i);
  }

  // ---------------------------------------------------------------------------------------------
  // Functions
  // ---------------------------------------------------------------------------------------------

  /** A function of any version, laid out by hand, is read as the fields that stand there. */
  lemma ReadTheFunction(d: seq<u8>, i: nat, v: nat, f: Func)
    requires FunctionAt(d, i, v, f, false) && FunctionOk(v, f)
    ensures ReadFunction(d, i, v) == Ok(CutFunction(f), i + FunctionSize(v, f))
  {
    hide HeadAt, WordsAt, Row, RowSize, CodeAt, ConstantsAt, HintAt, ProfileAt, ReadHead, ReadCaptures, ReadNames, ReadCode,
         ReadLines, ReadCounted, ReadHint, ReadProfile, Map, CutName, HeadSize, FunctionReads, Supplied, TextSize;
    Parts(v, f);
    ReadTheHead(d, i, v, f);
    if v >= 4 { ReadTheCaptures(d, CapturesOffset(i, v, f), f); }
    ReadTheNames(d, NamesOffset(i, v, f), v, f);
    ReadTheCode(d, CodeOffset(i, v, f), f.code);
    ReadTheLines(d, LinesOffset(i, v, f), f.lines);
    ReadTheConstants(d, ConstantsOffset(i, v, f), f.constants);
    ReadTheEnd(d, i, v, f);
  }

  lemma Parts(v: nat, f: Func)
    requires FunctionOk(v, f)
    ensures 0 <= f.paramCount && 0 <= f.localCount && |f.captures| <= f.localCount
    ensures |f.lines| == |f.code| <= MAX_COUNT && |f.constants| <= MAX_COUNT && All(f.constants, ConstantReads)
    ensures v < 4 ==> f.captures == []
    ensures v < 9 ==> f.hint == NO_HINT
    ensures v < 10 ==> f.profile == NO_PROFILE
    ensures v < 13 ==> f.hint.op == 0 && f.hint.flags == 0
    ensures v >= 10 ==> SuppliedProfile(v, f)
  {
  }

  lemma ReadTheEnd(d: seq<u8>, i: nat, v: nat, f: Func)
    requires FunctionAt(d, i, v, f, false) && FunctionOk(v, f)
    ensures ReadHint(d, HintOffset(i, v, f), v) == Ok(f.hint, ProfileOffset(i, v, f))
    ensures ReadProfile(d, ProfileOffset(i, v, f), v, HeadFor(f), |f.captures|, f.hint.kind) == Ok(f.profile, FunctionEnd(i, v, f))
  {
    hide HeadAt, WordsAt, Row, RowSize, CodeAt, ConstantsAt, HintAt, ProfileAt, CutName, HeadSize, FunctionReads,
         Supplied, TextSize;
    hide ConstantsOffset, HintOffset;
    Parts(v, f);
    if v >= 9 { ReadTheHint(d, HintOffset(i, v, f), v, f.hint); }
    if v >= 10 { ReadTheProfile(d, ProfileOffset(i, v, f), v, f); }
  }

  lemma EndStands(d: seq<u8>, i: nat, v: nat, f: Func)
    requires i <= |d| && f.paramCount >= 0 && f.localCount >= 0 && |f.captures| <= INT_MAX
    requires var hint := ReadHint(d, i, v);
      hint.Ok? && hint.value == f.hint
      && var profile := ReadProfile(d, hint.next, v, HeadFor(f), |f.captures|, f.hint.kind);
         profile.Ok? && profile.value == f.profile
    ensures v >= 9 ==> HintAt(d, i, v, f.hint)
    ensures v >= 10 ==> ProfileAt(d, i + HintSize(v), v, f.profile) && SuppliedProfile(v, f)
    ensures v < 9 ==> f.hint == NO_HINT
    ensures v < 10 ==> f.profile == NO_PROFILE
    ensures v < 13 ==> f.hint.op == 0 && f.hint.flags == 0
    ensures ReadHint(d, i, v).next == i + HintSize(v) <= |d|
    ensures var end := i + HintSize(v) + if v >= 10 then ProfileSize(v) else 0;
      ReadProfile(d, i + HintSize(v), v, HeadFor(f), |f.captures|, f.hint.kind).next == end <= |d|
  {
    hide HintAt, ProfileAt, SuppliedProfile, CutName, ReadInts, HintOf, ProfileOf;
    if v >= 9 { HintStands(d, i, v); }
    if v >= 10 { ProfileStands(d, i + HintSize(v), v, f); }
  }

  lemma Joined(v: nat, f: Func, flag: u8)
    requires TextReads(f.name) && TextReads(f.sourceFile) && TailSays(v, f, flag)
    requires 0 <= f.paramCount && 0 <= f.localCount && |f.captures| <= f.localCount
    requires forall k :: 0 <= k < |f.captures| ==> f.paramCount <= f.captures[k] < f.localCount
    requires |f.debugNames| == f.localCount && All(f.debugNames, TextReads)
    requires |f.lines| == |f.code| <= MAX_COUNT && |f.constants| <= MAX_COUNT && All(f.constants, ConstantReads)
    requires (v < 3 ==> f.sourceFile == None) && (v < 4 ==> f.captures == [])
    requires v < 8 ==> forall k :: 0 <= k < |f.debugNames| ==> f.debugNames[k] == None
    requires (v < 9 ==> f.hint == NO_HINT) && (v < 10 ==> f.profile == NO_PROFILE)
    requires v < 13 ==> f.hint.op == 0 && f.hint.flags == 0
    requires v >= 10 ==> SuppliedProfile(v, f)
    ensures FunctionOk(v, f)
  {
  }

  lemma FunctionStands(d: seq<u8>, i: nat, v: nat) returns (f: Func)
    requires ReadFunction(d, i, v).Ok?
    ensures Stands(d, i, f, ReadFunction(d, i, v), FunctionPlacer(v, false), FunctionSizer(v), CutFunction, FunctionOkIn(v))
  {
    hide FunctionAt, FunctionOk, ReadFunction, FunctionSize, CutFunction;
    f := FunctionIsLaidOut(d, i, v);
  }

  /** The reads of a function, one after another. */
  lemma Steps(d: seq<u8>, i: nat, v: nat) returns (h: Head, b: Func, i1: nat, i2: nat, i3: nat, i4: nat, i5: nat,
          i6: nat, i7: nat)
    requires ReadFunction(d, i, v).Ok?
    ensures ReadFunction(d, i, v).value == b && ReadHead(d, i, v) == Ok(h, i1) && h.params <= INT_MAX && h.locals <= INT_MAX
    ensures (if v >= 4 then ReadCaptures(d, i1, h.params, h.locals) else Ok([], i1)) == Ok(b.captures, i2)
    ensures ReadNames(d, i2, v, h.locals) == Ok(b.debugNames, i3)
    ensures ReadCode(d, i3) == Ok(b.code, i4)
    ensures ReadLines(d, i4, |b.code|) == Ok(b.lines, i5)
    ensures ReadCounted(d, i5, ReadConst) == Ok(b.constants, i6)
    ensures ReadHint(d, i6, v) == Ok(b.hint, i7) && |b.captures| <= INT_MAX
    ensures ReadProfile(d, i7, v, h, |b.captures|, b.hint.kind) == Ok(b.profile, ReadFunction(d, i, v).next)
    ensures h == Head(b.name, b.sourceFile, b.isAsync, b.deferHandlerIp, b.deferReturnSlot, b.paramCount, b.localCount)
  {
    hide ReadHead, ReadCaptures, ReadNames, ReadCode, ReadLines, ReadCounted, ReadHint, ReadProfile;
    b := ReadFunction(d, i, v).value;
    h, i1 := ReadHead(d, i, v).value, ReadHead(d, i, v).next;
    i2 := if v >= 4 then ReadCaptures(d, i1, h.params, h.locals).next else i1;
    i3 := ReadNames(d, i2, v, h.locals).next;
    i4 := ReadCode(d, i3).next;
    i5 := ReadLines(d, i4, |b.code|).next;
    i6 := ReadCounted(d, i5, ReadConst).next;
    i7 := ReadHint(d, i6, v).next;
  }

  /** Whatever reads as a function of version v is laid out as one. */
  lemma FunctionIsLaidOut(d: seq<u8>, i: nat, v: nat) returns (f: Func)
    requires ReadFunction(d, i, v).Ok?
    ensures FunctionAt(d, i, v, f, false) && FunctionOk(v, f)
    ensures ReadFunction(d, i, v) == Ok(CutFunction(f), i + FunctionSize(v, f)) && i + FunctionSize(v, f) <= |d|
  {
    hide HeadAt, WordsAt, Row, RowSize, CodeAt, ConstantsAt, HintAt, ProfileAt, ReadHead, ReadCaptures, ReadNames, ReadCode,
         ReadLines, ReadCounted, ReadHint, ReadProfile, ReadFunction, Map, CutName, HeadSize, FunctionReads, Supplied, TextSize,
         ReadString, SuppliedProfile, TailSays, TextReads, ConstantReads;
    var h, b, i1, i2, i3, i4, i5, i6, i7 := Steps(d, i, v);
    HeadUnfold(d, i, v);
    if v >= 4 { CapturesBack(d, i1, h.params, h.locals); }
    var names := NamesStand(d, i2, v, h.locals);
    CodeStands(d, i3);
    LinesBack(d, i4, |b.code|);
    var constants := ConstantsStand(d, i5);
    f := b.(name := RawName(d, i), sourceFile := if v >= 3 then RawName(d, ReadString(d, i).next) else None,
            debugNames := names, constants := constants);
    assert HeadFor(f) == h;
    HeadStands(d, i, v, f);
    EndStands(d, i6, v, f);
    var flag :| TailSays(v, f, flag);
    Joined(v, f, flag);
  }

  // ---------------------------------------------------------------------------------------------
  // Files
  // ---------------------------------------------------------------------------------------------

  lemma ReadTheDependency(d: seq<u8>, i: nat, p: Dependency)
    requires DependencyAt(d, i, p) && DependencyReads(p)
    ensures ReadDependency(d, i) == Ok(CutDependency(p), i + DependencySize(p))
  {
    hide Long, TextAt, ReadInt, ReadString, CString;
    ReadText(d, i, p.path);
    ReadSignedLong(d, i + TextSize(p.path), p.mtime);
    SignedRoundTrip(0, p.mtime);
  }

  lemma DependencyStands(d: seq<u8>, i: nat) returns (p: Dependency)
    requires ReadDependency(d, i).Ok?
    ensures Stands(d, i, p, ReadDependency(d, i), DependencyAt, DependencySize, CutDependency, DependencyReads)
  {
    hide Long, TextAt, ReadInt, ReadString, CString;
    TextBack(d, i);
    var j := ReadString(d, i).next;
    SignedLongBack(d, j);
    p := Dependency(Some(ReadString(d, i).value), I64(ReadInt(d, j, 8).value));
  }

  lemma ReadTheDispatch(d: seq<u8>, i: nat, p: Dispatch)
    requires DispatchAt(d, i, p) && DispatchReads(p)
    ensures ReadDispatch(d, i) == Ok(CutDispatch(p), i + DispatchSize(p))
  {
    hide TextAt, ReadString, CString, TextSize;
    ReadText(d, i, p.interfaceName);
    ReadText(d, i + TextSize(p.interfaceName), p.recordName);
    ReadText(d, i + TextSize(p.interfaceName) + TextSize(p.recordName), p.methodName);
    ReadText(d, i + TextSize(p.interfaceName) + TextSize(p.recordName) + TextSize(p.methodName), p.functionName);
  }

  lemma DispatchStands(d: seq<u8>, i: nat) returns (p: Dispatch)
    requires ReadDispatch(d, i).Ok?
    ensures Stands(d, i, p, ReadDispatch(d, i), DispatchAt, DispatchSize, CutDispatch, DispatchReads)
  {
    hide TextAt, ReadString, CString, TextSize, TextReads;
    var a := ReadString(d, i);
    TextBack(d, i);
    var b := ReadString(d, a.next);
    TextBack(d, a.next);
    var c := ReadString(d, b.next);
    TextBack(d, b.next);
    TextBack(d, c.next);
    p := Dispatch(Some(a.value), Some(b.value), Some(c.value), Some(ReadString(d, c.next).value));
  }

  lemma ReadTheDependencies(d: seq<u8>, i: nat, ps: seq<Dependency>)
    requires Word(d, i, |ps|) && |ps| <= MAX_COUNT && All(ps, DependencyReads) && Row(d, i + 4, ps, DependencyAt, DependencySize)
    ensures ReadCounted(d, i, ReadDependency) == Ok(Map(ps, CutDependency), i + 4 + RowSize(ps, DependencySize))
  {
    hide Word, Row, DependencyAt, DependencySize, CutDependency, DependencyReads, ReadDependency, ReadCounted;
    forall k | 0 <= k < |ps| ensures Reads(d, ps[k], ReadDependency, DependencyAt, DependencySize, CutDependency) {
      forall j: nat | DependencyAt(d, j, ps[k]) ensures ReadDependency(d, j) == Ok(CutDependency(ps[k]), j + DependencySize(ps[k])) {
        ReadTheDependency(d, j, ps[k]);
      }
    }
    ReadTheCounted(d, i, ps, ReadDependency, DependencyAt, DependencySize, CutDependency);
  }

  lemma DependenciesStand(d: seq<u8>, i: nat) returns (ps: seq<Dependency>)
    requires ReadCounted(d, i, ReadDependency).Ok?
    ensures Word(d, i, |ps|) && |ps| <= MAX_COUNT && All(ps, DependencyReads) && Row(d, i + 4, ps, DependencyAt, DependencySize)
    ensures ReadCounted(d, i, ReadDependency) == Ok(Map(ps, CutDependency), i + 4 + RowSize(ps, DependencySize))
    ensures i + 4 + RowSize(ps, DependencySize) <= |d|
  {
    hide Word, Row, DependencyAt, DependencySize, CutDependency, DependencyReads, ReadDependency, ReadCounted;
    forall j: nat ensures Backs(d, j, ReadDependency, DependencyAt, DependencySize, CutDependency, DependencyReads) {
      if ReadDependency(d, j).Ok? { var p := DependencyStands(d, j); }
    }
    ps := CountedBack(d, i, ReadDependency, DependencyAt, DependencySize, CutDependency, DependencyReads);
  }

  lemma ReadTheDispatches(d: seq<u8>, i: nat, ps: seq<Dispatch>)
    requires DispatchesAt(d, i, ps) && |ps| <= MAX_COUNT && All(ps, DispatchReads)
    ensures ReadCounted(d, i, ReadDispatch) == Ok(Map(ps, CutDispatch), i + 4 + RowSize(ps, DispatchSize))
  {
    hide Word, Row, DispatchAt, DispatchSize, CutDispatch, DispatchReads, ReadDispatch, ReadCounted;
    forall k | 0 <= k < |ps| ensures Reads(d, ps[k], ReadDispatch, DispatchAt, DispatchSize, CutDispatch) {
      forall j: nat | DispatchAt(d, j, ps[k]) ensures ReadDispatch(d, j) == Ok(CutDispatch(ps[k]), j + DispatchSize(ps[k])) {
        ReadTheDispatch(d, j, ps[k]);
      }
    }
    ReadTheCounted(d, i, ps, ReadDispatch, DispatchAt, DispatchSize, CutDispatch);
  }

  lemma DispatchesStand(d: seq<u8>, i: nat) returns (ps: seq<Dispatch>)
    requires ReadCounted(d, i, ReadDispatch).Ok?
    ensures DispatchesAt(d, i, ps) && |ps| <= MAX_COUNT && All(ps, DispatchReads)
    ensures ReadCounted(d, i, ReadDispatch) == Ok(Map(ps, CutDispatch), i + 4 + RowSize(ps, DispatchSize))
    ensures i + 4 + RowSize(ps, DispatchSize) <= |d|
  {
    hide Word, Row, DispatchAt, DispatchSize, CutDispatch, DispatchReads, ReadDispatch, ReadCounted;
    forall j: nat ensures Backs(d, j, ReadDispatch, DispatchAt, DispatchSize, CutDispatch, DispatchReads) {
      if ReadDispatch(d, j).Ok? { var p := DispatchStands(d, j); }
    }
    ps := CountedBack(d, i, ReadDispatch, DispatchAt, DispatchSize, CutDispatch, DispatchReads);
  }

  lemma ReadTheFunctions(d: seq<u8>, i: nat, v: nat, fs: seq<Func>)
    requires All(fs, FunctionOkIn(v)) && Row(d, i, fs, FunctionPlacer(v, false), FunctionSizer(v))
    ensures ReadMany(d, i, |fs|, FunctionReader(v)) == Ok(Map(fs, CutFunction), i + RowSize(fs, FunctionSizer(v)))
  {
    hide Row, RowSize, ReadMany, FunctionAt, FunctionSize, CutFunction, FunctionOk, ReadFunction;
    var read, at, size := FunctionReader(v), FunctionPlacer(v, false), FunctionSizer(v);
    forall k | 0 <= k < |fs| ensures Reads(d, fs[k], read, at, size, CutFunction) {
      forall j: nat | at(d, j, fs[k]) ensures read(d, j) == Ok(CutFunction(fs[k]), j + size(fs[k])) {
        assert FunctionOkIn(v)(fs[k]);
        ReadTheFunction(d, j, v, fs[k]);
      }
    }
    ReadRow(d, i, fs, read, at, size, CutFunction);
  }

  lemma FunctionsStand(d: seq<u8>, i: nat, v: nat, n: nat) returns (fs: seq<Func>)
    requires i <= |d| && ReadMany(d, i, n, FunctionReader(v)).Ok?
    ensures |fs| == n && All(fs, FunctionOkIn(v)) && Row(d, i, fs, FunctionPlacer(v, false), FunctionSizer(v))
    ensures ReadMany(d, i, n, FunctionReader(v)) == Ok(Map(fs, CutFunction), i + RowSize(fs, FunctionSizer(v)))
    ensures i + RowSize(fs, FunctionSizer(v)) <= |d|
  {
    hide Row, RowSize, ReadMany, FunctionAt, FunctionSize, CutFunction, FunctionOk, ReadFunction;
    var read, at, size := FunctionReader(v), FunctionPlacer(v, false), FunctionSizer(v);
    forall j: nat ensures Backs(d, j, read, at, size, CutFunction, FunctionOkIn(v)) {
      if read(d, j).Ok? { var f := FunctionStands(d, j, v); }
    }
    fs := RowBack(d, i, n, read, at, size, CutFunction, FunctionOkIn(v));
  }

  lemma MagicAt(d: seq<u8>)
    ensures ReadRaw(d, 0, 4) == Ok(MAGIC, 4) <==>
      Tiny(d, 0, 'T' as int) && Tiny(d, 1, 'B' as int) && Tiny(d, 2, 'L' as int) && Tiny(d, 3, 'C' as int)
  {
    if |d| >= 4 { assert d[0..4] == [d[0], d[1], d[2], d[3]]; }
  }

  /** A file laid out by hand as version v says, from 2 to 16, loads as the fields that stand in it; what an older version
      does not hold is what `Supplied` says. */
  lemma LaidOutLoads(d: seq<u8>, v: nat, a: Artifact)
    requires FileIs(d, v, a, false) && ArtifactOk(v, a)
    ensures Load(d) == Some(CutArtifact(a))
  {
    hide Word, Tiny, Row, RowSize, ReadInt, ReadMany, ReadCounted, Map, CutFunction, CutDependency, CutDispatch,
         FunctionAt, FunctionSize, FunctionOk, ReadBody;
    MagicAt(d);
    ReadWord(d, 4, v);
    ReadTheBody(d, v, a);
  }

  lemma ReadTheBody(d: seq<u8>, v: nat, a: Artifact)
    requires FileIs(d, v, a, false) && ArtifactOk(v, a)
    ensures ReadBody(d, 8, v) == Ok(CutArtifact(a), |d|)
  {
    hide Word, Row, RowSize, ReadInt, ReadMany, ReadCounted, Map, CutFunction, CutDependency, CutDispatch, FunctionAt,
         FunctionSize, FunctionOk, ReadFunction, DispatchesAt;
    ReadWord(d, 8, a.flags);
    ReadTheDependencies(d, 12, a.dependencies);
    if v >= 5 { ReadTheDispatches(d, DispatchOffset(a), a.dispatch); }
    var i := TableOffset(v, a);
    ReadWord(d, i, |a.functions|);
    ReadWord(d, i + 4, a.mainIndex);
    ByteBack(d, i + 8);
    Small(a.mainIndex);
    ReadTheFunctions(d, i + 9, v, a.functions);
    if a.init.Some? { ReadTheFunction(d, InitOffset(v, a), v, a.init.value); }
    EmptyMap(a.dispatch);
  }

  lemma Small(x: nat)
    requires x <= INT_MAX
    ensures x < Pow256(4) && I32(x) == x
  {
    Pow256Four();
  }

  lemma EmptyMap(ps: seq<Dispatch>)
    ensures ps == [] ==> Map(ps, CutDispatch) == []
  {
  }

  /** And whatever loads is laid out so: the fields that come back stand in the file. */
  lemma LoadedIsLaidOut(d: seq<u8>) returns (v: nat, a: Artifact)
    requires Load(d).Some?
    ensures FileIs(d, v, a, false) && ArtifactOk(v, a) && Load(d) == Some(CutArtifact(a))
  {
    hide Word, Tiny, ReadInt, ReadBody, FileIs, ArtifactOk, CutArtifact;
    MagicAt(d);
    WordBack(d, 4);
    v := ReadInt(d, 4, 4).value;
    a := BodyStands(d, v);
  }

  lemma BodyStands(d: seq<u8>, v: nat) returns (a: Artifact)
    requires 2 <= v <= 16 && Word(d, 4, v) && ReadRaw(d, 0, 4) == Ok(MAGIC, 4) && ReadBody(d, 8, v).Ok? && ReadBody(d, 8, v).next == |d|
    ensures FileIs(d, v, a, false) && ArtifactOk(v, a) && ReadBody(d, 8, v).value == CutArtifact(a)
  {
    hide Word, Tiny, Row, RowSize, ReadInt, ReadMany, ReadCounted, Map, CutFunction, CutDependency, CutDispatch,
         FunctionAt, FunctionSize, FunctionOk, ReadFunction, DispatchesAt, ReadRaw;
    MagicAt(d);
    var b := ReadBody(d, 8, v).value;
    WordBack(d, 8);
    var dependencies := DependenciesStand(d, 12);
    var i := 16 + RowSize(dependencies, DependencySize);
    var dispatch: seq<Dispatch> := [];
    if v >= 5 {
      dispatch := DispatchesStand(d, i);
      i := i + 4 + RowSize(dispatch, DispatchSize);
    }
    EmptyMap(dispatch);
    WordBack(d, i);
    SignedBack(d, i + 4);
    ByteBack(d, i + 8);
    var functions := FunctionsStand(d, i + 9, v, ReadInt(d, i, 4).value);
    a := Artifact(b.flags, dependencies, dispatch, b.mainIndex, functions, None);
    if b.init.Some? {
      var init := FunctionStands(d, InitOffset(v, a), v);
      a := a.(init := Some(init));
    }
  }

  /** The file is laid out as version v says for a, which reads as b. */
  ghost predicate LaidOut(d: seq<u8>, v: nat, a: Artifact, b: Artifact) {
    FileIs(d, v, a, false) && ArtifactOk(v, a) && b == CutArtifact(a)
  }

  /** Loading is decided by the layout: an artifact comes out exactly when the file is laid out for it. */
  lemma LoadExact(d: seq<u8>, b: Artifact)
    ensures Load(d) == Some(b) <==> exists v, a :: LaidOut(d, v, a, b)
  {
    hide Load, FileIs, ArtifactOk, CutArtifact;
    if Load(d) == Some(b) {
      var v, a := LoadedIsLaidOut(d);
      assert LaidOut(d, v, a, b);
    }
    if v, a :| LaidOut(d, v, a, b) { LaidOutLoads(d, v, a); }
  }
}
