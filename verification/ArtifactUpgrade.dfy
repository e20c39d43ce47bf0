/** Whatever loads, from any version, can be saved again as version 16 without losing anything. */
module ArtifactUpgrade {
  import opened Words
  import opened Parsing
  import opened ByteCodec
  import opened ArtifactFormat
  import opened ArtifactWriting
  import opened ArtifactRoundTrip
  import opened Options

  /** A string the reader made out of at most MAX_STRING_BYTES bytes. */
  predicate ReadBack(t: Text) { IsText(t) && TextFits(t) }

  /** Every item of a run has the property that every single read has. */
  ghost predicate Yields<T>(read: Reader<T>, p: T -> bool) {
    forall d, i: nat :: YieldsAt(read, p, d, i)
  }

  ghost predicate YieldsAt<T>(read: Reader<T>, p: T -> bool, d: seq<u8>, i: nat) {
    read(d, i).Ok? ==> p(read(d, i).value)
  }

  lemma {:induction false} ManyYield<T>(d: seq<u8>, i: nat, n: nat, read: Reader<T>, p: T -> bool)
    requires Yields(read, p) && ReadMany(d, i, n, read).Ok?
    ensures All(ReadMany(d, i, n, read).value, p)
    decreases n
  {
    if n > 0 {
      assert YieldsAt(read, p, d, i);
      ManyYield(d, read(d, i).next, n - 1, read, p);
    }
  }

  lemma CountedYield<T>(d: seq<u8>, i: nat, read: Reader<T>, p: T -> bool)
    requires Yields(read, p) && ReadCounted(d, i, read).Ok?
    ensures var xs := ReadCounted(d, i, read).value; |xs| <= MAX_COUNT && All(xs, p)
  {
    hide ReadInt, Yields;
    var r := ReadInt(d, i, 4);
    ManyYield(d, r.next, r.value, read, p);
  }

  lemma MapSame<T>(xs: seq<T>, f: T -> T)
    requires forall k :: 0 <= k < |xs| ==> f(xs[k]) == xs[k]
    ensures Map(xs, f) == xs
  {
  }

  // ---------------------------------------------------------------------------------------------

  predicate StableName(t: Text) { ReadBack(t) && NoEmpty(t) == t }

  predicate StableText(t: Text) { ReadBack(t) && NoNull(t) == t }

  predicate StableConst(c: Const) {
    IsConst(c) && ConstWritable(c) && ConstFits(c) && CleanConst(c) == c
  }

  predicate StableFunc(f: Func) {
    IsFunc(f) && FuncWritable(f) && FuncFits(f) && CleanFunc(f) == f
  }

  predicate StableDependency(p: Dependency) { StableText(p.path) }

  predicate StableDispatch(p: Dispatch) {
    StableText(p.interfaceName) && StableText(p.recordName) && StableText(p.methodName) && StableText(p.functionName)
  }

  lemma StringIsShort(d: seq<u8>, i: nat)
    ensures ReadString(d, i).Ok? ==> |ReadString(d, i).value| <= MAX_STRING_BYTES
  {
  }

  lemma NameIsStable(s: seq<u8>)
    requires |s| <= MAX_STRING_BYTES
    ensures StableName(NullIfEmpty(s)) && StableText(Some(CString(s)))
  {
  }

  lemma ConstsYield()
    ensures Yields(ReadConst, StableConst)
  {
    forall d, i: nat ensures YieldsAt(ReadConst, StableConst, d, i) {
      var r := ReadConst(d, i);
      if r.Ok? {
        var t := ReadInt(d, i, 4);
        StringIsShort(d, t.next);
        if r.value.TextConst? { NameIsStable(ReadString(d, t.next).value); }
      }
    }
  }

  lemma HeadYields(d: seq<u8>, i: nat, v: nat)
    requires ReadHead(d, i, v).Ok?
    ensures StableName(ReadHead(d, i, v).value.name) && StableName(ReadHead(d, i, v).value.sourceFile)
  {
    hide ReadString, ReadInts, StableName;
    var a := ReadString(d, i);
    StringIsShort(d, i);
    StringIsShort(d, a.next);
    NameIsStable(a.value);
    NameIsStable(if v >= 3 then ReadString(d, a.next).value else []);
  }

  lemma NamesYield(d: seq<u8>, i: nat, v: nat, locals: nat)
    requires ReadNames(d, i, v, locals).Ok?
    ensures var ts := ReadNames(d, i, v, locals).value; |ts| == locals && All(ts, StableName)
  {
    hide ReadString, ReadMany, StableName, NullIfEmpty;
    var short := (s: seq<u8>) => |s| <= MAX_STRING_BYTES;
    forall d, i: nat ensures YieldsAt(ReadString, short, d, i) { StringIsShort(d, i); }
    assert Yields(ReadString, short);
    if v >= 8 {
      var ss := ReadMany(d, i, locals, ReadString).value;
      ManyYield(d, i, locals, ReadString, short);
      forall k | 0 <= k < locals ensures StableName(NullEach(ss)[k]) { assert short(ss[k]); NameIsStable(ss[k]); }
    } else {
      NameIsStable([]);
    }
  }

  lemma CapturesYield(d: seq<u8>, i: nat, params: nat, locals: nat)
    requires params <= INT_MAX && locals <= INT_MAX && ReadCaptures(d, i, params, locals).Ok?
    ensures var xs := ReadCaptures(d, i, params, locals).value;
      |xs| <= locals && forall k :: 0 <= k < |xs| ==> params <= xs[k] < locals
  {
    hide ReadInts, ReadInt, Pow256;
    Pow256Four();
  }

  lemma FuncIsStable(f: Func)
    requires StableName(f.name) && StableName(f.sourceFile) && f.paramCount >= 0 && f.localCount >= 0
    requires |f.captures| <= f.localCount && forall k :: 0 <= k < |f.captures| ==> f.paramCount <= f.captures[k] < f.localCount
    requires |f.debugNames| == f.localCount && All(f.debugNames, StableName)
    requires |f.lines| == |f.code| <= MAX_COUNT
    requires |f.constants| <= MAX_COUNT && All(f.constants, StableConst)
    ensures StableFunc(f)
  {
    hide Map, IsText, TextWritable, TextFits, NoEmpty, IsConst, ConstWritable, ConstFits, CleanConst;
    NamesAreStable(f.debugNames);
    ConstsAreStable(f.constants);
    assert [f.name, f.sourceFile][0] == f.name && [f.name, f.sourceFile][1] == f.sourceFile;
    NamesAreStable([f.name, f.sourceFile]);
  }

  lemma NamesAreStable(ts: seq<Text>)
    requires All(ts, StableName)
    ensures All(ts, IsText) && All(ts, TextWritable) && All(ts, TextFits) && Map(ts, NoEmpty) == ts
  {
    hide Map;
    forall k | 0 <= k < |ts|
      ensures IsText(ts[k]) && TextWritable(ts[k]) && TextFits(ts[k]) && NoEmpty(ts[k]) == ts[k]
    {
      assert StableName(ts[k]);
    }
    MapSame(ts, NoEmpty);
  }

  lemma ConstsAreStable(cs: seq<Const>)
    requires All(cs, StableConst)
    ensures All(cs, IsConst) && All(cs, ConstWritable) && All(cs, ConstFits) && Map(cs, CleanConst) == cs
  {
    hide Map, IsConst, ConstWritable, ConstFits, CleanConst;
    forall k | 0 <= k < |cs|
      ensures IsConst(cs[k]) && ConstWritable(cs[k]) && ConstFits(cs[k]) && CleanConst(cs[k]) == cs[k]
    {
      assert StableConst(cs[k]);
    }
    MapSame(cs, CleanConst);
  }

  lemma CodeIsShort(d: seq<u8>, i: nat)
    ensures ReadCode(d, i).Ok? ==> |ReadCode(d, i).value| <= MAX_COUNT
  {
  }

  lemma FunctionYields(d: seq<u8>, i: nat, v: nat)
    requires ReadFunction(d, i, v).Ok?
    ensures StableFunc(ReadFunction(d, i, v).value)
  {
    hide ReadHead, ReadCaptures, ReadNames, ReadCode, ReadLines, ReadCounted, ReadHint, ReadProfile, StableFunc, StableName,
         StableConst, All, Yields;
    HeadYields(d, i, v);
    var h := ReadHead(d, i, v);
    if v >= 4 { CapturesYield(d, h.next, h.value.params, h.value.locals); }
    var c := if v >= 4 then ReadCaptures(d, h.next, h.value.params, h.value.locals) else Ok([], h.next);
    NamesYield(d, c.next, v, h.value.locals);
    var n := ReadNames(d, c.next, v, h.value.locals);
    CodeIsShort(d, n.next);
    var o := ReadCode(d, n.next);
    var l := ReadLines(d, o.next, |o.value|);
    ConstsYield();
    CountedYield(d, l.next, ReadConst, StableConst);
    FuncIsStable(ReadFunction(d, i, v).value);
  }

  lemma FunctionsYield(v: nat)
    ensures Yields(FunctionReader(v), StableFunc)
  {
    hide ReadFunction, StableFunc;
    var read := FunctionReader(v);
    forall d, i: nat ensures YieldsAt(read, StableFunc, d, i) {
      if ReadFunction(d, i, v).Ok? { FunctionYields(d, i, v); }
    }
  }

  lemma DependenciesYield()
    ensures Yields(ReadDependency, StableDependency)
  {
    hide ReadString, ReadInt, StableText, CString;
    forall d, i: nat ensures YieldsAt(ReadDependency, StableDependency, d, i) {
      if ReadDependency(d, i).Ok? {
        StringIsShort(d, i);
        NameIsStable(ReadString(d, i).value);
      }
    }
  }

  lemma DispatchYields(d: seq<u8>, i: nat)
    requires ReadDispatch(d, i).Ok?
    ensures StableDispatch(ReadDispatch(d, i).value)
  {
    hide ReadString, StableText, CString;
    var a := ReadString(d, i);
    var b := ReadString(d, a.next);
    var c := ReadString(d, b.next);
    var e := ReadString(d, c.next);
    StringIsShort(d, i);
    StringIsShort(d, a.next);
    StringIsShort(d, b.next);
    StringIsShort(d, c.next);
    NameIsStable(a.value);
    NameIsStable(b.value);
    NameIsStable(c.value);
    NameIsStable(e.value);
  }

  lemma DispatchesYield()
    ensures Yields(ReadDispatch, StableDispatch)
  {
    hide ReadDispatch, StableDispatch;
    forall d, i: nat ensures YieldsAt(ReadDispatch, StableDispatch, d, i) {
      if ReadDispatch(d, i).Ok? { DispatchYields(d, i); }
    }
  }

  predicate StableArtifact(a: Artifact) {
    IsArtifact(a) && Writable(a) && Fits(a) && CleanArtifact(a) == a
  }

  lemma FuncsAreStable(fs: seq<Func>)
    requires All(fs, StableFunc)
    ensures All(fs, IsFunc) && All(fs, FuncWritable) && All(fs, FuncFits) && Map(fs, CleanFunc) == fs
  {
    hide Map, IsFunc, FuncWritable, FuncFits, CleanFunc;
    forall k | 0 <= k < |fs|
      ensures IsFunc(fs[k]) && FuncWritable(fs[k]) && FuncFits(fs[k]) && CleanFunc(fs[k]) == fs[k]
    {
      assert StableFunc(fs[k]);
    }
    MapSame(fs, CleanFunc);
  }

  lemma DependenciesAreStable(ps: seq<Dependency>)
    requires All(ps, StableDependency)
    ensures All(ps, IsDependency) && All(ps, DependencyWritable) && All(ps, DependencyFits) && Map(ps, CleanDependency) == ps
  {
    hide Map;
    forall k | 0 <= k < |ps|
      ensures IsDependency(ps[k]) && DependencyWritable(ps[k]) && DependencyFits(ps[k]) && CleanDependency(ps[k]) == ps[k]
    {
      assert StableDependency(ps[k]);
    }
    MapSame(ps, CleanDependency);
  }

  lemma DispatchesAreStable(ps: seq<Dispatch>)
    requires All(ps, StableDispatch)
    ensures All(ps, IsDispatch) && All(ps, DispatchWritable) && All(ps, DispatchFits) && Map(ps, CleanDispatch) == ps
  {
    hide Map;
    forall k | 0 <= k < |ps|
      ensures IsDispatch(ps[k]) && DispatchWritable(ps[k]) && DispatchFits(ps[k]) && CleanDispatch(ps[k]) == ps[k]
    {
      assert StableDispatch(ps[k]);
    }
    MapSame(ps, CleanDispatch);
  }

  lemma ArtifactIsStable(a: Artifact)
    requires |a.dependencies| <= MAX_COUNT && All(a.dependencies, StableDependency)
    requires |a.dispatch| <= MAX_COUNT && All(a.dispatch, StableDispatch)
    requires |a.functions| <= MAX_COUNT && All(a.functions, StableFunc) && 0 <= a.mainIndex < |a.functions|
    requires a.init.Some? ==> StableFunc(a.init.value)
    ensures StableArtifact(a)
  {
    hide Map, All, IsFunc, FuncWritable, FuncFits, CleanFunc;
    DependenciesAreStable(a.dependencies);
    DispatchesAreStable(a.dispatch);
    FuncsAreStable(a.functions);
  }

  lemma BodyYields(d: seq<u8>, i: nat, v: nat)
    requires ReadBody(d, i, v).Ok?
    ensures StableArtifact(ReadBody(d, i, v).value)
  {
    hide ReadInt, ReadCounted, ReadMany, FunctionReader, ReadDependency, ReadDispatch, ReadFunction, StableFunc,
         StableDependency, StableDispatch, StableArtifact, Yields, All;
    var f := ReadInt(d, i, 4);
    DependenciesYield();
    CountedYield(d, f.next, ReadDependency, StableDependency);
    var p := ReadCounted(d, f.next, ReadDependency);
    DispatchesYield();
    if v >= 5 { CountedYield(d, p.next, ReadDispatch, StableDispatch); } else { NoDispatch(); }
    var q := if v >= 5 then ReadCounted(d, p.next, ReadDispatch) else Ok([], p.next);
    var n := ReadInt(d, q.next, 4);
    var m := ReadInt(d, n.next, 4);
    var h := ReadInt(d, m.next, 1);
    FunctionsYield(v);
    ManyYield(d, h.next, n.value, FunctionReader(v), StableFunc);
    var g := ReadMany(d, h.next, n.value, FunctionReader(v));
    if h.value != 0 { FunctionYields(d, g.next, v); }
    ArtifactIsStable(ReadBody(d, i, v).value);
  }

  lemma NoDispatch()
    ensures All([], StableDispatch)
  {
  }

  /** Saving what was loaded, from any supported version, succeeds, and loading that file gives the same artifact. */
  lemma UpgradeLosesNothing(d: seq<u8>)
    requires Load(d).Some?
    ensures var a := Load(d).value; Save(a).Some? && Load(Save(a).value) == Some(a)
  {
    hide ReadInt, ReadRaw, ReadBody, IsArtifact, Writable, Fits, CleanArtifact;
    var m := ReadRaw(d, 0, 4);
    var v := ReadInt(d, m.next, 4);
    BodyYields(d, v.next, v.value);
    LoadSaved(Load(d).value);
  }
}
