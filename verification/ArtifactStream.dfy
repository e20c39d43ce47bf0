/** The writer of src/artifact.c as it runs: a sink that it appends to, field by field and item by item. */
module ArtifactStream {
  import opened Words
  import opened Parsing
  import opened ByteCodec
  import opened ArtifactFormat
  import opened ArtifactWriting
  import opened Options
  import ArtifactLayout
  import ArtifactPlacing

  /** The output file, as the bytes written so far. */
  class Sink {
    var bytes: seq<u8>

    constructor ()
      ensures bytes == []
    {
      bytes := [];
    }

    method WriteU8(x: u8)
      modifies this
      ensures bytes == old(bytes) + Le(x, 1)
    {
      bytes := bytes + [x];
      assert Le(x, 1) == [x % 256] + Le(x / 256, 0);
    }

    method WriteU32(x: u32)
      modifies this
      ensures bytes == old(bytes) + Le(x, 4)
    {
      var b := [x % 256, x / 256 % 256, x / 65536 % 256, x / 16777216 % 256];
      bytes := bytes + b;
      ArtifactPlacing.LeFour(x);
    }

    method WriteI32(x: i32)
      modifies this
      ensures bytes == old(bytes) + Le(U32(x), 4)
    {
      WriteU32(U32(x));
    }

    method WriteU64(x: u64)
      modifies this
      ensures bytes == old(bytes) + Le(x, 8)
    {
      var lo, hi := x % 0x1_0000_0000, x / 0x1_0000_0000;
      var b := [lo % 256, lo / 256 % 256, lo / 65536 % 256, lo / 16777216 % 256,
                hi % 256, hi / 256 % 256, hi / 65536 % 256, hi / 16777216 % 256];
      bytes := bytes + b;
      EightBytes(x);
    }

    /** write_string: a null pointer is written like the empty string. */
    method WriteText(t: Text) returns (ok: bool)
      modifies this
      ensures ok <==> TextWritable(t)
      ensures ok ==> bytes == old(bytes) + EncText(t)
    {
      var s := Bytes(t);
      if |s| > UINT32_MAX { return false; }
      WriteU32(|s|);
      if |s| == 0 {
        assert EncText(t) == Le(|s|, 4);
        return true;
      }
      bytes := bytes + s;
      ok := true;
      assert old(bytes) + Le(|s|, 4) + s == old(bytes) + EncText(t);
    }

    method WriteTexts(ts: seq<Text>) returns (ok: bool)
      modifies this
      ensures ok <==> All(ts, TextWritable)
      ensures ok ==> bytes == old(bytes) + WriteMany(ts, EncText)
    {
      hide EncText, TextWritable;
      ghost var start := bytes;
      for i := 0 to |ts|
        invariant forall k :: 0 <= k < i ==> TextWritable(ts[k])
        invariant bytes + WriteMany(ts[i..], EncText) == start + WriteMany(ts, EncText)
      {
        ghost var before := bytes;
        ok := WriteText(ts[i]);
        if !ok { return; }
        Onwards(before, ts, i, EncText);
      }
      ok := true;
      assert bytes + WriteMany(ts[|ts|..], EncText) == bytes;
    }

    /** The bytecode and one line number per byte. */
    method WriteCode(code: seq<u8>, lines: seq<i32>)
      requires |lines| == |code| <= INT_MAX
      modifies this
      ensures bytes == old(bytes) + EncCode(code) + EncWords(lines)
    {
      hide Le, EncWords;
      WriteU32(|code|);
      if |code| > 0 { bytes := bytes + code; }
      assert bytes == old(bytes) + EncCode(code);
      WriteWords(lines);
    }

    method WriteWords(xs: seq<i32>)
      requires |xs| <= INT_MAX
      modifies this
      ensures bytes == old(bytes) + EncWords(xs)
    {
      hide Le;
      WriteU32(|xs|);
      ghost var start := bytes;
      for i := 0 to |xs|
        invariant bytes + WriteInts(U32s(xs)[i..], Fours(|xs|)[i..]) == start + WriteInts(U32s(xs), Fours(|xs|))
      {
        ghost var rest := WriteInts(U32s(xs)[i + 1..], Fours(|xs|)[i + 1..]);
        assert U32s(xs)[i..][1..] == U32s(xs)[i + 1..] && Fours(|xs|)[i..][1..] == Fours(|xs|)[i + 1..];
        assert bytes + (Le(U32(xs[i]), 4) + rest) == bytes + Le(U32(xs[i]), 4) + rest;
        WriteI32(xs[i]);
      }
      assert bytes + WriteInts(U32s(xs)[|xs|..], Fours(|xs|)[|xs|..]) == bytes;
      assert bytes == old(bytes) + EncWords(xs);
    }

    /** Each slot is checked before it is written. */
    method WriteCaptures(xs: seq<i32>, params: i32, locals: i32) returns (ok: bool)
      requires |xs| <= INT_MAX
      modifies this
      ensures ok <==> |xs| <= locals && forall k :: 0 <= k < |xs| ==> params <= xs[k] < locals
      ensures ok ==> bytes == old(bytes) + EncWords(xs)
    {
      hide Le;
      if |xs| > locals { return false; }
      WriteU32(|xs|);
      ghost var start := bytes;
      for i := 0 to |xs|
        invariant forall k :: 0 <= k < i ==> params <= xs[k] < locals
        invariant bytes + WriteInts(U32s(xs)[i..], Fours(|xs|)[i..]) == start + WriteInts(U32s(xs), Fours(|xs|))
      {
        if xs[i] < params || xs[i] >= locals { return false; }
        ghost var rest := WriteInts(U32s(xs)[i + 1..], Fours(|xs|)[i + 1..]);
        assert U32s(xs)[i..][1..] == U32s(xs)[i + 1..] && Fours(|xs|)[i..][1..] == Fours(|xs|)[i + 1..];
        assert bytes + (Le(U32(xs[i]), 4) + rest) == bytes + Le(U32(xs[i]), 4) + rest;
        WriteI32(xs[i]);
      }
      ok := true;
      assert bytes + WriteInts(U32s(xs)[|xs|..], Fours(|xs|)[|xs|..]) == bytes;
      assert bytes == old(bytes) + EncWords(xs);
    }

    method WriteConst(c: Const) returns (ok: bool)
      modifies this
      ensures ok <==> ConstWritable(c)
      ensures ok ==> bytes == old(bytes) + EncConst(c)
    {
      hide Le, EncText, TextWritable;
      match c {
        case NumConst(t, x) =>
          WriteI32(t);
          WriteU64(U64(x));
          ok := true;
        case DoubleConst(x) =>
          WriteI32(1);
          WriteU64(x);
          ok := true;
        case TextConst(t, s) =>
          WriteI32(t);
          ok := WriteText(s);
        case OtherConst(t) =>
          WriteI32(t);
          ok := false;
      }
      assert ok ==> bytes == old(bytes) + EncConst(c);
    }

    method WriteConsts(cs: seq<Const>) returns (ok: bool)
      requires |cs| <= INT_MAX
      modifies this
      ensures ok <==> All(cs, ConstWritable)
      ensures ok ==> bytes == old(bytes) + EncCounted(cs, EncConst)
    {
      hide EncConst, ConstWritable, Le;
      WriteU32(|cs|);
      ghost var start := bytes;
      for i := 0 to |cs|
        invariant forall k :: 0 <= k < i ==> ConstWritable(cs[k])
        invariant bytes + WriteMany(cs[i..], EncConst) == start + WriteMany(cs, EncConst)
      {
        ghost var before := bytes;
        ok := WriteConst(cs[i]);
        if !ok { return; }
        Onwards(before, cs, i, EncConst);
      }
      ok := true;
      assert bytes + WriteMany(cs[|cs|..], EncConst) == bytes;
      assert bytes == old(bytes) + EncCounted(cs, EncConst);
    }

    method WriteHead(f: Func) returns (ok: bool)
      modifies this
      ensures ok <==> TextWritable(f.name) && TextWritable(f.sourceFile) && f.paramCount >= 0 && f.localCount >= 0
      ensures ok ==> bytes == old(bytes) + EncHead(f)
    {
      hide Le, EncText, TextWritable, WriteInts;
      ok := WriteText(f.name);
      if !ok { return; }
      ok := WriteText(f.sourceFile);
      if !ok { return; }
      ghost var s, x, w := bytes, HeadInts(f), HeadWidths(VERSION);
      WholeRecord(s, x, w);
      WriteU8(if f.isAsync then 1 else 0);
      NextInt(s, x, w, 0);
      WriteI32(f.deferHandlerIp);
      NextInt(s, x, w, 1);
      WriteI32(f.deferReturnSlot);
      NextInt(s, x, w, 2);
      if f.paramCount < 0 || f.localCount < 0 { return false; }
      WriteU32(U32(f.paramCount));
      NextInt(s, x, w, 3);
      WriteU32(U32(f.localCount));
      NextInt(s, x, w, 4);
      assert bytes == old(bytes) + EncHead(f);
    }

    method WriteHint(h: Hint)
      modifies this
      ensures bytes == old(bytes) + EncHint(h)
    {
      hide Le, WriteInts;
      ghost var s, x, w := bytes, HintInts(h), HintWidths(VERSION);
      WholeRecord(s, x, w);
      WriteI32(h.kind);
      NextInt(s, x, w, 0);
      WriteI32(h.op);
      NextInt(s, x, w, 1);
      WriteU8(h.flags);
      NextInt(s, x, w, 2);
      WriteU8(h.slotA);
      NextInt(s, x, w, 3);
      WriteU8(h.slotB);
      NextInt(s, x, w, 4);
      WriteU64(U64(h.const0));
      NextInt(s, x, w, 5);
      WriteU64(U64(h.const1));
      NextInt(s, x, w, 6);
    }

    method WriteProfile(p: Profile)
      modifies this
      ensures bytes == old(bytes) + EncProfile(p)
    {
      hide Le, WriteInts;
      ghost var s, x, w := bytes, ProfileInts(p), ProfileWidths(VERSION);
      WholeRecord(s, x, w);
      WriteU8(p.flags);
      NextInt(s, x, w, 0);
      WriteU8(p.support);
      NextInt(s, x, w, 1);
      WriteU8(p.family);
      NextInt(s, x, w, 2);
      WriteI32(p.params);
      NextInt(s, x, w, 3);
      WriteI32(p.locals);
      NextInt(s, x, w, 4);
      WriteI32(p.captures);
      NextInt(s, x, w, 5);
      WriteSummary(p.summary);
      assert bytes == old(bytes) + EncProfile(p);
    }

    method WriteSummary(m: Summary)
      modifies this
      ensures bytes == old(bytes) + WriteInts(SummaryInts(m), SummaryWidths())
    {
      hide Le, WriteInts;
      ghost var s, x, w := bytes, SummaryInts(m), SummaryWidths();
      WholeRecord(s, x, w);
      WriteI32(m.kind);
      NextInt(s, x, w, 0);
      WriteI32(m.op);
      NextInt(s, x, w, 1);
      WriteU8(m.slot0);
      NextInt(s, x, w, 2);
      WriteU8(m.slot1);
      NextInt(s, x, w, 3);
      WriteU64(U64(m.const0));
      NextInt(s, x, w, 4);
      WriteU64(U64(m.const1));
      NextInt(s, x, w, 5);
    }

    /** artifact_write_function. */
    method WriteFunction(f: Func) returns (ok: bool)
      requires IsFunc(f)
      modifies this
      ensures ok <==> FuncWritable(f)
      ensures ok ==> bytes == old(bytes) + EncFunction(f)
    {
      hide EncText, EncHead, EncWords, EncCode, EncCounted, WriteMany, EncConst, EncHint, EncProfile,
           TextWritable, ConstWritable, All, IsText, IsConst, EncFunction;
      ok := WriteHead(f);
      if !ok { return; }
      ok := WriteCaptures(f.captures, f.paramCount, f.localCount);
      if !ok { return; }
      ok := WriteTexts(f.debugNames);
      if !ok { return; }
      WriteCode(f.code, f.lines);
      ok := WriteConsts(f.constants);
      if !ok { return; }
      WriteHint(f.hint);
      WriteProfile(f.profile);
      Regroup(old(bytes), f);
    }

    method WriteDependencies(ps: seq<Dependency>) returns (ok: bool)
      requires |ps| <= INT_MAX
      modifies this
      ensures ok <==> All(ps, DependencyWritable)
      ensures ok ==> bytes == old(bytes) + EncCounted(ps, EncDependency)
    {
      hide EncText, TextWritable, Le;
      WriteU32(|ps|);
      ghost var start := bytes;
      for i := 0 to |ps|
        invariant forall k :: 0 <= k < i ==> DependencyWritable(ps[k])
        invariant bytes + WriteMany(ps[i..], EncDependency) == start + WriteMany(ps, EncDependency)
      {
        ghost var before := bytes;
        ok := WriteText(ps[i].path);
        if !ok { assert !DependencyWritable(ps[i]); return; }
        WriteU64(U64(ps[i].mtime));
        assert bytes == before + EncDependency(ps[i]);
        Onwards(before, ps, i, EncDependency);
      }
      ok := true;
      assert bytes + WriteMany(ps[|ps|..], EncDependency) == bytes;
      assert bytes == old(bytes) + EncCounted(ps, EncDependency);
    }

    method WriteDispatch(p: Dispatch) returns (ok: bool)
      modifies this
      ensures ok <==> DispatchWritable(p)
      ensures ok ==> bytes == old(bytes) + EncDispatch(p)
    {
      hide EncText, TextWritable;
      ok := WriteText(p.interfaceName);
      if !ok { return; }
      ok := WriteText(p.recordName);
      if !ok { return; }
      ok := WriteText(p.methodName);
      if !ok { return; }
      ok := WriteText(p.functionName);
      Group(old(bytes), EncText(p.interfaceName), EncText(p.recordName), EncText(p.methodName), EncText(p.functionName));
    }

    method WriteDispatches(ps: seq<Dispatch>) returns (ok: bool)
      requires |ps| <= INT_MAX
      modifies this
      ensures ok <==> All(ps, DispatchWritable)
      ensures ok ==> bytes == old(bytes) + EncCounted(ps, EncDispatch)
    {
      hide EncDispatch, DispatchWritable, Le;
      WriteU32(|ps|);
      ghost var start := bytes;
      for i := 0 to |ps|
        invariant forall k :: 0 <= k < i ==> DispatchWritable(ps[k])
        invariant bytes + WriteMany(ps[i..], EncDispatch) == start + WriteMany(ps, EncDispatch)
      {
        ghost var before := bytes;
        ok := WriteDispatch(ps[i]);
        if !ok { return; }
        Onwards(before, ps, i, EncDispatch);
      }
      ok := true;
      assert bytes + WriteMany(ps[|ps|..], EncDispatch) == bytes;
      assert bytes == old(bytes) + EncCounted(ps, EncDispatch);
    }

    method WriteFunctions(fs: seq<Func>) returns (ok: bool)
      requires All(fs, IsFunc)
      modifies this
      ensures ok <==> All(fs, FuncWritable)
      ensures ok ==> bytes == old(bytes) + WriteMany(fs, EncFunction)
    {
      hide EncFunction, FuncWritable, IsFunc;
      ghost var start := bytes;
      for i := 0 to |fs|
        invariant forall k :: 0 <= k < i ==> FuncWritable(fs[k])
        invariant bytes + WriteMany(fs[i..], EncFunction) == start + WriteMany(fs, EncFunction)
      {
        ghost var before := bytes;
        ok := WriteFunction(fs[i]);
        if !ok { return; }
        Onwards(before, fs, i, EncFunction);
      }
      ok := true;
      assert bytes + WriteMany(fs[|fs|..], EncFunction) == bytes;
    }

    method WriteBody(a: Artifact) returns (ok: bool)
      requires IsArtifact(a) && 0 <= a.mainIndex < |a.functions|
      modifies this
      ensures ok <==> Writable(a)
      ensures ok ==> bytes == old(bytes) + EncBody(a)
    {
      hide Le, All, IsFunc, FuncWritable, EncCounted, EncDependency, EncDispatch, WriteMany, EncFunction, EncBody, IsDependency,
           IsDispatch, DependencyWritable, DispatchWritable;
      WriteU32(a.flags);
      ok := WriteDependencies(a.dependencies);
      if !ok { return; }
      ok := WriteDispatches(a.dispatch);
      if !ok { return; }
      WriteU32(|a.functions|);
      WriteI32(a.mainIndex);
      WriteU8(if a.init.Some? then 1 else 0);
      ok := WriteFunctions(a.functions);
      if !ok { return; }
      ghost var before := bytes;
      if a.init.Some? {
        ok := WriteFunction(a.init.value);
      }
      assert ok ==> bytes == before + EncInit(a.init);
      BodyRegroup(old(bytes), a);
    }
  }

  /** artifact_write_file: the file that is left, none when it was removed after a failure. */
  method SaveFile(a: Artifact) returns (file: Option<seq<u8>>)
    requires IsArtifact(a)
    ensures file == Save(a) && (file.Some? <==> Writable(a))
    ensures file.Some? ==> ArtifactLayout.FileIs(file.value, 16, a, true)
  {
    hide IsArtifact, EncBody, Le, ArtifactLayout.FileIs;
    if |a.functions| == 0 || a.mainIndex < 0 || a.mainIndex >= |a.functions| { return None; }
    var f := new Sink();
    f.bytes := f.bytes + MAGIC;
    f.WriteU32(VERSION);
    ghost var head := f.bytes;
    var ok := f.WriteBody(a);
    assert head == MAGIC + Le(VERSION, 4);
    assert head + EncBody(a) == MAGIC + (Le(VERSION, 4) + EncBody(a));
    file := if ok then Some(f.bytes) else None;
    if ok { ArtifactPlacing.SavedLayout(a); }
  }

  lemma BodyRegroup(start: seq<u8>, a: Artifact)
    ensures start + Le(a.flags, 4) + EncCounted(a.dependencies, EncDependency) + EncCounted(a.dispatch, EncDispatch)
      + Le(|a.functions|, 4) + Le(U32(a.mainIndex), 4) + Le(if a.init.Some? then 1 else 0, 1)
      + WriteMany(a.functions, EncFunction) + EncInit(a.init) == start + EncBody(a)
  {
    hide Le, EncCounted, WriteMany, EncInit;
    var f, p, q := Le(a.flags, 4), EncCounted(a.dependencies, EncDependency), EncCounted(a.dispatch, EncDispatch);
    var n, m, h := Le(|a.functions|, 4), Le(U32(a.mainIndex), 4), Le(if a.init.Some? then 1 else 0, 1);
    var g, t := WriteMany(a.functions, EncFunction), EncInit(a.init);
    Group(start + f + p + q + n, m, h, g, t);
    Group(start, f, p, q, n + (m + (h + (g + t))));
    assert start + f + p + q + n + (m + (h + (g + t))) == start + f + p + q + (n + (m + (h + (g + t))));
  }

  /** The parts of a function one after another are its encoding. */
  lemma Regroup(start: seq<u8>, f: Func)
    ensures start + EncHead(f) + EncWords(f.captures) + WriteMany(f.debugNames, EncText) + EncCode(f.code)
      + EncWords(f.lines) + EncCounted(f.constants, EncConst) + EncHint(f.hint) + EncProfile(f.profile)
      == start + EncFunction(f)
  {
    hide EncHead, EncWords, WriteMany, EncText, EncCode, EncCounted, EncConst, EncHint, EncProfile;
    var h, c, n, o := EncHead(f), EncWords(f.captures), WriteMany(f.debugNames, EncText), EncCode(f.code);
    var l, k, t, p := EncWords(f.lines), EncCounted(f.constants, EncConst), EncHint(f.hint), EncProfile(f.profile);
    Group(start + h + c + n + o, l, k, t, p);
    Group(start, h, c, n, o + (l + (k + (t + p))));
    assert start + h + c + n + o + (l + (k + (t + p))) == start + h + c + n + (o + (l + (k + (t + p))));
  }

  lemma Group(s: seq<u8>, a: seq<u8>, b: seq<u8>, c: seq<u8>, d: seq<u8>)
    ensures s + a + b + c + d == s + (a + (b + (c + d)))
  {
  }

  lemma EightBytes(x: u64)
    ensures var lo, hi := x % 0x1_0000_0000, x / 0x1_0000_0000;
      Le(x, 8) == [lo % 256, lo / 256 % 256, lo / 65536 % 256, lo / 16777216 % 256,
                   hi % 256, hi / 256 % 256, hi / 65536 % 256, hi / 16777216 % 256]
  {
    hide Le;
    var lo, hi := x % 0x1_0000_0000, x / 0x1_0000_0000;
    ArtifactPlacing.LeSplit(x, 4, 4);
    ArtifactPlacing.AboveFour(x);
    ArtifactPlacing.LeFour(x);
    ArtifactPlacing.LeFour(hi);
    ArtifactPlacing.SameBytes(lo, hi);
  }

  lemma Onwards<T>(before: seq<u8>, xs: seq<T>, i: nat, write: T -> seq<u8>)
    requires i < |xs|
    ensures before + write(xs[i]) + WriteMany(xs[i + 1..], write) == before + WriteMany(xs[i..], write)
  {
    assert xs[i..][1..] == xs[i + 1..];
  }

  /** One more integer of a record. */
  lemma {:induction false} NextInt(s: seq<u8>, xs: seq<nat>, ws: seq<nat>, k: nat)
    requires |xs| == |ws| && k < |xs|
    ensures s + WriteInts(xs[..k], ws[..k]) + Le(xs[k], ws[k]) == s + WriteInts(xs[..k + 1], ws[..k + 1])
    decreases k
  {
    hide Le;
    assert xs[..k + 1][1..] == xs[1..][..k] && ws[..k + 1][1..] == ws[1..][..k];
    if k > 0 {
      var first := Le(xs[0], ws[0]);
      assert xs[..k][1..] == xs[1..][..k - 1] && ws[..k][1..] == ws[1..][..k - 1];
      NextInt(s + first, xs[1..], ws[1..], k - 1);
      assert s + first + WriteInts(xs[1..][..k - 1], ws[1..][..k - 1]) == s + WriteInts(xs[..k], ws[..k]);
      assert s + first + WriteInts(xs[1..][..k], ws[1..][..k]) == s + WriteInts(xs[..k + 1], ws[..k + 1]);
    }
  }

  lemma WholeRecord(s: seq<u8>, xs: seq<nat>, ws: seq<nat>)
    requires |xs| == |ws|
    ensures s + WriteInts(xs[..0], ws[..0]) == s && WriteInts(xs[..|xs|], ws[..|ws|]) == WriteInts(xs, ws)
  {
    assert xs[..|xs|] == xs && ws[..|ws|] == ws;
  }
}
