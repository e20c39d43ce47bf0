/** Every artifact reader looks only at the bytes it consumes; so acceptance is prefix-free. */
module ArtifactLocality {
  import opened Words
  import opened Parsing
  import opened ByteCodec
  import opened ArtifactFormat
  import opened Options

  lemma IntLocal(d: seq<u8>, e: seq<u8>, i: nat, w: nat)
    ensures LocalRead(d, e, i, ReadInt(d, i, w), ReadInt(e, i, w))
  {
    var r := ReadInt(d, i, w);
    if r.Ok? && Agree(d, e, r.next) { ReadIntLocal(d, e, i, w); }
  }

  lemma IntsLocal(d: seq<u8>, e: seq<u8>, i: nat, ws: seq<nat>)
    ensures LocalRead(d, e, i, ReadInts(d, i, ws), ReadInts(e, i, ws))
  {
    var r := ReadInts(d, i, ws);
    if r.Ok? && Agree(d, e, r.next) { ReadIntsLocal(d, e, i, ws); }
  }

  lemma RawLocal(d: seq<u8>, e: seq<u8>, i: nat, n: nat)
    ensures LocalRead(d, e, i, ReadRaw(d, i, n), ReadRaw(e, i, n))
  {
    var r := ReadRaw(d, i, n);
    if r.Ok? && Agree(d, e, r.next) { AgreeSlice(d, e, r.next, i, r.next); }
  }

  lemma TextLocal(d: seq<u8>, e: seq<u8>, i: nat)
    ensures LocalRead(d, e, i, ReadString(d, i), ReadString(e, i))
  {
    StringIsLocal();
    assert LocalAt(ReadString, d, e, i);
  }

  lemma ManyLocal<T(!new)>(d: seq<u8>, e: seq<u8>, i: nat, n: nat, read: Reader<T>)
    requires IsLocal(read) && i <= |d|
    ensures LocalRead(d, e, i, ReadMany(d, i, n, read), ReadMany(e, i, n, read))
  {
    if ReadMany(d, i, n, read).Ok? { ReadManyLocal(d, e, i, n, read); }
  }

  lemma CountedLocal<T(!new)>(d: seq<u8>, e: seq<u8>, i: nat, read: Reader<T>)
    requires IsLocal(read)
    ensures LocalRead(d, e, i, ReadCounted(d, i, read), ReadCounted(e, i, read))
  {
    hide ReadInt, ReadMany, IsLocal;
    IntLocal(d, e, i, 4);
    var r, c := ReadInt(d, i, 4), ReadCounted(d, i, read);
    if c.Ok? {
      ManyLocal(d, e, r.next, r.value, read);
      if Agree(d, e, c.next) { AgreeBelow(d, e, c.next, r.next); }
    }
  }

  lemma CapturesLocal(d: seq<u8>, e: seq<u8>, i: nat, params: nat, locals: nat)
    requires params <= INT_MAX && locals <= INT_MAX
    ensures LocalRead(d, e, i, ReadCaptures(d, i, params, locals), ReadCaptures(e, i, params, locals))
  {
    hide ReadInt, ReadInts;
    IntLocal(d, e, i, 4);
    var r, c := ReadInt(d, i, 4), ReadCaptures(d, i, params, locals);
    if c.Ok? {
      IntsLocal(d, e, r.next, Fours(r.value));
      if Agree(d, e, c.next) { AgreeBelow(d, e, c.next, r.next); }
    }
  }

  lemma CodeLocal(d: seq<u8>, e: seq<u8>, i: nat)
    ensures LocalRead(d, e, i, ReadCode(d, i), ReadCode(e, i))
  {
    hide ReadInt, ReadRaw;
    IntLocal(d, e, i, 4);
    var r, c := ReadInt(d, i, 4), ReadCode(d, i);
    if c.Ok? {
      RawLocal(d, e, r.next, r.value);
      if Agree(d, e, c.next) { AgreeBelow(d, e, c.next, r.next); }
    }
  }

  lemma LinesLocal(d: seq<u8>, e: seq<u8>, i: nat, count: nat)
    ensures LocalRead(d, e, i, ReadLines(d, i, count), ReadLines(e, i, count))
  {
    hide ReadInt, ReadInts;
    IntLocal(d, e, i, 4);
    var r, c := ReadInt(d, i, 4), ReadLines(d, i, count);
    if c.Ok? {
      IntsLocal(d, e, r.next, Fours(r.value));
      if Agree(d, e, c.next) { AgreeBelow(d, e, c.next, r.next); }
    }
  }

  lemma ConstLocal(d: seq<u8>, e: seq<u8>, i: nat)
    ensures LocalRead(d, e, i, ReadConst(d, i), ReadConst(e, i))
  {
    hide ReadInt, ReadString;
    IntLocal(d, e, i, 4);
    var r, c := ReadInt(d, i, 4), ReadConst(d, i);
    if c.Ok? {
      IntLocal(d, e, r.next, 8);
      TextLocal(d, e, r.next);
      if Agree(d, e, c.next) { AgreeBelow(d, e, c.next, r.next); }
    }
  }

  lemma ConstIsLocal()
    ensures IsLocal(ReadConst)
  {
    hide ReadConst;
    forall d, e, i: nat
      ensures LocalAt(ReadConst, d, e, i)
    {
      ConstLocal(d, e, i);
    }
  }

  lemma HeadLocal(d: seq<u8>, e: seq<u8>, i: nat, v: nat)
    ensures LocalRead(d, e, i, ReadHead(d, i, v), ReadHead(e, i, v))
  {
    hide ReadString, ReadInts, HeadOf, HeadWidths;
    TextLocal(d, e, i);
    var a, r := ReadString(d, i), ReadHead(d, i, v);
    if r.Ok? {
      TextLocal(d, e, a.next);
      var b := if v >= 3 then ReadString(d, a.next) else Ok([], a.next);
      IntsLocal(d, e, b.next, HeadWidths(v));
      if Agree(d, e, r.next) {
        AgreeBelow(d, e, r.next, a.next);
        AgreeBelow(d, e, r.next, b.next);
      }
    }
  }

  lemma NamesLocal(d: seq<u8>, e: seq<u8>, i: nat, v: nat, locals: nat)
    requires i <= |d|
    ensures LocalRead(d, e, i, ReadNames(d, i, v, locals), ReadNames(e, i, v, locals))
  {
    hide ReadMany, ReadString;
    StringIsLocal();
    ManyLocal(d, e, i, locals, ReadString);
  }

  lemma HintLocal(d: seq<u8>, e: seq<u8>, i: nat, v: nat)
    requires i <= |d|
    ensures LocalRead(d, e, i, ReadHint(d, i, v), ReadHint(e, i, v))
  {
    hide ReadInts, HintOf, HintWidths;
    IntsLocal(d, e, i, HintWidths(v));
  }

  lemma ProfileLocal(d: seq<u8>, e: seq<u8>, i: nat, v: nat, h: Head, captures: i32, hintKind: i32)
    requires i <= |d| && h.params <= INT_MAX && h.locals <= INT_MAX && captures >= 0
    ensures LocalRead(d, e, i, ReadProfile(d, i, v, h, captures, hintKind), ReadProfile(e, i, v, h, captures, hintKind))
  {
    hide ReadInts, ProfileOf, ProfileWidths, SummaryOf, SummaryWidths;
    IntsLocal(d, e, i, ProfileWidths(v));
    var a, r := ReadInts(d, i, ProfileWidths(v)), ReadProfile(d, i, v, h, captures, hintKind);
    if v >= 10 && r.Ok? {
      IntsLocal(d, e, a.next, SummaryWidths());
      if Agree(d, e, r.next) { AgreeBelow(d, e, r.next, a.next); }
    }
  }

  lemma FunctionLocal(d: seq<u8>, e: seq<u8>, i: nat, v: nat)
    ensures LocalRead(d, e, i, ReadFunction(d, i, v), ReadFunction(e, i, v))
  {
    hide ReadHead, ReadCaptures, ReadNames, ReadCode, ReadLines, ReadCounted, ReadHint, ReadProfile;
    var r := ReadFunction(d, i, v);
    if r.Ok? {
      HeadLocal(d, e, i, v);
      var h := ReadHead(d, i, v);
      CapturesLocal(d, e, h.next, h.value.params, h.value.locals);
      var c := if v >= 4 then ReadCaptures(d, h.next, h.value.params, h.value.locals) else Ok([], h.next);
      NamesLocal(d, e, c.next, v, h.value.locals);
      var n := ReadNames(d, c.next, v, h.value.locals);
      CodeLocal(d, e, n.next);
      var o := ReadCode(d, n.next);
      LinesLocal(d, e, o.next, |o.value|);
      var l := ReadLines(d, o.next, |o.value|);
      ConstIsLocal();
      CountedLocal(d, e, l.next, ReadConst);
      var k := ReadCounted(d, l.next, ReadConst);
      HintLocal(d, e, k.next, v);
      var t := ReadHint(d, k.next, v);
      ProfileLocal(d, e, t.next, v, h.value, |c.value|, t.value.kind);
      if Agree(d, e, r.next) {
        AgreeBelow(d, e, r.next, h.next);
        AgreeBelow(d, e, r.next, c.next);
        AgreeBelow(d, e, r.next, n.next);
        AgreeBelow(d, e, r.next, o.next);
        AgreeBelow(d, e, r.next, l.next);
        AgreeBelow(d, e, r.next, k.next);
        AgreeBelow(d, e, r.next, t.next);
      }
    }
  }

  lemma FunctionIsLocal(v: nat)
    ensures IsLocal(FunctionReader(v))
  {
    hide ReadFunction;
    var read := FunctionReader(v);
    forall d, e, i: nat
      ensures LocalAt(read, d, e, i)
    {
      FunctionLocal(d, e, i, v);
    }
  }

  lemma DependencyLocal(d: seq<u8>, e: seq<u8>, i: nat)
    ensures LocalRead(d, e, i, ReadDependency(d, i), ReadDependency(e, i))
  {
    hide ReadString, ReadInt;
    var r, a := ReadDependency(d, i), ReadString(d, i);
    if r.Ok? {
      TextLocal(d, e, i);
      IntLocal(d, e, a.next, 8);
      if Agree(d, e, r.next) { AgreeBelow(d, e, r.next, a.next); }
    }
  }

  lemma DependencyIsLocal()
    ensures IsLocal(ReadDependency)
  {
    hide ReadDependency;
    forall d, e, i: nat
      ensures LocalAt(ReadDependency, d, e, i)
    {
      DependencyLocal(d, e, i);
    }
  }

  lemma DispatchLocal(d: seq<u8>, e: seq<u8>, i: nat)
    ensures LocalRead(d, e, i, ReadDispatch(d, i), ReadDispatch(e, i))
  {
    hide ReadString;
    var r, a := ReadDispatch(d, i), ReadString(d, i);
    if r.Ok? {
      TextLocal(d, e, i);
      TextLocal(d, e, a.next);
      var b := ReadString(d, a.next);
      TextLocal(d, e, b.next);
      var c := ReadString(d, b.next);
      TextLocal(d, e, c.next);
      if Agree(d, e, r.next) {
        AgreeBelow(d, e, r.next, a.next);
        AgreeBelow(d, e, r.next, b.next);
        AgreeBelow(d, e, r.next, c.next);
      }
    }
  }

  lemma DispatchIsLocal()
    ensures IsLocal(ReadDispatch)
  {
    hide ReadDispatch;
    forall d, e, i: nat
      ensures LocalAt(ReadDispatch, d, e, i)
    {
      DispatchLocal(d, e, i);
    }
  }

  lemma InitLocal(d: seq<u8>, e: seq<u8>, i: nat, v: nat, present: bool)
    requires i <= |d|
    ensures LocalRead(d, e, i, ReadInit(d, i, v, present), ReadInit(e, i, v, present))
  {
    hide ReadFunction;
    FunctionLocal(d, e, i, v);
  }

  lemma BodyLocal(d: seq<u8>, e: seq<u8>, i: nat, v: nat)
    ensures LocalRead(d, e, i, ReadBody(d, i, v), ReadBody(e, i, v))
  {
    hide ReadInt, ReadCounted, ReadMany, ReadInit, FunctionReader, ReadDependency, ReadDispatch;
    var r := ReadBody(d, i, v);
    if r.Ok? {
      IntLocal(d, e, i, 4);
      var f := ReadInt(d, i, 4);
      DependencyIsLocal();
      CountedLocal(d, e, f.next, ReadDependency);
      var p := ReadCounted(d, f.next, ReadDependency);
      DispatchIsLocal();
      CountedLocal(d, e, p.next, ReadDispatch);
      var q := if v >= 5 then ReadCounted(d, p.next, ReadDispatch) else Ok([], p.next);
      IntLocal(d, e, q.next, 4);
      var n := ReadInt(d, q.next, 4);
      IntLocal(d, e, n.next, 4);
      var m := ReadInt(d, n.next, 4);
      IntLocal(d, e, m.next, 1);
      var h := ReadInt(d, m.next, 1);
      FunctionIsLocal(v);
      ManyLocal(d, e, h.next, n.value, FunctionReader(v));
      var g := ReadMany(d, h.next, n.value, FunctionReader(v));
      InitLocal(d, e, g.next, v, h.value != 0);
      if Agree(d, e, r.next) {
        AgreeBelow(d, e, r.next, f.next);
        AgreeBelow(d, e, r.next, p.next);
        AgreeBelow(d, e, r.next, q.next);
        AgreeBelow(d, e, r.next, n.next);
        AgreeBelow(d, e, r.next, m.next);
        AgreeBelow(d, e, r.next, h.next);
        AgreeBelow(d, e, r.next, g.next);
      }
    }
  }

  lemma ArtifactLocal(d: seq<u8>, e: seq<u8>)
    ensures LocalRead(d, e, 0, ReadArtifact(d), ReadArtifact(e))
  {
    hide ReadRaw, ReadInt, ReadBody;
    var r := ReadArtifact(d);
    if r.Ok? {
      RawLocal(d, e, 0, 4);
      var m := ReadRaw(d, 0, 4);
      IntLocal(d, e, m.next, 4);
      var v := ReadInt(d, m.next, 4);
      BodyLocal(d, e, v.next, v.value);
      if Agree(d, e, r.next) {
        AgreeBelow(d, e, r.next, m.next);
        AgreeBelow(d, e, r.next, v.next);
      }
    }
  }

  /** Of two inputs one of which continues the other, at most one loads: no accepted artifact, of any version, is a
      proper prefix of another. */
  lemma PrefixFree(d: seq<u8>, rest: seq<u8>)
    requires rest != []
    ensures Load(d).None? || Load(d + rest).None?
  {
    hide ReadArtifact;
    var e := d + rest;
    if Load(d).Some? {
      ArtifactLocal(d, e);
      assert Agree(d, e, |d|) by { assert e[..|d|] == d && d[..|d|] == d; }
    }
  }
}
