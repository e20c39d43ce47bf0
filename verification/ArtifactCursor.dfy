/** The reader of src/artifact.c as it runs: a cursor over the data, advanced field by field and item by item. */
module ArtifactCursor {
  import opened Words
  import opened Parsing
  import opened ByteCodec
  import opened ArtifactFormat
  import opened Options
  import ArtifactLoading
  import ArtifactReading

  lemma NextItem<T>(d: seq<u8>, i: nat, n: nat, read: Reader<T>)
    requires n > 0
    ensures ReadMany(d, i, n, read)
      == if read(d, i).Ok? then Prepend([read(d, i).value], ReadMany(d, read(d, i).next, n - 1, read)) else Fail
  {
  }

  lemma NextInt(d: seq<u8>, i: nat, ws: seq<nat>)
    requires ws != []
    ensures ReadInts(d, i, ws)
      == if ReadInt(d, i, ws[0]).Ok? then Prepend([ReadInt(d, i, ws[0]).value], ReadInts(d, ReadInt(d, i, ws[0]).next, ws[1..])) else Fail
  {
  }

  lemma NoInts(d: seq<u8>, i: nat)
    requires i <= |d|
    ensures ReadInts(d, i, []) == Ok([], i)
  {
  }

  /** The part of a JIT profile in front of its summary. */
  datatype Front = Front(flags: u8, support: u8, family: u8, params: i32, locals: i32, captures: i32)

  function FrontInts(v: nat, f: Front): seq<nat> {
    var counts: seq<nat> := [U32(f.params), U32(f.locals), U32(f.captures)];
    if v >= 16 then [f.flags, f.support, f.family] + counts
    else if v == 15 then [f.flags, f.support] + counts
    else [f.flags] + counts
  }

  function HintFront(v: nat, kind: i32, op: i32, flags: u8): seq<nat> {
    if v >= 13 then [U32(kind), U32(op), flags] else [U32(kind)]
  }

  /** The fields of a hint, as they are read, make that hint. */
  lemma HintIs(v: nat, kind: i32, op: i32, flags: u8, a: u8, b: u8, const0: i64, const1: i64)
    requires v < 13 ==> op == 0 && flags == 0
    ensures var xs := HintFront(v, kind, op, flags) + [a, b, U64(const0), U64(const1)];
      Fit(xs, HintWidths(v)) && HintOf(v, xs) == Hint(kind, op, flags, a, b, const0, const1)
  {
    hide Pow256, U32, U64, I32, I64;
    Pow256Four();
    SignedRoundTrip(kind, const0);
    SignedRoundTrip(op, const1);
  }

  class ArtifactReader {
    const data: seq<u8>
    var offset: nat

    constructor (d: seq<u8>)
      ensures data == d && offset == 0 && Valid()
    {
      data, offset := d, 0;
    }

    ghost predicate Valid()
      reads this
    {
      offset <= |data|
    }

    /** The outcome is that of the read spec, and after a success the cursor stands where it ends. */
    ghost predicate Did<T>(spec: Parse<T>, r: Option<T>)
      reads this
    {
      match spec
      case Fail => r.None?
      case Ok(x, next) => r == Some(x) && offset == next
    }

    // -------------------------------------------------------------------------------------------
    // Primitives
    // -------------------------------------------------------------------------------------------

    method Read(n: nat) returns (r: Option<seq<u8>>)
      requires Valid()
      modifies this
      ensures Valid()
      ensures Did(ReadRaw(data, old(offset), n), r)
    {
      if n > |data| || offset > |data| - n { return None; }
      r := Some(data[offset..offset + n]);
      offset := offset + n;
    }

    method ReadU8() returns (r: Option<nat>)
      requires Valid()
      modifies this
      ensures Valid()
      ensures Did(ReadInt(data, old(offset), 1), r)
    {
      var b :- Read(1);
      assert FromLe(b) == b[0] + 256 * FromLe(b[1..]);
      r := Some(b[0]);
    }

    method ReadU32() returns (r: Option<nat>)
      requires Valid()
      modifies this
      ensures Valid()
      ensures Did(ReadInt(data, old(offset), 4), r)
    {
      hide FromLe;
      var b :- Read(4);
      ArtifactReading.FourBytesRead(b);
      r := Some(ArtifactReading.Weighted(b[0], b[1], b[2], b[3]));
    }

    method ReadU64() returns (r: Option<nat>)
      requires Valid()
      modifies this
      ensures Valid()
      ensures Did(ReadInt(data, old(offset), 8), r)
    {
      hide FromLe;
      var b :- Read(8);
      ArtifactReading.FourBytesRead(b[..4]);
      ArtifactReading.FourBytesRead(b[4..]);
      ArtifactReading.EightBytesRead(b);
      r := Some(ArtifactReading.Weighted(b[0], b[1], b[2], b[3]) + 0x1_0000_0000 * ArtifactReading.Weighted(b[4], b[5], b[6], b[7]));
    }

    method ReadText() returns (r: Option<seq<u8>>)
      requires Valid()
      modifies this
      ensures Valid()
      ensures Did(ReadString(data, old(offset)), r)
    {
      hide ReadInt;
      var len :- ReadU32();
      if len > MAX_STRING_BYTES { return None; }
      r := Read(len);
    }

    // -------------------------------------------------------------------------------------------
    // Records: one field after another
    // -------------------------------------------------------------------------------------------

    /** After the fields got, the fields of widths ws are left to read. */
    ghost predicate Pending(spec: Parse<seq<nat>>, got: seq<nat>, ws: seq<nat>)
      reads this
    {
      spec == Prepend(got, ReadInts(data, offset, ws))
    }

    method NextU8(ghost spec: Parse<seq<nat>>, ghost got: seq<nat>, ghost ws: seq<nat>) returns (r: Option<u8>)
      requires ws != [] && ws[0] == 1 && Pending(spec, got, ws)
      requires Valid()
      modifies this
      ensures Valid()
      ensures r.None? ==> spec.Fail?
      ensures r.Some? ==> Pending(spec, got + [r.value], ws[1..])
    {
      hide ReadInt, ReadInts, Pow256;
      Pow256Four();
      NextInt(data, offset, ws);
      var x :- ReadU8();
      PrependTwice(got, [x], ReadInts(data, offset, ws[1..]));
      r := Some(x);
    }

    method NextU32(ghost spec: Parse<seq<nat>>, ghost got: seq<nat>, ghost ws: seq<nat>) returns (r: Option<u32>)
      requires ws != [] && ws[0] == 4 && Pending(spec, got, ws)
      requires Valid()
      modifies this
      ensures Valid()
      ensures r.None? ==> spec.Fail?
      ensures r.Some? ==> Pending(spec, got + [r.value], ws[1..])
    {
      hide ReadInt, ReadInts, Pow256;
      Pow256Four();
      NextInt(data, offset, ws);
      var x :- ReadU32();
      PrependTwice(got, [x], ReadInts(data, offset, ws[1..]));
      r := Some(x);
    }

    method NextI32(ghost spec: Parse<seq<nat>>, ghost got: seq<nat>, ghost ws: seq<nat>) returns (r: Option<i32>)
      requires ws != [] && ws[0] == 4 && Pending(spec, got, ws)
      requires Valid()
      modifies this
      ensures Valid()
      ensures r.None? ==> spec.Fail?
      ensures r.Some? ==> Pending(spec, got + [U32(r.value)], ws[1..])
    {
      hide Pending;
      Pow256Four();
      var x :- NextU32(spec, got, ws);
      r := Some(I32(x));
      assert U32(I32(x)) == x;
    }

    method NextI64(ghost spec: Parse<seq<nat>>, ghost got: seq<nat>, ghost ws: seq<nat>) returns (r: Option<i64>)
      requires ws != [] && ws[0] == 8 && Pending(spec, got, ws)
      requires Valid()
      modifies this
      ensures Valid()
      ensures r.None? ==> spec.Fail?
      ensures r.Some? ==> Pending(spec, got + [U64(r.value)], ws[1..])
    {
      hide ReadInt, ReadInts, Pow256;
      Pow256Four();
      NextInt(data, offset, ws);
      var x :- ReadU64();
      PrependTwice(got, [x], ReadInts(data, offset, ws[1..]));
      r := Some(I64(x));
      assert U64(I64(x)) == x;
    }

    lemma Settled(spec: Parse<seq<nat>>, got: seq<nat>)
      requires Valid() && Pending(spec, got, [])
      ensures spec == Ok(got, offset)
    {
      assert got + [] == got;
    }

    // -------------------------------------------------------------------------------------------
    // The parts of a function
    // -------------------------------------------------------------------------------------------

    method TakeHead(v: nat) returns (r: Option<Head>)
      requires Valid()
      modifies this
      ensures Valid()
      ensures Did(ReadHead(data, old(offset), v), r)
    {
      hide Pending, ReadInts, ReadString, NullIfEmpty, Pow256, U32, I32;
      var name :- ReadText();
      var source := [];
      if v >= 3 {
        source :- ReadText();
      }
      ghost var w := HeadWidths(v);
      ghost var spec, got: seq<nat> := ReadInts(data, offset, w), [];
      StartRecord(w);
      var async, ip, slot := 0, -1, -1;
      if v >= 6 {
        async :- NextU8(spec, got, w);
        got, w := got + [async], w[1..];
      }
      if v >= 7 {
        ip :- NextI32(spec, got, w);
        got, w := got + [U32(ip)], w[1..];
        slot :- NextI32(spec, got, w);
        got, w := got + [U32(slot)], w[1..];
        SignedRoundTrip(ip, 0);
        SignedRoundTrip(slot, 0);
      }
      var params :- NextU32(spec, got, w);
      got, w := got + [params], w[1..];
      var locals :- NextU32(spec, got, w);
      got, w := got + [locals], w[1..];
      assert w == [];
      Settled(spec, got);
      if params > INT_MAX || locals > INT_MAX { return None; }
      r := Some(Head(NullIfEmpty(name), NullIfEmpty(source), async != 0, ip, slot, params, locals));
    }

    lemma StartRecord(w: seq<nat>)
      requires Valid()
      ensures Pending(ReadInts(data, offset, w), [], w)
    {
      var p := ReadInts(data, offset, w);
      if p.Ok? { assert [] + p.value == p.value; }
    }

    method TakeCaptures(params: nat, locals: nat) returns (r: Option<seq<i32>>)
      requires params <= INT_MAX && locals <= INT_MAX
      requires Valid()
      modifies this
      ensures Valid()
      ensures Did(ReadCaptures(data, old(offset), params, locals), r)
    {
      hide Pending, ReadInts, ReadInt, Pow256;
      Pow256Four();
      var n :- ReadU32();
      if n > INT_MAX || n > locals { return None; }
      ghost var spec, got: seq<nat> := ReadInts(data, offset, Fours(n)), [];
      StartRecord(Fours(n));
      var slots: seq<i32> := [];
      for i := 0 to n
        invariant Valid() && Pending(spec, got, Fours(n - i))
        invariant |slots| == |got| == i && forall k :: 0 <= k < i ==> params <= got[k] < locals && slots[k] == got[k]
      {
        var slot := NextU32(spec, got, Fours(n - i));
        if slot.None? { return None; }
        assert Fours(n - i)[1..] == Fours(n - i - 1);
        if slot.value > INT_MAX || slot.value < params || slot.value >= locals {
          Started(spec, got + [slot.value], Fours(n - i - 1));
          assert spec.Ok? ==> !(params <= spec.value[i] < locals);
          return None;
        }
        got, slots := got + [slot.value], slots + [slot.value];
      }
      assert Fours(0) == [];
      Settled(spec, got);
      assert ToI32s(got) == slots;
      r := Some(slots);
    }

    /** What was read first stands first in the outcome. */
    lemma Started(spec: Parse<seq<nat>>, got: seq<nat>, ws: seq<nat>)
      requires Pending(spec, got, ws)
      ensures spec.Ok? ==> |got| <= |spec.value| && forall k :: 0 <= k < |got| ==> spec.value[k] == got[k]
    {
    }

    method TakeNames(v: nat, locals: nat) returns (r: Option<seq<Text>>)
      requires Valid()
      modifies this
      ensures Valid()
      ensures Did(ReadNames(data, old(offset), v, locals), r)
    {
      hide ReadString, ReadMany, NullIfEmpty, CString;
      var names: seq<Text> := seq(locals, _ => None);
      if v < 8 {
        assert NullIfEmpty([]) == None by { NoName(); }
        assert NullEach(seq(locals, _ => [])) == names;
        return Some(names);
      }
      ghost var start, got: seq<seq<u8>> := offset, [];
      assert ReadMany(data, start, locals, ReadString) == Prepend([], ReadMany(data, offset, locals, ReadString)) by {
        Whole(ReadMany(data, offset, locals, ReadString));
      }
      for i := 0 to locals
        invariant Valid() && |names| == locals && |got| == i
        invariant forall k :: 0 <= k < i ==> names[k] == NullIfEmpty(got[k])
        invariant forall k :: i <= k < locals ==> names[k] == None
        invariant ReadMany(data, start, locals, ReadString) == Prepend(got, ReadMany(data, offset, locals - i, ReadString))
      {
        NextItem(data, offset, locals - i, ReadString);
        var s :- ReadText();
        PrependTwice(got, [s], ReadMany(data, offset, locals - i - 1, ReadString));
        assert NullIfEmpty(s) == if s == [] || s[0] == 0 then None else Some(CString(s)) by { NameOf(s); }
        if !(s == [] || s[0] == 0) { names := names[i := Some(CString(s))]; }
        got := got + [s];
      }
      Finished(data, offset, got, ReadString);
      assert NullEach(got) == names;
      r := Some(names);
    }

    method TakeCode() returns (r: Option<seq<u8>>)
      requires Valid()
      modifies this
      ensures Valid()
      ensures Did(ReadCode(data, old(offset)), r)
    {
      hide ReadInt;
      var n :- ReadU32();
      if n > MAX_COUNT || n > INT_MAX { return None; }
      r := Read(n);
    }

    method TakeLines(count: nat) returns (r: Option<seq<i32>>)
      requires Valid()
      modifies this
      ensures Valid()
      ensures Did(ReadLines(data, old(offset), count), r)
    {
      hide Pending, ReadInts, ReadInt, Pow256;
      Pow256Four();
      var n :- ReadU32();
      if n != count { return None; }
      ghost var spec, got: seq<nat> := ReadInts(data, offset, Fours(n)), [];
      StartRecord(Fours(n));
      var lines: seq<i32> := [];
      for i := 0 to count
        invariant Valid() && Pending(spec, got, Fours(n - i))
        invariant |lines| == |got| == i && forall k :: 0 <= k < i ==> got[k] < Pow256(4) && lines[k] == I32(got[k])
      {
        var line :- NextI32(spec, got, Fours(n - i));
        assert Fours(n - i)[1..] == Fours(n - i - 1);
        SignedRoundTrip(line, 0);
        got, lines := got + [U32(line)], lines + [line];
      }
      assert Fours(0) == [];
      Settled(spec, got);
      assert ToI32s(got) == lines;
      r := Some(lines);
    }

    method TakeConst() returns (r: Option<Const>)
      requires Valid()
      modifies this
      ensures Valid()
      ensures Did(ReadConst(data, old(offset)), r)
    {
      hide ReadInt, ReadString, Pow256, CString;
      Pow256Four();
      var t :- ReadU32();
      var typeIndex := I32(t);
      if typeIndex == 0 || typeIndex == 4 {
        var x :- ReadU64();
        return Some(NumConst(typeIndex, I64(x)));
      } else if typeIndex == 1 {
        var x :- ReadU64();
        return Some(DoubleConst(x));
      } else if typeIndex == 2 || typeIndex == 3 {
        var s :- ReadText();
        return Some(TextConst(typeIndex, Some(CString(s))));
      } else {
        return None;
      }
    }

    method TakeConsts() returns (r: Option<seq<Const>>)
      requires Valid()
      modifies this
      ensures Valid()
      ensures Did(ReadCounted(data, old(offset), ReadConst), r)
    {
      hide ReadInt, ReadConst, ReadMany;
      var n :- ReadU32();
      if n > MAX_COUNT || n > INT_MAX { return None; }
      ghost var start := offset;
      var constants: seq<Const> := [];
      Whole(ReadMany(data, offset, n, ReadConst));
      for i := 0 to n
        invariant Valid() && |constants| == i
        invariant ReadMany(data, start, n, ReadConst) == Prepend(constants, ReadMany(data, offset, n - i, ReadConst))
      {
        NextItem(data, offset, n - i, ReadConst);
        var c :- TakeConst();
        PrependTwice(constants, [c], ReadMany(data, offset, n - i - 1, ReadConst));
        constants := constants + [c];
      }
      Finished(data, offset, constants, ReadConst);
      r := Some(constants);
    }

    method TakeHint(v: nat) returns (r: Option<Hint>)
      requires Valid()
      modifies this
      ensures Valid()
      ensures Did(ReadHint(data, old(offset), v), r)
    {
      hide Pending, ReadInts, Pow256, U32, U64, I32, I64, HintOf;
      if v < 9 { return Some(NO_HINT); }
      ghost var w := HintWidths(v);
      ghost var spec, got: seq<nat> := ReadInts(data, offset, w), [];
      StartRecord(w);
      var op, flags := 0, 0;
      var kind :- NextI32(spec, got, w);
      got, w := got + [U32(kind)], w[1..];
      if v >= 13 {
        assert w == [4, 1, 1, 1, 8, 8];
        op :- NextI32(spec, got, w);
        got, w := got + [U32(op)], w[1..];
        assert w == [1, 1, 1, 8, 8];
        flags :- NextU8(spec, got, w);
        got, w := got + [flags], w[1..];
      }
      assert w == [1, 1, 8, 8] && got == HintFront(v, kind, op, flags);
      var tail :- TakeOperands(spec, got);
      var (slotA, slotB, const0, const1) := tail;
      HintIs(v, kind, op, flags, slotA, slotB, const0, const1);
      r := Some(Hint(kind, op, flags, slotA, slotB, const0, const1));
    }

    /** The slots and constants at the end of a hint. */
    method TakeOperands(ghost spec: Parse<seq<nat>>, ghost got: seq<nat>) returns (r: Option<(u8, u8, i64, i64)>)
      requires Valid() && Pending(spec, got, [1, 1, 8, 8])
      modifies this
      ensures Valid()
      ensures r.None? ==> spec.Fail?
      ensures r.Some? ==> spec == Ok(got + [r.value.0, r.value.1, U64(r.value.2), U64(r.value.3)], offset)
    {
      hide Pending, ReadInts, Pow256, U64, I64;
      ghost var w: seq<nat>, xs: seq<nat> := [1, 1, 8, 8], got;
      var slotA :- NextU8(spec, xs, w);
      xs, w := xs + [slotA], w[1..];
      var slotB :- NextU8(spec, xs, w);
      xs, w := xs + [slotB], w[1..];
      var const0 :- NextI64(spec, xs, w);
      xs, w := xs + [U64(const0)], w[1..];
      var const1 :- NextI64(spec, xs, w);
      xs, w := xs + [U64(const1)], w[1..];
      assert w == [];
      Settled(spec, xs);
      assert xs == got + [slotA, slotB, U64(const0), U64(const1)];
      r := Some((slotA, slotB, const0, const1));
    }

    method TakeSummary() returns (r: Option<Summary>)
      requires Valid()
      modifies this
      ensures Valid()
      ensures var spec := ReadInts(data, old(offset), SummaryWidths());
        Did(if spec.Ok? then Ok(SummaryOf(spec.value), spec.next) else Fail, r)
    {
      hide Pending, ReadInts, Pow256;
      Pow256Four();
      ghost var w := SummaryWidths();
      ghost var spec, got: seq<nat> := ReadInts(data, offset, w), [];
      StartRecord(w);
      var kind :- NextI32(spec, got, w);
      got, w := got + [U32(kind)], w[1..];
      var op :- NextI32(spec, got, w);
      got, w := got + [U32(op)], w[1..];
      var slot0 :- NextU8(spec, got, w);
      got, w := got + [slot0], w[1..];
      var slot1 :- NextU8(spec, got, w);
      got, w := got + [slot1], w[1..];
      var const0 :- NextI64(spec, got, w);
      got, w := got + [U64(const0)], w[1..];
      var const1 :- NextI64(spec, got, w);
      got, w := got + [U64(const1)], w[1..];
      assert w == [];
      Settled(spec, got);
      SignedRoundTrip(kind, const0);
      SignedRoundTrip(op, const1);
      r := Some(Summary(kind, op, slot0, slot1, const0, const1));
    }

    method TakeFront(v: nat) returns (r: Option<Front>)
      requires Valid() && v >= 14
      modifies this
      ensures Valid()
      ensures r.None? ==> ReadInts(data, old(offset), ProfileWidths(v)).Fail?
      ensures r.Some? ==> ReadInts(data, old(offset), ProfileWidths(v)) == Ok(FrontInts(v, r.value), offset)
    {
      hide Pending, ReadInts;
      ghost var w := ProfileWidths(v);
      ghost var spec, got: seq<nat> := ReadInts(data, offset, w), [];
      StartRecord(w);
      var support, family := 0, 0;
      var flags :- NextU8(spec, got, w);
      got, w := got + [flags], w[1..];
      if v >= 15 {
        support :- NextU8(spec, got, w);
        got, w := got + [support], w[1..];
      }
      if v >= 16 {
        family :- NextU8(spec, got, w);
        got, w := got + [family], w[1..];
      }
      assert w == [4, 4, 4];
      var params :- NextI32(spec, got, w);
      got, w := got + [U32(params)], w[1..];
      var locals :- NextI32(spec, got, w);
      got, w := got + [U32(locals)], w[1..];
      var captures :- NextI32(spec, got, w);
      got, w := got + [U32(captures)], w[1..];
      assert w == [];
      Settled(spec, got);
      r := Some(Front(flags, support, family, params, locals, captures));
      assert got == FrontInts(v, r.value);
    }

    method TakeProfile(v: nat, h: Head, captures: i32, hintKind: i32) returns (r: Option<Profile>)
      requires h.params <= INT_MAX && h.locals <= INT_MAX && captures >= 0
      requires Valid()
      modifies this
      ensures Valid()
      ensures Did(ReadProfile(data, old(offset), v, h, captures, hintKind), r)
    {
      hide ReadInts, ReadInt, Pow256, SummaryOf, DerivedFlags, DerivedSupport, DerivedFamily;
      if v < 10 { return Some(NO_PROFILE); }
      Pow256Four();
      var f := Front(DerivedFlags(h.isAsync, captures), 0, 0, h.params, h.locals, captures);
      if v >= 14 {
        f :- TakeFront(v);
        SignedRoundTrip(f.params, 0);
        SignedRoundTrip(f.locals, 0);
        SignedRoundTrip(f.captures, 0);
      } else {
        NoInts(data, offset);
      }
      var summary :- TakeSummary();
      var support := if v >= 15 then f.support else DerivedSupport(h.isAsync, captures, hintKind, summary.kind);
      var family := if v >= 16 then f.family else DerivedFamily(summary.kind);
      r := Some(Profile(f.flags, support, family, f.params, f.locals, f.captures, summary));
    }

    /** artifact_read_function. */
    method TakeFunction(v: nat) returns (r: Option<Func>)
      requires Valid()
      modifies this
      ensures Valid()
      ensures Did(ReadFunction(data, old(offset), v), r)
    {
      hide ReadHead, ReadCaptures, ReadNames, ReadCode, ReadLines, ReadCounted, ReadConst, ReadHint, ReadProfile;
      var h :- TakeHead(v);
      var captures := [];
      if v >= 4 {
        captures :- TakeCaptures(h.params, h.locals);
      }
      var names :- TakeNames(v, h.locals);
      var code :- TakeCode();
      var lines :- TakeLines(|code|);
      var constants :- TakeConsts();
      var hint :- TakeHint(v);
      var profile :- TakeProfile(v, h, |captures|, hint.kind);
      r := Some(Func(h.name, h.sourceFile, h.isAsync, h.handlerIp, h.returnSlot, h.params, h.locals, captures, names,
                     code, lines, constants, hint, profile));
    }

    // -------------------------------------------------------------------------------------------
    // The artifact
    // -------------------------------------------------------------------------------------------

    method TakeDependencies() returns (r: Option<seq<Dependency>>)
      requires Valid()
      modifies this
      ensures Valid()
      ensures Did(ReadCounted(data, old(offset), ReadDependency), r)
    {
      hide ReadInt, ReadString, ReadMany, CString;
      var n :- ReadU32();
      if n > MAX_COUNT || n > INT_MAX { return None; }
      ghost var start := offset;
      var items: seq<Dependency> := [];
      Whole(ReadMany(data, offset, n, ReadDependency));
      for i := 0 to n
        invariant Valid() && |items| == i
        invariant ReadMany(data, start, n, ReadDependency) == Prepend(items, ReadMany(data, offset, n - i, ReadDependency))
      {
        NextItem(data, offset, n - i, ReadDependency);
        var path :- ReadText();
        var mtime :- ReadU64();
        var item := Dependency(Some(CString(path)), I64(mtime));
        PrependTwice(items, [item], ReadMany(data, offset, n - i - 1, ReadDependency));
        items := items + [item];
      }
      Finished(data, offset, items, ReadDependency);
      r := Some(items);
    }

    method TakeDispatches() returns (r: Option<seq<Dispatch>>)
      requires Valid()
      modifies this
      ensures Valid()
      ensures Did(ReadCounted(data, old(offset), ReadDispatch), r)
    {
      hide ReadInt, ReadString, ReadMany, CString;
      var n :- ReadU32();
      if n > MAX_COUNT || n > INT_MAX { return None; }
      ghost var start := offset;
      var items: seq<Dispatch> := [];
      Whole(ReadMany(data, offset, n, ReadDispatch));
      for i := 0 to n
        invariant Valid() && |items| == i
        invariant ReadMany(data, start, n, ReadDispatch) == Prepend(items, ReadMany(data, offset, n - i, ReadDispatch))
      {
        NextItem(data, offset, n - i, ReadDispatch);
        var a :- ReadText();
        var b :- ReadText();
        var c :- ReadText();
        var e :- ReadText();
        var item := Dispatch(Some(CString(a)), Some(CString(b)), Some(CString(c)), Some(CString(e)));
        PrependTwice(items, [item], ReadMany(data, offset, n - i - 1, ReadDispatch));
        items := items + [item];
      }
      Finished(data, offset, items, ReadDispatch);
      r := Some(items);
    }

    method TakeFunctions(v: nat, n: nat) returns (r: Option<seq<Func>>)
      requires Valid()
      modifies this
      ensures Valid()
      ensures Did(ReadMany(data, old(offset), n, FunctionReader(v)), r)
    {
      hide ReadFunction, ReadMany;
      ghost var start, read := offset, FunctionReader(v);
      var items: seq<Func> := [];
      Whole(ReadMany(data, offset, n, read));
      for i := 0 to n
        invariant Valid() && |items| == i
        invariant ReadMany(data, start, n, read) == Prepend(items, ReadMany(data, offset, n - i, read))
      {
        NextItem(data, offset, n - i, read);
        var f :- TakeFunction(v);
        PrependTwice(items, [f], ReadMany(data, offset, n - i - 1, read));
        items := items + [f];
      }
      Finished(data, offset, items, read);
      r := Some(items);
    }

    method TakeBody(v: nat) returns (r: Option<Artifact>)
      requires Valid()
      modifies this
      ensures Valid()
      ensures Did(ReadBody(data, old(offset), v), r)
    {
      hide ReadInt, ReadCounted, ReadDependency, ReadDispatch, ReadMany, FunctionReader, ReadFunction, Pow256;
      Pow256Four();
      var flags :- ReadU32();
      var deps :- TakeDependencies();
      var dispatch := [];
      if v >= 5 {
        dispatch :- TakeDispatches();
      }
      var n :- ReadU32();
      if n == 0 || n > MAX_COUNT || n > INT_MAX { return None; }
      var main :- ReadU32();
      var hasInit :- ReadU8();
      var mainIndex := I32(main);
      if mainIndex < 0 || mainIndex >= n { return None; }
      var functions :- TakeFunctions(v, n);
      var init: Option<Func> := None;
      if hasInit != 0 {
        var f :- TakeFunction(v);
        init := Some(f);
      }
      r := Some(Artifact(flags, deps, dispatch, mainIndex, functions, init));
    }
  }

  /** artifact_load_bytes_internal. */
  method LoadBytes(d: seq<u8>) returns (r: Option<Artifact>)
    ensures r == Load(d)
    ensures forall v, a, b :: ArtifactLoading.LaidOut(d, v, a, b) ==> r == Some(b)
    ensures r.Some? ==> exists v, a :: ArtifactLoading.LaidOut(d, v, a, r.value)
  {
    hide ReadBody, ReadInt, ArtifactLoading.LaidOut;
    forall v, a, b | ArtifactLoading.LaidOut(d, v, a, b) ensures Load(d) == Some(b) { ArtifactLoading.LoadExact(d, b); }
    if Load(d).Some? { ArtifactLoading.LoadExact(d, Load(d).value); }
    if |d| == 0 { return None; }
    var reader := new ArtifactReader(d);
    var magic :- reader.Read(4);
    if magic != MAGIC { return None; }
    var version :- reader.ReadU32();
    if version < MIN_VERSION || version > VERSION { return None; }
    var a :- reader.TakeBody(version);
    if reader.offset != |d| { return None; }
    r := Some(a);
  }

  lemma NoName()
    ensures NullIfEmpty([]) == None
  {
  }

  lemma NameOf(s: seq<u8>)
    ensures NullIfEmpty(s) == if s == [] || s[0] == 0 then None else Some(CString(s))
  {
  }

  lemma Finished<T>(d: seq<u8>, i: nat, xs: seq<T>, read: Reader<T>)
    ensures Prepend(xs, ReadMany(d, i, 0, read)) == Ok(xs, i)
  {
    assert xs + [] == xs;
  }
}
