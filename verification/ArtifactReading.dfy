/** The readers of src/artifact.c and the layout: a file laid out as a version says loads as exactly these fields, and
    whatever loads is laid out so. */
module ArtifactReading {
  import opened Words
  import opened Parsing
  import opened IntFacts
  import opened ByteCodec
  import opened Options
  import opened ArtifactFormat
  import opened ArtifactLayout
  import opened ArtifactPlacing

  // ---------------------------------------------------------------------------------------------
  // Limits of the reader, and how strings come back
  // ---------------------------------------------------------------------------------------------

  predicate TextReads(t: Text) { |Stored(t)| <= 0x1000_0000 }

  predicate ConstantReads(c: Const) { c.TextConst? ==> TextReads(c.text) }

  predicate FunctionReads(f: Func) {
    && TextReads(f.name) && TextReads(f.sourceFile)
    && f.paramCount >= 0 && f.localCount >= 0
    && |f.captures| <= f.localCount
    && (forall k :: 0 <= k < |f.captures| ==> f.paramCount <= f.captures[k] < f.localCount)
    && |f.debugNames| == f.localCount && All(f.debugNames, TextReads)
    && |f.lines| == |f.code| <= 100_000_000
    && |f.constants| <= 100_000_000 && All(f.constants, ConstantReads)
  }

  predicate DependencyReads(p: Dependency) { TextReads(p.path) }

  predicate DispatchReads(p: Dispatch) {
    TextReads(p.interfaceName) && TextReads(p.recordName) && TextReads(p.methodName) && TextReads(p.functionName)
  }

  /** A function of version v that the reader takes. */
  predicate FunctionOk(v: nat, f: Func) { FunctionReads(f) && Supplied(v, f) }

  function FunctionOkIn(v: nat): Func -> bool { (f: Func) => FunctionOk(v, f) }

  predicate ArtifactOk(v: nat, a: Artifact) {
    && 2 <= v <= 16
    && |a.dependencies| <= 100_000_000 && All(a.dependencies, DependencyReads)
    && |a.dispatch| <= 100_000_000 && All(a.dispatch, DispatchReads) && (v < 5 ==> a.dispatch == [])
    && 0 <= a.mainIndex < |a.functions| <= 100_000_000 && All(a.functions, FunctionOkIn(v))
    && (a.init.Some? ==> FunctionOk(v, a.init.value))
  }

  /** A stored string ends at its first zero byte. */
  function CutText(t: Text): Text { Some(CString(Stored(t))) }

  /** Names that are empty then come back null. */
  function CutName(t: Text): Text { if CString(Stored(t)) == [] then None else Some(CString(Stored(t))) }

  function CutConstant(c: Const): Const { if c.TextConst? then c.(text := CutText(c.text)) else c }

  function CutFunction(f: Func): Func {
    f.(name := CutName(f.name), sourceFile := CutName(f.sourceFile), debugNames := Map(f.debugNames, CutName),
       constants := Map(f.constants, CutConstant))
  }

  function CutDependency(p: Dependency): Dependency { p.(path := CutText(p.path)) }

  function CutDispatch(p: Dispatch): Dispatch {
    p.(interfaceName := CutText(p.interfaceName), recordName := CutText(p.recordName),
       methodName := CutText(p.methodName), functionName := CutText(p.functionName))
  }

  function CutArtifact(a: Artifact): Artifact {
    a.(dependencies := Map(a.dependencies, CutDependency), dispatch := Map(a.dispatch, CutDispatch),
       functions := Map(a.functions, CutFunction),
       init := if a.init.Some? then Some(CutFunction(a.init.value)) else None)
  }

  // ---------------------------------------------------------------------------------------------
  // Numbers and strings
  // ---------------------------------------------------------------------------------------------

  function Weighted(a: nat, b: nat, c: nat, d: nat): nat { a + 0x100 * b + 0x1_0000 * c + 0x100_0000 * d }

  lemma FourBytesRead(b: seq<u8>)
    requires |b| == 4
    ensures FromLe(b) == Weighted(b[0], b[1], b[2], b[3])
  {
    hide FromLe;
    Unfold(b); Unfold(b[1..]); Unfold(b[2..]); Unfold(b[3..]);
    assert b[1..][1..] == b[2..] && b[2..][1..] == b[3..] && b[3..][1..] == [];
    assert FromLe([]) == 0 by { Nothing(); }
  }

  lemma Nothing()
    ensures FromLe([]) == 0
  {
  }

  lemma EightBytesRead(b: seq<u8>)
    requires |b| == 8
    ensures FromLe(b) == FromLe(b[..4]) + 0x1_0000_0000 * FromLe(b[4..])
  {
    hide FromLe;
    Unfold(b); Unfold(b[1..]); Unfold(b[2..]); Unfold(b[3..]);
    assert b[1..][1..] == b[2..] && b[2..][1..] == b[3..] && b[3..][1..] == b[4..];
    FourBytesRead(b[..4]);
  }

  lemma Unfold(b: seq<u8>)
    requires b != []
    ensures FromLe(b) == b[0] + 256 * FromLe(b[1..])
  {
  }

  lemma BytesBack(a: u8, b: u8, c: u8, e: u8)
    ensures var x := Weighted(a, b, c, e);
      && x % 256 == a && x / 0x100 % 256 == b && x / 0x1_0000 % 256 == c && x / 0x100_0000 % 256 == e
      && 0 <= x < 0x1_0000_0000
  {
    var x := Weighted(a, b, c, e);
    QuotientIs(x, 0x100, b + 0x100 * c + 0x1_0000 * e, a);
    QuotientIs(b + 0x100 * c + 0x1_0000 * e, 0x100, c + 0x100 * e, b);
    QuotientIs(x, 0x1_0000, c + 0x100 * e, a + 0x100 * b);
    QuotientIs(c + 0x100 * e, 0x100, e, c);
    QuotientIs(x, 0x100_0000, e, a + 0x100 * b + 0x1_0000 * c);
    QuotientIs(e, 0x100, 0, e);
  }

  /** What four bytes read as stands there. */
  lemma WordBack(d: seq<u8>, i: nat)
    ensures ReadInt(d, i, 4).Ok? <==> i + 4 <= |d|
    ensures ReadInt(d, i, 4).Ok? ==> var r := ReadInt(d, i, 4);
      r.next == i + 4 && r.value < 0x1_0000_0000 && Word(d, i, r.value)
  {
    if i + 4 <= |d| {
      hide FromLe;
      var s := d[i..i + 4];
      FourBytesRead(s);
      BytesBack(s[0], s[1], s[2], s[3]);
    }
  }

  lemma BytesSum(x: nat)
    requires x < 0x1_0000_0000
    ensures x == x % 256 + 0x100 * (x / 0x100 % 256) + 0x1_0000 * (x / 0x1_0000 % 256) + 0x100_0000 * (x / 0x100_0000 % 256)
  {
    var a, b, c := x / 0x100, x / 0x1_0000, x / 0x100_0000;
    assert b == a / 0x100 && c == b / 0x100 && c / 0x100 == 0;
  }

  /** A word stands for one number only. */
  lemma WordUnique(d: seq<u8>, i: nat, x: nat, y: nat)
    requires x < 0x1_0000_0000 && y < 0x1_0000_0000 && Word(d, i, x) && Word(d, i, y)
    ensures x == y
  {
    BytesSum(x);
    BytesSum(y);
  }

  lemma ReadWord(d: seq<u8>, i: nat, x: nat)
    requires x < 0x1_0000_0000 && Word(d, i, x)
    ensures ReadInt(d, i, 4) == Ok(x, i + 4)
  {
    assert i + 4 <= |d|;
    hide Word, ReadInt;
    WordBack(d, i);
    WordUnique(d, i, ReadInt(d, i, 4).value, x);
  }

  lemma ReadSigned(d: seq<u8>, i: nat, x: i32)
    requires Word(d, i, x)
    ensures ReadInt(d, i, 4) == Ok(U32(x), i + 4)
  {
    hide Word, ReadInt;
    SignedWord(d, i, x);
    ReadWord(d, i, U32(x));
  }

  lemma SignedBack(d: seq<u8>, i: nat)
    requires ReadInt(d, i, 4).Ok?
    ensures var r := ReadInt(d, i, 4); r.next == i + 4 && Word(d, i, I32(r.value)) && U32(I32(r.value)) == r.value
  {
    hide Word, ReadInt, Pow256;
    Pow256Four();
    WordBack(d, i);
    SignedWord(d, i, I32(ReadInt(d, i, 4).value));
  }

  lemma LongParts(d: seq<u8>, i: nat)
    ensures ReadInt(d, i, 8).Ok? <==> i + 8 <= |d|
    ensures i + 8 <= |d| ==> ReadInt(d, i, 4).Ok? && ReadInt(d, i + 4, 4).Ok?
    ensures i + 8 <= |d| ==> ReadInt(d, i, 8) == Ok(ReadInt(d, i, 4).value + 0x1_0000_0000 * ReadInt(d, i + 4, 4).value, i + 8)
  {
    if i + 8 <= |d| {
      hide FromLe, Pow256;
      var b := d[i..i + 8];
      assert b[..4] == d[i..i + 4] && b[4..] == d[i + 4..i + 8];
      EightBytesRead(b);
    }
  }

  lemma LongBack(d: seq<u8>, i: nat)
    requires ReadInt(d, i, 8).Ok?
    ensures var r := ReadInt(d, i, 8); r.next == i + 8 && r.value < 0x1_0000_0000_0000_0000 && Long(d, i, r.value)
  {
    hide Word, ReadInt;
    LongParts(d, i);
    WordBack(d, i);
    WordBack(d, i + 4);
    var lo, hi := ReadInt(d, i, 4).value, ReadInt(d, i + 4, 4).value;
    QuotientIs(lo + 0x1_0000_0000 * hi, 0x1_0000_0000, hi, lo);
    SameWord(d, i, lo, hi);
  }

  lemma ReadLong(d: seq<u8>, i: nat, x: nat)
    requires x < 0x1_0000_0000_0000_0000 && Long(d, i, x)
    ensures ReadInt(d, i, 8) == Ok(x, i + 8)
  {
    var lo, hi := x % 0x1_0000_0000, x / 0x1_0000_0000;
    assert i + 8 <= |d|;
    hide Word, ReadInt;
    assert x == lo + 0x1_0000_0000 * hi;
    SameWord(d, i, lo, hi);
    ReadWord(d, i, lo);
    ReadWord(d, i + 4, hi);
    LongParts(d, i);
  }

  lemma ReadSignedLong(d: seq<u8>, i: nat, x: i64)
    requires Long(d, i, x)
    ensures ReadInt(d, i, 8) == Ok(U64(x), i + 8)
  {
    hide Long, ReadInt;
    SignedLong(d, i, x);
    ReadLong(d, i, U64(x));
  }

  lemma SignedLongBack(d: seq<u8>, i: nat)
    requires ReadInt(d, i, 8).Ok?
    ensures var r := ReadInt(d, i, 8); r.next == i + 8 && Long(d, i, I64(r.value)) && U64(I64(r.value)) == r.value
  {
    hide Long, ReadInt, Pow256;
    Pow256Four();
    LongBack(d, i);
    SignedLong(d, i, I64(ReadInt(d, i, 8).value));
  }

  lemma ByteBack(d: seq<u8>, i: nat)
    ensures ReadInt(d, i, 1) == if i < |d| then Ok(d[i], i + 1) else Fail
  {
    if i < |d| {
      assert d[i..i + 1] == [d[i]];
      assert FromLe([d[i]]) == d[i];
    }
  }

  // The same, as one fact for each kind of field.

  lemma WordExact(d: seq<u8>, i: nat, x: i32)
    ensures Word(d, i, x) <==> ReadInt(d, i, 4) == Ok(U32(x), i + 4)
  {
    hide Word, ReadInt, Pow256;
    Pow256Four();
    if Word(d, i, x) { ReadSigned(d, i, x); }
    if ReadInt(d, i, 4) == Ok(U32(x), i + 4) {
      SignedBack(d, i);
      SignedRoundTrip(x, 0);
    }
  }

  lemma LongExact(d: seq<u8>, i: nat, x: i64)
    ensures Long(d, i, x) <==> ReadInt(d, i, 8) == Ok(U64(x), i + 8)
  {
    hide Long, ReadInt, Pow256;
    Pow256Four();
    if Long(d, i, x) { ReadSignedLong(d, i, x); }
    if ReadInt(d, i, 8) == Ok(U64(x), i + 8) {
      SignedLongBack(d, i);
      SignedRoundTrip(0, x);
    }
  }

  lemma TinyExact(d: seq<u8>, i: nat, x: u8)
    ensures Tiny(d, i, x) <==> ReadInt(d, i, 1) == Ok(x, i + 1)
  {
    ByteBack(d, i);
  }

  lemma ReadText(d: seq<u8>, i: nat, t: Text)
    requires TextAt(d, i, t) && TextReads(t)
    ensures ReadString(d, i) == Ok(Stored(t), i + TextSize(t))
  {
    hide Word, ReadInt;
    ReadWord(d, i, |Stored(t)|);
  }

  lemma TextBack(d: seq<u8>, i: nat)
    requires ReadString(d, i).Ok?
    ensures var r := ReadString(d, i);
      TextAt(d, i, Some(r.value)) && TextReads(Some(r.value)) && r.next == i + TextSize(Some(r.value)) <= |d|
  {
    hide Word, ReadInt;
    WordBack(d, i);
  }

  // ---------------------------------------------------------------------------------------------
  // Records and rows
  // ---------------------------------------------------------------------------------------------

  /** The number at offset k of the record. */
  ghost predicate FieldReads(d: seq<u8>, i: nat, ws: seq<nat>, k: nat, x: nat)
    requires k < |ws|
  {
    ReadInt(d, i + Offset(ws, k), ws[k]) == Ok(x, i + Offset(ws, k) + ws[k])
  }

  lemma {:induction false} ReadRecord(d: seq<u8>, i: nat, xs: seq<nat>, ws: seq<nat>)
    requires |xs| == |ws| && i <= |d| && forall k :: 0 <= k < |ws| ==> FieldReads(d, i, ws, k, xs[k])
    ensures ReadInts(d, i, ws) == Ok(xs, i + Offset(ws, |ws|))
    decreases |ws|
  {
    hide ReadInt, Offset;
    NoOffset(ws);
    if ws != [] {
      assert FieldReads(d, i, ws, 0, xs[0]);
      forall k | 0 <= k < |ws| - 1 ensures FieldReads(d, i + ws[0], ws[1..], k, xs[1..][k]) {
        assert FieldReads(d, i, ws, k + 1, xs[k + 1]);
        OffsetShift(ws, k + 1);
      }
      OffsetShift(ws, |ws|);
      ReadRecord(d, i + ws[0], xs[1..], ws[1..]);
      assert xs == [xs[0]] + xs[1..];
    }
  }

  lemma {:induction false} RecordBack(d: seq<u8>, i: nat, ws: seq<nat>)
    requires ReadInts(d, i, ws).Ok?
    ensures var r := ReadInts(d, i, ws);
      && r.next == i + Offset(ws, |ws|) <= |d| && |r.value| == |ws|
      && forall k :: 0 <= k < |ws| ==> FieldReads(d, i, ws, k, r.value[k])
    decreases |ws|
  {
    hide ReadInt, Offset;
    NoOffset(ws);
    if ws != [] {
      var first := ReadInt(d, i, ws[0]);
      IntNext(d, i, ws[0]);
      RecordBack(d, i + ws[0], ws[1..]);
      OffsetShift(ws, |ws|);
      var xs := ReadInts(d, i, ws).value;
      forall k | 0 <= k < |ws| ensures FieldReads(d, i, ws, k, xs[k]) {
        if k > 0 {
          OffsetShift(ws, k);
          assert FieldReads(d, i + ws[0], ws[1..], k - 1, xs[1..][k - 1]);
        }
      }
    }
  }

  /** A record is read exactly when each of its fields is. */
  lemma RecordExact(d: seq<u8>, i: nat, xs: seq<nat>, ws: seq<nat>)
    requires |xs| == |ws| && i <= |d|
    ensures ReadInts(d, i, ws) == Ok(xs, i + Offset(ws, |ws|)) <==> forall k :: 0 <= k < |ws| ==> FieldReads(d, i, ws, k, xs[k])
  {
    hide FieldReads, ReadInts, Offset;
    if forall k :: 0 <= k < |ws| ==> FieldReads(d, i, ws, k, xs[k]) { ReadRecord(d, i, xs, ws); }
    if ReadInts(d, i, ws) == Ok(xs, i + Offset(ws, |ws|)) { RecordBack(d, i, ws); }
  }

  lemma IntNext(d: seq<u8>, i: nat, w: nat)
    requires ReadInt(d, i, w).Ok?
    ensures ReadInt(d, i, w).next == i + w <= |d|
  {
  }

  /** Wherever x stands, it is read, cut. */
  ghost predicate Reads<T, U>(d: seq<u8>, x: T, read: Reader<U>, at: (seq<u8>, nat, T) -> bool, size: T -> nat,
          cut: T -> U) {
    forall i: nat :: at(d, i, x) ==> read(d, i) == Ok(cut(x), i + size(x))
  }

  lemma {:induction false} ReadRow<T, U>(d: seq<u8>, i: nat, xs: seq<T>, read: Reader<U>, at: (seq<u8>, nat,
          T) -> bool, size: T -> nat, cut: T -> U)
    requires Row(d, i, xs, at, size) && forall k :: 0 <= k < |xs| ==> Reads(d, xs[k], read, at, size, cut)
    ensures ReadMany(d, i, |xs|, read) == Ok(Map(xs, cut), i + RowSize(xs, size))
    decreases |xs|
  {
    if xs != [] {
      assert Reads(d, xs[0], read, at, size, cut);
      ReadRow(d, i + size(xs[0]), xs[1..], read, at, size, cut);
    }
  }

  /** x stands at i, is taken, and is what was read. */
  ghost predicate Stands<T, U>(d: seq<u8>, i: nat, x: T, r: Parse<U>, at: (seq<u8>, nat, T) -> bool, size: T -> nat,
          cut: T -> U, ok: T -> bool) {
    at(d, i, x) && ok(x) && r == Ok(cut(x), i + size(x)) && i + size(x) <= |d|
  }

  /** Whatever is read stands there. */
  ghost predicate Backs<T(!new), U>(d: seq<u8>, i: nat, read: Reader<U>, at: (seq<u8>, nat, T) -> bool,
          size: T -> nat, cut: T -> U, ok: T -> bool) {
    read(d, i).Ok? ==> exists x: T :: Stands(d, i, x, read(d, i), at, size, cut, ok)
  }

  lemma {:induction false} RowBack<T(!new), U>(d: seq<u8>, i: nat, n: nat, read: Reader<U>, at: (seq<u8>, nat,
          T) -> bool, size: T -> nat, cut: T -> U, ok: T -> bool)
    returns (xs: seq<T>)
    requires i <= |d| && ReadMany(d, i, n, read).Ok? && forall j: nat :: Backs(d, j, read, at, size, cut, ok)
    ensures |xs| == n && Row(d, i, xs, at, size) && All(xs, ok)
    ensures ReadMany(d, i, n, read) == Ok(Map(xs, cut), i + RowSize(xs, size)) && i + RowSize(xs, size) <= |d|
    decreases n
  {
    if n == 0 {
      xs := [];
    } else {
      assert Backs(d, i, read, at, size, cut, ok);
      var x: T :| Stands(d, i, x, read(d, i), at, size, cut, ok);
      var rest := RowBack(d, i + size(x), n - 1, read, at, size, cut, ok);
      xs := [x] + rest;
      assert xs[1..] == rest;
    }
  }

  // ---------------------------------------------------------------------------------------------
  // Counted words
  // ---------------------------------------------------------------------------------------------

  lemma {:induction false} FoursOffset(n: nat, k: nat)
    requires k <= n
    ensures Offset(Fours(n), k) == 4 * k
  {
    if k > 0 { FoursOffset(n, k - 1); }
  }

  lemma ReadFours(d: seq<u8>, i: nat, xs: seq<i32>, us: seq<nat>)
    requires i + 4 * |xs| <= |d| && forall k :: 0 <= k < |xs| ==> Word(d, i + 4 * k, xs[k])
    requires |us| == |xs| && forall k :: 0 <= k < |xs| ==> us[k] == U32(xs[k])
    ensures ReadInts(d, i, Fours(|xs|)) == Ok(us, i + 4 * |xs|)
  {
    hide Word, ReadInt, Offset, U32;
    var ws := Fours(|xs|);
    forall k | 0 <= k < |ws| ensures FieldReads(d, i, ws, k, us[k]) {
      FoursOffset(|xs|, k);
      ReadSigned(d, i + 4 * k, xs[k]);
    }
    FoursOffset(|xs|, |xs|);
    ReadRecord(d, i, us, ws);
  }

  lemma FoursBack(d: seq<u8>, i: nat, n: nat)
    requires ReadInts(d, i, Fours(n)).Ok?
    ensures var r := ReadInts(d, i, Fours(n));
      && r.next == i + 4 * n <= |d| && |r.value| == n
      && forall k :: 0 <= k < n ==> Word(d, i + 4 * k, I32(r.value[k]))
  {
    hide Word, ReadInt, Offset, I32;
    RecordBack(d, i, Fours(n));
    FoursOffset(n, n);
    var xs := ReadInts(d, i, Fours(n)).value;
    forall k | 0 <= k < n ensures Word(d, i + 4 * k, I32(xs[k])) {
      assert FieldReads(d, i, Fours(n), k, xs[k]);
      FoursOffset(n, k);
      SignedBack(d, i + 4 * k);
    }
  }

  function Unsigned(xs: seq<i32>): (us: seq<nat>)
    ensures |us| == |xs| && forall k :: 0 <= k < |xs| ==> us[k] == U32(xs[k])
  {
    seq(|xs|, k requires 0 <= k < |xs| => U32(xs[k]) as nat)
  }

  lemma UnsignedBack(xs: seq<i32>)
    ensures (forall k :: 0 <= k < |xs| ==> Unsigned(xs)[k] < Pow256(4)) && ToI32s(Unsigned(xs)) == xs
  {
    hide Pow256, U32, I32;
    forall k | 0 <= k < |xs| ensures Unsigned(xs)[k] < Pow256(4) && I32(Unsigned(xs)[k]) == xs[k] { SignedRoundTrip(xs[k], 0); }
  }

  lemma ReadTheLines(d: seq<u8>, i: nat, xs: seq<i32>)
    requires WordsAt(d, i, xs) && |xs| < 0x1_0000_0000
    ensures ReadLines(d, i, |xs|) == Ok(xs, i + WordsSize(xs))
  {
    hide Word, ReadInt, ReadInts, U32, I32, ToI32s;
    ReadWord(d, i, |xs|);
    forall k | 0 <= k < |xs| ensures Word(d, i + 4 + 4 * k, xs[k]) { }
    ReadFours(d, i + 4, xs, Unsigned(xs));
    UnsignedBack(xs);
  }

  lemma LinesBack(d: seq<u8>, i: nat, n: nat)
    requires ReadLines(d, i, n).Ok?
    ensures var r := ReadLines(d, i, n); WordsAt(d, i, r.value) && |r.value| == n && r.next == i + WordsSize(r.value) <= |d|
  {
    hide Word, ReadInt, ReadInts, U32, I32;
    WordBack(d, i);
    FoursBack(d, i + 4, n);
  }

  lemma ReadTheCaptures(d: seq<u8>, i: nat, f: Func)
    requires WordsAt(d, i, f.captures) && FunctionReads(f)
    ensures ReadCaptures(d, i, f.paramCount, f.localCount) == Ok(f.captures, i + WordsSize(f.captures))
  {
    hide Word, ReadInt, ReadInts, ToI32s;
    var xs := f.captures;
    ReadWord(d, i, |xs|);
    ReadFours(d, i + 4, xs, Unsigned(xs));
    UnsignedBack(xs);
  }

  lemma CapturesBack(d: seq<u8>, i: nat, params: nat, locals: nat)
    requires params <= INT_MAX && locals <= INT_MAX && ReadCaptures(d, i, params, locals).Ok?
    ensures var r := ReadCaptures(d, i, params, locals);
      && WordsAt(d, i, r.value) && r.next == i + WordsSize(r.value) <= |d| && |r.value| <= locals
      && forall k :: 0 <= k < |r.value| ==> params <= r.value[k] < locals
  {
    hide Word, ReadInt, ReadInts;
    WordBack(d, i);
    FoursBack(d, i + 4, ReadInt(d, i, 4).value);
  }
}
