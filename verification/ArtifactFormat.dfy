/** The bytecode artifact of src/artifact.c: what is written (always version 16) and how versions 2 to 16 are read. */
module ArtifactFormat {
  import opened Words
  import opened Parsing
  import opened ByteCodec
  import opened Options
  import opened Sequences

  const VERSION: nat := 16
  const MIN_VERSION: nat := 2
  const MAX_COUNT: nat := 100000000
  const INT_MAX: nat := 0x7FFF_FFFF
  const MAGIC: seq<u8> := [0x54, 0x42, 0x4C, 0x43]

  // Conversions between signed values and the unsigned words that carry them.

  function U32(x: i32): u32 { if x < 0 then x as int + 0x1_0000_0000 else x }
  function I32(u: nat): (x: i32) requires u < Pow256(4)
  {
    Pow256Four();
    if u >= 0x8000_0000 then u - 0x1_0000_0000 else u
  }

  function U64(x: i64): u64 { if x < 0 then x as int + 0x1_0000_0000_0000_0000 else x }
  function I64(u: nat): (x: i64) requires u < Pow256(8)
  {
    Pow256Four();
    if u >= 0x8000_0000_0000_0000 then u - 0x1_0000_0000_0000_0000 else u
  }

  lemma SignedRoundTrip(x: i32, y: i64)
    ensures U32(x) < Pow256(4) && I32(U32(x)) == x
    ensures U64(y) < Pow256(8) && I64(U64(y)) == y
  {
    Pow256Four();
  }

  type Text = Option<seq<u8>>

  /** A null string is written like an empty one. */
  function Bytes(t: Text): seq<u8> {
    match t case None => [] case Some(s) => s
  }

  /** The C string that starts a zero-terminated buffer: what stands before the first zero byte. */
  function CString(s: seq<u8>): (r: seq<u8>)
    ensures 0 !in r && |r| <= |s|
    ensures 0 !in s ==> r == s
    ensures r == s[..|r|] && (|r| < |s| ==> s[|r|] == 0)
  {
    Before(s, 0)
  }

  /** Function names, source files and debug names come back null when they are empty C strings. */
  function NullIfEmpty(s: seq<u8>): Text {
    if CString(s) == [] then None else Some(CString(s))
  }

  datatype Const =
    | NumConst(typeIndex: i32, value: i64)
    | DoubleConst(bits: u64)
    | TextConst(typeIndex: i32, text: Text)
    | OtherConst(typeIndex: i32)

  datatype Hint = Hint(kind: i32, op: i32, flags: u8, slotA: u8, slotB: u8, const0: i64, const1: i64)

  datatype Summary = Summary(kind: i32, op: i32, slot0: u8, slot1: u8, const0: i64, const1: i64)

  datatype Profile = Profile(flags: u8, support: u8, family: u8, params: i32, locals: i32, captures: i32, summary: Summary)

  datatype Func = Func(
    name: Text,
    sourceFile: Text,
    isAsync: bool,
    deferHandlerIp: i32,
    deferReturnSlot: i32,
    paramCount: i32,
    localCount: i32,
    captures: seq<i32>,
    debugNames: seq<Text>,
    code: seq<u8>,
    lines: seq<i32>,
    constants: seq<Const>,
    hint: Hint,
    profile: Profile
  )

  datatype Dependency = Dependency(path: Text, mtime: i64)

  datatype Dispatch = Dispatch(interfaceName: Text, recordName: Text, methodName: Text, functionName: Text)

  datatype Artifact = Artifact(
    flags: u32,
    dependencies: seq<Dependency>,
    dispatch: seq<Dispatch>,
    mainIndex: i32,
    functions: seq<Func>,
    init: Option<Func>
  )

  // ---------------------------------------------------------------------------------------------
  // Fixed-size records
  // ---------------------------------------------------------------------------------------------

  /** Async flag, defer handler, defer slot, parameter count and local count, as far as the version has them. */
  function HeadWidths(v: nat): seq<nat> {
    if v >= 7 then [1, 4, 4, 4, 4] else if v == 6 then [1, 4, 4] else [4, 4]
  }

  function HintWidths(v: nat): seq<nat> {
    if v >= 13 then [4, 4, 1, 1, 1, 8, 8] else [4, 1, 1, 8, 8]
  }

  function SummaryWidths(): seq<nat> {
    [4, 4, 1, 1, 8, 8]
  }

  /** The part of the JIT profile in front of the summary. */
  function ProfileWidths(v: nat): seq<nat> {
    if v >= 16 then [1, 1, 1, 4, 4, 4] else if v == 15 then [1, 1, 4, 4, 4] else if v == 14 then [1, 4, 4, 4] else []
  }

  const NO_HINT := Hint(0, 0, 0, 0, 0, 0, 0)
  const NO_SUMMARY := Summary(0, 0, 0, 0, 0, 0)
  const NO_PROFILE := Profile(0, 0, 0, 0, 0, 0, NO_SUMMARY)

  function HintInts(h: Hint): seq<nat> {
    [U32(h.kind), U32(h.op), h.flags, h.slotA, h.slotB, U64(h.const0), U64(h.const1)]
  }

  function HintOf(v: nat, xs: seq<nat>): Hint
    requires Fit(xs, HintWidths(v))
  {
    Pow256Four();
    if v >= 13 then Hint(I32(xs[0]), I32(xs[1]), xs[2], xs[3], xs[4], I64(xs[5]), I64(xs[6]))
    else Hint(I32(xs[0]), 0, 0, xs[1], xs[2], I64(xs[3]), I64(xs[4]))
  }

  function SummaryInts(s: Summary): seq<nat> {
    [U32(s.kind), U32(s.op), s.slot0, s.slot1, U64(s.const0), U64(s.const1)]
  }

  function SummaryOf(xs: seq<nat>): Summary
    requires Fit(xs, SummaryWidths())
  {
    Pow256Four();
    Summary(I32(xs[0]), I32(xs[1]), xs[2], xs[3], I64(xs[4]), I64(xs[5]))
  }

  function ProfileInts(p: Profile): seq<nat> {
    [p.flags, p.support, p.family, U32(p.params), U32(p.locals), U32(p.captures)]
  }

  /** Masks that older versions do not store are derived from the function. */
  function DerivedFlags(isAsync: bool, captures: nat): u8 {
    (if isAsync then 1 else 0) + (if captures != 0 then 2 else 0)
  }

  function DerivedSupport(isAsync: bool, captures: nat, hintKind: i32, summaryKind: i32): u8 {
    (if !isAsync then 1 else 0) +
    (if summaryKind != 0 && hintKind != 0 && captures == 0 && !isAsync then 2 else 0)
  }

  function DerivedFamily(summaryKind: i32): u8 {
    if summaryKind in {1, 2, 3, 4} then 1
    else if summaryKind in {5, 6, 9} then 2
    else if summaryKind in {7, 8, 10, 11} then 4
    else 0
  }

  function ProfileOf(v: nat, xs: seq<nat>, s: Summary, isAsync: bool, params: i32, locals: i32, captures: i32, hintKind: i32): Profile
    requires Fit(xs, ProfileWidths(v)) && captures >= 0
  {
    Pow256Four();
    var support := DerivedSupport(isAsync, captures, hintKind, s.kind);
    var family := DerivedFamily(s.kind);
    if v >= 16 then Profile(xs[0], xs[1], xs[2], I32(xs[3]), I32(xs[4]), I32(xs[5]), s)
    else if v == 15 then Profile(xs[0], xs[1], family, I32(xs[2]), I32(xs[3]), I32(xs[4]), s)
    else if v == 14 then Profile(xs[0], support, family, I32(xs[1]), I32(xs[2]), I32(xs[3]), s)
    else Profile(DerivedFlags(isAsync, captures), support, family, params, locals, captures, s)
  }

  // ---------------------------------------------------------------------------------------------
  // Reading
  // ---------------------------------------------------------------------------------------------

  function Fours(n: nat): (ws: seq<nat>)
    ensures |ws| == n && forall k :: 0 <= k < n ==> ws[k] == 4
  {
    seq(n, _ => 4)
  }

  function ToI32s(xs: seq<nat>): (ys: seq<i32>)
    requires forall k :: 0 <= k < |xs| ==> xs[k] < Pow256(4)
    ensures |ys| == |xs| && forall k :: 0 <= k < |xs| ==> ys[k] == I32(xs[k])
  {
    if xs == [] then [] else [I32(xs[0])] + ToI32s(xs[1..])
  }

  function ReadCaptures(d: seq<u8>, i: nat, params: nat, locals: nat): (r: Parse<seq<i32>>)
    requires params <= INT_MAX && locals <= INT_MAX
    ensures r.Ok? ==> i <= r.next <= |d| && |r.value| <= locals
  {
    var (n, j) :- ReadInt(d, i, 4);
    if n > locals then Fail else
      var (xs, k) :- ReadInts(d, j, Fours(n));
      if forall c :: 0 <= c < |xs| ==> params <= xs[c] < locals then Ok(ToI32s(xs), k) else Fail
  }

  function ReadCode(d: seq<u8>, i: nat): (r: Parse<seq<u8>>)
    ensures r.Ok? ==> i <= r.next <= |d|
  {
    var (n, j) :- ReadInt(d, i, 4);
    if n > MAX_COUNT then Fail else ReadRaw(d, j, n)
  }

  function ReadLines(d: seq<u8>, i: nat, count: nat): (r: Parse<seq<i32>>)
    ensures r.Ok? ==> i <= r.next <= |d| && |r.value| == count
  {
    var (n, j) :- ReadInt(d, i, 4);
    if n != count then Fail else
      var (xs, k) :- ReadInts(d, j, Fours(n));
      Ok(ToI32s(xs), k)
  }

  function ReadConst(d: seq<u8>, i: nat): (r: Parse<Const>)
    ensures r.Ok? ==> i <= r.next <= |d|
  {
    var (t, j) :- ReadInt(d, i, 4);
    var typeIndex := I32(t);
    if typeIndex == 0 || typeIndex == 4 then
      var (x, k) :- ReadInt(d, j, 8);
      Ok(NumConst(typeIndex, I64(x)), k)
    else if typeIndex == 1 then
      var (x, k) :- ReadInt(d, j, 8);
      Pow256Four();
      Ok(DoubleConst(x), k)
    else if typeIndex == 2 || typeIndex == 3 then
      var (s, k) :- ReadString(d, j);
      Ok(TextConst(typeIndex, Some(CString(s))), k)
    else Fail
  }

  function NullEach(ss: seq<seq<u8>>): (ts: seq<Text>)
    ensures |ts| == |ss| && forall k :: 0 <= k < |ss| ==> ts[k] == NullIfEmpty(ss[k])
  {
    if ss == [] then [] else [NullIfEmpty(ss[0])] + NullEach(ss[1..])
  }

  /** Name, source file and the counts in front of the captures. */
  datatype Head = Head(name: Text, sourceFile: Text, isAsync: bool, handlerIp: i32, returnSlot: i32, params: nat, locals: nat)

  function HeadOf(v: nat, name: seq<u8>, source: seq<u8>, xs: seq<nat>): Head
    requires Fit(xs, HeadWidths(v))
  {
    var n := |xs|;
    Head(NullIfEmpty(name), NullIfEmpty(source), v >= 6 && xs[0] != 0,
         if v >= 7 then I32(xs[1]) else -1, if v >= 7 then I32(xs[2]) else -1, xs[n - 2], xs[n - 1])
  }

  function ReadHead(d: seq<u8>, i: nat, v: nat): (r: Parse<Head>)
    ensures r.Ok? ==> i <= r.next <= |d|
    ensures r.Ok? ==> r.value.params <= INT_MAX && r.value.locals <= INT_MAX
  {
    var (name, j) :- ReadString(d, i);
    var (source, k) :- if v >= 3 then ReadString(d, j) else Ok([], j);
    var (xs, l) :- ReadInts(d, k, HeadWidths(v));
    var h := HeadOf(v, name, source, xs);
    if h.params > INT_MAX || h.locals > INT_MAX then Fail else Ok(h, l)
  }

  function ReadNames(d: seq<u8>, i: nat, v: nat, locals: nat): (r: Parse<seq<Text>>) {
    if v < 8 then Ok(NullEach(seq(locals, _ => [])), i) else
      var (ss, j) :- ReadMany(d, i, locals, ReadString);
      Ok(NullEach(ss), j)
  }

  function ReadHint(d: seq<u8>, i: nat, v: nat): (r: Parse<Hint>)
    ensures r.Ok? && i <= |d| ==> i <= r.next <= |d|
  {
    if v < 9 then Ok(NO_HINT, i) else
      var (xs, j) :- ReadInts(d, i, HintWidths(v));
      Ok(HintOf(v, xs), j)
  }

  function ReadProfile(d: seq<u8>, i: nat, v: nat, h: Head, captures: i32, hintKind: i32): (r: Parse<Profile>)
    requires h.params <= INT_MAX && h.locals <= INT_MAX && captures >= 0
    ensures r.Ok? && i <= |d| ==> i <= r.next <= |d|
  {
    if v < 10 then Ok(NO_PROFILE, i) else
      var (xs, j) :- ReadInts(d, i, ProfileWidths(v));
      var (ys, k) :- ReadInts(d, j, SummaryWidths());
      Ok(ProfileOf(v, xs, SummaryOf(ys), h.isAsync, h.params, h.locals, captures, hintKind), k)
  }

  /** A count within the limit, then that many items. */
  function ReadCounted<T>(d: seq<u8>, i: nat, read: Reader<T>): (r: Parse<seq<T>>) {
    var (n, j) :- ReadInt(d, i, 4);
    if n > MAX_COUNT then Fail else ReadMany(d, j, n, read)
  }

  /** artifact_read_function. */
  function ReadFunction(d: seq<u8>, i: nat, v: nat): (r: Parse<Func>) {
    var (h, i1) :- ReadHead(d, i, v);
    var (captures, i2) :- if v >= 4 then ReadCaptures(d, i1, h.params, h.locals) else Ok([], i1);
    var (names, i3) :- ReadNames(d, i2, v, h.locals);
    var (code, i4) :- ReadCode(d, i3);
    var (lines, i5) :- ReadLines(d, i4, |code|);
    var (constants, i6) :- ReadCounted(d, i5, ReadConst);
    var (hint, i7) :- ReadHint(d, i6, v);
    var (profile, i8) :- ReadProfile(d, i7, v, h, |captures|, hint.kind);
    Ok(Func(h.name, h.sourceFile, h.isAsync, h.handlerIp, h.returnSlot, h.params, h.locals, captures, names,
            code, lines, constants, hint, profile), i8)
  }

  function ReadDependency(d: seq<u8>, i: nat): (r: Parse<Dependency>) {
    var (path, j) :- ReadString(d, i);
    var (mtime, k) :- ReadInt(d, j, 8);
    Ok(Dependency(Some(CString(path)), I64(mtime)), k)
  }

  function ReadDispatch(d: seq<u8>, i: nat): (r: Parse<Dispatch>) {
    var (a, i1) :- ReadString(d, i);
    var (b, i2) :- ReadString(d, i1);
    var (c, i3) :- ReadString(d, i2);
    var (e, i4) :- ReadString(d, i3);
    Ok(Dispatch(Some(CString(a)), Some(CString(b)), Some(CString(c)), Some(CString(e))), i4)
  }

  function FunctionReader(v: nat): Reader<Func> {
    (d: seq<u8>, i: nat) => ReadFunction(d, i, v)
  }

  /** The body after magic number and version. */
  function ReadBody(d: seq<u8>, i: nat, v: nat): (r: Parse<Artifact>) {
    var (flags, i1) :- ReadInt(d, i, 4);
    var (deps, i2) :- ReadCounted(d, i1, ReadDependency);
    var (dispatch, i3) :- if v >= 5 then ReadCounted(d, i2, ReadDispatch) else Ok([], i2);
    var (n, i4) :- ReadInt(d, i3, 4);
    if n == 0 || n > MAX_COUNT then Fail else
      var (main, i5) :- ReadInt(d, i4, 4);
      var (hasInit, i6) :- ReadInt(d, i5, 1);
      var mainIndex := I32(main);
      if mainIndex < 0 || mainIndex >= n then Fail else
        var (functions, i7) :- ReadMany(d, i6, n, FunctionReader(v));
        var (init, i8) :- ReadInit(d, i7, v, hasInit != 0);
        Pow256Four();
        Ok(Artifact(flags, deps, dispatch, mainIndex, functions, init), i8)
  }

  function ReadInit(d: seq<u8>, i: nat, v: nat, present: bool): (r: Parse<Option<Func>>) {
    if !present then Ok(None, i) else
      var (f, j) :- ReadFunction(d, i, v);
      Ok(Some(f), j)
  }

  function ReadArtifact(d: seq<u8>): (r: Parse<Artifact>) {
    var (magic, i) :- ReadRaw(d, 0, 4);
    if magic != MAGIC then Fail else
      var (v, j) :- ReadInt(d, i, 4);
      if v < MIN_VERSION || v > VERSION then Fail else ReadBody(d, j, v)
  }

  /** artifact_load_bytes_internal: the whole input must be consumed. */
  function Load(d: seq<u8>): Option<Artifact> {
    match ReadArtifact(d)
    case Fail => None
    case Ok(a, next) => if next == |d| then Some(a) else None
  }
}
