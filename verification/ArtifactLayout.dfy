/** Where every field of an artifact stands in its file, byte by byte, for the versions 2 to 16. This is written apart from
    the writer and the readers: a field is at an offset, and a number is its bytes, the least significant one first. */
module ArtifactLayout {
  import opened Words
  import opened Options
  import opened ArtifactFormat

  // ---------------------------------------------------------------------------------------------
  // Numbers and strings
  // ---------------------------------------------------------------------------------------------

  /** Four bytes; a negative number stands as its two's complement. */
  predicate Word(d: seq<u8>, i: nat, x: int) {
    && i + 4 <= |d|
    && d[i] == x % 256 && d[i + 1] == x / 0x100 % 256
    && d[i + 2] == x / 0x1_0000 % 256 && d[i + 3] == x / 0x100_0000 % 256
  }

  /** Eight bytes. */
  predicate Long(d: seq<u8>, i: nat, x: int) {
    Word(d, i, x) && Word(d, i + 4, x / 0x1_0000_0000)
  }

  predicate Tiny(d: seq<u8>, i: nat, x: u8) {
    i < |d| && d[i] == x
  }

  /** A truth value: zero and one as they are written, zero and anything else as they are read. */
  predicate Flag(d: seq<u8>, i: nat, b: bool, written: bool) {
    i < |d| && (d[i] != 0 <==> b) && (written ==> d[i] <= 1)
  }

  /** The bytes that stand for a string; a null pointer is stored like an empty string. */
  function Stored(t: Text): seq<u8> {
    match t case None => [] case Some(s) => s
  }

  /** Four bytes with the length, and the string. */
  predicate TextAt(d: seq<u8>, i: nat, t: Text) {
    var s := Stored(t);
    Word(d, i, |s|) && i + 4 + |s| <= |d| && d[i + 4..i + 4 + |s|] == s
  }

  function TextSize(t: Text): nat { 4 + |Stored(t)| }

  /** A count, and that many words. */
  predicate WordsAt(d: seq<u8>, i: nat, xs: seq<i32>) {
    Word(d, i, |xs|) && i + WordsSize(xs) <= |d| && forall k :: 0 <= k < |xs| ==> Word(d, i + 4 + 4 * k, xs[k])
  }

  function WordsSize(xs: seq<i32>): nat { 4 + 4 * |xs| }

  /** Items one after another. */
  predicate Row<T>(d: seq<u8>, i: nat, xs: seq<T>, at: (seq<u8>, nat, T) -> bool, size: T -> nat)
    decreases |xs|
  {
    if xs == [] then i <= |d| else at(d, i, xs[0]) && Row(d, i + size(xs[0]), xs[1..], at, size)
  }

  function RowSize<T>(xs: seq<T>, size: T -> nat): nat {
    if xs == [] then 0 else size(xs[0]) + RowSize(xs[1..], size)
  }

  // ---------------------------------------------------------------------------------------------
  // The parts of a function
  // ---------------------------------------------------------------------------------------------

  /** Integers and booleans have the types 0 and 4, doubles 1, strings 2 and 3. */
  predicate ConstantAt(d: seq<u8>, i: nat, c: Const) {
    match c
    case NumConst(t, x) => (t == 0 || t == 4) && Word(d, i, t) && Long(d, i + 4, x)
    case DoubleConst(bits) => Word(d, i, 1) && Long(d, i + 4, bits)
    case TextConst(t, s) => (t == 2 || t == 3) && Word(d, i, t) && TextAt(d, i + 4, s)
    case OtherConst(_) => false
  }

  function ConstantSize(c: Const): nat {
    if c.TextConst? then 4 + TextSize(c.text) else 12
  }

  /** Name, source file, async flag, defer handler and slot, parameter and local count. */
  predicate HeadAt(d: seq<u8>, i: nat, v: nat, f: Func, written: bool) {
    var source := i + TextSize(f.name);
    var flags := SourceEnd(i, v, f);
    var counts := i + HeadSize(v, f) - 8;
    && TextAt(d, i, f.name)
    && (v >= 3 ==> TextAt(d, source, f.sourceFile))
    && (v >= 6 ==> Flag(d, flags, f.isAsync, written))
    && (v >= 7 ==> Word(d, flags + 1, f.deferHandlerIp) && Word(d, flags + 5, f.deferReturnSlot))
    && Word(d, counts, f.paramCount) && Word(d, counts + 4, f.localCount)
  }

  function SourceEnd(i: nat, v: nat, f: Func): nat {
    i + TextSize(f.name) + if v >= 3 then TextSize(f.sourceFile) else 0
  }

  function HeadSize(v: nat, f: Func): (n: nat)
    ensures n >= 8
  {
    SourceEnd(0, v, f) + (if v >= 7 then 9 else if v == 6 then 1 else 0) + 8
  }

  function CapturesSize(v: nat, f: Func): nat { if v >= 4 then WordsSize(f.captures) else 0 }

  function NamesSize(v: nat, f: Func): nat { if v >= 8 then RowSize(f.debugNames, TextSize) else 0 }

  predicate CodeAt(d: seq<u8>, i: nat, code: seq<u8>) {
    Word(d, i, |code|) && i + 4 + |code| <= |d| && d[i + 4..i + 4 + |code|] == code
  }

  predicate ConstantsAt(d: seq<u8>, i: nat, cs: seq<Const>) {
    Word(d, i, |cs|) && Row(d, i + 4, cs, ConstantAt, ConstantSize)
  }

  function ConstantsSize(cs: seq<Const>): nat { 4 + RowSize(cs, ConstantSize) }

  /** The compilation hint; before version 13 it has neither operation nor flags. */
  predicate HintAt(d: seq<u8>, i: nat, v: nat, h: Hint) {
    && Word(d, i, h.kind)
    && (v >= 13 ==> Word(d, i + 4, h.op) && Tiny(d, i + 8, h.flags))
    && var k := if v >= 13 then i + 9 else i + 4;
       Tiny(d, k, h.slotA) && Tiny(d, k + 1, h.slotB) && Long(d, k + 2, h.const0) && Long(d, k + 10, h.const1)
  }

  function HintSize(v: nat): nat { if v >= 13 then 27 else if v >= 9 then 22 else 0 }

  /** The profile: masks and counts as far as the version has them, then the summary. */
  predicate ProfileAt(d: seq<u8>, i: nat, v: nat, p: Profile) {
    && (v >= 14 ==> Tiny(d, i, p.flags))
    && (v >= 15 ==> Tiny(d, i + 1, p.support))
    && (v >= 16 ==> Tiny(d, i + 2, p.family))
    && (v >= 14 ==> CountsAt(d, if v >= 16 then i + 3 else if v == 15 then i + 2 else i + 1, p))
    && SummaryAt(d, i + ProfileSize(v) - 26, p.summary)
  }

  predicate CountsAt(d: seq<u8>, i: nat, p: Profile) {
    Word(d, i, p.params) && Word(d, i + 4, p.locals) && Word(d, i + 8, p.captures)
  }

  predicate SummaryAt(d: seq<u8>, i: nat, s: Summary) {
    && Word(d, i, s.kind) && Word(d, i + 4, s.op) && Tiny(d, i + 8, s.slot0) && Tiny(d, i + 9, s.slot1)
    && Long(d, i + 10, s.const0) && Long(d, i + 18, s.const1)
  }

  function ProfileSize(v: nat): (n: nat)
    ensures n >= 26
  {
    26 + if v >= 16 then 15 else if v == 15 then 14 else if v == 14 then 13 else 0
  }

  // ---------------------------------------------------------------------------------------------
  // Functions
  // ---------------------------------------------------------------------------------------------

  // The offsets of the parts of a function that starts at i.

  function CapturesOffset(i: nat, v: nat, f: Func): nat { i + HeadSize(v, f) }
  function NamesOffset(i: nat, v: nat, f: Func): nat { CapturesOffset(i, v, f) + CapturesSize(v, f) }
  function CodeOffset(i: nat, v: nat, f: Func): nat { NamesOffset(i, v, f) + NamesSize(v, f) }
  function LinesOffset(i: nat, v: nat, f: Func): nat { CodeOffset(i, v, f) + 4 + |f.code| }
  function ConstantsOffset(i: nat, v: nat, f: Func): nat { LinesOffset(i, v, f) + WordsSize(f.lines) }
  function HintOffset(i: nat, v: nat, f: Func): nat { ConstantsOffset(i, v, f) + ConstantsSize(f.constants) }
  function ProfileOffset(i: nat, v: nat, f: Func): nat { HintOffset(i, v, f) + HintSize(v) }
  function FunctionEnd(i: nat, v: nat, f: Func): nat { ProfileOffset(i, v, f) + if v >= 10 then ProfileSize(v) else 0 }

  predicate FunctionAt(d: seq<u8>, i: nat, v: nat, f: Func, written: bool) {
    && HeadAt(d, i, v, f, written)
    && (v >= 4 ==> WordsAt(d, CapturesOffset(i, v, f), f.captures))
    && (v >= 8 ==> Row(d, NamesOffset(i, v, f), f.debugNames, TextAt, TextSize))
    && CodeAt(d, CodeOffset(i, v, f), f.code)
    && WordsAt(d, LinesOffset(i, v, f), f.lines)
    && ConstantsAt(d, ConstantsOffset(i, v, f), f.constants)
    && (v >= 9 ==> HintAt(d, HintOffset(i, v, f), v, f.hint))
    && (v >= 10 ==> ProfileAt(d, ProfileOffset(i, v, f), v, f.profile))
  }

  function FunctionSize(v: nat, f: Func): nat { FunctionEnd(0, v, f) }

  /** What a function of an older version is in the fields that the file does not hold. */
  predicate Supplied(v: nat, f: Func) {
    && (v < 3 ==> f.sourceFile == None)
    && (v < 4 ==> f.captures == [])
    && (v < 6 ==> !f.isAsync)
    && (v < 7 ==> f.deferHandlerIp == -1 && f.deferReturnSlot == -1)
    && (v < 8 ==> forall k :: 0 <= k < |f.debugNames| ==> f.debugNames[k] == None)
    && (v < 9 ==> f.hint == Hint(0, 0, 0, 0, 0, 0, 0))
    && (v < 13 ==> f.hint.op == 0 && f.hint.flags == 0)
    && (v < 10 ==> f.profile == Profile(0, 0, 0, 0, 0, 0, Summary(0, 0, 0, 0, 0, 0)))
    && (10 <= v < 14 ==> SuppliedCounts(f))
    && (10 <= v < 15 ==> SuppliedSupport(f))
    && (10 <= v < 16 ==> SuppliedFamily(f.profile))
  }

  /** Bit 0 for async, bit 1 for captures; the counts are those of the function. */
  predicate SuppliedCounts(f: Func) {
    && f.profile.flags == (if f.isAsync then 1 else 0) + (if |f.captures| > 0 then 2 else 0)
    && f.profile.params == f.paramCount && f.profile.locals == f.localCount && f.profile.captures == |f.captures|
  }

  /** Bit 0 unless async; bit 1 also needs a summary, a hint and no captures. */
  predicate SuppliedSupport(f: Func) {
    f.profile.support == if f.isAsync then 0
      else if f.profile.summary.kind != 0 && f.hint.kind != 0 && |f.captures| == 0 then 3 else 1
  }

  /** Arithmetic summaries are 1 to 4, comparisons 5, 6 and 9, selectors 7, 8, 10 and 11. */
  predicate SuppliedFamily(p: Profile) {
    var k := p.summary.kind;
    p.family == if 1 <= k <= 4 then 1 else if k == 5 || k == 6 || k == 9 then 2 else if 7 <= k <= 11 then 4 else 0
  }

  // ---------------------------------------------------------------------------------------------
  // Artifacts
  // ---------------------------------------------------------------------------------------------

  predicate DependencyAt(d: seq<u8>, i: nat, p: Dependency) {
    TextAt(d, i, p.path) && Long(d, i + TextSize(p.path), p.mtime)
  }

  function DependencySize(p: Dependency): nat { TextSize(p.path) + 8 }

  predicate DispatchAt(d: seq<u8>, i: nat, p: Dispatch) {
    && TextAt(d, i, p.interfaceName)
    && TextAt(d, i + TextSize(p.interfaceName), p.recordName)
    && TextAt(d, i + TextSize(p.interfaceName) + TextSize(p.recordName), p.methodName)
    && TextAt(d, i + TextSize(p.interfaceName) + TextSize(p.recordName) + TextSize(p.methodName), p.functionName)
  }

  function DispatchSize(p: Dispatch): nat {
    TextSize(p.interfaceName) + TextSize(p.recordName) + TextSize(p.methodName) + TextSize(p.functionName)
  }

  predicate DispatchesAt(d: seq<u8>, i: nat, ps: seq<Dispatch>) {
    Word(d, i, |ps|) && Row(d, i + 4, ps, DispatchAt, DispatchSize)
  }

  function FunctionPlacer(v: nat, written: bool): (seq<u8>, nat, Func) -> bool {
    (d: seq<u8>, i: nat, f: Func) => FunctionAt(d, i, v, f, written)
  }

  function FunctionSizer(v: nat): Func -> nat {
    (f: Func) => FunctionSize(v, f)
  }

  function DispatchOffset(a: Artifact): nat { 16 + RowSize(a.dependencies, DependencySize) }

  function TableOffset(v: nat, a: Artifact): nat {
    DispatchOffset(a) + if v >= 5 then 4 + RowSize(a.dispatch, DispatchSize) else 0
  }

  function InitOffset(v: nat, a: Artifact): nat { TableOffset(v, a) + 9 + RowSize(a.functions, FunctionSizer(v)) }

  function FileSize(v: nat, a: Artifact): nat {
    InitOffset(v, a) + if a.init.Some? then FunctionSize(v, a.init.value) else 0
  }

  /** The whole file: the letters TBLC, the version, the flags, dependencies, dispatch entries, function count, index of the
      main function, whether there is an initialiser, the functions, the initialiser, and nothing more. */
  predicate FileIs(d: seq<u8>, v: nat, a: Artifact, written: bool) {
    && |d| == FileSize(v, a)
    && Tiny(d, 0, 'T' as int) && Tiny(d, 1, 'B' as int) && Tiny(d, 2, 'L' as int) && Tiny(d, 3, 'C' as int)
    && Word(d, 4, v) && Word(d, 8, a.flags)
    && Word(d, 12, |a.dependencies|) && Row(d, 16, a.dependencies, DependencyAt, DependencySize)
    && (v >= 5 ==> DispatchesAt(d, DispatchOffset(a), a.dispatch))
    && Word(d, TableOffset(v, a), |a.functions|)
    && Word(d, TableOffset(v, a) + 4, a.mainIndex)
    && Flag(d, TableOffset(v, a) + 8, a.init.Some?, written)
    && Row(d, TableOffset(v, a) + 9, a.functions, FunctionPlacer(v, written), FunctionSizer(v))
    && (a.init.Some? ==> FunctionAt(d, InitOffset(v, a), v, a.init.value, written))
  }
}
