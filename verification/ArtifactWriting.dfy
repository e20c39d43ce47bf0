/** What src/artifact.c writes for an artifact, when the writer refuses, and which limits the reader adds. */
module ArtifactWriting {
  import opened Words
  import opened Parsing
  import opened ByteCodec
  import opened ArtifactFormat
  import opened Options

  const UINT32_MAX: nat := 0xFFFF_FFFF

  // ---------------------------------------------------------------------------------------------
  // What the C structures can hold
  // ---------------------------------------------------------------------------------------------

  /** A `char*`: null, or bytes without a zero among them. */
  predicate IsText(t: Text) { 0 !in Bytes(t) }

  /** The constructor goes with the type index. */
  predicate IsConst(c: Const) {
    match c
    case NumConst(t, _) => t == 0 || t == 4
    case DoubleConst(_) => true
    case TextConst(t, s) => (t == 2 || t == 3) && IsText(s)
    case OtherConst(t) => t < 0 || t > 4
  }

  predicate IsFunc(f: Func) {
    && IsText(f.name) && IsText(f.sourceFile)
    && |f.captures| <= INT_MAX
    && |f.debugNames| == (if f.localCount < 0 then 0 else f.localCount) && All(f.debugNames, IsText)
    && |f.lines| == |f.code| <= INT_MAX
    && |f.constants| <= INT_MAX && All(f.constants, IsConst)
  }

  predicate IsDependency(p: Dependency) { IsText(p.path) }

  predicate IsDispatch(p: Dispatch) {
    IsText(p.interfaceName) && IsText(p.recordName) && IsText(p.methodName) && IsText(p.functionName)
  }

  predicate IsArtifact(a: Artifact) {
    && |a.dependencies| <= INT_MAX && All(a.dependencies, IsDependency)
    && |a.dispatch| <= INT_MAX && All(a.dispatch, IsDispatch)
    && |a.functions| <= INT_MAX && All(a.functions, IsFunc)
    && (a.init.Some? ==> IsFunc(a.init.value))
  }

  // ---------------------------------------------------------------------------------------------
  // What the writer accepts
  // ---------------------------------------------------------------------------------------------

  predicate TextWritable(t: Text) { |Bytes(t)| <= UINT32_MAX }

  predicate ConstWritable(c: Const) {
    !c.OtherConst? && (c.TextConst? ==> TextWritable(c.text))
  }

  predicate FuncWritable(f: Func) {
    && TextWritable(f.name) && TextWritable(f.sourceFile)
    && f.paramCount >= 0 && f.localCount >= 0
    && |f.captures| <= f.localCount
    && (forall k :: 0 <= k < |f.captures| ==> f.paramCount <= f.captures[k] < f.localCount)
    && All(f.debugNames, TextWritable)
    && All(f.constants, ConstWritable)
  }

  predicate DependencyWritable(p: Dependency) { TextWritable(p.path) }

  predicate DispatchWritable(p: Dispatch) {
    && TextWritable(p.interfaceName) && TextWritable(p.recordName)
    && TextWritable(p.methodName) && TextWritable(p.functionName)
  }

  predicate Writable(a: Artifact) {
    && 0 <= a.mainIndex < |a.functions|
    && All(a.dependencies, DependencyWritable)
    && All(a.dispatch, DispatchWritable)
    && All(a.functions, FuncWritable)
    && (a.init.Some? ==> FuncWritable(a.init.value))
  }

  // ---------------------------------------------------------------------------------------------
  // What the reader accepts of it
  // ---------------------------------------------------------------------------------------------

  predicate TextFits(t: Text) { |Bytes(t)| <= MAX_STRING_BYTES }

  predicate ConstFits(c: Const) { c.TextConst? ==> TextFits(c.text) }

  predicate FuncFits(f: Func) {
    && TextFits(f.name) && TextFits(f.sourceFile)
    && All(f.debugNames, TextFits)
    && |f.code| <= MAX_COUNT
    && |f.constants| <= MAX_COUNT && All(f.constants, ConstFits)
  }

  predicate DependencyFits(p: Dependency) { TextFits(p.path) }

  predicate DispatchFits(p: Dispatch) {
    TextFits(p.interfaceName) && TextFits(p.recordName) && TextFits(p.methodName) && TextFits(p.functionName)
  }

  predicate Fits(a: Artifact) {
    && |a.dependencies| <= MAX_COUNT && All(a.dependencies, DependencyFits)
    && |a.dispatch| <= MAX_COUNT && All(a.dispatch, DispatchFits)
    && |a.functions| <= MAX_COUNT && All(a.functions, FuncFits)
    && (a.init.Some? ==> FuncFits(a.init.value))
  }

  // ---------------------------------------------------------------------------------------------
  // How it comes back: null and empty strings are not told apart
  // ---------------------------------------------------------------------------------------------

  function NoNull(t: Text): Text { Some(Bytes(t)) }

  function NoEmpty(t: Text): Text { if Bytes(t) == [] then None else t }

  function CleanConst(c: Const): Const {
    if c.TextConst? then TextConst(c.typeIndex, NoNull(c.text)) else c
  }

  function CleanFunc(f: Func): Func {
    f.(name := NoEmpty(f.name), sourceFile := NoEmpty(f.sourceFile),
       debugNames := Map(f.debugNames, NoEmpty), constants := Map(f.constants, CleanConst))
  }

  function CleanDependency(p: Dependency): Dependency { p.(path := NoNull(p.path)) }

  function CleanDispatch(p: Dispatch): Dispatch {
    Dispatch(NoNull(p.interfaceName), NoNull(p.recordName), NoNull(p.methodName), NoNull(p.functionName))
  }

  function CleanArtifact(a: Artifact): Artifact {
    Artifact(a.flags, Map(a.dependencies, CleanDependency), Map(a.dispatch, CleanDispatch), a.mainIndex,
             Map(a.functions, CleanFunc), if a.init.Some? then Some(CleanFunc(a.init.value)) else None)
  }

  // ---------------------------------------------------------------------------------------------
  // The bytes
  // ---------------------------------------------------------------------------------------------

  function EncText(t: Text): seq<u8> { WriteString(Bytes(t)) }

  function EncConst(c: Const): seq<u8> {
    match c
    case NumConst(t, x) => Le(U32(t), 4) + Le(U64(x), 8)
    case DoubleConst(x) => Le(1, 4) + Le(x, 8)
    case TextConst(t, s) => Le(U32(t), 4) + EncText(s)
    case OtherConst(t) => Le(U32(t), 4)
  }

  function U32s(xs: seq<i32>): (ys: seq<nat>)
    ensures |ys| == |xs| && forall k :: 0 <= k < |xs| ==> ys[k] == U32(xs[k])
  {
    if xs == [] then [] else [U32(xs[0])] + U32s(xs[1..])
  }

  function HeadInts(f: Func): seq<nat> {
    [if f.isAsync then 1 else 0, U32(f.deferHandlerIp), U32(f.deferReturnSlot), U32(f.paramCount), U32(f.localCount)]
  }

  function EncHead(f: Func): seq<u8> {
    EncText(f.name) + (EncText(f.sourceFile) + WriteInts(HeadInts(f), HeadWidths(VERSION)))
  }

  function EncWords(xs: seq<i32>): seq<u8> {
    Le(|xs|, 4) + WriteInts(U32s(xs), Fours(|xs|))
  }

  function EncCode(code: seq<u8>): seq<u8> { Le(|code|, 4) + code }

  function EncCounted<T>(xs: seq<T>, write: T -> seq<u8>): seq<u8> {
    Le(|xs|, 4) + WriteMany(xs, write)
  }

  function EncHint(h: Hint): seq<u8> { WriteInts(HintInts(h), HintWidths(VERSION)) }

  function EncProfile(p: Profile): seq<u8> {
    WriteInts(ProfileInts(p), ProfileWidths(VERSION)) + WriteInts(SummaryInts(p.summary), SummaryWidths())
  }

  /** artifact_write_function. */
  function EncFunction(f: Func): seq<u8> {
    EncHead(f) + (EncWords(f.captures) + (WriteMany(f.debugNames, EncText) + (EncCode(f.code) +
    (EncWords(f.lines) + (EncCounted(f.constants, EncConst) + (EncHint(f.hint) + EncProfile(f.profile)))))))
  }

  function EncDependency(p: Dependency): seq<u8> { EncText(p.path) + Le(U64(p.mtime), 8) }

  function EncDispatch(p: Dispatch): seq<u8> {
    EncText(p.interfaceName) + (EncText(p.recordName) + (EncText(p.methodName) + EncText(p.functionName)))
  }

  function EncInit(init: Option<Func>): seq<u8> {
    if init.Some? then EncFunction(init.value) else []
  }

  function EncBody(a: Artifact): seq<u8> {
    Le(a.flags, 4) + (EncCounted(a.dependencies, EncDependency) + (EncCounted(a.dispatch, EncDispatch) +
    (Le(|a.functions|, 4) + (Le(U32(a.mainIndex), 4) + (Le(if a.init.Some? then 1 else 0, 1) +
    (WriteMany(a.functions, EncFunction) + EncInit(a.init)))))))
  }

  /** artifact_write_file: the file, or none when the writer refuses. */
  function Save(a: Artifact): Option<seq<u8>> {
    if Writable(a) then Some(MAGIC + (Le(VERSION, 4) + EncBody(a))) else None
  }
}
