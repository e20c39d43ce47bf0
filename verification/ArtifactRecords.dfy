/** The fixed-size records of a function and the layout: each is read exactly when its fields stand where the version puts them. */
module ArtifactRecords {
  import opened Words
  import opened Parsing
  import opened ByteCodec
  import opened Options
  import opened ArtifactFormat
  import opened ArtifactLayout
  import opened ArtifactPlacing
  import opened ArtifactReading

  // ---------------------------------------------------------------------------------------------
  // Fixed-size records
  // ---------------------------------------------------------------------------------------------

  function HintFields(v: nat, h: Hint): seq<nat> {
    if v >= 13 then HintInts(h) else [U32(h.kind), h.slotA, h.slotB, U64(h.const0), U64(h.const1)]
  }

  lemma HintExact(d: seq<u8>, i: nat, v: nat, h: Hint)
    requires v >= 9 && i <= |d|
    ensures HintAt(d, i, v, h) <==> ReadInts(d, i, HintWidths(v)) == Ok(HintFields(v, h), i + HintSize(v))
  {
    if v >= 13 { LongHint(d, i, v, h); } else { ShortHint(d, i, v, h); }
  }

  lemma LongHint(d: seq<u8>, i: nat, v: nat, h: Hint)
    requires v >= 13 && i <= |d|
    ensures HintAt(d, i, v, h) <==> ReadInts(d, i, HintWidths(v)) == Ok(HintFields(v, h), i + HintSize(v))
  {
    hide Word, Long, Tiny, ReadInt, ReadInts, Offset, U32, U64;
    var ws, xs := HintWidths(v), HintFields(v, h);
    Offset7(ws);
    RecordExact(d, i, xs, ws);
    Seven(d, i, xs, ws);
    WordExact(d, i, h.kind);
    WordExact(d, i + 4, h.op);
    TinyExact(d, i + 8, h.flags);
    TinyExact(d, i + 9, h.slotA);
    TinyExact(d, i + 10, h.slotB);
    LongExact(d, i + 11, h.const0);
    LongExact(d, i + 19, h.const1);
  }

  lemma ShortHint(d: seq<u8>, i: nat, v: nat, h: Hint)
    requires 9 <= v < 13 && i <= |d|
    ensures HintAt(d, i, v, h) <==> ReadInts(d, i, HintWidths(v)) == Ok(HintFields(v, h), i + HintSize(v))
  {
    hide Word, Long, Tiny, ReadInt, ReadInts, Offset, U32, U64;
    var ws, xs := HintWidths(v), HintFields(v, h);
    Offset7(ws);
    RecordExact(d, i, xs, ws);
    Seven(d, i, xs, ws);
    WordExact(d, i, h.kind);
    TinyExact(d, i + 4, h.slotA);
    TinyExact(d, i + 5, h.slotB);
    LongExact(d, i + 6, h.const0);
    LongExact(d, i + 14, h.const1);
  }

  /** The fields of a record of at most seven, one by one. */
  lemma Seven(d: seq<u8>, i: nat, xs: seq<nat>, ws: seq<nat>)
    requires |xs| == |ws| <= 7
    ensures (forall k :: 0 <= k < |ws| ==> FieldReads(d, i, ws, k, xs[k])) <==>
      && (|ws| > 0 ==> FieldReads(d, i, ws, 0, xs[0])) && (|ws| > 1 ==> FieldReads(d, i, ws, 1, xs[1]))
      && (|ws| > 2 ==> FieldReads(d, i, ws, 2, xs[2])) && (|ws| > 3 ==> FieldReads(d, i, ws, 3, xs[3]))
      && (|ws| > 4 ==> FieldReads(d, i, ws, 4, xs[4])) && (|ws| > 5 ==> FieldReads(d, i, ws, 5, xs[5]))
      && (|ws| > 6 ==> FieldReads(d, i, ws, 6, xs[6]))
  {
    hide FieldReads;
  }

  lemma HintBack(v: nat, h: Hint, xs: seq<nat>)
    ensures Fit(HintFields(v, h), HintWidths(v))
    ensures v >= 13 || (h.op == 0 && h.flags == 0) ==> HintOf(v, HintFields(v, h)) == h
    ensures Fit(xs, HintWidths(v)) ==> HintFields(v, HintOf(v, xs)) == xs
    ensures Fit(xs, HintWidths(v)) && v < 13 ==> HintOf(v, xs).op == 0 && HintOf(v, xs).flags == 0
  {
    Pow256Four();
  }

  lemma ReadTheHint(d: seq<u8>, i: nat, v: nat, h: Hint)
    requires v >= 9 && HintAt(d, i, v, h) && (v < 13 ==> h.op == 0 && h.flags == 0)
    ensures ReadHint(d, i, v) == Ok(h, i + HintSize(v))
  {
    hide HintOf, HintFields, ReadInts;
    HintExact(d, i, v, h);
    HintBack(v, h, []);
  }

  lemma HintStands(d: seq<u8>, i: nat, v: nat)
    requires v >= 9 && i <= |d| && ReadHint(d, i, v).Ok?
    ensures var r := ReadHint(d, i, v);
      HintAt(d, i, v, r.value) && r.next == i + HintSize(v) <= |d| && (v < 13 ==> r.value.op == 0 && r.value.flags == 0)
  {
    hide HintOf, HintFields, ReadInts, HintAt, Offset, FieldReads;
    var xs := ReadInts(d, i, HintWidths(v)).value;
    RecordBack(d, i, HintWidths(v));
    Offset7(HintWidths(v));
    HintBack(v, ReadHint(d, i, v).value, xs);
    HintExact(d, i, v, ReadHint(d, i, v).value);
  }

  lemma SummaryExact(d: seq<u8>, i: nat, s: Summary)
    requires i <= |d|
    ensures SummaryAt(d, i, s) <==> ReadInts(d, i, SummaryWidths()) == Ok(SummaryInts(s), i + 26)
  {
    hide Word, Long, Tiny, ReadInt, ReadInts, Offset, U32, U64;
    var ws, xs := SummaryWidths(), SummaryInts(s);
    Offset7(ws);
    RecordExact(d, i, xs, ws);
    Seven(d, i, xs, ws);
    WordExact(d, i, s.kind);
    WordExact(d, i + 4, s.op);
    TinyExact(d, i + 8, s.slot0);
    TinyExact(d, i + 9, s.slot1);
    LongExact(d, i + 10, s.const0);
    LongExact(d, i + 18, s.const1);
  }

  lemma SummaryBack(s: Summary, xs: seq<nat>)
    ensures Fit(SummaryInts(s), SummaryWidths()) && SummaryOf(SummaryInts(s)) == s
    ensures Fit(xs, SummaryWidths()) ==> SummaryInts(SummaryOf(xs)) == xs
  {
    Pow256Four();
  }

  /** What stands in front of the summary. */
  predicate MasksAt(d: seq<u8>, i: nat, v: nat, p: Profile) {
    && (v >= 14 ==> Tiny(d, i, p.flags))
    && (v >= 15 ==> Tiny(d, i + 1, p.support))
    && (v >= 16 ==> Tiny(d, i + 2, p.family))
    && (v >= 14 ==> CountsAt(d, if v >= 16 then i + 3 else if v == 15 then i + 2 else i + 1, p))
  }

  function MaskFields(v: nat, p: Profile): seq<nat> {
    if v >= 16 then ProfileInts(p)
    else if v == 15 then [p.flags, p.support, U32(p.params), U32(p.locals), U32(p.captures)]
    else if v == 14 then [p.flags, U32(p.params), U32(p.locals), U32(p.captures)]
    else []
  }

  lemma MasksExact(d: seq<u8>, i: nat, v: nat, p: Profile)
    requires i <= |d|
    ensures MasksAt(d, i, v, p) <==> ReadInts(d, i, ProfileWidths(v)) == Ok(MaskFields(v, p), i + ProfileSize(v) - 26)
  {
    if v >= 16 {
      ThreeMasks(d, i, v, p);
    } else if v == 15 {
      TwoMasks(d, i, v, p);
    } else if v == 14 {
      OneMask(d, i, v, p);
    }
  }

  lemma ThreeMasks(d: seq<u8>, i: nat, v: nat, p: Profile)
    requires i <= |d| && v >= 16
    ensures MasksAt(d, i, v, p) <==> ReadInts(d, i, ProfileWidths(v)) == Ok(MaskFields(v, p), i + ProfileSize(v) - 26)
  {
    hide Word, Tiny, ReadInt, ReadInts, Offset, U32, CountsAt;
    var ws, xs := ProfileWidths(v), MaskFields(v, p);
    Offset7(ws);
    RecordExact(d, i, xs, ws);
    Seven(d, i, xs, ws);
    TinyExact(d, i, p.flags);
    TinyExact(d, i + 1, p.support);
    TinyExact(d, i + 2, p.family);
    CountsExact(d, i + 3, p);
  }

  lemma TwoMasks(d: seq<u8>, i: nat, v: nat, p: Profile)
    requires i <= |d| && v == 15
    ensures MasksAt(d, i, v, p) <==> ReadInts(d, i, ProfileWidths(v)) == Ok(MaskFields(v, p), i + ProfileSize(v) - 26)
  {
    hide Word, Tiny, ReadInt, ReadInts, Offset, U32, CountsAt;
    var ws, xs := ProfileWidths(v), MaskFields(v, p);
    Offset7(ws);
    RecordExact(d, i, xs, ws);
    Seven(d, i, xs, ws);
    TinyExact(d, i, p.flags);
    TinyExact(d, i + 1, p.support);
    CountsExact(d, i + 2, p);
  }

  lemma OneMask(d: seq<u8>, i: nat, v: nat, p: Profile)
    requires i <= |d| && v == 14
    ensures MasksAt(d, i, v, p) <==> ReadInts(d, i, ProfileWidths(v)) == Ok(MaskFields(v, p), i + ProfileSize(v) - 26)
  {
    hide Word, Tiny, ReadInt, ReadInts, Offset, U32, CountsAt;
    var ws, xs := ProfileWidths(v), MaskFields(v, p);
    Offset7(ws);
    RecordExact(d, i, xs, ws);
    Seven(d, i, xs, ws);
    TinyExact(d, i, p.flags);
    CountsExact(d, i + 1, p);
  }

  lemma CountsExact(d: seq<u8>, i: nat, p: Profile)
    ensures CountsAt(d, i, p) <==>
      ReadInt(d, i, 4) == Ok(U32(p.params), i + 4) && ReadInt(d, i + 4, 4) == Ok(U32(p.locals), i + 8)
      && ReadInt(d, i + 8, 4) == Ok(U32(p.captures), i + 12)
  {
    hide Word, ReadInt, U32;
    WordExact(d, i, p.params);
    WordExact(d, i + 4, p.locals);
    WordExact(d, i + 8, p.captures);
  }

  /** What an older version leaves out is what the reader derives. */
  predicate SuppliedProfile(v: nat, f: Func) {
    && (v < 14 ==> SuppliedCounts(f))
    && (v < 15 ==> SuppliedSupport(f))
    && (v < 16 ==> SuppliedFamily(f.profile))
  }

  function ProfileFrom(v: nat, xs: seq<nat>, s: Summary, f: Func): Profile
    requires Fit(xs, ProfileWidths(v)) && |f.captures| <= INT_MAX
  {
    ProfileOf(v, xs, s, f.isAsync, f.paramCount, f.localCount, |f.captures|, f.hint.kind)
  }

  lemma ProfileDerived(v: nat, f: Func)
    requires |f.captures| <= INT_MAX && SuppliedProfile(v, f)
    ensures Fit(MaskFields(v, f.profile), ProfileWidths(v)) && ProfileFrom(v, MaskFields(v, f.profile), f.profile.summary, f) == f.profile
  {
    Pow256Four();
  }

  lemma ProfileBack(v: nat, f: Func, xs: seq<nat>, s: Summary)
    requires |f.captures| <= INT_MAX && Fit(xs, ProfileWidths(v)) && f.profile == ProfileFrom(v, xs, s, f)
    ensures MaskFields(v, f.profile) == xs && f.profile.summary == s && SuppliedProfile(v, f)
  {
    Pow256Four();
  }

  /** What the head of a function reads as. */
  function HeadFor(f: Func): Head
    requires f.paramCount >= 0 && f.localCount >= 0
  {
    Head(CutName(f.name), CutName(f.sourceFile), f.isAsync, f.deferHandlerIp, f.deferReturnSlot, f.paramCount, f.localCount)
  }

  lemma ReadTheProfile(d: seq<u8>, i: nat, v: nat, f: Func)
    requires v >= 10 && i <= |d| && ProfileAt(d, i, v, f.profile) && SuppliedProfile(v, f) && FunctionReads(f)
    ensures ReadProfile(d, i, v, HeadFor(f), |f.captures|, f.hint.kind) == Ok(f.profile, i + ProfileSize(v))
  {
    hide MasksAt, ReadInts, SummaryAt, SuppliedProfile, MaskFields, SummaryInts, ProfileOf, SummaryOf, ProfileAt,
         CutName, ProfileWidths, SummaryWidths;
    var p := f.profile;
    MasksSplit(d, i, v, p);
    MasksExact(d, i, v, p);
    SummaryExact(d, i + ProfileSize(v) - 26, p.summary);
    SummaryBack(p.summary, []);
    ProfileDerived(v, f);
  }

  lemma MasksSplit(d: seq<u8>, i: nat, v: nat, p: Profile)
    requires ProfileAt(d, i, v, p)
    ensures MasksAt(d, i, v, p) && SummaryAt(d, i + ProfileSize(v) - 26, p.summary) && i + ProfileSize(v) <= |d|
  {
  }

  lemma ProfileUnfold(d: seq<u8>, i: nat, v: nat, f: Func)
    requires v >= 10 && f.paramCount >= 0 && f.localCount >= 0 && |f.captures| <= INT_MAX
    requires ReadProfile(d, i, v, HeadFor(f), |f.captures|, f.hint.kind).Ok?
    ensures ReadInts(d, i, ProfileWidths(v)).Ok?
    ensures var first := ReadInts(d, i, ProfileWidths(v)); var second := ReadInts(d, first.next, SummaryWidths());
      && second.Ok?
      && ReadProfile(d, i, v, HeadFor(f), |f.captures|, f.hint.kind)
         == Ok(ProfileFrom(v, first.value, SummaryOf(second.value), f), second.next)
  {
    hide ReadInts, ProfileOf, SummaryOf, CutName, ProfileWidths, SummaryWidths;
  }

  lemma ProfileStands(d: seq<u8>, i: nat, v: nat, f: Func)
    requires v >= 10 && i <= |d| && f.paramCount >= 0 && f.localCount >= 0 && |f.captures| <= INT_MAX
    requires ReadProfile(d, i, v, HeadFor(f), |f.captures|, f.hint.kind).Ok?
    requires f.profile == ReadProfile(d, i, v, HeadFor(f), |f.captures|, f.hint.kind).value
    ensures ProfileAt(d, i, v, f.profile) && SuppliedProfile(v, f)
    ensures ReadProfile(d, i, v, HeadFor(f), |f.captures|, f.hint.kind).next == i + ProfileSize(v) <= |d|
  {
    hide ReadInts, SummaryAt, SuppliedProfile, MaskFields, SummaryInts, SummaryOf, MasksAt, ProfileAt, ReadProfile,
         HeadFor, ProfileFrom, ProfileWidths, SummaryWidths;
    ProfileUnfold(d, i, v, f);
    var first := ReadInts(d, i, ProfileWidths(v));
    var second := ReadInts(d, first.next, SummaryWidths());
    var s := SummaryOf(second.value);
    MasksNext(d, i, v);
    SummaryNext(d, first.next);
    ProfileBack(v, f, first.value, s);
    MasksExact(d, i, v, f.profile);
    SummaryBack(s, second.value);
    SummaryExact(d, first.next, s);
    MasksPlace(d, i, v, f.profile);
  }

  lemma MasksPlace(d: seq<u8>, i: nat, v: nat, p: Profile)
    requires MasksAt(d, i, v, p) && SummaryAt(d, i + ProfileSize(v) - 26, p.summary)
    ensures ProfileAt(d, i, v, p)
  {
  }

  lemma MasksNext(d: seq<u8>, i: nat, v: nat)
    requires ReadInts(d, i, ProfileWidths(v)).Ok?
    ensures ReadInts(d, i, ProfileWidths(v)).next == i + ProfileSize(v) - 26
  {
    hide FieldReads, Offset, ReadInts;
    RecordBack(d, i, ProfileWidths(v));
    NoOffset(ProfileWidths(v));
    if v >= 14 { Offset7(ProfileWidths(v)); }
  }

  lemma SummaryNext(d: seq<u8>, i: nat)
    requires ReadInts(d, i, SummaryWidths()).Ok?
    ensures ReadInts(d, i, SummaryWidths()).next == i + 26 <= |d|
  {
    hide FieldReads, Offset, ReadInts;
    RecordBack(d, i, SummaryWidths());
    Offset7(SummaryWidths());
  }

  // ---------------------------------------------------------------------------------------------
  // The head of a function
  // ---------------------------------------------------------------------------------------------

  /** The numbers after the strings; flag is the byte of the async flag. */
  predicate TailAt(d: seq<u8>, j: nat, v: nat, f: Func, flag: u8) {
    var counts := j + TailSize(v) - 8;
    && (v >= 6 ==> Tiny(d, j, flag))
    && (v >= 7 ==> Word(d, j + 1, f.deferHandlerIp) && Word(d, j + 5, f.deferReturnSlot))
    && Word(d, counts, f.paramCount) && Word(d, counts + 4, f.localCount)
  }

  function TailSize(v: nat): (n: nat)
    ensures n >= 8
  {
    if v >= 7 then 17 else if v == 6 then 9 else 8
  }

  function TailFields(v: nat, f: Func, flag: u8): seq<nat> {
    if v >= 7 then [flag, U32(f.deferHandlerIp), U32(f.deferReturnSlot), U32(f.paramCount), U32(f.localCount)]
    else if v == 6 then [flag, U32(f.paramCount), U32(f.localCount)]
    else [U32(f.paramCount), U32(f.localCount)]
  }

  lemma TailExact(d: seq<u8>, j: nat, v: nat, f: Func, flag: u8)
    requires j <= |d|
    ensures TailAt(d, j, v, f, flag) <==> ReadInts(d, j, HeadWidths(v)) == Ok(TailFields(v, f, flag), j + TailSize(v))
  {
    hide Word, Tiny, ReadInt, ReadInts, Offset, U32;
    var ws, xs := HeadWidths(v), TailFields(v, f, flag);
    Offset7(ws);
    RecordExact(d, j, xs, ws);
    Seven(d, j, xs, ws);
    if v >= 7 {
      TinyExact(d, j, flag);
      WordExact(d, j + 1, f.deferHandlerIp);
      WordExact(d, j + 5, f.deferReturnSlot);
      WordExact(d, j + 9, f.paramCount);
      WordExact(d, j + 13, f.localCount);
    } else if v == 6 {
      TinyExact(d, j, flag);
      WordExact(d, j + 1, f.paramCount);
      WordExact(d, j + 5, f.localCount);
    } else {
      WordExact(d, j, f.paramCount);
      WordExact(d, j + 4, f.localCount);
    }
  }

  lemma TailNext(d: seq<u8>, j: nat, v: nat)
    requires ReadInts(d, j, HeadWidths(v)).Ok?
    ensures ReadInts(d, j, HeadWidths(v)).next == j + TailSize(v) <= |d|
  {
    hide FieldReads, Offset, ReadInts;
    RecordBack(d, j, HeadWidths(v));
    Offset7(HeadWidths(v));
  }

  /** What the numbers of a head say. */
  predicate TailSays(v: nat, f: Func, flag: u8) {
    && (v >= 6 ==> (f.isAsync <==> flag != 0)) && (v < 6 ==> !f.isAsync)
    && (v < 7 ==> f.deferHandlerIp == -1 && f.deferReturnSlot == -1)
  }

  lemma TailForward(v: nat, f: Func, flag: u8, name: seq<u8>, source: seq<u8>)
    requires f.paramCount >= 0 && f.localCount >= 0 && TailSays(v, f, flag)
    requires CutName(f.name) == NullIfEmpty(name) && CutName(f.sourceFile) == NullIfEmpty(source)
    ensures Fit(TailFields(v, f, flag), HeadWidths(v)) && HeadOf(v, name, source, TailFields(v, f, flag)) == HeadFor(f)
  {
    hide CutName, NullIfEmpty;
    Pow256Four();
  }

  lemma TailBack(v: nat, f: Func, name: seq<u8>, source: seq<u8>, xs: seq<nat>) returns (flag: u8)
    requires f.paramCount >= 0 && f.localCount >= 0 && Fit(xs, HeadWidths(v)) && HeadOf(v, name, source, xs) == HeadFor(f)
    ensures TailSays(v, f, flag) && TailFields(v, f, flag) == xs
  {
    hide CutName, NullIfEmpty;
    Pow256Four();
    flag := if v >= 6 then xs[0] else 0;
  }

  lemma HeadParts(d: seq<u8>, i: nat, v: nat, f: Func)
    requires HeadAt(d, i, v, f, false) && Supplied(v, f)
    ensures SourceEnd(i, v, f) + TailSize(v) == i + HeadSize(v, f)
    ensures var j := SourceEnd(i, v, f); var flag := if v >= 6 && j < |d| then d[j] else 0;
      TailSays(v, f, flag) && TailAt(d, j, v, f, flag)
  {
    hide Word, TextAt;
  }

  lemma HeadJoin(d: seq<u8>, i: nat, v: nat, f: Func, flag: u8)
    requires TextAt(d, i, f.name) && (v >= 3 ==> TextAt(d, i + TextSize(f.name), f.sourceFile))
    requires TailAt(d, SourceEnd(i, v, f), v, f, flag) && TailSays(v, f, flag)
    ensures HeadAt(d, i, v, f, false) && SourceEnd(i, v, f) + TailSize(v) == i + HeadSize(v, f)
  {
    hide Word, TextAt;
  }

  lemma ReadTheHead(d: seq<u8>, i: nat, v: nat, f: Func)
    requires HeadAt(d, i, v, f, false) && FunctionReads(f) && Supplied(v, f)
    ensures ReadHead(d, i, v) == Ok(HeadFor(f), i + HeadSize(v, f))
  {
    hide HeadAt, ReadString, ReadInts, TailAt, HeadOf, TailFields, TailSays, FunctionReads, Supplied, HeadWidths,
         CutName, NullIfEmpty, HeadSize;
    HeadParts(d, i, v, f);
    HeadTexts(d, i, v, f);
    var j := SourceEnd(i, v, f);
    var flag: u8 := if v >= 6 && j < |d| then d[j] else 0;
    TailInside(d, j, v, f, flag);
    TailExact(d, j, v, f, flag);
    TailForward(v, f, flag, Stored(f.name), Stored(f.sourceFile));
  }

  lemma HeadTexts(d: seq<u8>, i: nat, v: nat, f: Func)
    requires HeadAt(d, i, v, f, false) && FunctionReads(f) && Supplied(v, f)
    ensures ReadString(d, i) == Ok(Stored(f.name), i + TextSize(f.name))
    ensures v >= 3 ==> ReadString(d, i + TextSize(f.name)) == Ok(Stored(f.sourceFile), SourceEnd(i, v, f))
    ensures v < 3 ==> Stored(f.sourceFile) == []
    ensures CutName(f.name) == NullIfEmpty(Stored(f.name)) && CutName(f.sourceFile) == NullIfEmpty(Stored(f.sourceFile))
    ensures 0 <= f.paramCount && 0 <= f.localCount
  {
    hide TextAt, Word, ReadString, CString;
    ReadText(d, i, f.name);
    if v >= 3 { ReadText(d, i + TextSize(f.name), f.sourceFile); }
  }

  lemma TailInside(d: seq<u8>, j: nat, v: nat, f: Func, flag: u8)
    requires TailAt(d, j, v, f, flag)
    ensures j + TailSize(v) <= |d|
  {
  }

  /** The strings of a head, as they are stored. */
  function RawName(d: seq<u8>, i: nat): Text
    requires ReadString(d, i).Ok?
  {
    Some(ReadString(d, i).value)
  }

  lemma HeadUnfold(d: seq<u8>, i: nat, v: nat)
    requires ReadHead(d, i, v).Ok?
    ensures ReadString(d, i).Ok? && (v >= 3 ==> ReadString(d, ReadString(d, i).next).Ok?)
    ensures var h := ReadHead(d, i, v).value;
      && h.name == CutName(RawName(d, i))
      && h.sourceFile == CutName(if v >= 3 then RawName(d, ReadString(d, i).next) else None)
  {
    hide ReadString, ReadInts, CString;
  }

  lemma HeadStands(d: seq<u8>, i: nat, v: nat, f: Func)
    requires ReadHead(d, i, v).Ok? && f.paramCount >= 0 && f.localCount >= 0 && ReadHead(d, i, v).value == HeadFor(f)
    requires ReadString(d, i).Ok? && (v >= 3 ==> ReadString(d, ReadString(d, i).next).Ok?)
    requires f.name == RawName(d, i) && f.sourceFile == if v >= 3 then RawName(d, ReadString(d, i).next) else None
    ensures HeadAt(d, i, v, f, false) && TextReads(f.name) && TextReads(f.sourceFile)
    ensures exists flag :: TailSays(v, f, flag)
    ensures ReadHead(d, i, v).next == i + HeadSize(v, f) <= |d|
  {
    hide TailAt, TextAt, ReadString, ReadInts, HeadOf, TailFields, HeadWidths, HeadAt;
    TextBack(d, i);
    if v >= 3 { TextBack(d, i + TextSize(f.name)); }
    var j := SourceEnd(i, v, f);
    TailNext(d, j, v);
    var xs := ReadInts(d, j, HeadWidths(v)).value;
    var flag := TailBack(v, f, Stored(f.name), Stored(f.sourceFile), xs);
    TailExact(d, j, v, f, flag);
    HeadJoin(d, i, v, f, flag);
  }
}
