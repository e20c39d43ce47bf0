# Verified core of Tablo

A Dafny model of the hard parts of the Tablo runtime and tool chain, with proofs. Each component follows the C code
branch by branch: code that updates arrays, lists and cursors is imperative here too, and every such method is proved
against a specification whose own properties are proved as lemmas.

- **Big integers** (`Limbs`, `LimbArithmetic`, `DigitEstimate`, `LongDivision`, `Division`, `BigInt`, `BigIntBitwise`,
  `BitwiseLaws`, `Numerals`, `BigIntText`): every limb routine refines integer arithmetic. The long division of
  `src/bigint.c` is not correct on all operands: when the leading limb of a window equals the leading limb of the
  divisor, the partial remainder can exceed 32 bits before it is shifted, and the digit comes out one too small.
  `Division.DivisionFails` is the exact condition for the quotient and `Division.RemainderFails` for the remainder,
  both computable from the operands; `FailingOperands` is an instance of both, and `SafeDivisor` is a simple test of
  the divisor that rules them out. After a failing digit the limbs still hold dividend minus quotient times divisor
  modulo a power of the base; the remainder is always wrong when the lowest digit alone has failed
  (`RemainderFailures`), and when any digit has failed for an odd divisor under the tests of `OddDivisor`.
  `IntendedDivide` is the full theorem for the estimate that was intended.
- **Cycle collector** (`RefGraph`, `CycleGc`): trial deletion over reference counts finds exactly the unreachable
  containers, and hold, clear, drop frees exactly those. A node's slots refer to tracked containers or hold plain
  values. Keys of maps and members of sets are always integers or strings (`obj_map_set` at src/vm.c:2785-2795 and
  `obj_set_add` at src/vm.c:3370-3377 drop anything else), so releasing them never reaches a container. Holders
  outside the tracked list, such as the stack, appear as a number of outside references per node, which the
  collection does not change.
- **Module loader** (`ImportGraph`, `ModuleLoader`): depth-first loading is a topological sort that fails exactly on
  cycles and on files that cannot be loaded. The file system is a map from paths to parsed files, and an import
  statement carries the path it resolves to.
- **Bytecode artifacts** (`ByteCodec`, `ArtifactFormat`, `ArtifactWriting`, `ArtifactRoundTrip`, `ArtifactUpgrade`,
  `ArtifactLocality`, `ArtifactLayout`, `ArtifactPlacing`, `ArtifactReading`, `ArtifactRecords`, `ArtifactLoading`,
  `ArtifactStream`, `ArtifactCursor`): reading undoes writing, old versions upgrade without loss, and the format is
  prefix-free. `ArtifactLayout` says where every field stands, byte by byte and for every version, apart from writer and
  readers; the writer produces exactly that, and the loader takes exactly that. Strings are C strings: a string with an
  embedded zero byte is read as what stands before it. Double constants are their 64 bits.
- **JSON** (`Json`, `JsonRoundTrip`, `JsonTexts`, `JsonGrammar`, `JsonNumbers`, `JsonStrings`, `JsonDerivations`,
  `JsonRfc`, `JsonParser`, `JsonPrinter`, `SiblingList`): parsing undoes printing, and the parser takes exactly the texts
  of `JsonGrammar`, a grammar of tokens and trees written apart from it. Nested at most 1000 deep, these are the texts of
  RFC 8259, except that a \u literal for half of a surrogate pair alone is refused, and beyond them: any character up to
  the space as a blank; a byte order mark in front, if at least two more bytes follow it; text after the value, unless
  the whole text is asked for; numbers with leading zeros, with no digits on one side of the point (on the left only
  after a minus sign), and, at the very end of the value, numbers with further characters of numerals behind them;
  control characters and bytes that are not UTF-8 in strings; and \u before characters that are not four hexadecimal
  digits, which counts as a zero character. Strings end at a zero character. Integers beyond 64 bits are doubles. One
  character of a Dafny string stands for one byte. The lists of children that the parser links are sequences in the
  value; the links themselves, and how the parser makes them, are the subject of `SiblingList`.
- **Cryptographic modes** (`Gf2Poly`, `Gf128`, `ByteXor`, `GcmBlocks`, `Gcm`, `GcmCounters`, `BigEndian`, `Sha256`,
  `KeyDerivation`, `KeyDerivationLaws`): GCM multiplication is multiplication modulo the polynomial of section 6.3 of
  NIST SP 800-38D, the tag has a closed form in the bytes, sealing and opening are inverse, no counter block comes twice
  within the limit that `SealCounters` states, and hashing does not depend on how the input is split. The block cipher
  and the compression function are parameters: the theorems hold for all of them.
- **Test scheduler** (`TestRuns`, `TestRunner`): slots, retries, fail-fast, tallies and shards. A child process is an
  arbitrary fate per test and attempt: it may not start, or end after any number of polls with any status.

`Words`, `Sequences`, `Parsing`, `Options` and `IntFacts` hold what several components share.

## Model

| member | source | states |
|---|---|---|
| `LimbArithmetic.CompareAbs` | src/bigint.c:54-64 | the sign of the difference of the two magnitudes |
| `LimbArithmetic.AddAbs` | src/bigint.c:71-95 | trimmed limbs of the exact sum; every 64-bit intermediate fits |
| `LimbArithmetic.SubAbs` | src/bigint.c:97-113 | trimmed limbs of the exact difference for a >= b, borrow included |
| `LimbArithmetic.MulAbs` | src/bigint.c:115-155 | trimmed limbs of the exact product; no inner sum exceeds 64 bits and no carry leaves the output array |
| `LimbArithmetic.MulSmall` | src/bigint.c:157-179 | exact product with one word |
| `LimbArithmetic.DivmodSmall` | src/bigint.c:181-211 | exact quotient and remainder by one nonzero word |
| `LimbArithmetic.DivmodSmallInPlace` | src/bigint.c:539-554 | the array becomes the quotient in place, the remainder is returned |
| `LimbArithmetic.MulAddSmall` | src/bigint.c:556-593 | exact value of x * mul + add |
| `LongDivision.SubMulLimbs` | src/bigint.c:218-231 | window minus digit times divisor, as a value plus a borrow that stays within 64 bits |
| `LongDivision.SubMul` | src/bigint.c:213-241 | tells whether the subtraction went below zero; the window then holds the difference plus one power of the base |
| `LongDivision.AddBack` | src/bigint.c:243-258 | adds the divisor back modulo the window; a carry that leaves it runs into limbs above, and no limb below changes |
| `LongDivision.Normalise` | src/bigint.c:420-434 | dividend and divisor scaled by the same factor, divisor with a top limb of at least half the base |
| `LongDivision.NormFactorBounds` | src/bigint.c:420-420 | the scaled leading limb is at least half the base and still fits in a limb |
| `DigitEstimate.FirstTrial` | src/bigint.c:452-459 | the first guess is at least the intended digit and its remainder goes with it, except when the leading limbs are equal and their sum with the next one overflows: then the digit is already right and the remainder is not |
| `DigitEstimate.EstimateDigit` | src/bigint.c:452-467 | the digit the code computes, for all limbs, is the written estimate; it is the intended digit except exactly when the remainder overflows in the equal-limbs branch, where it is base - 2 |
| `DigitEstimate.EstimateIs` | src/bigint.c:452-467 | the written estimate is base - 2 exactly where the remainder overflows in the equal-limbs branch, and the intended digit elsewhere |
| `DigitEstimate.IntendedIsClose` | src/bigint.c:452-467 | Knuth's bound: the quotient of the leading parts, clamped to one limb, is the true digit or one more |
| `DigitEstimate.IntendedEstimate` | src/bigint.c:452-467 | the estimate with a remainder that always goes with the digit is the clamped quotient of the top three limbs by the top two |
| `LongDivision.IntendedDigit` | src/bigint.c:448-474 | the intended estimate of a window is the true digit or one more |
| `LongDivision.CorrectDigit` | src/bigint.c:469-474 | for any estimate at all: the corrected digit, and in the window the low limbs of window minus digit times divisor |
| `LongDivision.CorrectedIsExact` | src/bigint.c:469-474 | an estimate that is the true digit or one more is corrected to the true digit with its remainder |
| `LongDivision.IntendedDivide` | src/bigint.c:420-524 | with the intended estimate the whole long division is exact for all operands |
| `LongDivision.DigitStep` | src/bigint.c:448-474 | one step as written, on any window: the digit, and in its place the low limbs of window minus digit times divisor |
| `LongDivision.DigitOutcome` | src/bigint.c:448-474 | on a window below divisor times base, the true digit with its remainder, unless the estimate misfires, and base - 2 then |
| `LongDivision.DivideLoop` | src/bigint.c:444-475 | all digits, with or without a misfire: the limbs left are dividend minus quotient times divisor modulo base^n; exact if no window misfires, a quotient that is too small otherwise |
| `LongDivision.WrittenDivides` | src/bigint.c:444-475 | the digits are exact if no window misfires, too small by at least one if some does, and by exactly one if only the lowest does |
| `LongDivision.LongDivide` | src/bigint.c:420-524 | quotient of the unscaled operands exact if no window misfires and too small otherwise; the remainder is right if and only if RemainderLost does not hold |
| `LongDivision.RemainderIff` | src/bigint.c:444-524 | what is left, unscaled, is the remainder if and only if the missing part of the quotient, times the scaled divisor, is below the scaling factor modulo base^n |
| `LongDivision.WhenRemainderIsLost` | src/bigint.c:444-524 | never without a failing digit, and always when only the lowest digit fails |
| `Division.EstimateIsUpperBound` | src/bigint.c:347-357 | the top-limb estimate is never below the true quotient |
| `Division.SubtractRepeatedly` | src/bigint.c:359-381 | exact quotient and remainder; the loop ends below its limit, so the code after it is not reached |
| `Division.DivmodAbs` | src/bigint.c:260-525 | all paths of the division as written: division by zero, exact result, or a quotient that is too small with a remainder that is right if and only if RemainderFails does not hold |
| `Division.FailureIsExact` | src/bigint.c:260-525 | the returned quotient is the mathematical one if and only if the operands are outside DivisionFails, and the remainder if and only if they are outside RemainderFails |
| `Division.RemainderFailures` | src/bigint.c:260-525 | a wrong remainder comes only with a wrong quotient, and always with one whose lowest digit alone is wrong |
| `Division.FailingOperands` | src/bigint.c:452-467 | a concrete pair of operands on which quotient and remainder as written are both wrong |
| `Division.FailingRemainder` | src/bigint.c:444-524 | on that pair the division leaves 0xFFFFFFFE, where the remainder is 0x7FFFFFFF_FFFFFFFF |
| `Division.SafeDivisor` | src/bigint.c:452-467 | a divisor whose two leading limbs, scaled, add up to less than the base fails with no dividend |
| `Division.OddDivisor` | src/bigint.c:420-524 | for an odd divisor, a scaling factor that is a power of two, and a scaled dividend below the divisor moved up by its own length, the remainder is wrong if and only if the quotient is |
| `Division.OddUnscaled` | src/bigint.c:420-524 | the same for every odd divisor that needs no scaling, with more than half as many limbs as the dividend |
| `BigInt.Canonical` | src/bigint.c:22-43 | two valid big integers with the same value are the same sign and limbs |
| `BigInt.FromLimbs` | src/bigint.c:22-43 | trims and canonicalises: the value is sign times magnitude |
| `BigInt.Compare` | src/bigint.c:801-807 | the sign of the difference of the values |
| `BigInt.Add` | src/bigint.c:809-834 | the canonical sum |
| `BigInt.Sub` | src/bigint.c:836-841 | the canonical difference |
| `BigInt.Mul` | src/bigint.c:843-864 | the canonical product |
| `BigInt.Div` | src/bigint.c:887-903 | truncated quotient if and only if the magnitudes are outside DivisionFails; strictly smaller in magnitude otherwise; division by zero reported |
| `BigInt.Mod` | src/bigint.c:905-921 | remainder with the sign of the dividend if and only if the magnitudes are outside RemainderFails; division by zero reported |
| `BigInt.TruncDivMod` | src/bigint.c:887-921 | truncated quotient and remainder reconstruct the dividend, and the remainder is smaller than the divisor with the sign of the dividend |
| `BigInt.Negate` | src/bigint.c:923-929 | the canonical negation |
| `BigInt.FromInt64` | src/bigint.c:765-781 | the canonical value of every 64-bit integer, the smallest included |
| `BigInt.ToInt64` | src/bigint.c:1128-1155 | succeeds if and only if the value is in range, and then returns it |
| `BigIntBitwise.TwosComplementLimb` | src/bigint.c:936-945 | one limb of the infinite two's complement, and the carry for the next |
| `BigIntBitwise.FromTwosComplement` | src/bigint.c:947-965 | the signed value of a limb array, negated in place when its top bit is set |
| `BigIntBitwise.OpBits` | src/bigint.c:973-1004 | limb-wise and, or, xor with sign extension agree with the infinite two's complement at every bit index |
| `BigIntBitwise.TopLimb` | src/bigint.c:973-1004 | one limb above both magnitudes is all sign bits, so one extra limb is enough |
| `BigIntBitwise.BitwiseOp` | src/bigint.c:973-1004 | every bit of the result is set when both bits are for and, when one is for or, when they differ for xor; with BitsDetermine and the laws of BitwiseLaws there is one such result |
| `BigIntBitwise.BitsDetermine` | src/bigint.c:931-1004 | an integer is determined by its two's complement bits, so BitwiseOp has only one possible result |
| `BigIntBitwise.BitNot` | src/bigint.c:1018-1030 | -a - 1 |
| `BigIntBitwise.BitIs` | src/bigint.c:936-945 | the two's complement bits of the model are those of division: bit k of x is set when x / 2^k is odd |
| `BitwiseLaws.AndOrSum` | src/bigint.c:973-1016 | and plus or is the sum of the operands, for any integers with the bits of and and of or |
| `BitwiseLaws.XorIsOrMinusAnd` | src/bigint.c:973-1016 | xor is or minus and |
| `BitwiseLaws.AndWithMask` | src/bigint.c:1006-1008 | and with 2^n - 1 is the remainder modulo 2^n, for negative operands too |
| `BitwiseLaws.Neutral` | src/bigint.c:1006-1016 | x and -1 is x, and x or 0 is x, for every integer x |
| `BigIntText.ToText` | src/bigint.c:1032-1083 | the canonical decimal numeral of the value |
| `BigIntText.DecimalDigits` | src/bigint.c:595-617 | the number of digits that printing produces |
| `BigIntText.DigitsU32IsLength` | src/bigint.c:527-537 | the comparison chain counts decimal digits |
| `BigIntText.ToHexText` | src/bigint.c:1085-1126 | the canonical hexadecimal numeral |
| `BigIntText.ParseDecimal` | src/bigint.c:709-725 | the value of a run of decimal digits, nine at a time |
| `BigIntText.ParseHex` | src/bigint.c:664-678 | the value of a run of hexadecimal digits, eight at a time from the end |
| `BigIntText.ParseString` | src/bigint.c:632-738 | accepts exactly the strings of the grammar and returns sign and magnitude of their value |
| `BigIntText.TryFromString` | src/bigint.c:740-763 | the canonical big integer of an accepted string |
| `BigIntText.FormParses` | src/bigint.c:632-738 | a sign or none, 0x, 0X or no prefix, and at least one digit of the base: every such text is accepted with the signed value of its digits |
| `BigIntText.AcceptedForm` | src/bigint.c:632-738 | and every accepted text is of that form |
| `Numerals.Alphabet` | src/bigint.c:1085-1126 | the printers' digits are 0 to 9 and a to f in this order, and are read back as their positions |
| `Numerals.DigitsInOrder` | src/bigint.c:625-630 | which characters are digits, in either case, and in which order of value |
| `Numerals.CaseDoesNotMatter` | src/bigint.c:625-630 | letter case changes neither whether a text is a numeral nor its value |
| `Numerals.NumValueConcat` | src/bigint.c:664-725 | the value of digits is positional, the first digit weighing most |
| `BigIntText.ParsePrinted` | src/bigint.c:632-738 | parsing undoes both printers, for every integer |
| `BigIntText.PrintParsed` | src/bigint.c:1032-1126 | printing what was parsed, in decimal or in hexadecimal, gives the string back if and only if it is canonical for that base |
| `CycleGc.CycleGc.Track` | src/cycle_gc.c:81-96 | appends a node without an owner to the intrusive list and leaves others alone; links, owner and count stay consistent |
| `CycleGc.CycleGc.Untrack` | src/cycle_gc.c:98-120 | unlinks exactly that node, at any position, and clears its fields |
| `CycleGc.CycleGc.Snapshot` | src/cycle_gc.c:363-369 | the nodes in list order |
| `CycleGc.CycleGc.SubtractInternal` | src/cycle_gc.c:399-404 | every working count goes down by the number of slots of tracked containers that refer to the node, with multiplicity |
| `CycleGc.CycleGc.MarkChild` | src/cycle_gc.c:251-304 | a child is marked and pushed at most once, so the stack never outgrows the snapshot |
| `CycleGc.CycleGc.MarkLive` | src/cycle_gc.c:391-420 | after trial deletion the working count is the number of outside references, and exactly the nodes reachable from one with an outside reference are marked |
| `CycleGc.CycleGc.CollectUnreachable` | src/cycle_gc.c:422-431 | exactly the unmarked nodes, each once |
| `CycleGc.CycleGc.FindGarbage` | src/cycle_gc.c:381-431 | the verdict is exact: garbage is precisely what nothing outside leads to |
| `CycleGc.CycleGc.Verdict` | src/cycle_gc.c:381-431 | survivors are kept up by outside references or other survivors, garbage has no outside reference, and no survivor refers to garbage |
| `CycleGc.CycleGc.FreeSlot` | src/cycle_gc.c:306-356 | releasing a slot never brings the count of a held or surviving node to zero, and keeps the count equation |
| `CycleGc.CycleGc.ClearAll` | src/cycle_gc.c:438-440 | every garbage node is emptied and the count equation holds again, with the survivors still kept up |
| `CycleGc.CycleGc.OnlyTheHoldIsLeft` | src/cycle_gc.c:438-444 | before the drop every garbage node has count exactly one |
| `CycleGc.CycleGc.DropAll` | src/cycle_gc.c:442-444 | dropping the holds frees and unlinks every garbage node and nothing else |
| `CycleGc.CycleGc.Reclaim` | src/cycle_gc.c:433-446 | hold, clear, drop: all garbage freed, all survivors alive, count equation again over the survivors |
| `CycleGc.CycleGc.Sweep` | src/cycle_gc.c:381-446 | finding and reclaiming together: exactly the live nodes stay, and they are live among themselves |
| `CycleGc.CycleGc.Collect` | src/cycle_gc.c:371-455 | a collection keeps exactly the live nodes, with their slots unchanged, and returns how many it freed; re-entrant calls do nothing |
| `RefGraph.LivePath` | src/cycle_gc.c:391-420 | a live node is at the end of a path of references from a node with an outside reference |
| `RefGraph.PathLive` | src/cycle_gc.c:391-420 | and the end of every such path is live |
| `ModuleLoader.IsSafePath` | src/file_loader.c:19-36 | true if and only if no component of the path is ".." |
| `ModuleLoader.MatchLockDep` | src/file_loader.c:171-194 | the longest dependency that covers the import path at a component boundary, or none |
| `ModuleLoader.ModuleLoader.IsLoading` | src/file_loader.c:445-452 | membership in the stack of files being loaded |
| `ModuleLoader.ModuleLoader.LoadModule` | src/file_loader.c:454-538 | keeps a load order (no duplicates, imports strictly before importers), restores the stack on every exit, adds only reachable modules, and fails only with a chain of imports to an unloadable file or back to itself |
| `ModuleLoader.ModuleLoader.LoadImports` | src/file_loader.c:493-512 | all imports of a file are loaded before it is registered |
| `ModuleLoader.ModuleLoader.LoadMain` | src/file_loader.c:546-623 | fails on every cyclic or unloadable program; otherwise exactly the modules reachable from the root are added to those loaded before, and a program results if and only if no module but the root defines main |
| `ImportGraph.LoadedHasNoTrouble` | src/file_loader.c:454-538 | a module in a load order reaches only modules in it, without cycles |
| `ModuleLoader.ImportsComeFirst` | src/file_loader.c:590-623 | in the combined program all statements of an imported module precede all statements of its importer |
| `ByteCodec.LeRoundTrip` | src/artifact.c:44-72 | the little-endian bytes of a number that fits read back as it |
| `ArtifactStream.Sink.WriteU32` | src/artifact.c:44-51 | appends the four bytes, least significant first |
| `ArtifactStream.Sink.WriteU64` | src/artifact.c:57-68 | appends the eight bytes, least significant first |
| `ArtifactStream.Sink.WriteText` | src/artifact.c:154-161 | refuses exactly strings over 2^32 - 1 bytes; null is written like the empty string |
| `ArtifactStream.Sink.WriteFunction` | src/artifact.c:182-269 | succeeds if and only if the function is writable, and then appends its encoding |
| `ArtifactStream.SaveFile` | src/artifact.c:656-751 | a file is left exactly for writable artifacts, and every field stands in it where the layout of version 16 says, byte by byte |
| `ArtifactCursor.ArtifactReader.Read` | src/artifact.c:89-95 | the next bytes, or failure exactly when fewer are left |
| `ArtifactCursor.ArtifactReader.ReadText` | src/artifact.c:163-180 | a string of at most 2^28 bytes, or failure |
| `ArtifactCursor.ArtifactReader.TakeCaptures` | src/artifact.c:342-373 | slots are checked one by one as they are read; same outcome as checking all of them |
| `ArtifactCursor.ArtifactReader.TakeFunction` | src/artifact.c:271-642 | the cursor reader computes ReadFunction for every version and ends where it ends |
| `ArtifactCursor.LoadBytes` | src/artifact.c:753-892 | a file laid out by hand as any version 2 to 16 loads as exactly the fields that stand in it, and whatever loads is laid out so |
| `ArtifactPlacing.PlaceFunction` | src/artifact.c:182-269 | where the writer puts each field of a function: offset, bytes of each number, length and content of each string |
| `ArtifactPlacing.SavedLayout` | src/artifact.c:656-751 | the whole file: TBLC, version 16, flags, dependencies, dispatch entries, counts, functions, initialiser, each field at its offset and nothing more |
| `ArtifactRecords.HintExact` | src/artifact.c:508-534 | the compilation hint is read exactly when its fields stand in this order, with operation and flags from version 13 on |
| `ArtifactRecords.MasksExact` | src/artifact.c:535-588 | the masks and counts of the profile are read exactly when they stand in this order, as far as versions 14, 15 and 16 have them |
| `ArtifactRecords.ProfileDerived` | src/artifact.c:589-640 | what an older version does not hold of a profile is what the reader derives: flags, counts, support and family |
| `ArtifactRecords.HeadStands` | src/artifact.c:271-341 | what reads as the head of a function is laid out as one, for every version |
| `ArtifactLoading.ReadTheFunction` | src/artifact.c:271-642 | a function of any version laid out by hand is read as the fields that stand there |
| `ArtifactLoading.FunctionIsLaidOut` | src/artifact.c:271-642 | whatever reads as a function of a version is laid out as one, within the limits and with the supplied fields |
| `ArtifactLoading.LaidOutLoads` | src/artifact.c:753-892 | a file laid out as version 2 to 16 says loads as its fields, strings cut at the first zero byte |
| `ArtifactLoading.LoadedIsLaidOut` | src/artifact.c:753-892 | every file that loads is laid out so for some version |
| `ArtifactLoading.LoadExact` | src/artifact.c:753-892 | an artifact comes out of a file if and only if the file is laid out for it |
| `ArtifactRoundTrip.ConstAt` | src/artifact.c:224-243 | a written constant reads back, null strings as empty ones, unless its string is over the limit |
| `ArtifactRoundTrip.FunctionAt` | src/artifact.c:182-642 | a written function reads back, up to null and empty strings, exactly when it is within the reader's limits; otherwise reading fails |
| `ArtifactRoundTrip.LoadSaved` | src/artifact.c:656-892 | loading a saved artifact gives it back, up to null and empty strings, exactly when it is within the limits; otherwise loading fails |
| `ArtifactUpgrade.UpgradeLosesNothing` | src/artifact.c:753-892 | whatever loads, from any version 2 to 16, can be saved as version 16 and loads again as the same artifact |
| `ArtifactLocality.FunctionLocal` | src/artifact.c:271-642 | reading a function looks only at the bytes it consumes |
| `ArtifactLocality.PrefixFree` | src/artifact.c:878-881 | no accepted artifact, of any version, is a proper prefix of another |
| `JsonParser.WriteUtf8` | src/cJSON.c:753-803 | the bytes written from the last to the first are the UTF-8 encoding of the code point |
| `JsonParser.DecodeLiteral` | src/cJSON.c:694-812 | decodes a literal or surrogate pair into the buffer, or refuses it, and touches nothing before |
| `JsonTexts.UEscapeBack` | src/cJSON.c:694-812 | every code point written as \u escapes, surrogate pairs included, decodes to its UTF-8 encoding |
| `JsonTexts.LoneSurrogates` | src/cJSON.c:715-748 | a low surrogate alone, and a high surrogate without a partner, are refused |
| `JsonTexts.Utf8Decodes` | src/cJSON.c:753-803 | the encoding is the shortest one, well marked, and decodes to the code point |
| `JsonTexts.RoomStep` | src/cJSON.c:827-876 | every step of the copying loop stays within the size estimated by the scan, even where the two disagree on where escapes start |
| `JsonTexts.UnescapeFits` | src/cJSON.c:827-876 | the decoded string never outgrows the buffer allocated for it |
| `JsonParser.Decode` | src/cJSON.c:864-931 | decodes in place into the allocated buffer, with every write in bounds |
| `JsonParser.Cursor.SkipWhitespace` | src/cJSON.c:1081-1104 | stops at the first character above space, or on the last character of the buffer |
| `JsonParser.Cursor.TakeString` | src/cJSON.c:815-942 | the scan and the in-place decoding compute ParseString |
| `JsonParser.Cursor.TakeNumber` | src/cJSON.c:316-421 | integer if the whole numeral is one and fits 64 bits, else the longest prefix that strtod reads |
| `JsonParser.Cursor.TakeArray` | src/cJSON.c:1489-1584 | the outcome is the value and the end of the tree that the grammar derives at the cursor, and failure when there is none; the nesting counter is restored |
| `JsonParser.Cursor.TakeObject` | src/cJSON.c:1649-1764 | the same for objects: blanks anywhere between key, colon, value, comma and braces |
| `JsonParser.Cursor.TakeValue` | src/cJSON.c:1359-1411 | the recursive descent computes ParseValue and terminates |
| `JsonParser.ParseWithLength` | src/cJSON.c:1138-1215 | gives a value if and only if the buffer holds a text of the grammar, from an optional byte order mark on, and then that text's value; on demand only blanks and a zero may follow |
| `JsonNumbers.ReadNumber` | src/cJSON.c:316-421 | the longest numeral that stands at an offset is what is parsed there, as an integer where it is one, fits and is not cut off |
| `JsonNumbers.NumberStands` | src/cJSON.c:316-421 | and whatever is parsed as a number is the longest numeral there |
| `JsonNumbers.SplitLongest` | src/cJSON.c:392-410 | no numeral at the start of a text is longer than what strtod takes, and only one is as long |
| `JsonStrings.ReadString` | src/cJSON.c:815-942 | a string that stands at an offset, with any mix of characters, short escapes, \u literals in either case and surrogate pairs, is parsed as its bytes |
| `JsonStrings.StringStands` | src/cJSON.c:815-942 | and whatever is parsed as a string stands there as one |
| `JsonDerivations.ReadTree` | src/cJSON.c:1359-1764 | every text derived by the grammar within the nesting limit parses to its value, whatever the blanks between its tokens |
| `JsonDerivations.ValueDerived` | src/cJSON.c:1359-1764 | whatever parses is derived by the grammar, with the same value and the same end |
| `JsonDerivations.ValueExact` | src/cJSON.c:1359-1764 | the outcome at an offset is exactly what the grammar derives there |
| `JsonRfc.BufferExact` | src/cJSON.c:1138-1215 | the same for whole buffers, with the byte order mark and the check for a terminating zero |
| `JsonRfc.RfcText` | src/cJSON.c:1138-1226 | every text of RFC 8259 nested at most 1000 deep parses to its value, with or without the terminating zero |
| `JsonRfc.ExtraTokens` | src/cJSON.c:316-942 | a token that is taken is one of RFC 8259 or one of the listed extra forms, never both |
| `JsonRfc.BrokenEnds` | src/cJSON.c:656-742 | a \u literal that is not four hexadecimal digits ends the value of its string |
| `JsonRfc.CutIsLast` | src/cJSON.c:1489-1764 | only a number at the very end can have characters of numerals after it |
| `JsonRfc.NothingElse` | src/cJSON.c:1138-1215 | a text that parses as a whole and has no byte order mark, no other control characters and none of the extra tokens is one of RFC 8259 |
| `JsonPrinter.ExtraIsExact` | src/cJSON.c:968-993 | the counted space is exactly what escaping adds, and none is added exactly for plain strings |
| `JsonPrinter.Quote` | src/cJSON.c:945-1064 | fills the counted space exactly with the quoted string, on both the plain and the escaping path |
| `JsonPrinter.PrintBuffer.PrintArray` | src/cJSON.c:1587-1646 | appends the array text and restores the depth |
| `JsonPrinter.PrintBuffer.PrintObject` | src/cJSON.c:1767-1878 | appends the object text, indented by the depth when formatted, and restores the depth |
| `JsonPrinter.PrintText` | src/cJSON.c:1230-1306 | the text of the value in either style |
| `JsonRoundTrip.StringBack` | src/cJSON.c:815-1064 | a printed string without zero bytes reads back |
| `JsonRoundTrip.ValueBack` | src/cJSON.c:1359-1878 | a printed value standing anywhere reads back if it is not nested too deeply there, and is refused otherwise |
| `JsonRoundTrip.ParsePrinted` | src/cJSON.c:1122-1306 | parsing undoes printing in both styles exactly for values nested at most 1000 deep; deeper ones are refused |
| `JsonRoundTrip.ParsePrintedBuffer` | src/cJSON.c:1138-1226 | the same without a terminating zero |
| `JsonTexts.Reprint` | src/cJSON.c:1138-1306 | whatever text was parsed, printing the value and parsing that gives the same value |
| `SiblingList.LinkParsed` | src/cJSON.c:1526-1572 | the items a parsed array or object links one by one form a well-linked list in that order |
| `SiblingList.Size` | src/cJSON.c:1881-1901 | the number of items, cast to int: exact if and only if there are at most 2^31 - 1 |
| `SiblingList.GetItem` | src/cJSON.c:1904-1921 | the item at the index, null past the end |
| `SiblingList.Add` | src/cJSON.c:2009-2040 | append at the end; head.prev stays the last item; null and self are refused |
| `SiblingList.Detach` | src/cJSON.c:2240-2274 | removes exactly that item, also when it is the only, first or last one, and unlinks it |
| `SiblingList.Insert` | src/cJSON.c:2316-2347 | insertion in front of the index, or append past the end; the parent itself in front of an item is accepted, and then the parent has no list of items any more |
| `SiblingList.Replace` | src/cJSON.c:2350-2397 | the replacement stands where the item stood, also in a list of one; the parent itself as a replacement is accepted, and then the parent has no list of items any more |
| `Gf128.Divide` | src/crypto_aes.c:228-256 | the reduction used is the remainder of polynomial division by x^128 + x^7 + x^2 + x + 1 |
| `Gf128.RemainderIsUnique` | src/crypto_aes.c:228-256 | and the only remainder of degree below 128 |
| `Gf128.MultXor` | src/crypto_aes.c:237-256 | multiplication is bilinear |
| `Gf128.MultComm` | src/crypto_aes.c:237-256 | and commutative |
| `Gf128.MultAssoc` | src/crypto_aes.c:237-256 | and associative |
| `GcmBlocks.SteppedIsTimesX` | src/crypto_aes.c:228-254 | shifting the block right and folding in 0xe1 is multiplication by x in reflected bit order |
| `Gcm.ShiftRightOne` | src/crypto_aes.c:228-235 | the in-place shift carries the last bit of each byte into the next |
| `Gcm.Multiply` | src/crypto_aes.c:237-256 | shift and add computes the product modulo the polynomial |
| `Gcm.GhashUpdate` | src/crypto_aes.c:258-278 | folds the zero-padded blocks of the data into the state |
| `Gcm.GhashEvaluates` | src/crypto_aes.c:258-278 | GHASH is the polynomial with the blocks as coefficients, evaluated at the hash key |
| `Gcm.IncrementedIsNext` | src/crypto_aes.c:168-220 | the counter goes up by one modulo its width |
| `Gcm.IncrementCounter` | src/crypto_aes.c:168-220 | ripples the carry through the counted bytes only |
| `Gcm.AesCtr` | src/crypto_aes.c:177-211 | counter mode of the input; nothing is written for a bad key length |
| `Gcm.CtrTwice` | src/crypto_aes.c:177-211 | counter mode applied twice is the identity, partial last block included |
| `GcmCounters.CtrBlock` | src/crypto_aes.c:177-211 | block k of the output is block k of the input plus the encryption of the counter after k increments |
| `GcmCounters.CountersDiffer` | src/crypto_aes.c:168-220 | the first n counter blocks are pairwise different if and only if n is at most the number of values of the counter field |
| `Gcm.BuildTag` | src/crypto_aes.c:287-327 | the tag is the encryption of the nonce with counter 1 plus the sum of the powers of the hash key with the blocks of the hashed input as coefficients, that input being the additional data and the ciphertext, each filled up with zeros, and their lengths in bits; refused exactly for lengths over 2^61 - 1 |
| `Gcm.TagIs` | src/crypto_aes.c:258-327 | the tag computed step by step is the only block with that closed form |
| `Gcm.InputIsUnique` | src/crypto_aes.c:287-311 | the hashed input is determined byte by byte: data, zeros up to a block, ciphertext, zeros, eight bytes for each length |
| `GcmBlocks.PolyBit` | src/crypto_aes.c:228-256 | the first bit of a block is the coefficient of x^0 |
| `GcmCounters.TextCounter` | src/crypto_aes.c:313-375 | block k of the text is encrypted with the nonce and the number k + 2, modulo 2^32 |
| `Gcm.PolyInjective` | src/crypto_aes.c:329-335 | blocks are equal exactly when their polynomials are |
| `Gcm.ConstantTimeEqual` | src/crypto_aes.c:329-335 | equality, from a difference accumulated over all bytes |
| `Gcm.Seal` | src/crypto_aes.c:337-378 | ciphertext in counter mode, and the tag with the closed form of BuildTag |
| `GcmCounters.SealCounters` | src/crypto_aes.c:313-375 | the pre-counter of the tag and the counters of the text are pairwise different if and only if there are fewer than 2^32 blocks, and none has a zero field if and only if there are fewer than 2^32 - 1 |
| `Gcm.Open` | src/crypto_aes.c:380-429 | succeeds if and only if the key length and the lengths are allowed and the tag has that closed form, and writes nothing otherwise |
| `Gcm.OpenSealed` | src/crypto_aes.c:337-429 | opening what was sealed succeeds and gives the plaintext; any other tag is refused |
| `Sha256.Context.Update` | src/crypto_hash.c:118-128 | the context holds the message so far followed by the input, however it was split |
| `Sha256.Context.Final` | src/crypto_hash.c:130-165 | the eight words of the digest, most significant byte first, are the compression function folded over the padded message |
| `Sha256.OutputWords` | src/crypto_hash.c:156-164 | bytes 4i to 4i + 3 of the digest are word i |
| `Sha256.PaddedShape` | src/crypto_hash.c:130-154 | the padded message is the message, 0x80, the fewest zeros that fill up blocks of 64, and eight bytes of length |
| `Sha256.InitialState` | src/crypto_hash.c:103-116 | the initial words are the first 32 bits of the fractional parts of the square roots of the first eight primes |
| `Sha256.FoldBlocks` | src/crypto_hash.c:118-165 | the fold takes the blocks of 64 bytes one after another from the front |
| `Sha256.LengthField` | src/crypto_hash.c:146-154 | the last eight bytes of the padding are the length in bits, for messages under 2^64 bits |
| `KeyDerivation.ComputeHmac` | src/crypto_hash.c:174-209 | HMAC with long keys hashed and short ones padded |
| `KeyDerivation.ComputeHkdf` | src/crypto_hash.c:221-278 | the first bytes of T(1), T(2), ...; refused exactly beyond 255 blocks or for an oversized info |
| `KeyDerivation.HkdfPrefix` | src/crypto_hash.c:221-278 | a shorter output is a prefix of a longer one |
| `KeyDerivation.ComputePbkdf2` | src/crypto_hash.c:280-330 | the first bytes of the mixed blocks, or a refusal; a length within 31 bytes of SIZE_MAX is reported as done with nothing written |
| `KeyDerivation.LoopEnds` | src/crypto_hash.c:306-306 | the loop over 32-bit block indices ends if and only if there are fewer than 2^32 - 1 blocks |
| `KeyDerivation.SizedCounts` | src/crypto_hash.c:292-293 | the block count in size_t is the true one, or zero within 31 bytes of SIZE_MAX |
| `KeyDerivation.CallerCap` | src/builtins.c:6675-6684 | for the lengths the only caller passes nothing wraps and the loop ends |
| `KeyDerivation.Pbkdf2Prefix` | src/crypto_hash.c:280-330 | a shorter output is a prefix of a longer one |
| `KeyDerivationLaws.HmacNested` | src/crypto_hash.c:174-209 | HMAC is the hash of the key block xor 0x5c and the hash of the key block xor 0x36 and the message, as folds of the compression function |
| `KeyDerivationLaws.HkdfBlock` | src/crypto_hash.c:221-278 | bytes 32(n - 1) to 32n of the output are the HMAC of the block before, the info and the byte n |
| `KeyDerivationLaws.Pbkdf2Block` | src/crypto_hash.c:280-330 | byte i of a block is the xor of byte i of all iterates, the first being the HMAC of the salt and the block number in four bytes |
| `KeyDerivationLaws.Pbkdf2Once` | src/crypto_hash.c:280-330 | with one iteration a block is that HMAC |
| `TestRuns.SelectShard` | src/cli.c:3588-3603 | the matched tests of one shard, in order |
| `TestRuns.ShardsPartition` | src/cli.c:3588-3603 | shards 1 to n together are all matched tests, each one once |
| `TestRuns.ShardHas` | src/cli.c:3588-3603 | a matched test is in a shard if and only if its hash modulo the number of shards is the shard number minus one, or there is only one shard |
| `TestRuns.ShardInOrder` | src/cli.c:3588-3603 | the tests of a shard are in increasing order |
| `TestRunner.EndKeeps` | src/cli.c:3833-3904 | the end of a child keeps the scheduler invariant and gives its test exactly one more result |
| `TestRunner.KillKeeps` | src/cli.c:3906-3916 | ending all children on fail-fast keeps the invariant |
| `TestRunner.Runner.ActiveIsBusy` | src/cli.c:3747-3922 | the active counter is the number of busy slots and never exceeds the number of jobs |
| `TestRunner.Runner.Launch` | src/cli.c:3748-3824 | starts waiting tests until the slots are full, nothing is left or fail-fast stops it |
| `TestRunner.Runner.Poll` | src/cli.c:3830-3921 | one round over the slots makes progress and keeps the invariant |
| `TestRunner.Runner.Attempt` | src/cli.c:3733-3922 | an attempt ends with no child running, and every pending test done unless fail-fast stopped it |
| `TestRunner.Runner.Retry` | src/cli.c:3934-3945 | the failed tests, in order, become the pending ones |
| `TestRunner.Runner.Run` | src/cli.c:3733-3945 | without fail-fast the results of each test are its attempts up to the first pass, at most rerun + 1; with fail-fast each test has at most its first attempt, all have it if all pass, and otherwise a failing one is recorded |
| `TestRuns.HistoryShape` | src/cli.c:3733-3945 | attempts are failures followed by at most one pass, with no gaps |
| `TestRuns.HistoryPasses` | src/cli.c:3733-3945 | the last attempt is a pass if and only if some attempt passes |
| `TestRuns.Summarise` | src/cli.c:3961-3970 | the index of the last result of every test, and the number of its attempts |
| `TestRuns.Count` | src/cli.c:3971-3992 | passed, failed, timed out and crashed count the tests by their last result and add up to the executed ones |
| `TestRuns.EndsInIs` | src/cli.c:3961-3970 | the last result of a test is the one no later result of that test follows |
| `TestRuns.EndingCounts` | src/cli.c:3971-3992 | each tally is the size of the set of tests that end so |
| `TestRuns.OfCounts` | src/cli.c:3961-3970 | the attempts of a test are as many as the results that belong to it |
| `TestRunner.FinalStatus` | src/cli.c:3961-3999 | after a run without fail-fast every test is executed, and passed if and only if some attempt of it passes |
| `TestRunner.FastStatus` | src/cli.c:3961-3999 | after a fail-fast run every executed test counts with its outcome, and the tallies of failures are zero if and only if every test passes |

## Left out

- ArtifactCursor.ArtifactReader.TakeFunction: below version 9 the compilation hint is all zeros here, while the code
  leaves `op` and `flags` of the hint as they are in freshly allocated memory (src/vm.c:1656-1660).
- ArtifactLoading.LaidOutLoads: the same holds of the hint here.
- JsonParser.Cursor.TakeNumber: what value strtod computes is left out; a double is the numeral it is read from.
- SiblingList.Replace: freeing the replaced item is left out.
- SiblingList.LinkParsed: the items are given; how each is parsed is in `JsonParser`, where the children are a sequence.
- KeyDerivation.ComputePbkdf2: a call that passes all checks with exactly 2^32 - 1 blocks is excluded, because the loop
  of the code does not end on it (`LoopEnds`); the only caller cannot make it (`CallerCap`).
- TestRunner.Runner.Run: a child that is never reported as finished is left out; every child ends after some number of
  polls.
- Big integers: conversion to and from double, and hash values of big integers.
- Cycle collector: the thresholds that trigger a collection, and atomic counters.
- Module loader: resolving an import name to a path, the lock file format, type checking and compiling the combined
  program, and interface dispatch tables.
- Bytecode artifacts: file input and output, error texts, and freeing what was loaded.
- JSON: printing doubles, raw items and null strings, growth of the print buffer, minifying, comparing and duplicating.
- Cryptographic modes: the AES rounds and key schedule, the SHA-256 rounds, wiping of buffers, and null arguments.
- Test scheduler: process handling, clocks, report texts, pattern matching and the hash function behind the shards.
- Allocation failure, everywhere: allocation succeeds.
- Virtual machine, compiler, type checker, just-in-time compiler, lexer, parser and standard library: they would need a
  model of the language itself.
