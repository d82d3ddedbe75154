# Escape-hatch build scripts: hex assembly in Dafny

The build scripts compile a set of Yul modules and glue them into one
combined runtime, plus the initcode that deploys it. This project models
the deterministic string work of those scripts and proves its layout
facts. Compiling is not modelled.

- **compile-combined.js** builds two variants, with and without PUSH0:
  - It watermarks each module's source with `mstore`s of random values.
  - It compiles the source and cuts the module body out of the output, after the marker.
  - It applies the PUSH0 peephole `5f80 -> 5f5f`.
  - It pads each body to a 64-byte section behind an 8-byte dispatcher.
  - It wraps both runtimes in a conditional initcode stub.
- **compile_combined.py** does the same for one variant. It wraps the runtime in a plain 10-byte initcode header.
- **compile-single.js** compiles one file and cuts the runtime out after `f3fe`. Its compiler lookup (`findSolc`, `semverScore`) is the same code as in compile-combined.js and shares one model.

Hex text is `string`. The scripts' integer arithmetic uses unbounded
`nat`.

Three things the scripts get from outside are parameters:
- the compiler, `solc: (source, evmVersion) -> stdout`;
- the regular-expression rewrite of the `object "runtime" { code {` header, `patch: (source, replacement) -> source`;
- the random digits, as JS picks (indices into `123456789abcdef`) and as Python draws (the `randint` results, tried in order).

Modules, one per file:
- `Wrappers`: Option, Result and the build errors.
- `Decimal`: Python's `str`.
- `HexCodec`: `toString(16)`, `hex()`, `hexNoPrefix`, `hex_no_prefix`.
- `TextSearch`: `indexOf`, `slice`, `stringAfter`, `replace`, `split(..)[-1]`, `strip`, `lastHex`.
- `RandomHex`: the two random-hex generators.
- `Sections`: padding, the dispatcher, assembly and the PUSH0 rewrite.
- `Watermark`: the `mstore` loops and the marker.
- `Extraction`: cutting the body out after the marker.
- `Initcode`: the plain and the conditional initcode.
- `SolcSelect`: version scoring and the directory pick.
- `SeqFacts`: generic sequence facts the loop proofs use.
- `CombinedJs`, `CombinedPy` and `CompileSingle`: the three scripts' flows.

The imperative parts are methods whose `ensures` ties them to a
specification function; the properties are lemmas about those functions.
- The watermark loops are `JsWatermark` and `PyWatermark`.
- The random-hex loops are `JsRandomHexNoPrefix` and `PyRandomHexNoPrefix`.
- `hex_no_prefix`'s padding loop is `PyHexNoPrefix`.
- `semverScore` is `SemverScore`; the `findSolc` loops are `FindSolc` and `VisitDirectory`.
- The per-module step is `CompileAndGetRuntime`; the section loop is `CompileCombined`.
- The stats arrays are the classes `JsStats` and `PyStats`.

## Model

| member | source | states |
|---|---|---|
| HexCodec.DigitValue | compile-combined.js:40 | a lower-case hex digit stands for a value below 16 |
| HexCodec.DigitRoundTrip | compile-combined.js:40 | every value below 16 has a lower-case digit, and reading it back gives the value |
| HexCodec.ToHex | compile-combined.js:40 | `x.toString(16)` has at least one digit |
| HexCodec.ToHexSpec | compile-combined.js:40 | `x.toString(16)` is lower-case hex denoting `x`; it starts with `0` only for `x == 0` |
| HexCodec.PyHex | compile_combined.py:16 | `hex(x)` starts with `0x` and has at least one digit after it |
| HexCodec.PyHexDenotes | compile_combined.py:16 | the digits after `0x` are lower-case hex denoting `x` |
| HexCodec.ToHexFits | compile_combined.py:25-26 | the hex of `x` has at most `k` digits exactly when `x < 16^k` |
| HexCodec.HexValuePrependZero | compile-combined.js:41 | prepending `0` keeps the text hex and keeps its value |
| HexCodec.EvenHex | compile-combined.js:41 | the odd-length fix gives an even length of at least 2 |
| HexCodec.EvenHexSpec | compile-combined.js:39-41 | even-length hex denotes `x`; `0` gives `00`; a non-zero `x` has no leading zero byte |
| HexCodec.EvenHexBytes | compile-combined.js:153 | the even hex is one byte exactly when `x < 256`, and two bytes exactly when `256 <= x < 65536` |
| HexCodec.ZeroBytesSucc | compile_combined.py:19-20 | one more zero byte is `00` in front |
| HexCodec.HexValueZeroBytes | compile_combined.py:19-20 | leading zero bytes keep the text hex and keep its value |
| HexCodec.JsHexNoPrefix | compile-combined.js:39-43 | `hexNoPrefix(x, n)` fails exactly for `n == 0` (a negative `repeat` count); otherwise it is the even hex of `x`, whatever width is given |
| HexCodec.PaddedHex | compile_combined.py:15-21 | `hex_no_prefix` has even length |
| HexCodec.PaddedHexSpec | compile_combined.py:15-21 | with no width it is the even hex; with width `n` it has `max(n, bytes of x)` bytes and ends in the even hex; it always denotes `x` |
| HexCodec.PyHexNoPrefix | compile_combined.py:15-21 | the `while` loop that prepends `00` computes `PaddedHex` |
| Decimal.DecimalString | compile_combined.py:58 | `str(n)` has at least one digit |
| Decimal.DecimalRoundTrip | compile_combined.py:58 | `str(n)` is all digits and reads back as `n`; it starts with `0` only for `n == 0` |
| Decimal.DecimalStringInjective | compile_combined.py:58 | different numbers give different `str` text |
| TextSearch.IndexFrom | compile-combined.js:122 | a match found from `from` lies at or after `from`, inside the text |
| TextSearch.IndexFromSpec | compile-combined.js:122 | the search from `from` finds the first occurrence at or after `from`, or none when there is none |
| TextSearch.IndexOf | compile-combined.js:122 | a found index leaves room for the needle |
| TextSearch.IndexOfSpec | compile-combined.js:122 | `indexOf` finds nothing exactly when the needle does not occur; otherwise it finds the first occurrence |
| TextSearch.JsIndexOf | compile-single.js:94 | the JavaScript result is at least -1 |
| TextSearch.JsIndexOfSpec | compile-single.js:94 | `indexOf` is -1 exactly when the needle does not occur; otherwise it is the first occurrence |
| TextSearch.JsSliceAfterSpec | compile-single.js:94 | `getRuntime`'s slice is the text after the first occurrence; with none it is the slice from one before the needle's length |
| TextSearch.StringAfterSpec | compile-combined.js:121-124 | `stringAfter` is empty when the needle does not occur, and the text after the first occurrence otherwise |
| TextSearch.FirstAtUnique | compile-combined.js:122 | there is only one first occurrence |
| TextSearch.OccursInSuffix | compile-combined.js:122 | an occurrence in a suffix is an occurrence in the whole text |
| TextSearch.StringAfterFixture | compile-combined.js:121-124 | `stringAfter(p + needle + body, needle)` is `body` when the needle does not start inside `p` |
| TextSearch.ReplaceFirstSpec | compile-combined.js:148 | `replace` with a string pattern changes nothing when the pattern does not occur; otherwise it splices the replacement over the first occurrence, and the length changes by the difference |
| TextSearch.ReplaceFirstInPlace | compile-combined.js:148 | a same-length replacement keeps the length, puts the replacement at the first occurrence and leaves every other character alone |
| TextSearch.SpliceInPlace | compile-combined.js:148 | writing `rep` over position `i` keeps every character outside it |
| TextSearch.LastPieceStart | compile_combined.py:57 | the last piece of the split starts inside the text |
| TextSearch.LastPieceStartSpec | compile_combined.py:57 | the last piece starts where the scan began or right after a separator, and no separator starts at or after it |
| TextSearch.SplitLastSpec | compile_combined.py:57 | `split(sep)[-1]` is a suffix holding no separator; it is the whole text when there is no separator, and otherwise comes right after one |
| TextSearch.SplitLastFixture | compile_combined.py:57 | `split(needle)[-1]` of `p + needle + body` is `body` when that is the only occurrence |
| TextSearch.SplitLastTwice | compile_combined.py:57 | with occurrences at 0 and at `second` only, `split(..)[-1]` is the text after the second |
| TextSearch.StripStart | compile_combined.py:57 | the start of the stripped part lies between `i` and the end |
| TextSearch.StripEnd | compile_combined.py:57 | the end of the stripped part lies between its start and `end` |
| TextSearch.StripStartSpec | compile_combined.py:57 | only whitespace is skipped at the front, and the scan stops on non-whitespace |
| TextSearch.StripEndSpec | compile_combined.py:57 | only whitespace is dropped at the back, and the scan stops after non-whitespace |
| TextSearch.StripSpec | compile_combined.py:57 | `strip()` is a middle part with only whitespace around it, and it neither starts nor ends with whitespace |
| TextSearch.RunStart | compile-combined.js:27-30 | a hex run found ending at `end` starts at or before `end` |
| TextSearch.RunStartSpec | compile-combined.js:27-30 | the run is all hex characters and cannot be extended to the left |
| TextSearch.HexEnd | compile-combined.js:27-30 | the end of the last run is at or before `end` |
| TextSearch.HexEndSpec | compile-combined.js:27-30 | no hex character follows the last run, and the last run ends on a hex character |
| TextSearch.LastHexIsLastRun | compile-combined.js:27-30 | `lastHex` is all hex characters and is a maximal run with no hex character after it |
| TextSearch.LastHexEmpty | compile-single.js:13-16 | `lastHex` is empty exactly when the output has no hex character |
| RandomHex.HexCharsAreNonZeroHex | compile-combined.js:46 | every character of `123456789abcdef` is a hex digit other than `0` |
| RandomHex.PickedHex | compile-combined.js:45-52 | one digit per pick |
| RandomHex.PickedHexDigits | compile-combined.js:45-52 | the picked text is lower-case hex with no `0` |
| RandomHex.JsRandomHexNoPrefix | compile-combined.js:45-52 | the loop appends the picked digits in order, `2n` of them |
| RandomHex.OrOne | compile_combined.py:25 | `v` with its low bit set is odd and is `v` or `v + 1` |
| RandomHex.FirstAccepted | compile_combined.py:24-27 | a draw the retry loop keeps lies in range and has exactly `2n` digits |
| RandomHex.FirstAcceptedSpec | compile_combined.py:24-27 | every earlier draw was rejected; with no kept draw, every draw was rejected |
| RandomHex.PyDrawn | compile_combined.py:23-27 | the kept value has `2n` characters |
| RandomHex.PyDrawnSpec | compile_combined.py:23-27 | `random_hex_no_prefix(n)` is `2n` lower-case hex digits of an odd value whose top byte is not zero |
| RandomHex.PyRandomHexNoPrefix | compile_combined.py:23-27 | the retry loop returns the first kept draw |
| Sections.RPad | compile-combined.js:32-37 | `rpadRuntime` fails exactly when the runtime is over `SECTION_LENGTH` bytes; otherwise it has `2·SECTION_LENGTH` characters, plus one for an odd-length input |
| Sections.RPadKeepsBody | compile_combined.py:9-13 | the padded section starts with the runtime and continues with `0` only |
| Sections.DispatcherBytes | compile-combined.js:168 | the dispatcher is `3d353d1a60` + `hexNoPrefix(SECTION_SHIFT)` + `1b56`, and it pads to one section |
| Sections.SectionLengthIsShift | compile-combined.js:22-23 | `SECTION_LENGTH` is `1 << SECTION_SHIFT`, and the dispatcher's jump target `k << SECTION_SHIFT` is byte `k · SECTION_LENGTH`, where section `k` begins |
| Sections.AssembleFails | compile-combined.js:167-173 | assembly succeeds exactly when every body fits its section |
| Sections.AssembleAppend | compile-combined.js:169-171 | one more file appends its padded section; an earlier failure or its own failure stops the build |
| Sections.AssembleSnoc | compile_combined.py:70-71 | the same step, written over prefixes of the body list |
| Sections.AssembleErrSticks | compile-combined.js:169-171 | once a prefix fails, the whole build fails with that error |
| Sections.AssembleLength | compile_combined.py:67-72 | with whole-byte bodies the runtime is `(files + 1) · SECTION_LENGTH` bytes |
| Sections.AssembleLayout | compile-combined.js:167-173 | with whole-byte bodies, section 0 is the padded dispatcher and section `k + 1` is body `k` padded, in input order |
| Sections.ModuleStartsAtItsSection | compile-combined.js:167-173 | with whole-byte bodies, a body starting with `5b` puts `5b` at byte `64k` of the runtime |
| Sections.AssembledEntries | compile-combined.js:167-173 | with whole-byte bodies that each start with `5b`, the runtime has the right length, starts with the dispatcher, and every module `k` starts with `5b` at byte `64k` |
| Sections.Push0RewriteSpec | compile-combined.js:148 | the PUSH0 rewrite keeps the length, writes `5f5f` over the first `5f80` only, changes nothing else and keeps the leading `5b` |
| Watermark.SectionSlot | compile-combined.js:130-131 | a store's place in its section is below the number of stores per section |
| Watermark.OffsetHexIsHexNoPrefix | compile-combined.js:133-134 | the offset text is `hexNoPrefix(0xff - j)`, `hex_no_prefix(0xff - j)` and `toString(16)` alike |
| Watermark.OffsetDigits | compile-combined.js:133 | offsets `0xff` and `0xfe` print as `ff` and `fe` |
| Watermark.PyStoreText | compile_combined.py:39 | the Python store text ` mstore(0xff-j,0x<value>)` is the same text the JavaScript writes |
| Watermark.JsOffsetText | compile-combined.js:133 | `hexNoPrefix(0xff - j)` gives the store's offset text |
| Watermark.PyMarkerText | compile_combined.py:40 | the Python marker `r + '60' + hex_no_prefix(0xff - j) + '52'` is the JavaScript one |
| Watermark.MarkerEmpty | compile-combined.js:129-136 | the marker stays empty exactly when no store is written, i.e. in section 0 |
| Watermark.MarkerShape | compile-combined.js:130-134 | in a section from 1 on, the marker is the last 28-byte value followed by `60fe52`, 31 bytes in all |
| Watermark.JsValuesShape | compile-combined.js:132 | the JavaScript values have 29 bytes for the very first store and 28 for every other, and hold no `0` |
| Watermark.StorePlace | compile-combined.js:130-132 | store `j` of loop pass `i` is store `2i + j` overall; only the first is 29 bytes |
| Watermark.StoreSlot | compile-combined.js:130-132 | the same, for a running store counter `k` |
| Watermark.StoresNext | compile-combined.js:133 | one more store appends its text to the replacement |
| Watermark.StoreStep | compile-combined.js:133-134 | one loop step extends the replacement by the store and makes its marker the current one |
| Watermark.StoresDone | compile-combined.js:128-136 | after the last store, the replacement is the header plus all stores, and the marker is that of the last store |
| Watermark.JsStore | compile-combined.js:132-134 | one step draws the value for store `k` and builds its store text and its marker |
| Watermark.JsWatermark | compile-combined.js:128-136 | the nested loops build the header plus one store per value, in order, and leave the marker of the last store |
| Watermark.PyValueAt | compile_combined.py:38 | the draw for store `k` yields a value of 29 bytes for the first store and 28 otherwise |
| Watermark.PyStore | compile_combined.py:38-40 | one step draws the value for store `k` and builds its store text and its marker |
| Watermark.PyWatermark | compile_combined.py:33-40 | the nested loops build the header plus one store per value, in order, and leave the marker of the last store |
| Extraction.PyExtract | compile_combined.py:57 | the split fails exactly when the marker is empty (section 0) |
| Extraction.ExtractStartsWithJumpdest | compile-combined.js:141 | both extractions start with `5b` |
| Extraction.JsExtractRoundTrip | compile-combined.js:141 | when the output's last hex run is filler, marker, body and the marker does not start inside the filler, the extraction is `5b` + body |
| Extraction.PyExtractRoundTrip | compile_combined.py:57 | when the stripped output is filler, marker, body and the marker occurs only there, the extraction is `5b` + body |
| Extraction.JsExtractMissing | compile-combined.js:121-124 | with no marker in the output, the JavaScript extraction is `5b` alone |
| Extraction.PyExtractMissing | compile_combined.py:57 | with no marker in the output, the Python extraction is `5b` plus the whole stripped output |
| Extraction.ExtractionsDiffer | compile_combined.py:57 | with two occurrences of the marker, the JavaScript cuts after the first and the Python after the last |
| Initcode.ToInitcodeHeader | compile_combined.py:63-65 | for runtimes under 65536 bytes, `to_initcode` is `61`, two bytes of length denoting the runtime's byte count, `80600a3d393df3`, then the runtime: a 10-byte header matching the copy offset `0x0a` |
| Initcode.JsToInitcodeShortHeader | compile-combined.js:152-153 | a runtime under 256 bytes gets a 9-byte header, unlike `to_initcode`; `toInitcode` has no caller in the script, so no build output carries it |
| Initcode.JsToInitcodeExample | compile-combined.js:152-153 | a 2-byte runtime gets `610280600a3d393df3` in front, with a one-byte PUSH2 operand |
| Initcode.ToInitcodeExample | compile_combined.py:63-65 | a 2-byte runtime gets `61000280600a3d393df3` in front |
| Initcode.PaddedTwo | compile_combined.py:64 | `hex_no_prefix(2, 2)` is `0002` |
| Initcode.InitcodesAgree | compile-combined.js:152-153 | from 256 to 65535 bytes the JavaScript and Python initcodes agree |
| Initcode.JsConditionalInitcode | compile-combined.js:155-159 | `toConditionalInitcode` fails exactly when the two runtimes differ in byte length |
| Initcode.ConditionalInitcode | compile-combined.js:155-159 | the corrected version fails on exactly the same inputs |
| Initcode.ConditionalInitcodeEnds | compile-combined.js:164 | the conditional initcode ends with the runtime with PUSH0 followed by the one without |
| Initcode.LengthPatchInPlace | compile-combined.js:162 | for a stub under 256 bytes, the first `6033` becomes `60` + the stub's byte length, and nothing else changes |
| Initcode.PatchStubInPlace | compile-combined.js:161-163 | both patches are in place: the length at the first `6033`, `61` + length at the first `61ffee`, and the rest of the stub unchanged |
| Initcode.OperandPatchInPlace | compile-combined.js:163 | the `61ffee` patch lands on the first placeholder and leaves the length patch and the rest alone |
| Initcode.FirstAfterPatch | compile-combined.js:162-163 | the length patch keeps the first `61ffee` where it was |
| Initcode.NoNewOccurrence | compile-combined.js:162-163 | the length patch does not create a new `61ffee` |
| Initcode.JsConditionalInitcodeLayout | compile-combined.js:155-164 | for runtimes of 256 to 65535 bytes, the result is the patched stub plus both runtimes, and both patched operands denote the stub's and the runtime's byte lengths |
| Initcode.JsConditionalShortOperand | compile-combined.js:156-163 | for runtimes under 256 bytes, the `61ffee` patch shortens the stub by one byte |
| Initcode.ConditionalInitcodeLayout | compile-combined.js:155-164 | with a two-byte operand the result is the patched stub plus both runtimes for every runtime under 65536 bytes |
| Initcode.ConditionalInitcodesAgree | compile-combined.js:156 | from 256 to 65535 bytes the as-written and the corrected conditional initcodes agree |
| SolcSelect.LeadingDigits | compile-single.js:22 | the leading digit run is a prefix of digits, followed by a non-digit or the end |
| SolcSelect.DigitRuns | compile-single.js:22 | `s.match(/\d+/g)` yields non-empty runs of digits |
| SolcSelect.NoDigitsNoRuns | compile-single.js:22-23 | there are no runs exactly when `s` has no digit |
| SolcSelect.LeadingDigitsOf | compile-single.js:22 | the leading run of `d + rest` is `d` when `rest` starts with a non-digit |
| SolcSelect.DigitRunsCons | compile-single.js:22 | a digit run followed by a non-digit is the first match |
| SolcSelect.SkipNonDigit | compile-single.js:22 | a leading non-digit does not change the matches |
| SolcSelect.DottedRuns | compile-single.js:22 | the version text `a.b.c` followed by a non-digit yields the runs `a`, `b` and `c` first |
| SolcSelect.PadKeepsScore | compile-single.js:24 | pushing a `0` component onto fewer than three leaves the score unchanged |
| SolcSelect.SemverScore | compile-single.js:21-26 | the `while` loop that pads to three components computes `Semver` |
| SolcSelect.VersionScore | compile-combined.js:73-78 | `a.b.c` followed by a non-digit scores `a·1000000 + b·1000 + c` |
| SolcSelect.MinSolcScore | compile-combined.js:71-81 | the threshold `semverScore('0.8.28')` is 8028 |
| SolcSelect.ScoreOrder | compile-combined.js:77 | with minor and patch below 1000, scores order as versions do |
| SolcSelect.JoinPath | compile-combined.js:85 | a joined path is never empty |
| SolcSelect.FirstFile | compile-combined.js:84-91 | the first regular file of a listing, or none when it has no regular file |
| SolcSelect.VisitChildrenSpec | compile-combined.js:84-91 | one directory is taken (its first regular file) exactly when it scores higher than the best so far, reaches the threshold and holds a regular file; otherwise the choice stays |
| SolcSelect.VisitDirectory | compile-combined.js:84-91 | the inner `forEach` computes `VisitChildren` |
| SolcSelect.FindSolc | compile-combined.js:72-94 | `findSolc` returns the path `Scan` chooses |
| SolcSelect.ChosenAtExtends | compile-combined.js:82-92 | a choice made among earlier entries stays made when later entries come |
| SolcSelect.ChosenLast | compile-combined.js:87-89 | an entry that beats every earlier qualifying one is the choice |
| SolcSelect.VisitTakes | compile-combined.js:87-89 | a strictly better qualifying directory takes over the choice |
| SolcSelect.VisitKeeps | compile-combined.js:87-89 | any other entry keeps the choice, so on a tie the earlier directory wins |
| SolcSelect.VisitStep | compile-combined.js:82-92 | one visit of the outer loop keeps the choice settled |
| SolcSelect.ScanSpec | compile-combined.js:79-93 | after all entries, the choice is settled over the whole listing |
| SolcSelect.FindSolcPicksNewest | compile-single.js:20-42 | `findSolc` returns `''` exactly when no directory reaches 0.8.28 with a regular file; otherwise it returns the first regular file of the earliest qualifying directory with the highest score |
| CombinedJs.JsStats.constructor | compile-combined.js:193-194 | a stats array starts empty |
| CombinedJs.JsStats.Push | compile-combined.js:142-146 | `stats.push` appends one row |
| CombinedJs.CompileAndGetRuntime | compile-combined.js:126-150 | one module: push its stats row (path, `0x` + section in hex, byte length before the rewrite), then return the rewritten body padded to a section, or the padding error |
| CombinedJs.ModuleBodyRoundTrip | compile-combined.js:141 | when the compiled output holds the watermark's marker only after the filler, the module body is `5b` + the code after it |
| CombinedJs.StatLengthDecidesFit | compile-combined.js:141-149 | the recorded length is over `SECTION_LENGTH` exactly when padding fails, with or without the PUSH0 rewrite |
| CombinedJs.SectionBodyStartsWithJumpdest | compile-combined.js:141-148 | every section body starts with `5b`, with or without the PUSH0 rewrite |
| CombinedJs.Bodies | compile-combined.js:169-171 | there is one section body per file |
| CombinedJs.Stats | compile-combined.js:169-171 | there is one stats row per file |
| CombinedJs.CompileNext | compile-combined.js:169-171 | one pass of the loop pushes the next stats row and returns the next padded section |
| CombinedJs.CompileCombined | compile-combined.js:167-173 | `compileCombined` returns the assembled runtime; on success it pushes one stats row per file in order; on failure the last pushed row is the oversized module |
| CombinedJs.BodyBeginsWithJumpdest | compile-combined.js:170 | module `j`'s section body starts with `5b` |
| CombinedJs.CombinedLayout | compile-combined.js:167-173 | with whole-byte bodies, the runtime is `(files + 1) · SECTION_LENGTH` bytes, starts with the padded dispatcher, and each module `k` starts with `5b` at byte `64k` |
| CombinedJs.BuildResultOk | compile-combined.js:193-199 | with whole-byte bodies in both variants, the build succeeds exactly when every module fits in both; then both runtimes have the same length and the initcode ends with them |
| CombinedJs.Build | compile-combined.js:193-199 | the main flow yields `BuildResult`, and on success each stats array holds its variant's rows |
| CombinedPy.PyStats.constructor | compile_combined.py:93 | the stats table starts with its header row |
| CombinedPy.PyStats.Append | compile_combined.py:58 | `stats.append` adds one row |
| CombinedPy.ModuleBodyFails | compile_combined.py:57 | extraction raises exactly in section 0, where the marker is empty |
| CombinedPy.StatRowDecidesFit | compile_combined.py:58 | a stats row has three cells; the section and byte-count cells are decimal, and the count is over `SECTION_LENGTH` exactly when `rpad_hex` fails |
| CombinedPy.CompileAndGetRuntime | compile_combined.py:29-61 | one module: without a marker it raises and appends nothing; otherwise it appends the row and returns the padded body, or the padding error |
| CombinedPy.SectionBodyIsModuleBody | compile_combined.py:57 | from section 1 on, extraction always succeeds |
| CombinedPy.Bodies | compile_combined.py:70-71 | there is one section body per file |
| CombinedPy.Stats | compile_combined.py:70-71 | there is one stats row per file |
| CombinedPy.CompileNext | compile_combined.py:70-71 | one pass of the loop appends the next stats row and returns the next padded section |
| CombinedPy.CompileCombined | compile_combined.py:67-72 | `compile_combined` returns the joined sections; on success it appends one row per file in order; on failure the last row is the oversized module |
| CombinedPy.ModuleBodyRoundTrip | compile_combined.py:57 | when the stripped output holds the marker only after the filler, the body is `5b` + the code after it |
| CombinedPy.SectionBodyStartsWithJumpdest | compile_combined.py:57 | every section body starts with `5b` |
| CombinedPy.BodyBeginsWithJumpdest | compile_combined.py:71 | module `j`'s section body starts with `5b` |
| CombinedPy.CombinedLayout | compile_combined.py:67-72 | with whole-byte bodies, the runtime is `(files + 1) · SECTION_LENGTH` bytes, starts with the padded dispatcher, and each module `k` starts with `5b` at byte `64k` |
| CombinedPy.AssembledWraps | compile_combined.py:63-72 | for fewer than 1023 whole-byte modules, `to_initcode` wraps the runtime in its 10-byte header |
| CombinedPy.BuildResultOk | compile_combined.py:93-98 | the build succeeds exactly when every module fits; with whole-byte bodies and fewer than 1023 modules, the runtime then has `(files + 1) · SECTION_LENGTH` bytes and the initcode wraps it |
| CombinedPy.Build | compile_combined.py:93-98 | the main flow yields `BuildResult`; on success the stats table is the header row plus one row per file |
| CombinedPy.ScriptsAgreeOnModule | compile_combined.py:33-57 | with the same drawn values, the same rewrite and one marker in the output, the Python body equals the JavaScript non-PUSH0 body |
| CompileSingle.YulPathCases | compile-single.js:7-8 | `.yul` in any letter case is accepted; `.yul.bak`, `.yu` and `.yml` are not |
| CompileSingle.GetRuntimeAfterFirst | compile-single.js:94 | with `f3fe` present, `getRuntime` is the text after its first occurrence |
| CompileSingle.GetRuntimeMissing | compile-single.js:94 | with `f3fe` absent, `getRuntime` drops the first three characters |
| CompileSingle.GetRuntimeRoundTrip | compile-single.js:94 | `getRuntime(ctor + 'f3fe' + runtime)` is `runtime` when `f3fe` does not start inside `ctor` |
| CompileSingle.CompileSingle | compile-single.js:6-11 | the script stops before compiling exactly when the last argument does not end in `.yul` in some letter case |
| CompileSingle.CompileSingleRuntimes | compile-single.js:96-99 | for a `.yul` argument, the script reports both initcodes and the runtime after `f3fe` in each |

## Left out

- Process invocation is not modelled: `spawn`, `subprocess.run` and the `solc`, `forge` and `cast` calls. The compiler is the function parameter `solc`, and the keccak hash of the initcode is not computed.
- The filesystem and environment are not modelled: reading sources, temporary files, `readdirSync`/`statSync`/`existsSync`, HOME, USERPROFILE and XDG_DATA_HOME, and the `deployments/` and `test/data/` writes. `findSolc` works on an abstract listing of entries.
- `solcPath`'s lookup order (`~/.svm`, then the XDG directory), its `forge build` retry and its fallback to `solc` are not modelled, because they are filesystem and process steps.
- The two variant builds run under `Promise.all`; the model runs them one after the other with separate stats arrays.
- `Math.random` and `random.randint` become parameters: JS picks and Python draws.
- RandomHex.PyRandomHexNoPrefix: requires that some draw is kept, because the Python `while True` loop never returns otherwise.
- The regular-expression rewrite of the runtime header is the parameter `patch`. The model does not capture that the JavaScript pattern replaces the first match and Python's `re.sub` replaces every match.
- Printing is not modelled: `console.log`, `console.table`, `print` and `print_table`. `hexLen` is undefined in compile-single.js's `consoleLogHex`, but no call reaches that path.
- compile_single.py is not part of this model. Its `main` repeats compile-single.js's logic (the last hex token, the text after `f3fe`) around `subprocess` and `print`.
- Initcode.ToInitcodeHeader: holds only for runtimes under 65536 bytes. `to_initcode` does not check this bound. A longer runtime gets a length of three or more bytes after `61`, so the header is no longer 10 bytes and the copy offset `0x0a` is wrong.
- Sections.AssembleLayout, Sections.ModuleStartsAtItsSection, Sections.AssembledEntries, CombinedJs.CombinedLayout, CombinedJs.BuildResultOk and CombinedPy.CombinedLayout assume whole-byte bodies. The scripts do not ensure this: the cut after the marker can fall on any hex digit, and padding keeps an odd digit. With an odd-length body, every later section shifts by one digit and the runtime is not `(files + 1) · SECTION_LENGTH` bytes.
- SolcSelect.SemverScore: the `~~` 32-bit truncation of each component is left out; scores are unbounded integers. This agrees with the source for components below 2^31.
- SolcSelect.JoinPath: `path.join` normalisation is left out; paths are joined with `/`.
- The meaning of the bytes as EVM code is not modelled. Opcodes are hex text, and only the layout facts are proved.
- `yul/ConditionalInitcode.yul` is not part of this model. The stub's hex is whatever the compiler prints for it.
- CombinedJs.BuildResult uses the conditional initcode as written. It agrees with the corrected version for runtimes of 256 bytes or more (Initcode.ConditionalInitcodesAgree), which is every runtime of three or more modules.
- Where the scripts' documented behaviour and their code differ, the model follows the code:
  - A `6033` or `61ffee` placeholder that does not occur is left unpatched; the build does not fail.
  - When the marker is missing, the JavaScript body is `5b` alone, and the Python body is `5b` plus the whole stripped output.
  - Python's `split(sep)[-1]` is a left-to-right, non-overlapping split. It can differ from "after the last occurrence" when occurrences of the marker overlap.

## Findings

| source | as written | input that shows it | evidently intended | confidence | as-written member | corrected member |
|---|---|---|---|---|---|---|
| compile-combined.js:152-153 | `toInitcode` pads the length with `hexNoPrefix(len, 2)`, but a truthy width never pads. A runtime under 256 bytes gets a one-byte PUSH2 operand, so PUSH2 swallows the `80` that follows. `toInitcode` has no caller in the script (the build uses `toConditionalInitcode`), so no output carries it. | the runtime `5b00` gives `610280600a3d393df35b00` | a 2-byte operand, as in `to_initcode`: `61000280600a3d393df35b00` | not executed | Initcode.JsToInitcodeShortHeader | Initcode.ToInitcodeHeader |
| compile-combined.js:156-163 | `toConditionalInitcode` writes `61` + `hexNoPrefix(len, 2)` over `61ffee`. For runtimes under 256 bytes that is two hex digits, so the patched stub is one byte shorter and every offset after it moves. | two equal runtimes of 128 bytes (one module) | a 2-byte operand that keeps the stub's length | not executed | Initcode.JsConditionalShortOperand | Initcode.ConditionalInitcodeLayout |
