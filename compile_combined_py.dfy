/**
 * compile_combined.py: the same combined runtime as compile-combined.js,
 * built once, for london, with the Python's own random draws, marker
 * search and stats rows, and wrapped in the plain initcode. The compiler
 * is a function from the patched source text and the EVM version to its
 * output; `re.sub` over the runtime object's header is a function from the
 * source and the replacement header to the patched source.
 */
module CombinedPy {
  import opened Wrappers
  import opened HexCodec
  import opened TextSearch
  import opened Sections
  import opened RandomHex
  import opened Watermark
  import opened Extraction
  import opened Initcode
  import opened SeqFacts
  import opened Decimal
  import CombinedJs

  /** The row `stats` starts with, before any module is compiled. */
  const HeaderRow: seq<string> := ["file path", "jump section", "runtime bytes"]

  /** The `stats` list the build appends a row to per module. */
  class PyStats {
    var rows: seq<seq<string>>

    constructor ()
      ensures rows == [HeaderRow]
    {
      rows := [HeaderRow];
    }

    method Append(row: seq<string>)
      modifies this
      ensures rows == old(rows) + [row]
    {
      rows := rows + [row];
    }
  }

  /** The draws made for one module in section `section`: one retry sequence per store. */
  predicate ModuleDrawsFor(section: nat, draws: seq<seq<nat>>) {
    |draws| == section * MstoresPerSection && PyDrawsFit(draws)
  }

  /**
   * The body extracted for `file` in section `section`: `5b` followed by
   * what comes after the last marker the split meets in the stripped
   * output the compiler prints for the watermarked source.
   */
  function ModuleBody(file: SourceFile, section: nat, draws: seq<seq<nat>>,
                      patch: (string, string) -> string, solc: (string, string) -> string): Result<string>
    requires ModuleDrawsFor(section, draws)
  {
    var values := PyValues(draws);
    PyExtract(solc(patch(file.text, RuntimeHeader + Stores(values)), "london"), Marker(values))
  }

  /** Only section 0, which has no stores and so an empty marker, makes the split raise. */
  lemma ModuleBodyFails(file: SourceFile, section: nat, draws: seq<seq<nat>>,
                        patch: (string, string) -> string, solc: (string, string) -> string)
    requires ModuleDrawsFor(section, draws)
    ensures ModuleBody(file, section, draws, patch, solc).Err? <==> section == 0
  {
    var values := PyValues(draws);
    StorePlace(0, 0);
    MarkerEmpty(values);
    assert values == [] <==> section == 0;
    var out := solc(patch(file.text, RuntimeHeader + Stores(values)), "london");
    assert PyExtract(out, Marker(values)).Err? <==> section == 0;
  }

  /** The stats row `[file_path, str(jump_section), str(len(runtime) >> 1)]`. */
  function StatRow(file: SourceFile, section: nat, body: string): seq<string> {
    [file.path, DecimalString(section), DecimalString(HexLen(body))]
  }

  /**
   * A stats row is all decimal text, and its byte count exceeds
   * `SectionLength` exactly when padding the body fails.
   */
  lemma StatRowDecidesFit(file: SourceFile, section: nat, body: string)
    ensures |StatRow(file, section, body)| == |HeaderRow|
    ensures AllDigits(StatRow(file, section, body)[1]) && DecimalValue(StatRow(file, section, body)[1]) == section
    ensures AllDigits(StatRow(file, section, body)[2])
    ensures RPad(body).Err? <==> DecimalValue(StatRow(file, section, body)[2]) > SectionLength
  {
    DecimalRoundTrip(section);
    DecimalRoundTrip(HexLen(body));
  }

  /**
   * compile_combined.py `compile_and_get_runtime`: watermark, compile for
   * london, extract, append the stats row, pad. An empty marker raises
   * before the row is appended; a body that is too long raises after.
   */
  method CompileAndGetRuntime(file: SourceFile, section: nat, stats: PyStats, draws: seq<seq<nat>>,
                              patch: (string, string) -> string, solc: (string, string) -> string)
    returns (r: Result<string>)
    requires ModuleDrawsFor(section, draws)
    modifies stats
    ensures ModuleBody(file, section, draws, patch, solc).Err? ==>
              r == Err(EmptySeparator) && stats.rows == old(stats.rows)
    ensures ModuleBody(file, section, draws, patch, solc).Ok? ==>
              var body := ModuleBody(file, section, draws, patch, solc).value;
              r == RPad(body) && stats.rows == old(stats.rows) + [StatRow(file, section, body)]
  {
    var replacement, sedFrom := PyWatermark(section, draws);
    var code := patch(file.text, replacement);
    var extracted := PyExtract(solc(code, "london"), sedFrom);
    if extracted.Err? {
      return Err(extracted.error);
    }
    var runtime := extracted.value;
    stats.Append([file.path, DecimalString(section), DecimalString(HexLen(runtime))]);
    r := RPad(runtime);
  }

  /** Module `i` of the list goes to section `i + 1`, with its own draws. */
  predicate DrawsForAll(files: seq<SourceFile>, draws: seq<seq<seq<nat>>>) {
    |draws| == |files| && forall i :: 0 <= i < |draws| ==> ModuleDrawsFor(i + 1, draws[i])
  }

  /** The body of a module in a section from 1 on, where the split always has a marker. */
  function SectionBody(file: SourceFile, section: nat, draws: seq<seq<nat>>,
                       patch: (string, string) -> string, solc: (string, string) -> string): string
    requires ModuleDrawsFor(section, draws) && section >= 1
  {
    var values := PyValues(draws);
    assert |values| >= 1 && |Marker(values)| >= 2;
    PySplitBody(solc(patch(file.text, RuntimeHeader + Stores(values)), "london"), Marker(values))
  }

  /** The section bodies of the modules, in input order: what the runtime is assembled from. */
  function Bodies(files: seq<SourceFile>, draws: seq<seq<seq<nat>>>,
                  patch: (string, string) -> string, solc: (string, string) -> string): (bodies: seq<string>)
    requires DrawsForAll(files, draws)
    ensures |bodies| == |files|
  {
    seq(|files|, j requires 0 <= j < |files| => SectionBody(files[j], j + 1, draws[j], patch, solc))
  }

  /** The stats rows of the modules, in the order they are appended. */
  function Stats(files: seq<SourceFile>, draws: seq<seq<seq<nat>>>,
                 patch: (string, string) -> string, solc: (string, string) -> string): (rows: seq<seq<string>>)
    requires DrawsForAll(files, draws)
    ensures |rows| == |files|
  {
    seq(|files|, j requires 0 <= j < |files| =>
                   StatRow(files[j], j + 1, SectionBody(files[j], j + 1, draws[j], patch, solc)))
  }

  /** The module in section `section >= 1` yields its section body. */
  lemma SectionBodyIsModuleBody(file: SourceFile, section: nat, draws: seq<seq<nat>>,
                                patch: (string, string) -> string, solc: (string, string) -> string)
    requires ModuleDrawsFor(section, draws) && section >= 1
    ensures ModuleBody(file, section, draws, patch, solc) == Ok(SectionBody(file, section, draws, patch, solc))
  {
    ModuleBodyFails(file, section, draws, patch, solc);
  }

  /**
   * One round of the loop in `compile_combined`: module `i` is compiled
   * for section `i + 1`, its stats row appended and its padded body added.
   */
  method CompileNext(files: seq<SourceFile>, stats: PyStats, draws: seq<seq<seq<nat>>>,
                     patch: (string, string) -> string, solc: (string, string) -> string,
                     i: nat, ghost bodies: seq<string>, ghost rows: seq<seq<string>>, ghost before: seq<seq<string>>)
    returns (m: Result<string>)
    requires DrawsForAll(files, draws) && i < |files|
    requires bodies == Bodies(files, draws, patch, solc) && rows == Stats(files, draws, patch, solc)
    requires stats.rows == before + rows[..i]
    modifies stats
    ensures stats.rows == before + rows[..i + 1]
    ensures m == RPad(bodies[i])
  {
    RowAt(files, draws, patch, solc, i);
    SectionBodyIsModuleBody(files[i], i + 1, draws[i], patch, solc);
    ghost var rowsBefore := stats.rows;
    m := CompileAndGetRuntime(files[i], i + 1, stats, draws[i], patch, solc);
    assert stats.rows == rowsBefore + [rows[i]];
    TakeSnoc(rows, i);
    Associative(before, rows[..i], [rows[i]]);
  }

  /**
   * compile_combined.py `compile_combined`: the padded dispatcher, then
   * each module's padded section in order. A module that does not fit
   * ends the build; its stats row has been appended by then, the later
   * ones have not.
   */
  method CompileCombined(files: seq<SourceFile>, stats: PyStats, draws: seq<seq<seq<nat>>>,
                         patch: (string, string) -> string, solc: (string, string) -> string)
    returns (r: Result<string>, ghost pushed: nat)
    requires DrawsForAll(files, draws)
    modifies stats
    ensures r == Assemble(Bodies(files, draws, patch, solc))
    ensures pushed <= |files|
    ensures stats.rows == old(stats.rows) + Stats(files, draws, patch, solc)[..pushed]
    ensures r.Ok? ==> pushed == |files| && stats.rows == old(stats.rows) + Stats(files, draws, patch, solc)
    ensures r.Err? ==> 1 <= pushed && HexLen(Bodies(files, draws, patch, solc)[pushed - 1]) > SectionLength
  {
    ghost var before := stats.rows;
    ghost var bodies := Bodies(files, draws, patch, solc);
    ghost var rows := Stats(files, draws, patch, solc);
    DispatcherBytes();
    var s := RPad(Dispatcher()).value;
    var i := 0;
    while i < |files|
      invariant 0 <= i <= |files|
      invariant Assemble(bodies[..i]) == Ok(s)
      invariant stats.rows == before + rows[..i]
    {
      var m := CompileNext(files, stats, draws, patch, solc, i, bodies, rows, before);
      AssembleSnoc(bodies, i, s);
      if m.Err? {
        AssembleErrSticks(bodies, i + 1);
        return Err(m.error), i + 1;
      }
      s := s + m.value;
      i := i + 1;
    }
    TakeAll(bodies);
    TakeAll(rows);
    return Ok(s), i;
  }

  /** What the script writes out: the combined runtime and the initcode that deploys it. */
  datatype Artifacts = Artifacts(runtime: string, initcode: string)

  /** What the script's main flow yields: the combined runtime, then `to_initcode` of it. */
  function BuildResult(files: seq<SourceFile>, draws: seq<seq<seq<nat>>>,
                       patch: (string, string) -> string, solc: (string, string) -> string): Result<Artifacts>
    requires DrawsForAll(files, draws)
  {
    match Assemble(Bodies(files, draws, patch, solc))
    case Err(e) => Err(e)
    case Ok(runtime) => Ok(Artifacts(runtime, ToInitcode(runtime)))
  }

  /**
   * The script's main flow: `stats` starts with the header row, the
   * modules are compiled into one runtime, and the runtime is wrapped in
   * the plain initcode.
   */
  method Build(files: seq<SourceFile>, draws: seq<seq<seq<nat>>>,
               patch: (string, string) -> string, solc: (string, string) -> string)
    returns (r: Result<Artifacts>, stats: PyStats)
    requires DrawsForAll(files, draws)
    ensures r == BuildResult(files, draws, patch, solc)
    ensures |stats.rows| >= 1 && stats.rows[0] == HeaderRow
    ensures r.Ok? ==> stats.rows == [HeaderRow] + Stats(files, draws, patch, solc)
  {
    stats := new PyStats();
    var runtime, _ := CompileCombined(files, stats, draws, patch, solc);
    if runtime.Err? {
      return Err(runtime.error), stats;
    }
    var initcode := ToInitcode(runtime.value);
    r := Ok(Artifacts(runtime.value, initcode));
  }

  /**
   * When the stripped output the compiler prints for the watermarked
   * source is the watermark's own code, the marker and the module's code,
   * with the marker only there, the module's body is `5b` and that code.
   */
  lemma ModuleBodyRoundTrip(file: SourceFile, section: nat, draws: seq<seq<nat>>,
                            patch: (string, string) -> string, solc: (string, string) -> string,
                            filler: string, code: string)
    requires ModuleDrawsFor(section, draws) && section >= 1
    requires var values := PyValues(draws);
             var out := solc(patch(file.text, RuntimeHeader + Stores(values)), "london");
             && Strip(out) == filler + Marker(values) + code
             && forall k :: OccursAt(filler + Marker(values) + code, Marker(values), k) ==> k == |filler|
    ensures SectionBody(file, section, draws, patch, solc) == "5b" + code
  {
    var values := PyValues(draws);
    ModuleBodyFails(file, section, draws, patch, solc);
    PyExtractRoundTrip(solc(patch(file.text, RuntimeHeader + Stores(values)), "london"),
                       filler, Marker(values), code);
  }

  /** Section bodies start with the `5b` JUMPDEST. */
  lemma SectionBodyStartsWithJumpdest(file: SourceFile, section: nat, draws: seq<seq<nat>>,
                                      patch: (string, string) -> string, solc: (string, string) -> string)
    requires ModuleDrawsFor(section, draws) && section >= 1
    ensures BeginsWithJumpdest(SectionBody(file, section, draws, patch, solc))
  {
    var values := PyValues(draws);
    ModuleBodyFails(file, section, draws, patch, solc);
    ExtractStartsWithJumpdest(solc(patch(file.text, RuntimeHeader + Stores(values)), "london"), Marker(values));
  }

  /** Body `j` of the combined runtime is the section body of module `j`, in section `j + 1`. */
  lemma BodyAt(files: seq<SourceFile>, draws: seq<seq<seq<nat>>>,
               patch: (string, string) -> string, solc: (string, string) -> string, j: nat)
    requires DrawsForAll(files, draws) && j < |files|
    ensures ModuleDrawsFor(j + 1, draws[j])
    ensures Bodies(files, draws, patch, solc)[j] == SectionBody(files[j], j + 1, draws[j], patch, solc)
  {
  }

  /** Stats row `j` is the row of module `j`'s section body, in section `j + 1`. */
  lemma RowAt(files: seq<SourceFile>, draws: seq<seq<seq<nat>>>,
              patch: (string, string) -> string, solc: (string, string) -> string, j: nat)
    requires DrawsForAll(files, draws) && j < |files|
    ensures ModuleDrawsFor(j + 1, draws[j])
    ensures Stats(files, draws, patch, solc)[j] == StatRow(files[j], j + 1, SectionBody(files[j], j + 1, draws[j], patch, solc))
  {
  }

  /** Body `j` of the combined runtime, the section body of module `j`, begins with `5b`. */
  lemma BodyBeginsWithJumpdest(files: seq<SourceFile>, draws: seq<seq<seq<nat>>>,
                               patch: (string, string) -> string, solc: (string, string) -> string, j: nat)
    requires DrawsForAll(files, draws) && j < |files|
    ensures BeginsWithJumpdest(Bodies(files, draws, patch, solc)[j])
  {
    BodyAt(files, draws, patch, solc, j);
    SectionBodyStartsWithJumpdest(files[j], j + 1, draws[j], patch, solc);
  }

  /**
   * Layout of the combined runtime when its bodies have whole bytes: the
   * padded dispatcher, then one `SectionLength`-byte section per module,
   * and module `k` (from 1) starts at byte `k * SectionLength` with `5b`.
   */
  lemma CombinedLayout(files: seq<SourceFile>, draws: seq<seq<seq<nat>>>,
                       patch: (string, string) -> string, solc: (string, string) -> string)
    requires DrawsForAll(files, draws)
    requires Assemble(Bodies(files, draws, patch, solc)).Ok?
    requires AllEven(Bodies(files, draws, patch, solc))
    ensures |Assemble(Bodies(files, draws, patch, solc)).value| == 2 * SectionLength * (|files| + 1)
    ensures DispatcherFirst(Assemble(Bodies(files, draws, patch, solc)).value)
    ensures forall k :: 1 <= k <= |files| ==> JumpdestAt(Assemble(Bodies(files, draws, patch, solc)).value, k)
  {
    forall j | 0 <= j < |files|
      ensures BeginsWithJumpdest(Bodies(files, draws, patch, solc)[j])
    {
      BodyBeginsWithJumpdest(files, draws, patch, solc, j);
    }
    AssembledEntries(Bodies(files, draws, patch, solc));
  }

  /**
   * The build succeeds exactly when every module fits its section. With
   * whole-byte bodies and fewer than 1023 modules the initcode's PUSH2
   * then carries the runtime's byte length and the runtime follows the
   * 10-byte header unchanged.
   */
  lemma BuildResultOk(files: seq<SourceFile>, draws: seq<seq<seq<nat>>>,
                      patch: (string, string) -> string, solc: (string, string) -> string)
    requires DrawsForAll(files, draws)
    ensures BuildResult(files, draws, patch, solc).Ok? <==> AllFit(Bodies(files, draws, patch, solc))
    ensures var r := BuildResult(files, draws, patch, solc);
            r.Ok? && AllEven(Bodies(files, draws, patch, solc)) && |files| < 1023 ==>
              && |r.value.runtime| == 2 * SectionLength * (|files| + 1)
              && WrapsRuntime(r.value.initcode, r.value.runtime)
  {
    var bodies := Bodies(files, draws, patch, solc);
    AssembleFails(bodies);
    if Assemble(bodies).Ok? && AllEven(bodies) && |files| < 1023 {
      AssembledWraps(bodies);
    }
  }

  /** `n + 1` whole sections, with `n < 1023`, are fewer than 65536 bytes. */
  lemma SectionsFitPush2(runtime: string, n: nat)
    requires |runtime| == 2 * SectionLength * (n + 1) && n < 1023
    ensures HexLen(runtime) < 65536
  {
    assert |runtime| == 128 * (n + 1);
    assert |runtime| < 131072;
  }

  /** A runtime assembled from fewer than 1023 whole-byte bodies fits the PUSH2 of the initcode. */
  lemma AssembledWraps(bodies: seq<string>)
    requires Assemble(bodies).Ok? && AllEven(bodies) && |bodies| < 1023
    ensures |Assemble(bodies).value| == 2 * SectionLength * (|bodies| + 1)
    ensures WrapsRuntime(ToInitcode(Assemble(bodies).value), Assemble(bodies).value)
  {
    var runtime := Assemble(bodies).value;
    AssembleLength(bodies);
    SectionsFitPush2(runtime, |bodies|);
    ToInitcodeHeader(runtime);
  }

  /**
   * The two scripts agree on a module compiled for london when they draw
   * the same values, their header rewrites give the same source, and the
   * marker occurs in the compiler's output only where the watermark puts
   * it (its last hex run being all of its stripped text).
   */
  lemma ScriptsAgreeOnModule(file: SourceFile, section: nat, picks: seq<seq<Pick>>, draws: seq<seq<nat>>,
                             patchJs: (string, string) -> string, patchPy: (string, string) -> string,
                             solc: (string, string) -> string, filler: string, code: string)
    requires CombinedJs.PicksFor(section, picks) && ModuleDrawsFor(section, draws) && section >= 1
    requires JsValues(picks) == PyValues(draws)
    requires var src := RuntimeHeader + Stores(JsValues(picks));
             patchJs(file.text, src) == patchPy(file.text, src)
    requires var values := JsValues(picks);
             var out := solc(patchJs(file.text, RuntimeHeader + Stores(values)), "london");
             && LastHex(out) == filler + Marker(values) + code
             && Strip(out) == filler + Marker(values) + code
             && forall k :: OccursAt(filler + Marker(values) + code, Marker(values), k) ==> k == |filler|
    ensures CombinedJs.ModuleBody(file, section, false, picks, patchJs, solc) == SectionBody(file, section, draws, patchPy, solc)
  {
    var values := JsValues(picks);
    var s := filler + Marker(values) + code;
    forall k | 0 <= k < |filler|
      ensures !OccursAt(s, Marker(values), k)
    {
    }
    CombinedJs.ModuleBodyRoundTrip(file, section, false, picks, patchJs, solc, filler, code);
    ModuleBodyRoundTrip(file, section, draws, patchPy, solc, filler, code);
  }
}
