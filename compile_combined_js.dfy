/**
 * compile-combined.js: compile every module with its watermark, cut the
 * bodies out, lay them out one section each behind the dispatcher, once
 * with PUSH0 (shanghai) and once without (london), and wrap both in the
 * conditional initcode. The compiler is a function from the patched
 * source text and the EVM version to its output; the rewrite of the
 * runtime object's header (a regular expression in the script) is a
 * function from the source and the replacement header to the patched
 * source.
 */
module CombinedJs {
  import opened Wrappers
  import opened HexCodec
  import opened TextSearch
  import opened Sections
  import opened RandomHex
  import opened Watermark
  import opened Extraction
  import opened Initcode
  import opened SeqFacts

  /** A row of `stats`: `{path, section: '0x' + hexNoPrefix(section, 1), length}`. */
  datatype JsStat = JsStat(path: string, section: string, length: nat)

  /** The `stats` array the build pushes a row onto per module. */
  class JsStats {
    var rows: seq<JsStat>

    constructor ()
      ensures rows == []
    {
      rows := [];
    }

    method Push(row: JsStat)
      modifies this
      ensures rows == old(rows) + [row]
    {
      rows := rows + [row];
    }
  }

  /** `usePush0 ? 'shanghai' : 'london'`. */
  function EvmVersion(usePush0: bool): string {
    if usePush0 then "shanghai" else "london"
  }

  /** The random digits drawn for one module in section `section`: one pick list per store. */
  predicate PicksFor(section: nat, picks: seq<seq<Pick>>) {
    |picks| == section * MstoresPerSection && JsPicksFit(picks)
  }

  /**
   * The body extracted for `file` in section `section`: `5b` followed by
   * what comes after the marker in the last hex run of the compiler's
   * output for the watermarked source.
   */
  function ModuleBody(file: SourceFile, section: nat, usePush0: bool, picks: seq<seq<Pick>>,
                      patch: (string, string) -> string, solc: (string, string) -> string): string
    requires PicksFor(section, picks)
  {
    var values := JsValues(picks);
    JsExtract(solc(patch(file.text, RuntimeHeader + Stores(values)), EvmVersion(usePush0)), Marker(values))
  }

  /** The body as it goes into its section: the PUSH0 variant rewrites its first `5f80`. */
  function SectionBody(file: SourceFile, section: nat, usePush0: bool, picks: seq<seq<Pick>>,
                       patch: (string, string) -> string, solc: (string, string) -> string): string
    requires PicksFor(section, picks)
  {
    var body := ModuleBody(file, section, usePush0, picks, patch, solc);
    if usePush0 then Push0Rewrite(body) else body
  }

  /** The stats row of a module: its byte length before the rewrite and before padding. */
  function StatOf(file: SourceFile, section: nat, usePush0: bool, picks: seq<seq<Pick>>,
                  patch: (string, string) -> string, solc: (string, string) -> string): JsStat
    requires PicksFor(section, picks)
  {
    JsStat(file.path, "0x" + EvenHex(section), HexLen(ModuleBody(file, section, usePush0, picks, patch, solc)))
  }

  /**
   * compile-combined.js `compileAndGetRuntime`: watermark, compile,
   * extract, record the stats row, rewrite for PUSH0, pad.
   */
  method CompileAndGetRuntime(file: SourceFile, section: nat, usePush0: bool, stats: JsStats,
                              picks: seq<seq<Pick>>,
                              patch: (string, string) -> string, solc: (string, string) -> string)
    returns (r: Result<string>)
    requires PicksFor(section, picks)
    modifies stats
    ensures stats.rows == old(stats.rows) + [StatOf(file, section, usePush0, picks, patch, solc)]
    ensures r == RPad(SectionBody(file, section, usePush0, picks, patch, solc))
  {
    var replacement, sedFrom := JsWatermark(section, picks);
    var src := patch(file.text, replacement);
    var evmVersion := EvmVersion(usePush0);
    var runtime := JsExtract(solc(src, evmVersion), sedFrom);
    stats.Push(JsStat(file.path, "0x" + JsHexNoPrefix(section, Some(1)).value, HexLen(runtime)));
    if usePush0 {
      runtime := Push0Rewrite(runtime);
    }
    r := RPad(runtime);
  }

  /**
   * When the last hex run the compiler prints for the watermarked source
   * is the watermark's own code, the marker and the module's code, with
   * the marker nowhere earlier, the module's body is `5b` and that code.
   */
  lemma ModuleBodyRoundTrip(file: SourceFile, section: nat, usePush0: bool, picks: seq<seq<Pick>>,
                            patch: (string, string) -> string, solc: (string, string) -> string,
                            filler: string, code: string)
    requires PicksFor(section, picks)
    requires var values := JsValues(picks);
             var out := solc(patch(file.text, RuntimeHeader + Stores(values)), EvmVersion(usePush0));
             && LastHex(out) == filler + Marker(values) + code
             && forall k :: 0 <= k < |filler| ==> !OccursAt(filler + Marker(values) + code, Marker(values), k)
    ensures ModuleBody(file, section, usePush0, picks, patch, solc) == "5b" + code
  {
    var values := JsValues(picks);
    JsExtractRoundTrip(solc(patch(file.text, RuntimeHeader + Stores(values)), EvmVersion(usePush0)),
                       filler, Marker(values), code);
  }

  /**
   * The stats row's length is taken before the PUSH0 rewrite, which keeps
   * the length, so it exceeds `SectionLength` exactly when padding the
   * module's section fails.
   */
  lemma StatLengthDecidesFit(file: SourceFile, section: nat, usePush0: bool, picks: seq<seq<Pick>>,
                             patch: (string, string) -> string, solc: (string, string) -> string)
    requires PicksFor(section, picks)
    ensures RPad(SectionBody(file, section, usePush0, picks, patch, solc)).Err?
            <==> StatOf(file, section, usePush0, picks, patch, solc).length > SectionLength
  {
    Push0RewriteSpec(ModuleBody(file, section, usePush0, picks, patch, solc));
  }

  /** Section bodies start with the `5b` JUMPDEST; the PUSH0 rewrite does not touch it. */
  lemma SectionBodyStartsWithJumpdest(file: SourceFile, section: nat, usePush0: bool, picks: seq<seq<Pick>>,
                                      patch: (string, string) -> string, solc: (string, string) -> string)
    requires PicksFor(section, picks)
    ensures BeginsWithJumpdest(SectionBody(file, section, usePush0, picks, patch, solc))
  {
    var values := JsValues(picks);
    var body := ModuleBody(file, section, usePush0, picks, patch, solc);
    ExtractStartsWithJumpdest(solc(patch(file.text, RuntimeHeader + Stores(values)), EvmVersion(usePush0)), Marker(values));
    Push0RewriteSpec(body);
  }

  /** Module `i` of the list goes to section `i + 1`, with its own picks. */
  predicate PicksForAll(files: seq<SourceFile>, picks: seq<seq<seq<Pick>>>) {
    |picks| == |files| && forall i :: 0 <= i < |picks| ==> PicksFor(i + 1, picks[i])
  }

  /** The section bodies of the modules, in input order: what the runtime is assembled from. */
  function Bodies(files: seq<SourceFile>, usePush0: bool, picks: seq<seq<seq<Pick>>>,
                  patch: (string, string) -> string, solc: (string, string) -> string): (bodies: seq<string>)
    requires PicksForAll(files, picks)
    ensures |bodies| == |files|
  {
    seq(|files|, j requires 0 <= j < |files| && PicksFor(j + 1, picks[j]) => SectionBody(files[j], j + 1, usePush0, picks[j], patch, solc))
  }

  /** The stats rows of the modules, in the order they are pushed. */
  function Stats(files: seq<SourceFile>, usePush0: bool, picks: seq<seq<seq<Pick>>>,
                 patch: (string, string) -> string, solc: (string, string) -> string): (rows: seq<JsStat>)
    requires PicksForAll(files, picks)
    ensures |rows| == |files|
  {
    seq(|files|, j requires 0 <= j < |files| && PicksFor(j + 1, picks[j]) => StatOf(files[j], j + 1, usePush0, picks[j], patch, solc))
  }

  /**
   * One round of the loop in `compileCombined`: module `i` is compiled for
   * section `i + 1`, its stats row pushed and its padded body appended.
   */
  method CompileNext(files: seq<SourceFile>, usePush0: bool, stats: JsStats, picks: seq<seq<seq<Pick>>>,
                     patch: (string, string) -> string, solc: (string, string) -> string,
                     i: nat, s: string, ghost bodies: seq<string>, ghost rows: seq<JsStat>, ghost before: seq<JsStat>)
    returns (m: Result<string>)
    requires PicksForAll(files, picks) && i < |files|
    requires bodies == Bodies(files, usePush0, picks, patch, solc) && rows == Stats(files, usePush0, picks, patch, solc)
    requires Assemble(bodies[..i]) == Ok(s)
    requires stats.rows == before + rows[..i]
    modifies stats
    ensures stats.rows == before + rows[..i + 1]
    ensures m == RPad(bodies[i])
  {
    ghost var old_rows := stats.rows;
    m := CompileAndGetRuntime(files[i], i + 1, usePush0, stats, picks[i], patch, solc);
    assert rows[i] == StatOf(files[i], i + 1, usePush0, picks[i], patch, solc);
    assert stats.rows == old_rows + [rows[i]];
    TakeSnoc(rows, i);
    Associative(before, rows[..i], [rows[i]]);
  }

  /**
   * compile-combined.js `compileCombined`: the padded dispatcher, then each
   * module's padded section in order. A module that does not fit ends the
   * build; its stats row has been pushed by then, the later ones have not.
   */
  method CompileCombined(files: seq<SourceFile>, usePush0: bool, stats: JsStats, picks: seq<seq<seq<Pick>>>,
                         patch: (string, string) -> string, solc: (string, string) -> string)
    returns (r: Result<string>, ghost pushed: nat)
    requires PicksForAll(files, picks)
    modifies stats
    ensures r == Assemble(Bodies(files, usePush0, picks, patch, solc))
    ensures pushed <= |files|
    ensures stats.rows == old(stats.rows) + Stats(files, usePush0, picks, patch, solc)[..pushed]
    ensures r.Ok? ==> pushed == |files| && stats.rows == old(stats.rows) + Stats(files, usePush0, picks, patch, solc)
    ensures r.Err? ==> 1 <= pushed && HexLen(Bodies(files, usePush0, picks, patch, solc)[pushed - 1]) > SectionLength
  {
    ghost var before := stats.rows;
    ghost var bodies := Bodies(files, usePush0, picks, patch, solc);
    ghost var rows := Stats(files, usePush0, picks, patch, solc);
    DispatcherBytes();
    var s := RPad(Dispatcher()).value;
    var i := 0;
    while i < |files|
      invariant 0 <= i <= |files|
      invariant Assemble(bodies[..i]) == Ok(s)
      invariant stats.rows == before + rows[..i]
    {
      var m := CompileNext(files, usePush0, stats, picks, patch, solc, i, s, bodies, rows, before);
      AssembleSnoc(bodies, i, s);
      if m.Err? {
        AssembleErrSticks(bodies, i + 1);
        return m, i + 1;
      }
      s := s + m.value;
      i := i + 1;
    }
    TakeAll(bodies);
    TakeAll(rows);
    return Ok(s), i;
  }

  /** Body `j` of the combined runtime, the section body of module `j`, begins with `5b`. */
  lemma BodyBeginsWithJumpdest(files: seq<SourceFile>, usePush0: bool, picks: seq<seq<seq<Pick>>>,
                               patch: (string, string) -> string, solc: (string, string) -> string, j: nat)
    requires PicksForAll(files, picks) && j < |files|
    ensures BeginsWithJumpdest(Bodies(files, usePush0, picks, patch, solc)[j])
  {
    SectionBodyStartsWithJumpdest(files[j], j + 1, usePush0, picks[j], patch, solc);
  }

  /**
   * Layout of a combined runtime whose bodies have whole bytes: the padded
   * dispatcher, then one `SectionLength`-byte section per module, and
   * module `k` (from 1) starts at byte `k * SectionLength` with `5b`.
   */
  lemma CombinedLayout(files: seq<SourceFile>, usePush0: bool, picks: seq<seq<seq<Pick>>>,
                       patch: (string, string) -> string, solc: (string, string) -> string)
    requires PicksForAll(files, picks)
    requires Assemble(Bodies(files, usePush0, picks, patch, solc)).Ok?
    requires AllEven(Bodies(files, usePush0, picks, patch, solc))
    ensures |Assemble(Bodies(files, usePush0, picks, patch, solc)).value| == 2 * SectionLength * (|files| + 1)
    ensures DispatcherFirst(Assemble(Bodies(files, usePush0, picks, patch, solc)).value)
    ensures forall k :: 1 <= k <= |files| ==> JumpdestAt(Assemble(Bodies(files, usePush0, picks, patch, solc)).value, k)
  {
    forall j | 0 <= j < |files|
      ensures BeginsWithJumpdest(Bodies(files, usePush0, picks, patch, solc)[j])
    {
      BodyBeginsWithJumpdest(files, usePush0, picks, patch, solc, j);
    }
    AssembledEntries(Bodies(files, usePush0, picks, patch, solc));
  }

  /** What the build writes out: both runtimes and the initcode that deploys them. */
  datatype Artifacts = Artifacts(runtimeWithPush0: string, runtimeWithoutPush0: string, initcode: string)

  /**
   * What the script's main flow yields: both variants must assemble, then
   * the conditional initcode over the hex the compiler prints for the
   * stub must accept them.
   */
  function BuildResult(files: seq<SourceFile>, picksWithPush0: seq<seq<seq<Pick>>>, picksWithoutPush0: seq<seq<seq<Pick>>>,
                       stubSource: string, patch: (string, string) -> string, solc: (string, string) -> string): Result<Artifacts>
    requires PicksForAll(files, picksWithPush0) && PicksForAll(files, picksWithoutPush0)
  {
    match Assemble(Bodies(files, true, picksWithPush0, patch, solc))
    case Err(e) => Err(e)
    case Ok(withPush0) =>
      match Assemble(Bodies(files, false, picksWithoutPush0, patch, solc))
      case Err(e) => Err(e)
      case Ok(withoutPush0) =>
        match JsConditionalInitcode(withPush0, withoutPush0, LastHex(solc(stubSource, "london")))
        case Err(e) => Err(e)
        case Ok(initcode) => Ok(Artifacts(withPush0, withoutPush0, initcode))
  }

  /**
   * With whole-byte bodies both variants have the same length, so the
   * build succeeds exactly when every module fits its section in both
   * variants, and the initcode then ends with the two runtimes.
   */
  lemma BuildResultOk(files: seq<SourceFile>, picksWithPush0: seq<seq<seq<Pick>>>, picksWithoutPush0: seq<seq<seq<Pick>>>,
                      stubSource: string, patch: (string, string) -> string, solc: (string, string) -> string)
    requires PicksForAll(files, picksWithPush0) && PicksForAll(files, picksWithoutPush0)
    requires AllEven(Bodies(files, true, picksWithPush0, patch, solc))
    requires AllEven(Bodies(files, false, picksWithoutPush0, patch, solc))
    ensures var r := BuildResult(files, picksWithPush0, picksWithoutPush0, stubSource, patch, solc);
            && (r.Ok? <==> AllFit(Bodies(files, true, picksWithPush0, patch, solc))
                           && AllFit(Bodies(files, false, picksWithoutPush0, patch, solc)))
            && (r.Ok? ==> var a := r.value.runtimeWithPush0; var b := r.value.runtimeWithoutPush0;
                          |a| == |b| == 2 * SectionLength * (|files| + 1)
                          && |r.value.initcode| >= |a| + |b|
                          && r.value.initcode[|r.value.initcode| - |a| - |b|..] == a + b)
  {
    var bodies0 := Bodies(files, true, picksWithPush0, patch, solc);
    var bodies1 := Bodies(files, false, picksWithoutPush0, patch, solc);
    AssembleFails(bodies0);
    AssembleFails(bodies1);
    if Assemble(bodies0).Ok? && Assemble(bodies1).Ok? {
      AssembleLength(bodies0);
      AssembleLength(bodies1);
      ConditionalInitcodeEnds(Assemble(bodies0).value, Assemble(bodies1).value, LastHex(solc(stubSource, "london")));
    }
  }

  /**
   * The script's main flow, both variants one after the other (the script
   * runs them concurrently, each with its own stats), then the
   * conditional initcode.
   */
  method Build(files: seq<SourceFile>, picksWithPush0: seq<seq<seq<Pick>>>, picksWithoutPush0: seq<seq<seq<Pick>>>,
               stubSource: string, patch: (string, string) -> string, solc: (string, string) -> string)
    returns (r: Result<Artifacts>, statsWithPush0: JsStats, statsWithoutPush0: JsStats)
    requires PicksForAll(files, picksWithPush0) && PicksForAll(files, picksWithoutPush0)
    ensures r == BuildResult(files, picksWithPush0, picksWithoutPush0, stubSource, patch, solc)
    ensures r.Ok? ==> statsWithPush0.rows == Stats(files, true, picksWithPush0, patch, solc)
    ensures r.Ok? ==> statsWithoutPush0.rows == Stats(files, false, picksWithoutPush0, patch, solc)
  {
    statsWithPush0 := new JsStats();
    statsWithoutPush0 := new JsStats();
    var withPush0, _ := CompileCombined(files, true, statsWithPush0, picksWithPush0, patch, solc);
    var withoutPush0, _ := CompileCombined(files, false, statsWithoutPush0, picksWithoutPush0, patch, solc);
    if withPush0.Err? {
      return Err(withPush0.error), statsWithPush0, statsWithoutPush0;
    }
    if withoutPush0.Err? {
      return Err(withoutPush0.error), statsWithPush0, statsWithoutPush0;
    }
    AppendToEmpty(Stats(files, true, picksWithPush0, patch, solc));
    AppendToEmpty(Stats(files, false, picksWithoutPush0, patch, solc));
    var initcode := JsConditionalInitcode(withPush0.value, withoutPush0.value, LastHex(solc(stubSource, "london")));
    if initcode.Err? {
      return Err(initcode.error), statsWithPush0, statsWithoutPush0;
    }
    r := Ok(Artifacts(withPush0.value, withoutPush0.value, initcode.value));
  }
}
