/**
 * Recovering a module's body from the compiler's output. The compiled
 * runtime starts with the watermark stores; the body is `5b` (JUMPDEST)
 * followed by whatever comes after the marker, the compiled form of the
 * last store. The two scripts find the marker differently.
 */
module Extraction {
  import opened Wrappers
  import opened TextSearch

  /**
   * compile-combined.js: `'5b' + stringAfter(lastHex(stdout), sedFrom)`,
   * the text after the first occurrence of the marker in the last hex run
   * of the output, or nothing when the marker is absent.
   */
  function JsExtract(stdout: string, marker: string): string {
    "5b" + StringAfter(LastHex(stdout), marker)
  }

  /**
   * compile_combined.py: `'5b' + stdout.strip().split(sed_from)[-1]`, the
   * text after the last separator the split meets, or the whole stripped
   * output when the marker is absent. `split('')` raises `ValueError`.
   */
  function PyExtract(stdout: string, marker: string): (r: Result<string>)
    ensures r.Err? <==> marker == ""
  {
    if marker == "" then Err(EmptySeparator) else Ok(PySplitBody(stdout, marker))
  }

  /** The body compile_combined.py extracts once the marker is known not to be empty. */
  function PySplitBody(stdout: string, marker: string): string
    requires marker != ""
  {
    "5b" + SplitLast(Strip(stdout), marker)
  }

  /** Both extractions put a JUMPDEST at the start of the body, where the dispatcher jumps. */
  lemma ExtractStartsWithJumpdest(stdout: string, marker: string)
    ensures |JsExtract(stdout, marker)| >= 2 && JsExtract(stdout, marker)[..2] == "5b"
    ensures PyExtract(stdout, marker).Ok? ==> |PyExtract(stdout, marker).value| >= 2 && PyExtract(stdout, marker).value[..2] == "5b"
  {
  }

  /**
   * When the last hex run of the output is the watermark filler, the
   * marker and the body, with the marker nowhere before its place, the
   * JavaScript recovers `5b` followed by the body.
   */
  lemma JsExtractRoundTrip(stdout: string, filler: string, marker: string, body: string)
    requires LastHex(stdout) == filler + marker + body
    requires forall k :: 0 <= k < |filler| ==> !OccursAt(filler + marker + body, marker, k)
    ensures JsExtract(stdout, marker) == "5b" + body
  {
    StringAfterFixture(filler, marker, body);
  }

  /**
   * When the stripped output is the filler, the marker and the body, with
   * the marker occurring only at its place, the Python recovers `5b`
   * followed by the body.
   */
  lemma PyExtractRoundTrip(stdout: string, filler: string, marker: string, body: string)
    requires |marker| >= 1 && Strip(stdout) == filler + marker + body
    requires forall k :: OccursAt(filler + marker + body, marker, k) ==> k == |filler|
    ensures PyExtract(stdout, marker) == Ok("5b" + body)
  {
    SplitLastFixture(filler, marker, body);
  }

  /** A marker the compiler's output does not hold: the JavaScript keeps only `5b`. */
  lemma JsExtractMissing(stdout: string, marker: string)
    requires !Occurs(LastHex(stdout), marker)
    ensures JsExtract(stdout, marker) == "5b"
  {
    StringAfterSpec(LastHex(stdout), marker);
  }

  /** A marker the compiler's output does not hold: the Python keeps all of the stripped output. */
  lemma PyExtractMissing(stdout: string, marker: string)
    requires |marker| >= 1 && !Occurs(Strip(stdout), marker)
    ensures PyExtract(stdout, marker) == Ok("5b" + Strip(stdout))
  {
    SplitLastSpec(Strip(stdout), marker);
  }

  /**
   * A marker that occurs twice in the output's hex run, at its start and
   * again at `second`: the JavaScript cuts after the first occurrence and
   * keeps the second in the body, the Python cuts after the second.
   */
  lemma ExtractionsDiffer(stdout: string, s: string, marker: string, second: nat)
    requires |marker| >= 1 && |marker| <= second
    requires OccursAt(s, marker, 0) && OccursAt(s, marker, second)
    requires forall k :: OccursAt(s, marker, k) ==> k == 0 || k == second
    requires LastHex(stdout) == s && Strip(stdout) == s
    ensures JsExtract(stdout, marker) == "5b" + s[|marker|..]
    ensures PyExtract(stdout, marker) == Ok("5b" + s[second + |marker|..])
  {
    assert FirstAt(s, marker, 0);
    StringAfterSpec(s, marker);
    SplitLastTwice(s, marker, second);
  }
}
