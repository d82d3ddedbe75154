/**
 * compile-single.js: compile one Yul file for both EVM versions and cut
 * each runtime out of the initcode the compiler prints. The compiler is a
 * function from the source path and the EVM version to its output.
 */
module CompileSingle {
  import opened Wrappers
  import opened TextSearch

  /** ASCII lower-casing, the case folding `/\.yul$/i` applies to `y`, `u` and `l`. */
  function LowerAscii(c: char): char {
    if 'A' <= c <= 'Z' then (c as int - 'A' as int + 'a' as int) as char else c
  }

  /** `/\.yul$/i.test(path)`: the path ends in `.yul`, in any letter case. */
  predicate IsYulPath(path: string) {
    && |path| >= 4 && path[|path| - 4] == '.'
    && LowerAscii(path[|path| - 3]) == 'y'
    && LowerAscii(path[|path| - 2]) == 'u'
    && LowerAscii(path[|path| - 1]) == 'l'
  }

  /** Upper-case letters and mixed case are accepted; a name that only contains `.yul` is not. */
  lemma YulPathCases(base: string)
    ensures IsYulPath(base + ".yul") && IsYulPath(base + ".YUL") && IsYulPath(base + ".Yul")
    ensures !IsYulPath(base + ".yul.bak") && !IsYulPath(base + ".yu") && !IsYulPath(base + ".yml")
  {
  }

  /** `getRuntime`: `initcode.slice(initcode.indexOf('f3fe') + 4)`. */
  function GetRuntime(initcode: string): string {
    JsSliceAfter(initcode, "f3fe")
  }

  /** With `f3fe` (RETURN INVALID) present, the runtime is what follows its first occurrence. */
  lemma GetRuntimeAfterFirst(initcode: string, i: nat)
    requires FirstAt(initcode, "f3fe", i)
    ensures GetRuntime(initcode) == initcode[i + 4..]
  {
    JsSliceAfterSpec(initcode, "f3fe");
  }

  /** Without `f3fe` the -1 of `indexOf` makes it drop only the first three characters. */
  lemma GetRuntimeMissing(initcode: string)
    requires !Occurs(initcode, "f3fe")
    ensures |initcode| >= 3 ==> GetRuntime(initcode) == initcode[3..]
    ensures |initcode| < 3 ==> GetRuntime(initcode) == ""
  {
    JsSliceAfterSpec(initcode, "f3fe");
  }

  /** Initcode made of a constructor that holds no `f3fe`, then `f3fe`, then the runtime gives that runtime back. */
  lemma GetRuntimeRoundTrip(ctor: string, runtime: string)
    requires forall k :: 0 <= k < |ctor| ==> !OccursAt(ctor + "f3fe" + runtime, "f3fe", k)
    ensures GetRuntime(ctor + "f3fe" + runtime) == runtime
  {
    var s := ctor + "f3fe" + runtime;
    assert s[|ctor|..|ctor| + 4] == "f3fe";
    assert FirstAt(s, "f3fe", |ctor|);
    GetRuntimeAfterFirst(s, |ctor|);
    assert s[|ctor| + 4..] == runtime;
  }

  /** What the script computes and prints. */
  datatype SingleBuild = SingleBuild(
    initcodeWithPush0: string, initcodeWithoutPush0: string,
    runtimeWithPush0: string, runtimeWithoutPush0: string)

  /**
   * The script's main flow: the last command-line argument must end in
   * `.yul` (otherwise it prints its usage line and stops before
   * compiling); the file is compiled for shanghai and for london, the
   * last hex run of each output is the initcode, and `getRuntime` cuts
   * the runtime out of it.
   */
  function CompileSingle(argv: seq<string>, solc: (string, string) -> string): (r: Option<SingleBuild>)
    ensures r.None? <==> argv == [] || !IsYulPath(argv[|argv| - 1])
  {
    if argv == [] || !IsYulPath(argv[|argv| - 1]) then None
    else
      var srcPath := argv[|argv| - 1];
      var initcodeWithPush0 := LastHex(solc(srcPath, "shanghai"));
      var initcodeWithoutPush0 := LastHex(solc(srcPath, "london"));
      Some(SingleBuild(initcodeWithPush0, initcodeWithoutPush0,
                       GetRuntime(initcodeWithPush0), GetRuntime(initcodeWithoutPush0)))
  }

  /**
   * When the compiler's last hex token for an EVM version is a
   * constructor without `f3fe`, `f3fe` and a runtime, that runtime is what
   * the script reports for the version.
   */
  lemma CompileSingleRuntimes(argv: seq<string>, solc: (string, string) -> string,
                              ctor0: string, runtime0: string, ctor1: string, runtime1: string)
    requires argv != [] && IsYulPath(argv[|argv| - 1])
    requires LastHex(solc(argv[|argv| - 1], "shanghai")) == ctor0 + "f3fe" + runtime0
    requires LastHex(solc(argv[|argv| - 1], "london")) == ctor1 + "f3fe" + runtime1
    requires forall k :: 0 <= k < |ctor0| ==> !OccursAt(ctor0 + "f3fe" + runtime0, "f3fe", k)
    requires forall k :: 0 <= k < |ctor1| ==> !OccursAt(ctor1 + "f3fe" + runtime1, "f3fe", k)
    ensures CompileSingle(argv, solc) == Some(SingleBuild(ctor0 + "f3fe" + runtime0, ctor1 + "f3fe" + runtime1,
                                                          runtime0, runtime1))
  {
    GetRuntimeRoundTrip(ctor0, runtime0);
    GetRuntimeRoundTrip(ctor1, runtime1);
  }
}
