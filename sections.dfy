/**
 * Section padding and the combined runtime layout: the dispatcher in
 * section 0, then one section of `SectionLength` bytes per module, in the
 * order the modules are given.
 */
module Sections {
  import opened Wrappers
  import opened HexCodec
  import opened TextSearch

  /** `SECTION_SHIFT`: a section is `1 << SECTION_SHIFT` bytes. */
  const SectionShift: nat := 6
  /** `SECTION_LENGTH = 1 << SECTION_SHIFT`. */
  const SectionLength: nat := 64

  /**
   * compile-combined.js `rpadRuntime` and compile_combined.py `rpad_hex`:
   * refuse a body of more than `SectionLength` bytes, otherwise append
   * zero bytes until `hexLen` reaches `SectionLength`.
   */
  function RPad(runtime: string): (r: Result<string>)
    ensures r.Err? <==> HexLen(runtime) > SectionLength
    ensures r.Ok? ==> |r.value| == 2 * SectionLength + |runtime| % 2
  {
    if HexLen(runtime) > SectionLength then Err(RuntimeTooLong)
    else
      ZeroBytesShape(SectionLength - HexLen(runtime));
      Ok(runtime + ZeroBytes(SectionLength - HexLen(runtime)))
  }

  /** A padded body starts with the body and continues with '0' digits only. */
  lemma RPadKeepsBody(runtime: string)
    requires RPad(runtime).Ok?
    ensures RPad(runtime).value[..|runtime|] == runtime
    ensures forall k :: |runtime| <= k < |RPad(runtime).value| ==> RPad(runtime).value[k] == '0'
  {
    var z := ZeroBytes(SectionLength - HexLen(runtime));
    ZeroBytesShape(SectionLength - HexLen(runtime));
    var r := RPad(runtime).value;
    assert r == runtime + z;
    assert forall k :: |runtime| <= k < |r| ==> r[k] == z[k - |runtime|];
  }

  /**
   * The section-0 code `'3d353d1a60' + hexNoPrefix(SECTION_SHIFT) + '1b56'`:
   * RETURNDATASIZE CALLDATALOAD RETURNDATASIZE BYTE PUSH1 shift SHL JUMP,
   * a jump to `calldata[0] << SECTION_SHIFT`.
   */
  function Dispatcher(): string {
    "3d353d1a60061b56"
  }

  lemma DispatcherBytes()
    ensures Dispatcher() == "3d353d1a60" + EvenHex(SectionShift) + "1b56"
    ensures RPad(Dispatcher()).Ok? && |RPad(Dispatcher()).value| == 2 * SectionLength
  {
    assert ToHex(6) == "6";
  }

  /** `x << n` on unbounded integers. */
  function ShiftLeft(x: nat, n: nat): nat {
    if n == 0 then x else 2 * ShiftLeft(x, n - 1)
  }

  /**
   * `SECTION_LENGTH = 1 << SECTION_SHIFT`, and the dispatcher's jump
   * target `k << SECTION_SHIFT` is byte `k * SectionLength`, where
   * section `k` begins.
   */
  lemma {:induction false} SectionLengthIsShift(k: nat)
    ensures SectionLength == ShiftLeft(1, SectionShift)
    ensures ShiftLeft(k, SectionShift) == k * SectionLength
  {
    assert ShiftLeft(k, 1) == 2 * k;
    assert ShiftLeft(k, 2) == 4 * k;
    assert ShiftLeft(k, 3) == 8 * k;
    assert ShiftLeft(k, 4) == 16 * k;
    assert ShiftLeft(k, 5) == 32 * k;
    assert ShiftLeft(1, 5) == 32;
  }

  /** Section `k` of a runtime: characters `[2 * SectionLength * k, 2 * SectionLength * (k + 1))`. */
  function SectionAt(s: string, k: nat): string
    requires 2 * SectionLength * (k + 1) <= |s|
  {
    s[2 * SectionLength * k..2 * SectionLength * (k + 1)]
  }

  /**
   * `compileCombined` / `compile_combined`, given the extracted module
   * bodies: the padded dispatcher followed by each padded body in order.
   * The first body that is too long aborts the build.
   */
  function Assemble(bodies: seq<string>): (r: Result<string>)
    decreases |bodies|
  {
    if bodies == [] then RPad(Dispatcher())
    else
      match Assemble(bodies[..|bodies| - 1])
      case Err(e) => Err(e)
      case Ok(s) =>
        match RPad(bodies[|bodies| - 1])
        case Err(e) => Err(e)
        case Ok(p) => Ok(s + p)
  }

  predicate AllEven(bodies: seq<string>) {
    forall k :: 0 <= k < |bodies| ==> |bodies[k]| % 2 == 0
  }

  predicate AllFit(bodies: seq<string>) {
    forall k :: 0 <= k < |bodies| ==> HexLen(bodies[k]) <= SectionLength
  }

  /** The build fails exactly when some body is over `SectionLength` bytes. */
  lemma {:induction false} AssembleFails(bodies: seq<string>)
    ensures Assemble(bodies).Ok? <==> AllFit(bodies)
    decreases |bodies|
  {
    DispatcherBytes();
    if bodies != [] {
      var n := |bodies|;
      var init := bodies[..n - 1];
      AssembleFails(init);
      assert forall k :: 0 <= k < n - 1 ==> init[k] == bodies[k];
      assert AllFit(bodies) <==> AllFit(init) && HexLen(bodies[n - 1]) <= SectionLength;
    }
  }

  /**
   * One more body: a failed build stays failed, a body that does not fit
   * fails it, and a body that fits adds its padded section at the end.
   */
  lemma AssembleAppend(bodies: seq<string>, body: string)
    ensures Assemble(bodies).Err? ==> Assemble(bodies + [body]) == Assemble(bodies)
    ensures Assemble(bodies).Ok? && RPad(body).Err? ==> Assemble(bodies + [body]) == RPad(body)
    ensures Assemble(bodies).Ok? && RPad(body).Ok? ==>
              Assemble(bodies + [body]) == Ok(Assemble(bodies).value + RPad(body).value)
  {
    assert (bodies + [body])[..|bodies|] == bodies;
  }

  lemma AssembleSnoc(bodies: seq<string>, i: nat, s: string)
    requires i < |bodies| && Assemble(bodies[..i]) == Ok(s)
    ensures RPad(bodies[i]).Ok? ==> Assemble(bodies[..i + 1]) == Ok(s + RPad(bodies[i]).value)
    ensures RPad(bodies[i]).Err? ==> Assemble(bodies[..i + 1]) == RPad(bodies[i])
  {
    assert bodies[..i + 1][..i] == bodies[..i];
  }

  /** Once a prefix of the bodies fails, the whole build fails with that error. */
  lemma {:induction false} AssembleErrSticks(bodies: seq<string>, k: nat)
    requires k <= |bodies| && Assemble(bodies[..k]).Err?
    ensures Assemble(bodies) == Assemble(bodies[..k])
    decreases |bodies| - k
  {
    if k < |bodies| {
      assert bodies[..k + 1][..k] == bodies[..k];
      AssembleErrSticks(bodies, k + 1);
    } else {
      assert bodies[..k] == bodies;
    }
  }

  lemma SectionOfPrefix(s: string, p: string, k: nat)
    requires 2 * SectionLength * (k + 1) <= |s|
    ensures SectionAt(s + p, k) == SectionAt(s, k)
  {
  }

  lemma SectionOfLast(s: string, p: string, n: nat)
    requires |s| == 2 * SectionLength * n && |p| == 2 * SectionLength
    ensures SectionAt(s + p, n) == p
  {
  }

  /** Each kept body adds one whole section: `(n + 1) * SectionLength` bytes in all. */
  lemma {:induction false} AssembleLength(bodies: seq<string>)
    requires Assemble(bodies).Ok? && AllEven(bodies)
    ensures |Assemble(bodies).value| == 2 * SectionLength * (|bodies| + 1)
    decreases |bodies|
  {
    DispatcherBytes();
    if bodies != [] {
      var n := |bodies|;
      var init := bodies[..n - 1];
      assert forall k :: 0 <= k < n - 1 ==> init[k] == bodies[k];
      AssembleLength(init);
    }
  }

  /**
   * Layout of a combined runtime built from even-length bodies: section 0
   * is the padded dispatcher and section `k + 1` is body `k` padded with
   * zero bytes.
   */
  lemma {:induction false} AssembleLayout(bodies: seq<string>)
    requires Assemble(bodies).Ok? && AllEven(bodies)
    ensures |Assemble(bodies).value| == 2 * SectionLength * (|bodies| + 1)
    ensures SectionAt(Assemble(bodies).value, 0) == RPad(Dispatcher()).value
    ensures forall k :: 0 <= k < |bodies| ==>
                          RPad(bodies[k]).Ok? && SectionAt(Assemble(bodies).value, k + 1) == RPad(bodies[k]).value
    decreases |bodies|
  {
    DispatcherBytes();
    AssembleLength(bodies);
    if bodies == [] {
      assert SectionAt(Assemble(bodies).value, 0) == Assemble(bodies).value;
    } else {
      var n := |bodies|;
      var init := bodies[..n - 1];
      assert forall k :: 0 <= k < n - 1 ==> init[k] == bodies[k];
      AssembleLayout(init);
      var s := Assemble(init).value;
      var p := RPad(bodies[n - 1]).value;
      assert Assemble(bodies).value == s + p;
      SectionsOfAppend(s, p, n);
    }
  }

  /** Appending a whole section keeps the earlier sections and adds `p` as section `n`. */
  lemma SectionsOfAppend(s: string, p: string, n: nat)
    requires |s| == 2 * SectionLength * n && |p| == 2 * SectionLength
    ensures forall k :: 0 <= k < n ==> SectionAt(s + p, k) == SectionAt(s, k)
    ensures SectionAt(s + p, n) == p
  {
    forall k | 0 <= k < n
      ensures SectionAt(s + p, k) == SectionAt(s, k)
    {
      SectionOfPrefix(s, p, k);
    }
    SectionOfLast(s, p, n);
  }

  /**
   * The address arithmetic the dispatcher relies on: module `k` (numbered
   * from 1) begins at byte `k * SectionLength` with the body's first byte,
   * the `5b` JUMPDEST when the body starts with it.
   */
  lemma ModuleStartsAtItsSection(bodies: seq<string>, k: nat)
    requires Assemble(bodies).Ok? && AllEven(bodies)
    requires 1 <= k <= |bodies| && |bodies[k - 1]| >= 2 && bodies[k - 1][..2] == "5b"
    ensures 2 * SectionLength * k + 2 <= |Assemble(bodies).value|
    ensures Assemble(bodies).value[2 * SectionLength * k..2 * SectionLength * k + 2] == "5b"
  {
    AssembleLayout(bodies);
    var t := Assemble(bodies).value;
    assert RPad(bodies[k - 1]).Ok? && SectionAt(t, k) == RPad(bodies[k - 1]).value;
    var p := RPad(bodies[k - 1]).value;
    RPadKeepsBody(bodies[k - 1]);
    assert SectionAt(t, k) == p;
    assert p[..2] == bodies[k - 1][..2];
    assert t[2 * SectionLength * k..2 * SectionLength * k + 2] == SectionAt(t, k)[..2];
  }

  /** `s` begins with the dispatcher's section, padded to `SectionLength` bytes. */
  predicate DispatcherFirst(s: string) {
    2 * SectionLength <= |s| && RPad(Dispatcher()) == Ok(s[..2 * SectionLength])
  }

  /** A body that begins with the `5b` JUMPDEST the dispatcher lands on. */
  predicate BeginsWithJumpdest(body: string) {
    |body| >= 2 && body[0] == '5' && body[1] == 'b'
  }

  /** Byte `k * SectionLength` of `s`, where the dispatcher jumps for module `k`, is `5b` (JUMPDEST). */
  predicate JumpdestAt(s: string, k: nat) {
    2 * SectionLength * k + 2 <= |s| && s[2 * SectionLength * k] == '5' && s[2 * SectionLength * k + 1] == 'b'
  }

  /**
   * The whole layout from the dispatcher's point of view: the runtime holds
   * the dispatcher's section and one section per body, and every module
   * `k` begins with its body's `5b`.
   */
  lemma AssembledEntries(bodies: seq<string>)
    requires Assemble(bodies).Ok? && AllEven(bodies)
    requires forall j :: 0 <= j < |bodies| ==> BeginsWithJumpdest(bodies[j])
    ensures |Assemble(bodies).value| == 2 * SectionLength * (|bodies| + 1)
    ensures DispatcherFirst(Assemble(bodies).value)
    ensures forall k :: 1 <= k <= |bodies| ==> JumpdestAt(Assemble(bodies).value, k)
  {
    AssembleLayout(bodies);
    forall k | 1 <= k <= |bodies|
      ensures JumpdestAt(Assemble(bodies).value, k)
    {
      ModuleStartsAtItsSection(bodies, k);
    }
    assert SectionAt(Assemble(bodies).value, 0) == Assemble(bodies).value[..2 * SectionLength];
  }

  /**
   * The PUSH0 variant's rewrite `runtime.replace('5f80', '5f5f')`: only the
   * first `5f80` (PUSH0 DUP1) becomes `5f5f` (PUSH0 PUSH0).
   */
  function Push0Rewrite(runtime: string): (r: string)
  {
    ReplaceFirst(runtime, "5f80", "5f5f")
  }

  /**
   * The rewrite keeps the length, changes at most the four characters of the
   * first `5f80`, and keeps a leading `5b` (no `5f80` can overlap it).
   */
  lemma Push0RewriteSpec(runtime: string)
    ensures |Push0Rewrite(runtime)| == |runtime|
    ensures !Occurs(runtime, "5f80") ==> Push0Rewrite(runtime) == runtime
    ensures forall i :: FirstAt(runtime, "5f80", i) ==> Push0Rewrite(runtime)[i..i + 4] == "5f5f"
    ensures forall i, k :: FirstAt(runtime, "5f80", i) && 0 <= k < |runtime| && !(i <= k < i + 4) ==>
                             Push0Rewrite(runtime)[k] == runtime[k]
    ensures |runtime| >= 2 && runtime[..2] == "5b" ==> Push0Rewrite(runtime)[..2] == "5b"
  {
    ReplaceFirstInPlace(runtime, "5f80", "5f5f");
    ReplaceFirstSpec(runtime, "5f80", "5f5f");
    IndexOfSpec(runtime, "5f80");
    if |runtime| >= 2 && runtime[..2] == "5b" && Occurs(runtime, "5f80") {
      var i := IndexOf(runtime, "5f80").value;
      assert runtime[i..i + 4] == "5f80";
      assert runtime[1] == runtime[..2][1] == 'b';
      assert runtime[i] == runtime[i..i + 4][0] == '5';
      assert runtime[i + 1] == runtime[i..i + 4][1] == 'f';
      assert i >= 2;
      assert Push0Rewrite(runtime)[0] == runtime[0];
      assert Push0Rewrite(runtime)[1] == runtime[1];
    }
  }
}
