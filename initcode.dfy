/**
 * Initcode wrappers. The plain wrapper puts a 10-byte header in front of
 * the runtime: PUSH2 len, DUP1, PUSH1 0x0a, RETURNDATASIZE, CODECOPY,
 * RETURNDATASIZE, RETURN. It copies `len` bytes from code offset 10 and
 * returns them. The conditional wrapper of compile-combined.js patches a
 * compiled stub and appends both runtime variants.
 */
module Initcode {
  import opened Wrappers
  import opened HexCodec
  import opened TextSearch

  /** DUP1 PUSH1 0x0a RETURNDATASIZE CODECOPY RETURNDATASIZE RETURN. */
  const HeaderTail: string := "80600a3d393df3"

  /** The code offset the header copies from, in bytes: the header's own length. */
  const CopyOffset: nat := 0x0a

  /**
   * compile-combined.js `toInitcode`, as written: the length goes through
   * `hexNoPrefix(hexLen(runtime), 2)`, which never pads.
   */
  function JsToInitcode(runtime: string): string {
    "61" + JsHexNoPrefix(HexLen(runtime), Some(2)).value + HeaderTail + runtime
  }

  /** compile_combined.py `to_initcode`: the length is padded to two bytes by `hex_no_prefix(n, 2)`. */
  function ToInitcode(runtime: string): string {
    "61" + PaddedHex(HexLen(runtime), Some(2)) + HeaderTail + runtime
  }

  /**
   * `initcode` is the 10-byte header with PUSH2 of the runtime's byte
   * length, followed by the runtime.
   */
  predicate WrapsRuntime(initcode: string, runtime: string) {
    && |initcode| == 2 * CopyOffset + |runtime|
    && initcode[..2] == "61"
    && IsLowerHex(initcode[2..6]) && HexValue(initcode[2..6]) == HexLen(runtime)
    && initcode[6..2 * CopyOffset] == HeaderTail
    && initcode[2 * CopyOffset..] == runtime
  }

  /** Where the four parts of `a + b + c + d` lie. */
  lemma ConcatParts(a: string, b: string, c: string, d: string)
    ensures var s := a + b + c + d;
            && |s| == |a| + |b| + |c| + |d|
            && s[..|a|] == a && s[|a|..|a| + |b|] == b
            && s[|a| + |b|..|a| + |b| + |c|] == c && s[|a| + |b| + |c|..] == d
  {
    var s := a + b + c + d;
    assert s[..|a|] == a;
    assert s[|a|..|a| + |b|] == b;
    assert s[|a| + |b|..|a| + |b| + |c|] == c;
    assert s[|a| + |b| + |c|..] == d;
  }

  /**
   * For a runtime under 65536 bytes the Python header is exactly
   * `CopyOffset` bytes: PUSH2 with the runtime's byte length as its
   * operand, then the fixed tail. The runtime follows unchanged.
   */
  lemma ToInitcodeHeader(runtime: string)
    requires HexLen(runtime) < 65536
    ensures WrapsRuntime(ToInitcode(runtime), runtime)
  {
    var n := HexLen(runtime);
    var x := PaddedHex(n, Some(2));
    PaddedHexSpec(n, Some(2));
    EvenHexBytes(n);
    ConcatParts("61", x, HeaderTail, runtime);
  }

  /**
   * Finding: for a runtime under 256 bytes the JavaScript header is 9
   * bytes, as the length is written as a single byte after PUSH2. The
   * PUSH2 then swallows the DUP1 as its second operand byte and the copy
   * from offset 10 misses the runtime's first byte.
   */
  lemma JsToInitcodeShortHeader(runtime: string)
    requires HexLen(runtime) < 256
    ensures |JsToInitcode(runtime)| == 2 * (CopyOffset - 1) + |runtime|
    ensures JsToInitcode(runtime) != ToInitcode(runtime)
  {
    EvenHexBytes(HexLen(runtime));
    ToInitcodeHeader(runtime);
  }

  /** The smallest padded section shows it: a 2-byte runtime gets a 9-byte header. */
  lemma JsToInitcodeExample()
    ensures JsToInitcode("5b00") == "610280600a3d393df35b00"
  {
    assert EvenHex(2) == "02" by {
      assert ToHex(2) == "2";
    }
  }

  /** The Python wrapper writes the same length as two bytes. */
  lemma ToInitcodeExample()
    ensures ToInitcode("5b00") == "61000280600a3d393df35b00"
  {
    PaddedTwo();
  }

  lemma PaddedTwo()
    ensures PaddedHex(2, Some(2)) == "0002"
  {
    assert ToHex(2) == "2";
    assert ZeroBytes(1) == "00";
  }

  /** From 256 bytes up to 65535 the two wrappers agree. */
  lemma InitcodesAgree(runtime: string)
    requires 256 <= HexLen(runtime) < 65536
    ensures JsToInitcode(runtime) == ToInitcode(runtime)
  {
    var n := HexLen(runtime);
    EvenHexBytes(n);
    PaddedHexSpec(n, Some(2));
    assert PaddedHex(n, Some(2)) == EvenHex(n);
  }

  /** The compiled stub: what follows the first `f3fe` (`pre.slice(pre.indexOf('f3fe') + 4)`). */
  function Stub(stubHex: string): string {
    JsSliceAfter(stubHex, "f3fe")
  }

  /** The first `6033` of the stub becomes PUSH1 of the stub's byte length. */
  function LengthPatched(pre: string): string {
    ReplaceFirst(pre, "6033", "60" + JsHexNoPrefix(HexLen(pre), Some(1)).value)
  }

  /** Then the first `61ffee` becomes PUSH2 with the operand `xxxx`. */
  function PatchStub(stubHex: string, xxxx: string): string {
    ReplaceFirst(LengthPatched(Stub(stubHex)), "61ffee", "61" + xxxx)
  }

  /**
   * compile-combined.js `toConditionalInitcode`, given the hex the
   * compiler printed for yul/ConditionalInitcode.yul. The length operand
   * is formatted (without padding) before the length check. A placeholder
   * that is missing is left as it is.
   */
  function JsConditionalInitcode(withPush0: string, withoutPush0: string, stubHex: string): (r: Result<string>)
    ensures r.Err? <==> HexLen(withPush0) != HexLen(withoutPush0)
    ensures r.Err? ==> r.error == RuntimeLengthsDiffer
  {
    var xxxx := JsHexNoPrefix(HexLen(withPush0), Some(2)).value;
    if HexLen(withPush0) != HexLen(withoutPush0) then Err(RuntimeLengthsDiffer)
    else Ok(PatchStub(stubHex, xxxx) + withPush0 + withoutPush0)
  }

  /** The same with the operand padded to two bytes, as PUSH2 needs. */
  function ConditionalInitcode(withPush0: string, withoutPush0: string, stubHex: string): (r: Result<string>)
    ensures r.Err? <==> HexLen(withPush0) != HexLen(withoutPush0)
    ensures r.Err? ==> r.error == RuntimeLengthsDiffer
  {
    var xxxx := PaddedHex(HexLen(withPush0), Some(2));
    if HexLen(withPush0) != HexLen(withoutPush0) then Err(RuntimeLengthsDiffer)
    else Ok(PatchStub(stubHex, xxxx) + withPush0 + withoutPush0)
  }

  /** Both runtimes, with and then without PUSH0, close the conditional initcode. */
  lemma ConditionalInitcodeEnds(withPush0: string, withoutPush0: string, stubHex: string)
    requires HexLen(withPush0) == HexLen(withoutPush0)
    ensures var r := JsConditionalInitcode(withPush0, withoutPush0, stubHex).value;
            |r| >= |withPush0| + |withoutPush0| && r[|r| - |withPush0| - |withoutPush0|..] == withPush0 + withoutPush0
  {
    var p := PatchStub(stubHex, EvenHex(HexLen(withPush0)));
    AppendedRuntimes(p, withPush0, withoutPush0);
  }

  lemma AppendedRuntimes(p: string, a: string, b: string)
    ensures (p + a + b)[|p + a + b| - |a| - |b|..] == a + b
  {
    assert (p + a + b)[|p|..] == a + b;
  }

  /**
   * `p` is the stub `pre` with PUSH1 of `pre`'s byte length at `i` and
   * PUSH2 `xxxx` at `j`, and nothing else changed.
   */
  predicate PatchedAt(p: string, pre: string, i: nat, j: nat, xxxx: string) {
    && |p| == |pre| && i + 4 <= j && j + 6 <= |p|
    && p[i..i + 4] == "60" + EvenHex(HexLen(pre))
    && p[j..j + 6] == "61" + xxxx
    && forall k :: 0 <= k < |p| && !(i <= k < i + 4) && !(j <= k < j + 6) ==> p[k] == pre[k]
  }

  /** The length patch of a stub under 256 bytes is in place. */
  lemma LengthPatchInPlace(pre: string, i: nat)
    requires FirstAt(pre, "6033", i) && HexLen(pre) < 256
    ensures |LengthPatched(pre)| == |pre|
    ensures LengthPatched(pre)[i..i + 4] == "60" + EvenHex(HexLen(pre))
    ensures forall k :: 0 <= k < |pre| && !(i <= k < i + 4) ==> LengthPatched(pre)[k] == pre[k]
  {
    EvenHexBytes(HexLen(pre));
    ReplaceFirstInPlace(pre, "6033", "60" + EvenHex(HexLen(pre)));
  }

  /**
   * With both placeholders in the stub, in that order and apart (the first
   * not directly followed by the tail of a `61ffee`), a stub under 256
   * bytes and a two-byte operand, the patching is in place.
   */
  lemma PatchStubInPlace(stubHex: string, i: nat, j: nat, xxxx: string)
    requires HexLen(Stub(stubHex)) < 256 && |xxxx| == 4
    requires FirstAt(Stub(stubHex), "6033", i)
    requires i + 4 <= j && FirstAt(Stub(stubHex), "61ffee", j)
    requires !OccursAt(Stub(stubHex), "ffee", i + 4) && !OccursAt(Stub(stubHex), "1ffee", i + 4)
    ensures PatchedAt(PatchStub(stubHex, xxxx), Stub(stubHex), i, j, xxxx)
  {
    var pre := Stub(stubHex);
    var pre1 := LengthPatched(pre);
    LengthPatchInPlace(pre, i);
    FirstAfterPatch(pre, pre1, i, j);
    OperandPatchInPlace(pre, pre1, i, j, xxxx);
  }

  /** The operand patch after the length patch is in place too. */
  lemma OperandPatchInPlace(pre: string, pre1: string, i: nat, j: nat, xxxx: string)
    requires |xxxx| == 4 && i + 4 <= j && FirstAt(pre1, "61ffee", j)
    requires |pre1| == |pre| && pre1[i..i + 4] == "60" + EvenHex(HexLen(pre))
    requires forall k :: 0 <= k < |pre| && !(i <= k < i + 4) ==> pre1[k] == pre[k]
    ensures PatchedAt(ReplaceFirst(pre1, "61ffee", "61" + xxxx), pre, i, j, xxxx)
  {
    ReplaceFirstInPlace(pre1, "61ffee", "61" + xxxx);
    var p := ReplaceFirst(pre1, "61ffee", "61" + xxxx);
    assert p[i..i + 4] == pre1[i..i + 4];
  }

  /**
   * For runtimes of 256 to 65535 bytes and a stub as above, the
   * JavaScript initcode is the stub patched in place, PUSH1 giving the
   * stub's byte length (where the runtimes start) and PUSH2 the length of
   * one runtime, followed by both runtimes.
   */
  lemma JsConditionalInitcodeLayout(withPush0: string, withoutPush0: string, stubHex: string, i: nat, j: nat)
    requires HexLen(withPush0) == HexLen(withoutPush0) && 256 <= HexLen(withPush0) < 65536
    requires HexLen(Stub(stubHex)) < 256
    requires FirstAt(Stub(stubHex), "6033", i)
    requires i + 4 <= j && FirstAt(Stub(stubHex), "61ffee", j)
    requires !OccursAt(Stub(stubHex), "ffee", i + 4) && !OccursAt(Stub(stubHex), "1ffee", i + 4)
    ensures JsConditionalInitcode(withPush0, withoutPush0, stubHex)
            == Ok(PatchStub(stubHex, EvenHex(HexLen(withPush0))) + withPush0 + withoutPush0)
    ensures PatchedAt(PatchStub(stubHex, EvenHex(HexLen(withPush0))), Stub(stubHex), i, j, EvenHex(HexLen(withPush0)))
    ensures IsLowerHex(EvenHex(HexLen(Stub(stubHex)))) && HexValue(EvenHex(HexLen(Stub(stubHex)))) == HexLen(Stub(stubHex))
    ensures IsLowerHex(EvenHex(HexLen(withPush0))) && HexValue(EvenHex(HexLen(withPush0))) == HexLen(withPush0)
  {
    EvenHexBytes(HexLen(withPush0));
    EvenHexSpec(HexLen(withPush0));
    EvenHexSpec(HexLen(Stub(stubHex)));
    PatchStubInPlace(stubHex, i, j, EvenHex(HexLen(withPush0)));
  }

  /**
   * Finding: for runtimes under 256 bytes the JavaScript writes a one-byte
   * operand after PUSH2, so the patched stub is a byte shorter than the
   * stub whose length PUSH1 holds.
   */
  lemma JsConditionalShortOperand(withPush0: string, withoutPush0: string, stubHex: string, j: nat)
    requires HexLen(withPush0) == HexLen(withoutPush0) && HexLen(withPush0) < 256
    requires FirstAt(LengthPatched(Stub(stubHex)), "61ffee", j)
    ensures |PatchStub(stubHex, EvenHex(HexLen(withPush0)))| + 2 == |LengthPatched(Stub(stubHex))|
  {
    EvenHexBytes(HexLen(withPush0));
    ReplaceFirstSpec(LengthPatched(Stub(stubHex)), "61ffee", "61" + EvenHex(HexLen(withPush0)));
  }

  /**
   * With the operand padded, the layout holds for every runtime under
   * 65536 bytes.
   */
  lemma ConditionalInitcodeLayout(withPush0: string, withoutPush0: string, stubHex: string, i: nat, j: nat)
    requires HexLen(withPush0) == HexLen(withoutPush0) && HexLen(withPush0) < 65536
    requires HexLen(Stub(stubHex)) < 256
    requires FirstAt(Stub(stubHex), "6033", i)
    requires i + 4 <= j && FirstAt(Stub(stubHex), "61ffee", j)
    requires !OccursAt(Stub(stubHex), "ffee", i + 4) && !OccursAt(Stub(stubHex), "1ffee", i + 4)
    ensures ConditionalInitcode(withPush0, withoutPush0, stubHex)
            == Ok(PatchStub(stubHex, PaddedHex(HexLen(withPush0), Some(2))) + withPush0 + withoutPush0)
    ensures PatchedAt(PatchStub(stubHex, PaddedHex(HexLen(withPush0), Some(2))), Stub(stubHex), i, j,
                      PaddedHex(HexLen(withPush0), Some(2)))
    ensures IsLowerHex(PaddedHex(HexLen(withPush0), Some(2)))
    ensures HexValue(PaddedHex(HexLen(withPush0), Some(2))) == HexLen(withPush0)
  {
    EvenHexSpec(HexLen(Stub(stubHex)));
    EvenHexBytes(HexLen(withPush0));
    PaddedHexSpec(HexLen(withPush0), Some(2));
    PatchStubInPlace(stubHex, i, j, PaddedHex(HexLen(withPush0), Some(2)));
  }

  /** From 256 bytes up the two conditional wrappers agree. */
  lemma ConditionalInitcodesAgree(withPush0: string, withoutPush0: string, stubHex: string)
    requires 256 <= HexLen(withPush0) < 65536
    ensures JsConditionalInitcode(withPush0, withoutPush0, stubHex) == ConditionalInitcode(withPush0, withoutPush0, stubHex)
  {
    var n := HexLen(withPush0);
    EvenHexBytes(n);
    PaddedHexSpec(n, Some(2));
    assert PaddedHex(n, Some(2)) == EvenHex(n);
  }

  /**
   * Patching the first placeholder into PUSH1 and a byte leaves the second
   * placeholder the first of its kind, unless the first is directly
   * followed by the rest of a `61ffee`.
   */
  lemma FirstAfterPatch(pre: string, pre1: string, i: nat, j: nat)
    requires i + 4 <= j && FirstAt(pre, "61ffee", j)
    requires !OccursAt(pre, "ffee", i + 4) && !OccursAt(pre, "1ffee", i + 4)
    requires |pre1| == |pre| && pre1[i..i + 4] == "60" + EvenHex(HexLen(pre))
    requires forall k :: 0 <= k < |pre| && !(i <= k < i + 4) ==> pre1[k] == pre[k]
    ensures FirstAt(pre1, "61ffee", j)
  {
    assert pre1[i] == pre1[i..i + 4][0] == '6';
    assert pre1[i + 1] == pre1[i..i + 4][1] == '0';
    assert pre1[j..j + 6] == pre[j..j + 6];
    forall k | 0 <= k < j
      ensures !OccursAt(pre1, "61ffee", k)
    {
      NoNewOccurrence(pre, pre1, i, k);
    }
  }

  lemma NoNewOccurrence(pre: string, pre1: string, i: nat, k: nat)
    requires i + 4 <= |pre| && !OccursAt(pre, "61ffee", k)
    requires !OccursAt(pre, "ffee", i + 4) && !OccursAt(pre, "1ffee", i + 4)
    requires |pre1| == |pre| && pre1[i] == '6' && pre1[i + 1] == '0'
    requires forall k :: 0 <= k < |pre| && !(i <= k < i + 4) ==> pre1[k] == pre[k]
    ensures !OccursAt(pre1, "61ffee", k)
  {
    var w := "61ffee";
    if k + 6 <= |pre1| {
      var win := pre1[k..k + 6];
      if k + 6 <= i || i + 4 <= k {
        assert forall p :: 0 <= p < 6 ==> win[p] == pre1[k + p] == pre[k + p] == pre[k..k + 6][p];
        assert win == pre[k..k + 6];
      } else if k < i {
        assert win[i - k] == pre1[i] == '6' != w[i - k];
      } else if k == i {
        assert win[1] == pre1[i + 1] == '0' != w[1];
      } else if k == i + 1 {
        assert win[0] == pre1[i + 1] == '0' != w[0];
      } else if k == i + 2 {
        assert forall p :: 2 <= p < 6 ==> win[p] == pre1[k + p] == pre[k + p] == pre[i + 4..i + 8][p - 2];
        assert win[2..] == pre[i + 4..i + 8];
        assert w[2..] == "ffee";
      } else {
        assert k == i + 3;
        assert forall p :: 1 <= p < 6 ==> win[p] == pre1[k + p] == pre[k + p] == pre[i + 4..i + 9][p - 1];
        assert win[1..] == pre[i + 4..i + 9];
        assert w[1..] == "1ffee";
      }
    }
  }
}
