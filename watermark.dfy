/**
 * Watermarking and extraction. Before compiling a module placed in section
 * `i`, the scripts put `i * (SECTION_LENGTH >> 5)` `mstore`s of random
 * values at the head of its runtime object, so the compiled runtime starts
 * with that many bytes of filler. The compiled hex of the last `mstore` is
 * the marker; the module's body is `5b` (JUMPDEST) followed by whatever the
 * compiler emitted after the marker.
 */
module Watermark {
  import opened Wrappers
  import opened HexCodec
  import opened TextSearch
  import opened Sections
  import opened RandomHex
  import opened SeqFacts

  /** `SECTION_LENGTH >> 5`: the 32-byte stores per section of filler. */
  const MstoresPerSection: nat := SectionLength / 32

  /** The text the runtime object's header is replaced with, before the stores. */
  const RuntimeHeader: string := "object \"runtime\" { code {"

  /**
   * Byte width of the value of store `k`, counting stores over all
   * sections: 29 for the very first store (`i == 0 && j == 0`), 28 after.
   */
  function ValueBytes(k: nat): nat {
    if k == 0 then 29 else 28
  }

  /** The place `j` of store `k` within its section. */
  function SectionSlot(k: nat): (j: nat)
    ensures j < MstoresPerSection
  {
    if k < MstoresPerSection then k else SectionSlot(k - MstoresPerSection)
  }

  /** The memory offset store `k` writes: `0xff - j`, `j` its place in its section. */
  function StoreOffset(k: nat): nat {
    0xff - SectionSlot(k)
  }

  /** The two digits of the offset of store `k`. */
  function OffsetHex(k: nat): string {
    if SectionSlot(k) == 0 then "ff" else "fe"
  }

  /** They are `hexNoPrefix(0xff - j)` / `hex_no_prefix(0xff - j)`. */
  lemma OffsetHexIsHexNoPrefix(k: nat)
    ensures OffsetHex(k) == EvenHex(StoreOffset(k)) == PaddedHex(StoreOffset(k), None)
    ensures OffsetHex(k) == ToHex(StoreOffset(k))
  {
    OffsetDigits();
    PaddedHexSpec(StoreOffset(k), None);
    if SectionSlot(k) == 0 {
      assert StoreOffset(k) == 0xff;
    } else {
      assert StoreOffset(k) == 0xfe;
    }
  }

  /** A module to compile: its path and the text read from it. */
  datatype SourceFile = SourceFile(path: string, text: string)

  /**
   * The text of store `k` holding `value`, as the JavaScript writes it with
   * `'0x' + hexNoPrefix(0xff - j)` for the offset; the Python's `hex(0xff - j)`
   * gives the same text (`PyStoreText`).
   */
  function StoreText(k: nat, value: string): string {
    " mstore(0x" + OffsetHex(k) + ",0x" + value + ")"
  }

  /** The stores of the first `n` values, in order. */
  function StoresUpTo(values: seq<string>, n: nat): string
    requires n <= |values|
  {
    if n == 0 then "" else StoresUpTo(values, n - 1) + StoreText(n - 1, values[n - 1])
  }

  /** The stores of `values`, in order. */
  function Stores(values: seq<string>): string {
    StoresUpTo(values, |values|)
  }

  /** The compiled form of store `k` that the scripts search for: `value 60 offset 52`. */
  function MarkerOf(k: nat, value: string): string {
    value + "60" + OffsetHex(k) + "52"
  }

  /** `sedFrom` after the loops: the marker of the last store, "" when there is none. */
  function Marker(values: seq<string>): string {
    if values == [] then "" else MarkerOf(|values| - 1, values[|values| - 1])
  }

  /** `sedFrom` once `n` values are drawn: the marker of value `n - 1`, "" before the first. */
  function MarkerUpTo(values: seq<string>, n: nat): string
    requires n <= |values|
  {
    if n == 0 then "" else MarkerOf(n - 1, values[n - 1])
  }

  /** The marker is empty exactly when no value was drawn. */
  lemma MarkerEmpty(values: seq<string>)
    ensures Marker(values) == "" <==> values == []
  {
    if values != [] {
      assert |Marker(values)| >= 2;
    }
  }

  lemma OffsetDigits()
    ensures EvenHex(0xff) == "ff" && EvenHex(0xfe) == "fe"
    ensures ToHex(0xff) == "ff" && ToHex(0xfe) == "fe"
  {
    assert ToHex(0xff / 16) == "f";
    assert ToHex(0xfe / 16) == "f";
  }

  /**
   * The Python writes store `k` in place `j` as `' mstore(' + hex(0xff - j) + ',0x' + r + ')'`:
   * the same text as the JavaScript.
   */
  lemma PyStoreText(k: nat, j: nat, value: string)
    requires SectionSlot(k) == j
    ensures " mstore(" + PyHex(0xff - j) + ",0x" + value + ")" == StoreText(k, value)
  {
    OffsetHexIsHexNoPrefix(k);
    assert PyHex(0xff - j) == "0x" + OffsetHex(k);
    assert " mstore(" + ("0x" + OffsetHex(k)) == " mstore(0x" + OffsetHex(k);
  }

  /** Every value has the width its place asks for. */
  predicate WellSized(values: seq<string>) {
    forall k :: 0 <= k < |values| ==> |values[k]| == 2 * ValueBytes(k)
  }

  /**
   * For a module in section `section >= 1` the marker is the last 28-byte
   * value followed by `60fe52` (PUSH1 0xfe MSTORE): 31 bytes in all.
   */
  lemma MarkerShape(section: nat, values: seq<string>)
    requires section >= 1 && |values| == section * MstoresPerSection && WellSized(values)
    ensures |Marker(values)| == 62
    ensures Marker(values)[..56] == values[|values| - 1]
    ensures Marker(values)[56..] == "60fe52"
  {
    StorePlace(section - 1, 1);
    assert |values| - 1 == 2 * (section - 1) + 1;
  }

  /** The values the JavaScript draws, one digit per pick. */
  function JsValues(picks: seq<seq<Pick>>): (values: seq<string>) {
    seq(|picks|, k requires 0 <= k < |picks| => PickedHex(picks[k]))
  }

  /** Each value has as many picks as its width needs. */
  predicate JsPicksFit(picks: seq<seq<Pick>>) {
    forall k :: 0 <= k < |picks| ==> |picks[k]| == 2 * ValueBytes(k)
  }

  /** The JavaScript's values are well sized and hold no '0' digit. */
  lemma JsValuesShape(picks: seq<seq<Pick>>)
    requires JsPicksFit(picks)
    ensures WellSized(JsValues(picks))
    ensures forall k, d :: 0 <= k < |picks| && 0 <= d < |JsValues(picks)[k]| ==>
                             IsLowerHexDigit(JsValues(picks)[k][d]) && JsValues(picks)[k][d] != '0'
  {
    forall k | 0 <= k < |picks|
      ensures IsLowerHex(JsValues(picks)[k])
      ensures forall d :: 0 <= d < |JsValues(picks)[k]| ==> JsValues(picks)[k][d] != '0'
    {
      PickedHexDigits(picks[k]);
    }
  }

  /** Two stores fill a section, so store `j` of section `i` is store `2 * i + j` overall. */
  lemma {:induction false} StorePlace(i: nat, j: nat)
    requires j < MstoresPerSection
    ensures SectionSlot(2 * i + j) == j
    ensures ValueBytes(2 * i + j) == 28 + (if i == 0 && j == 0 then 1 else 0)
  {
    if i > 0 {
      StorePlace(i - 1, j);
    }
  }

  /** `StorePlace` for store `k`, the one in place `j` of section `i`. */
  lemma StoreSlot(k: nat, i: nat, j: nat)
    requires j < MstoresPerSection && k == 2 * i + j
    ensures SectionSlot(k) == j
    ensures ValueBytes(k) == 28 + (if i == 0 && j == 0 then 1 else 0)
  {
    StorePlace(i, j);
  }

  /** One more store: the header and stores so far, then store `k`. */
  lemma StoresNext(values: seq<string>, k: nat)
    requires k < |values|
    ensures RuntimeHeader + StoresUpTo(values, k) + StoreText(k, values[k])
         == RuntimeHeader + StoresUpTo(values, k + 1)
  {
    Associative(RuntimeHeader, StoresUpTo(values, k), StoreText(k, values[k]));
  }

  /**
   * One pass of the inner loops: appending store `k` and taking its marker
   * as `sedFrom` gives the loop state after `k + 1` values.
   */
  lemma StoreStep(values: seq<string>, k: nat, r: string, replacement: string, store: string, marker: string)
    requires k < |values| && r == values[k]
    requires replacement == RuntimeHeader + StoresUpTo(values, k)
    requires store == StoreText(k, r) && marker == MarkerOf(k, r)
    ensures replacement + store == RuntimeHeader + StoresUpTo(values, k + 1)
    ensures marker == MarkerUpTo(values, k + 1)
  {
    StoresNext(values, k);
  }

  /** The loop state after every value: all the stores, and the marker of the last. */
  lemma StoresDone(values: seq<string>, n: nat)
    requires n == |values|
    ensures StoresUpTo(values, n) == Stores(values)
    ensures MarkerUpTo(values, n) == Marker(values)
  {
  }

  /**
   * One pass of the inner loop of compile-combined.js `compileAndGetRuntime`:
   * draw the value, write the offset as hex, and spell out the store and
   * its compiled form.
   */
  method JsStore(k: nat, i: nat, j: nat, picks: seq<seq<Pick>>) returns (r: string, store: string, marker: string)
    requires j < MstoresPerSection && k == 2 * i + j && k < |picks| && JsPicksFit(picks)
    ensures r == JsValues(picks)[k]
    ensures store == StoreText(k, r) && marker == MarkerOf(k, r)
  {
    StoreSlot(k, i, j);
    r := JsRandomHexNoPrefix(28 + (if i == 0 && j == 0 then 1 else 0), picks[k]);
    var offset := JsHexNoPrefix(0xff - j, None).value;
    JsOffsetText(k, j);
    store := " mstore(0x" + offset + ",0x" + r + ")";
    marker := r + "60" + offset + "52";
  }

  /**
   * The watermark loops of compile-combined.js `compileAndGetRuntime`: the
   * replacement header carries the stores of all drawn values, and
   * `sedFrom` is the marker of the last one.
   */
  method JsWatermark(section: nat, picks: seq<seq<Pick>>) returns (replacement: string, sedFrom: string)
    requires |picks| == section * MstoresPerSection && JsPicksFit(picks)
    ensures replacement == RuntimeHeader + Stores(JsValues(picks))
    ensures sedFrom == Marker(JsValues(picks))
  {
    replacement := RuntimeHeader;
    sedFrom := "";
    ghost var values := JsValues(picks);
    StorePlace(0, 0);
    var k := 0; // values drawn so far: the next one comes from picks[k]
    var i := 0;
    while i < section
      invariant 0 <= i <= section && k == 2 * i && |picks| == 2 * section
      invariant replacement == RuntimeHeader + StoresUpTo(values, k)
      invariant sedFrom == MarkerUpTo(values, k)
    {
      var j := 0;
      while j < MstoresPerSection
        invariant 0 <= j <= MstoresPerSection && k == 2 * i + j && k <= |picks|
        invariant replacement == RuntimeHeader + StoresUpTo(values, k)
        invariant sedFrom == MarkerUpTo(values, k)
      {
        var r, store, marker := JsStore(k, i, j, picks);
        StoreStep(values, k, r, replacement, store, marker);
        replacement := replacement + store;
        sedFrom := marker;
        j := j + 1;
        k := k + 1;
      }
      i := i + 1;
    }
    assert k == |values|;
    StoresDone(values, k);
  }

  /** Draw source `k` can produce a value of the width store `k` needs. */
  predicate PyDrawsFit(draws: seq<seq<nat>>) {
    forall k :: 0 <= k < |draws| ==> DrawsFor(ValueBytes(k), draws[k])
  }

  /** The values the Python draws, one retry loop per store. */
  function PyValues(draws: seq<seq<nat>>): (values: seq<string>)
    requires PyDrawsFit(draws)
  {
    seq(|draws|, k requires 0 <= k < |draws| && DrawsFor(ValueBytes(k), draws[k]) => PyDrawn(ValueBytes(k), draws[k]))
  }

  /** Store `k` in place `j` of its section: the offset text the JavaScript writes. */
  lemma JsOffsetText(k: nat, j: nat)
    requires SectionSlot(k) == j
    ensures JsHexNoPrefix(0xff - j, None) == Ok(OffsetHex(k))
  {
    OffsetHexIsHexNoPrefix(k);
  }

  /** Store `k` in place `j` of its section: the marker the Python builds with `hex_no_prefix(0xff - j)`. */
  lemma PyMarkerText(k: nat, j: nat, value: string)
    requires SectionSlot(k) == j
    ensures value + "60" + PaddedHex(0xff - j, None) + "52" == MarkerOf(k, value)
  {
    OffsetHexIsHexNoPrefix(k);
  }

  /** Store `j` of section `i` draws a value of 29 bytes for the very first store, 28 after. */
  lemma PyValueAt(k: nat, i: nat, j: nat, draws: seq<seq<nat>>)
    requires j < MstoresPerSection && k == 2 * i + j && k < |draws| && PyDrawsFit(draws)
    ensures DrawsFor(28 + (if i == 0 && j == 0 then 1 else 0), draws[k])
    ensures PyValues(draws)[k] == PyDrawn(28 + (if i == 0 && j == 0 then 1 else 0), draws[k])
    ensures SectionSlot(k) == j
  {
    StoreSlot(k, i, j);
  }

  /**
   * One pass of the inner loop of compile_combined.py
   * `compile_and_get_runtime`: the offset is written with `hex` in the
   * store and with `hex_no_prefix` in the marker.
   */
  method PyStore(k: nat, i: nat, j: nat, draws: seq<seq<nat>>) returns (r: string, store: string, marker: string)
    requires j < MstoresPerSection && k == 2 * i + j && k < |draws| && PyDrawsFit(draws)
    ensures r == PyValues(draws)[k]
    ensures store == StoreText(k, r) && marker == MarkerOf(k, r)
  {
    PyValueAt(k, i, j, draws);
    r := PyRandomHexNoPrefix(28 + (if i == 0 && j == 0 then 1 else 0), draws[k]);
    store := " mstore(" + PyHex(0xff - j) + ",0x" + r + ")";
    PyStoreText(k, j, r);
    var offset := PyHexNoPrefix(0xff - j, None);
    PyMarkerText(k, j, r);
    marker := r + "60" + offset + "52";
  }

  /**
   * The watermark loops of compile_combined.py `compile_and_get_runtime`,
   * with `hex(0xff - j)` for the offset inside the store.
   */
  method PyWatermark(section: nat, draws: seq<seq<nat>>) returns (replacement: string, sedFrom: string)
    requires |draws| == section * MstoresPerSection && PyDrawsFit(draws)
    ensures replacement == RuntimeHeader + Stores(PyValues(draws))
    ensures sedFrom == Marker(PyValues(draws))
  {
    replacement := RuntimeHeader;
    sedFrom := "";
    ghost var values := PyValues(draws);
    StorePlace(0, 0);
    var k := 0; // values drawn so far: the next one comes from draws[k]
    var i := 0;
    while i < section
      invariant 0 <= i <= section && k == 2 * i && |draws| == 2 * section
      invariant replacement == RuntimeHeader + StoresUpTo(values, k)
      invariant sedFrom == MarkerUpTo(values, k)
    {
      var j := 0;
      while j < MstoresPerSection
        invariant 0 <= j <= MstoresPerSection && k == 2 * i + j && k <= |draws|
        invariant replacement == RuntimeHeader + StoresUpTo(values, k)
        invariant sedFrom == MarkerUpTo(values, k)
      {
        var r, store, marker := PyStore(k, i, j, draws);
        StoreStep(values, k, r, replacement, store, marker);
        replacement := replacement + store;
        sedFrom := marker;
        j := j + 1;
        k := k + 1;
      }
      i := i + 1;
    }
    assert k == |values|;
    StoresDone(values, k);
  }
}
