/**
 * The two scripts' random hex generators. The random numbers are inputs:
 * the JavaScript draws digit indices, the Python draws whole integers and
 * retries until one has the requested width.
 */
module RandomHex {
  import opened Wrappers
  import opened HexCodec

  /** compile-combined.js `hexChars`: every lower-case hex digit except '0'. */
  const HexChars: string := "123456789abcdef"

  /** One draw `Math.floor(Math.random() * hexChars.length)`. */
  type Pick = k: nat | k < 15

  lemma HexCharsAreNonZeroHex(p: Pick)
    ensures IsLowerHexDigit(HexChars[p]) && HexChars[p] != '0'
  {
  }

  /** The string a sequence of draws spells out: draw `i` selects character `i`. */
  function PickedHex(picks: seq<Pick>): (s: string)
    ensures |s| == |picks|
  {
    seq(|picks|, i requires 0 <= i < |picks| => HexChars[picks[i]])
  }

  /** Every character is a hex digit other than '0'. */
  lemma PickedHexDigits(picks: seq<Pick>)
    ensures IsLowerHex(PickedHex(picks))
    ensures forall i :: 0 <= i < |picks| ==> PickedHex(picks)[i] != '0'
  {
    forall i | 0 <= i < |picks|
      ensures IsLowerHexDigit(PickedHex(picks)[i]) && PickedHex(picks)[i] != '0'
    {
      HexCharsAreNonZeroHex(picks[i]);
    }
  }

  /**
   * compile-combined.js `randomHexNoPrefix(n)`: `2 * n` characters, one per
   * draw, so never a '0'.
   */
  method JsRandomHexNoPrefix(n: nat, picks: seq<Pick>) returns (s: string)
    requires |picks| == 2 * n
    ensures s == PickedHex(picks)
  {
    s := "";
    var i := 0;
    while i < 2 * n
      invariant 0 <= i <= 2 * n && |s| == i
      invariant forall d :: 0 <= d < i ==> s[d] == HexChars[picks[d]]
    {
      s := s + [HexChars[picks[i]]];
      i := i + 1;
    }
  }

  function Pow2(k: nat): (p: nat)
    ensures p >= 1
  {
    if k == 0 then 1 else 2 * Pow2(k - 1)
  }

  /** Python `v | 1`. */
  function OrOne(v: nat): (r: nat)
    ensures r % 2 == 1 && (r == v || r == v + 1)
  {
    if v % 2 == 0 then v + 1 else v
  }

  /** `random.randint(1, 1 << (8 * n))` can return `v`. */
  predicate InDrawRange(n: nat, v: nat) {
    1 <= v <= Pow2(8 * n)
  }

  /** `random_hex_no_prefix` keeps a draw when `hex_no_prefix(v | 1)` has exactly `2 * n` digits. */
  predicate Accepts(n: nat, v: nat) {
    |DrawnHex(v)| == 2 * n
  }

  /** The digits `hex_no_prefix(v | 1)` gives for a draw `v`. */
  function DrawnHex(v: nat): string {
    EvenHex(OrOne(v))
  }

  /** The index of the first accepted draw at or after `from`, if any. */
  function FirstAccepted(n: nat, draws: seq<nat>, from: nat): (r: Option<nat>)
    requires from <= |draws|
    ensures r.Some? ==> from <= r.value < |draws| && Accepts(n, draws[r.value])
    decreases |draws| - from
  {
    if from == |draws| then None
    else if Accepts(n, draws[from]) then Some(from)
    else FirstAccepted(n, draws, from + 1)
  }

  /** No draw before the one found is accepted, and none at all when none is found. */
  lemma {:induction false} FirstAcceptedSpec(n: nat, draws: seq<nat>, from: nat)
    requires from <= |draws|
    ensures FirstAccepted(n, draws, from).Some? ==>
              forall j :: from <= j < FirstAccepted(n, draws, from).value ==> !Accepts(n, draws[j])
    ensures FirstAccepted(n, draws, from).None? ==> forall j :: from <= j < |draws| ==> !Accepts(n, draws[j])
    decreases |draws| - from
  {
    if from < |draws| && !Accepts(n, draws[from]) {
      FirstAcceptedSpec(n, draws, from + 1);
    }
  }

  /** Draws `random_hex_no_prefix(n)` can use up: all in range, and one of them kept. */
  predicate DrawsFor(n: nat, draws: seq<nat>) {
    (forall k :: 0 <= k < |draws| ==> InDrawRange(n, draws[k])) &&
    (exists k :: 0 <= k < |draws| && Accepts(n, draws[k]))
  }

  /** The value `random_hex_no_prefix(n)` returns on these draws: the first kept one. */
  function PyDrawn(n: nat, draws: seq<nat>): (s: string)
    requires DrawsFor(n, draws)
    ensures |s| == 2 * n
  {
    FirstAcceptedSpec(n, draws, 0);
    var r := FirstAccepted(n, draws, 0);
    assert r.Some?;
    DrawnHex(draws[r.value])
  }

  /**
   * What `random_hex_no_prefix(n)` promises: `2 * n` hex digits of an odd
   * value whose top byte is not zero.
   */
  lemma PyDrawnSpec(n: nat, draws: seq<nat>)
    requires DrawsFor(n, draws)
    ensures |PyDrawn(n, draws)| == 2 * n && IsLowerHex(PyDrawn(n, draws))
    ensures HexValue(PyDrawn(n, draws)) % 2 == 1
    ensures PyDrawn(n, draws)[0] != '0' || PyDrawn(n, draws)[1] != '0'
  {
    FirstAcceptedSpec(n, draws, 0);
    EvenHexSpec(OrOne(draws[FirstAccepted(n, draws, 0).value]));
  }

  /**
   * compile_combined.py `random_hex_no_prefix(n)`: the retry loop returns the
   * first draw whose odd value `v | 1` is exactly `n` bytes wide.
   */
  method PyRandomHexNoPrefix(n: nat, draws: seq<nat>) returns (s: string)
    requires DrawsFor(n, draws)
    ensures s == PyDrawn(n, draws)
  {
    FirstAcceptedSpec(n, draws, 0);
    var i := 0;
    while true
      invariant 0 <= i < |draws|
      invariant FirstAccepted(n, draws, i).Some?
      invariant FirstAccepted(n, draws, 0) == FirstAccepted(n, draws, i)
      decreases |draws| - i
    {
      s := EvenHex(OrOne(draws[i]));
      if |s| == 2 * n {
        return;
      }
      i := i + 1;
    }
  }
}
