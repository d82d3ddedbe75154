/**
 * Hex-string helpers shared by the build scripts: byte length of a hex
 * string, number-to-hex conversion with the two scripts' width handling,
 * and zero padding.
 */
module HexCodec {
  import opened Wrappers

  /** Lower-case hex digits, as `Number.prototype.toString(16)` and Python's `hex` print them. */
  const Digits: string := "0123456789abcdef"

  predicate IsLowerHexDigit(c: char) {
    '0' <= c <= '9' || 'a' <= c <= 'f'
  }

  predicate IsLowerHex(s: string) {
    forall k :: 0 <= k < |s| ==> IsLowerHexDigit(s[k])
  }

  function DigitValue(c: char): (d: nat)
    requires IsLowerHexDigit(c)
    ensures d < 16
  {
    if c <= '9' then c as nat - '0' as nat else c as nat - 'a' as nat + 10
  }

  lemma DigitRoundTrip(d: nat)
    requires d < 16
    ensures IsLowerHexDigit(Digits[d]) && DigitValue(Digits[d]) == d
  {
  }

  /** The number a big-endian hex string denotes. */
  function HexValue(s: string): nat
    requires IsLowerHex(s)
    decreases |s|
  {
    if s == [] then 0 else HexValue(s[..|s| - 1]) * 16 + DigitValue(s[|s| - 1])
  }

  /** `hexLen`: whole bytes in a hex string, `s.length >> 1` (an odd trailing digit is dropped). */
  function HexLen(s: string): nat {
    |s| / 2
  }

  function Pow16(k: nat): (p: nat)
    ensures p >= 1
  {
    if k == 0 then 1 else 16 * Pow16(k - 1)
  }

  /** `x.toString(16)`, or `hex(x)` without its `0x`: the fewest digits, "0" for zero. */
  function ToHex(x: nat): (s: string)
    ensures 1 <= |s|
    decreases x
  {
    if x < 16 then [Digits[x]] else ToHex(x / 16) + [Digits[x % 16]]
  }

  /** `ToHex(x)` is lower-case hex denoting `x`, with a leading '0' only for zero. */
  lemma {:induction false} ToHexSpec(x: nat)
    ensures IsLowerHex(ToHex(x)) && HexValue(ToHex(x)) == x
    ensures ToHex(x)[0] == '0' <==> x == 0
    decreases x
  {
    DigitRoundTrip(x % 16);
    if x >= 16 {
      ToHexSpec(x / 16);
      var t := ToHex(x / 16);
      var s := ToHex(x);
      assert s[..|s| - 1] == t;
      assert s[0] == t[0];
    }
  }

  /** Python `hex(x)`: `0x` and the fewest digits. */
  function PyHex(x: nat): (s: string)
    ensures |s| >= 3 && s[..2] == "0x"
  {
    "0x" + ToHex(x)
  }

  /** What follows the `0x` of `hex(x)` is lower-case hex denoting `x`. */
  lemma PyHexDenotes(x: nat)
    ensures IsLowerHex(PyHex(x)[2..]) && HexValue(PyHex(x)[2..]) == x
  {
    ToHexSpec(x);
    assert PyHex(x)[2..] == ToHex(x);
  }

  /** The digit count of `ToHex(x)` is at most `k` exactly when `x < 16^k`. */
  lemma {:induction false} ToHexFits(x: nat, k: nat)
    requires k >= 1
    ensures |ToHex(x)| <= k <==> x < Pow16(k)
    decreases x
  {
    if x >= 16 {
      if k == 1 {
        assert |ToHex(x)| == |ToHex(x / 16)| + 1;
      } else {
        ToHexFits(x / 16, k - 1);
      }
    }
  }

  lemma {:induction false} HexValuePrependZero(s: string)
    requires IsLowerHex(s)
    ensures IsLowerHex("0" + s) && HexValue("0" + s) == HexValue(s)
    decreases |s|
  {
    if s != [] {
      var t := s[..|s| - 1];
      HexValuePrependZero(t);
      assert ("0" + s)[..|s|] == "0" + t;
    }
  }

  /** Even-length hex of `x`: a '0' is put in front when the digit count is odd. */
  function EvenHex(x: nat): (s: string)
    ensures 2 <= |s| && |s| % 2 == 0
  {
    var t := ToHex(x);
    if |t| % 2 == 1 then "0" + t else t
  }

  /** `EvenHex(x)` denotes `x`, is "00" for zero and has no zero byte in front otherwise. */
  lemma EvenHexSpec(x: nat)
    ensures IsLowerHex(EvenHex(x)) && HexValue(EvenHex(x)) == x
    ensures x == 0 ==> EvenHex(x) == "00"
    ensures x > 0 ==> EvenHex(x)[0] != '0' || EvenHex(x)[1] != '0'
  {
    ToHexSpec(x);
    var t := ToHex(x);
    if |t| % 2 == 1 {
      HexValuePrependZero(t);
      assert EvenHex(x)[1] == t[0];
    }
  }

  /** `EvenHex(x)` is one byte for x < 256 and two bytes for 256 <= x < 65536. */
  lemma EvenHexBytes(x: nat)
    ensures HexLen(EvenHex(x)) == 1 <==> x < 256
    ensures HexLen(EvenHex(x)) == 2 <==> 256 <= x < 65536
  {
    assert Pow16(2) == 256 && Pow16(4) == 65536;
    ToHexFits(x, 2);
    ToHexFits(x, 4);
  }

  /** `'00'.repeat(k)` / `k * '00'`: `k` zero bytes. */
  function ZeroBytes(k: nat): string {
    if k == 0 then "" else "00" + ZeroBytes(k - 1)
  }

  /** One more zero byte is "00" in front. */
  lemma ZeroBytesSucc(k: nat)
    ensures ZeroBytes(k + 1) == "00" + ZeroBytes(k)
  {
  }

  /** `k` zero bytes are `2k` characters, every one of them `0`. */
  lemma {:induction false} ZeroBytesShape(k: nat)
    ensures |ZeroBytes(k)| == 2 * k
    ensures forall i :: 0 <= i < |ZeroBytes(k)| ==> ZeroBytes(k)[i] == '0'
  {
    if k > 0 {
      ZeroBytesShape(k - 1);
      assert forall i :: 2 <= i < 2 * k ==> ZeroBytes(k)[i] == ZeroBytes(k - 1)[i - 2];
    }
  }

  /** Leading zero bytes do not change the value a hex string denotes. */
  lemma {:induction false} HexValueZeroBytes(k: nat, s: string)
    requires IsLowerHex(s)
    ensures IsLowerHex(ZeroBytes(k) + s) && HexValue(ZeroBytes(k) + s) == HexValue(s)
  {
    if k > 0 {
      HexValueZeroBytes(k - 1, s);
      var t := ZeroBytes(k - 1) + s;
      HexValuePrependZero(t);
      HexValuePrependZero("0" + t);
      ZeroBytesSucc(k - 1);
      assert ZeroBytes(k) + s == "0" + ("0" + t);
    } else {
      assert ZeroBytes(k) + s == s;
    }
  }

  /**
   * compile-combined.js `hexNoPrefix(x, n)`. The width test is the wrong
   * way round (`n ? s : s + '00'.repeat(n - hexLen(s))`): a non-zero width
   * returns the even-length hex unchanged, an absent width repeats NaN times
   * (nothing), and a zero width asks for a negative repeat count.
   */
  function JsHexNoPrefix(x: nat, n: Option<nat>): (r: Result<string>)
    ensures r.Ok? <==> n != Some(0)
    ensures r.Ok? ==> r.value == EvenHex(x)
  {
    match n
    case None => Ok(EvenHex(x))
    case Some(w) => if w != 0 then Ok(EvenHex(x)) else Err(RangeError)
  }

  function Max(a: nat, b: nat): nat {
    if a < b then b else a
  }

  /**
   * compile_combined.py `hex_no_prefix(x, n)`: even-length hex of `x`,
   * left-padded with zero bytes up to `n` bytes when a width is given.
   */
  function PaddedHex(x: nat, n: Option<nat>): (s: string)
    ensures |s| % 2 == 0
  {
    var e := EvenHex(x);
    match n
    case None => e
    case Some(w) =>
      if HexLen(e) < w then ZeroBytesShape(w - HexLen(e)); ZeroBytes(w - HexLen(e)) + e else e
  }

  /**
   * Without a width `hex_no_prefix(x)` is the even-length hex of `x`; with
   * width `n` it is `max(n, bytes of x)` bytes ending in that hex. Either
   * way it denotes `x`.
   */
  lemma PaddedHexSpec(x: nat, n: Option<nat>)
    ensures n.None? ==> PaddedHex(x, n) == EvenHex(x)
    ensures n.Some? ==> HexLen(PaddedHex(x, n)) == Max(n.value, HexLen(EvenHex(x)))
    ensures n.Some? ==> PaddedHex(x, n)[|PaddedHex(x, n)| - |EvenHex(x)|..] == EvenHex(x)
    ensures IsLowerHex(PaddedHex(x, n)) && HexValue(PaddedHex(x, n)) == x
  {
    EvenHexSpec(x);
    var e := EvenHex(x);
    if n.Some? && HexLen(e) < n.value {
      var z := ZeroBytes(n.value - HexLen(e));
      HexValueZeroBytes(n.value - HexLen(e), e);
      ZeroBytesShape(n.value - HexLen(e));
      assert PaddedHex(x, n) == z + e;
      assert (z + e)[|z|..] == e;
    } else {
      assert PaddedHex(x, n) == e;
      assert e[|e| - |e|..] == e;
    }
  }

  /** The loop of `hex_no_prefix`: prepend '00' while the byte length is below `n`. */
  method PyHexNoPrefix(x: nat, n: Option<nat>) returns (s: string)
    ensures s == PaddedHex(x, n)
  {
    var e := EvenHex(x);
    s := e;
    if n.Some? {
      ghost var k: nat := 0;
      while HexLen(s) < n.value
        invariant s == ZeroBytes(k) + e
        invariant k == 0 || HexLen(s) <= n.value
        decreases n.value - HexLen(s)
      {
        ZeroBytesSucc(k);
        ZeroBytesShape(k);
        assert ZeroBytes(k + 1) + e == "00" + s;
        s := "00" + s;
        k := k + 1;
      }
      ZeroBytesShape(k);
      assert |s| == 2 * k + |e|;
      assert k > 0 ==> k == n.value - HexLen(e);
    }
  }
}
