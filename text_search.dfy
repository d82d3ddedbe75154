/**
 * The string operations the scripts apply to compiler output: JavaScript's
 * `indexOf`, `slice` and `replace` with a string pattern, the scripts'
 * `stringAfter` and `lastHex`, and Python's `str.strip` and
 * `str.split(sep)[-1]`.
 */
module TextSearch {
  import opened Wrappers

  /** `needle` occurs in `s` starting at index `i`. */
  predicate OccursAt(s: string, needle: string, i: int) {
    0 <= i && i + |needle| <= |s| && s[i..i + |needle|] == needle
  }

  predicate Occurs(s: string, needle: string) {
    exists i :: 0 <= i <= |s| && OccursAt(s, needle, i)
  }

  /** `i` is where the first occurrence of `needle` in `s` starts. */
  predicate FirstAt(s: string, needle: string, i: int) {
    OccursAt(s, needle, i) && forall k :: 0 <= k < i ==> !OccursAt(s, needle, k)
  }

  /** The first occurrence of `needle` at or after `from`. */
  function IndexFrom(s: string, needle: string, from: nat): (r: Option<nat>)
    ensures r.Some? ==> from <= r.value && r.value + |needle| <= |s|
    decreases |s| - from
  {
    if from + |needle| > |s| then None
    else if s[from..from + |needle|] == needle then Some(from)
    else IndexFrom(s, needle, from + 1)
  }

  /** The scan finds an occurrence with none before it, or reports there is none from `from` on. */
  lemma {:induction false} IndexFromSpec(s: string, needle: string, from: nat)
    ensures IndexFrom(s, needle, from).Some? ==> OccursAt(s, needle, IndexFrom(s, needle, from).value)
    ensures IndexFrom(s, needle, from).Some? ==>
              forall k :: from <= k < IndexFrom(s, needle, from).value ==> !OccursAt(s, needle, k)
    ensures IndexFrom(s, needle, from).None? ==> forall k :: from <= k ==> !OccursAt(s, needle, k)
    decreases |s| - from
  {
    if from + |needle| <= |s| && s[from..from + |needle|] != needle {
      IndexFromSpec(s, needle, from + 1);
    }
  }

  /** `s.indexOf(needle)`, with -1 written as `None`: the first occurrence. */
  function IndexOf(s: string, needle: string): (r: Option<nat>)
    ensures r.Some? ==> r.value + |needle| <= |s|
  {
    IndexFrom(s, needle, 0)
  }

  /** `indexOf` finds nothing exactly when `needle` does not occur, and otherwise its first occurrence. */
  lemma IndexOfSpec(s: string, needle: string)
    ensures IndexOf(s, needle).None? <==> !Occurs(s, needle)
    ensures IndexOf(s, needle).Some? ==> FirstAt(s, needle, IndexOf(s, needle).value)
  {
    IndexFromSpec(s, needle, 0);
  }

  /** `s.indexOf(needle)` as JavaScript returns it. */
  function JsIndexOf(s: string, needle: string): (r: int)
    ensures r >= -1
  {
    match IndexOf(s, needle)
    case None => -1
    case Some(i) => i
  }

  /** -1 exactly when `needle` is absent, and otherwise where it first starts. */
  lemma JsIndexOfSpec(s: string, needle: string)
    ensures JsIndexOf(s, needle) == -1 <==> !Occurs(s, needle)
    ensures forall i :: FirstAt(s, needle, i) ==> JsIndexOf(s, needle) == i
  {
    IndexOfSpec(s, needle);
    if Occurs(s, needle) {
      FirstAtUnique(s, needle, IndexOf(s, needle).value);
    }
  }

  /** `s.slice(start)` for a non-negative `start`: empty once `start` passes the end. */
  function JsSlice(s: string, start: nat): string {
    if start >= |s| then "" else s[start..]
  }

  /**
   * `s.slice(s.indexOf(needle) + needle.length)`, as compile-single.js
   * `getRuntime` and the stub trimming of `toConditionalInitcode` write it:
   * when `needle` is absent the -1 makes it drop `needle.length - 1` characters.
   */
  function JsSliceAfter(s: string, needle: string): (r: string)
    requires |needle| >= 1
  {
    JsSlice(s, JsIndexOf(s, needle) + |needle|)
  }

  lemma JsSliceAfterSpec(s: string, needle: string)
    requires |needle| >= 1
    ensures forall i :: FirstAt(s, needle, i) ==> JsSliceAfter(s, needle) == s[i + |needle|..]
    ensures !Occurs(s, needle) ==> JsSliceAfter(s, needle) == JsSlice(s, |needle| - 1)
  {
    IndexOfSpec(s, needle);
    if Occurs(s, needle) {
      FirstAtUnique(s, needle, IndexOf(s, needle).value);
    }
  }

  /** compile-combined.js `stringAfter`: the text after the first occurrence, or "" when absent. */
  function StringAfter(s: string, needle: string): string {
    match IndexOf(s, needle)
    case None => ""
    case Some(i) => s[i + |needle|..]
  }

  /** `stringAfter` is "" without an occurrence and the text after the first one otherwise. */
  lemma StringAfterSpec(s: string, needle: string)
    ensures !Occurs(s, needle) ==> StringAfter(s, needle) == ""
    ensures forall i :: FirstAt(s, needle, i) ==> StringAfter(s, needle) == s[i + |needle|..]
  {
    IndexOfSpec(s, needle);
    if Occurs(s, needle) {
      FirstAtUnique(s, needle, IndexOf(s, needle).value);
    }
  }

  /** There is only one first occurrence. */
  lemma FirstAtUnique(s: string, needle: string, i: int)
    requires FirstAt(s, needle, i)
    ensures forall j :: FirstAt(s, needle, j) ==> j == i
  {
  }

  /** An occurrence in a suffix of `s` is an occurrence in `s`, shifted. */
  lemma OccursInSuffix(s: string, needle: string, off: nat, j: int)
    requires off <= |s| && OccursAt(s[off..], needle, j)
    ensures OccursAt(s, needle, off + j)
  {
    assert s[off + j..off + j + |needle|] == s[off..][j..j + |needle|];
  }

  /**
   * When `s` is `p + needle + body` and `needle` starts nowhere in `s` before
   * `|p|`, `stringAfter` gives back exactly `body`.
   */
  lemma StringAfterFixture(p: string, needle: string, body: string)
    requires forall k :: 0 <= k < |p| ==> !OccursAt(p + needle + body, needle, k)
    ensures StringAfter(p + needle + body, needle) == body
  {
    var s := p + needle + body;
    StringAfterSpec(s, needle);
    assert s[|p|..|p| + |needle|] == needle;
    assert FirstAt(s, needle, |p|);
    assert s[|p| + |needle|..] == body;
  }

  /** `s.replace(pat, rep)` with a string pattern: only the first occurrence is replaced. */
  function ReplaceFirst(s: string, pat: string, rep: string): string {
    match IndexOf(s, pat)
    case None => s
    case Some(i) => s[..i] + rep + s[i + |pat|..]
  }

  /** Without an occurrence nothing changes; otherwise the first occurrence, and only it, is replaced. */
  lemma ReplaceFirstSpec(s: string, pat: string, rep: string)
    ensures !Occurs(s, pat) ==> ReplaceFirst(s, pat, rep) == s
    ensures forall i :: FirstAt(s, pat, i) ==> ReplaceFirst(s, pat, rep) == s[..i] + rep + s[i + |pat|..]
    ensures Occurs(s, pat) ==> |ReplaceFirst(s, pat, rep)| == |s| - |pat| + |rep|
  {
    IndexOfSpec(s, pat);
    if Occurs(s, pat) {
      FirstAtUnique(s, pat, IndexOf(s, pat).value);
    }
  }

  /** A same-length replacement changes only the characters of the first occurrence. */
  lemma ReplaceFirstInPlace(s: string, pat: string, rep: string)
    requires |pat| == |rep|
    ensures |ReplaceFirst(s, pat, rep)| == |s|
    ensures forall i :: FirstAt(s, pat, i) ==> ReplaceFirst(s, pat, rep)[i..i + |pat|] == rep
    ensures forall i, k :: FirstAt(s, pat, i) && 0 <= k < |s| && !(i <= k < i + |pat|) ==>
                             ReplaceFirst(s, pat, rep)[k] == s[k]
  {
    ReplaceFirstSpec(s, pat, rep);
    forall i | FirstAt(s, pat, i)
      ensures ReplaceFirst(s, pat, rep)[i..i + |pat|] == rep
      ensures forall k :: 0 <= k < |s| && !(i <= k < i + |pat|) ==> ReplaceFirst(s, pat, rep)[k] == s[k]
    {
      SpliceInPlace(s, i, rep);
    }
  }

  /** Writing `rep` over `|rep|` characters at `i` changes those characters and no others. */
  lemma SpliceInPlace(s: string, i: nat, rep: string)
    requires i + |rep| <= |s|
    ensures |s[..i] + rep + s[i + |rep|..]| == |s|
    ensures (s[..i] + rep + s[i + |rep|..])[i..i + |rep|] == rep
    ensures forall k :: 0 <= k < |s| && !(i <= k < i + |rep|) ==> (s[..i] + rep + s[i + |rep|..])[k] == s[k]
  {
    var r := s[..i] + rep + s[i + |rep|..];
    assert r[i..i + |rep|] == rep;
    forall k | 0 <= k < |s| && !(i <= k < i + |rep|)
      ensures r[k] == s[k]
    {
      if k < i {
        assert r[k] == s[..i][k];
      } else {
        assert r[k] == s[i + |rep|..][k - i - |rep|];
      }
    }
  }

  /** Where the last piece of `s.split(sep)` starts when the scan resumes at `from`. */
  function LastPieceStart(s: string, sep: string, from: nat): (p: nat)
    requires |sep| >= 1 && from <= |s|
    ensures from <= p <= |s|
    decreases |s| - from
  {
    match IndexFrom(s, sep, from)
    case None => from
    case Some(i) => LastPieceStart(s, sep, i + |sep|)
  }

  /**
   * The last piece starts where the scan resumed, or right after a
   * separator; no separator starts at or after it.
   */
  lemma {:induction false} LastPieceStartSpec(s: string, sep: string, from: nat)
    requires |sep| >= 1 && from <= |s|
    ensures var p := LastPieceStart(s, sep, from);
            p == from || (from + |sep| <= p && OccursAt(s, sep, p - |sep|))
    ensures forall k :: LastPieceStart(s, sep, from) <= k ==> !OccursAt(s, sep, k)
    decreases |s| - from
  {
    IndexFromSpec(s, sep, from);
    match IndexFrom(s, sep, from)
    case None =>
    case Some(i) => LastPieceStartSpec(s, sep, i + |sep|);
  }

  /**
   * Python `s.split(sep)[-1]`: the scan takes non-overlapping occurrences
   * from left to right, so the result is what follows the last occurrence
   * that scan meets, or all of `s` when `sep` is absent. An empty separator
   * raises `ValueError` in Python, so it is excluded.
   */
  function SplitLast(s: string, sep: string): (r: string)
    requires |sep| >= 1
  {
    s[LastPieceStart(s, sep, 0)..]
  }

  /**
   * The last piece is a suffix holding no separator; it is all of `s` when
   * `sep` is absent, and otherwise a separator ends right where it begins.
   */
  lemma SplitLastSpec(s: string, sep: string)
    requires |sep| >= 1
    ensures |SplitLast(s, sep)| <= |s| && SplitLast(s, sep) == s[|s| - |SplitLast(s, sep)|..]
    ensures !Occurs(SplitLast(s, sep), sep)
    ensures !Occurs(s, sep) ==> SplitLast(s, sep) == s
    ensures Occurs(s, sep) ==> OccursAt(s, sep, |s| - |SplitLast(s, sep)| - |sep|)
  {
    var p := LastPieceStart(s, sep, 0);
    LastPieceStartSpec(s, sep, 0);
    var r := SplitLast(s, sep);
    if Occurs(r, sep) {
      var j :| 0 <= j <= |r| && OccursAt(r, sep, j);
      OccursInSuffix(s, sep, p, j);
      assert false;
    }
    if Occurs(s, sep) {
      var k :| 0 <= k <= |s| && OccursAt(s, sep, k);
      assert p != 0;
    }
  }

  /**
   * When `needle` occurs in `p + needle + body` only at `|p|`, Python's
   * `split(needle)[-1]` gives back exactly `body`.
   */
  lemma SplitLastFixture(p: string, needle: string, body: string)
    requires |needle| >= 1
    requires forall k :: OccursAt(p + needle + body, needle, k) ==> k == |p|
    ensures SplitLast(p + needle + body, needle) == body
  {
    var s := p + needle + body;
    assert s[|p|..|p| + |needle|] == needle;
    assert OccursAt(s, needle, |p|);
    var start := LastPieceStart(s, needle, 0);
    LastPieceStartSpec(s, needle, 0);
    assert start != 0;
    assert OccursAt(s, needle, start - |needle|);
    assert start == |p| + |needle|;
    assert s[|p| + |needle|..] == body;
  }

  /**
   * With `sep` at 0 and at `second` only, the scan meets both, so the last
   * piece is what follows the second.
   */
  lemma SplitLastTwice(s: string, sep: string, second: nat)
    requires |sep| >= 1 && |sep| <= second
    requires OccursAt(s, sep, 0) && OccursAt(s, sep, second)
    requires forall k :: OccursAt(s, sep, k) ==> k == 0 || k == second
    ensures SplitLast(s, sep) == s[second + |sep|..]
  {
    assert IndexFrom(s, sep, 0) == Some(0);
    assert LastPieceStart(s, sep, 0) == LastPieceStart(s, sep, |sep|);
    IndexFromSpec(s, sep, |sep|);
    IndexFromSpec(s, sep, second + |sep|);
    assert IndexFrom(s, sep, |sep|) == Some(second);
    assert LastPieceStart(s, sep, |sep|) == LastPieceStart(s, sep, second + |sep|);
    assert IndexFrom(s, sep, second + |sep|) == None;
  }

  /** The characters Python's `str.isspace` accepts. */
  predicate IsPyWhitespace(c: char) {
    c == ' ' || '\t' <= c <= '\r' || '\U{1c}' <= c <= '\U{1f}' || c == '\U{85}' || c == '\U{a0}'
    || c == '\U{1680}' || '\U{2000}' <= c <= '\U{200a}' || c == '\U{2028}' || c == '\U{2029}'
    || c == '\U{202f}' || c == '\U{205f}' || c == '\U{3000}'
  }

  /** The index of the first character from `i` on that is not whitespace. */
  function StripStart(s: string, i: nat): (a: nat)
    requires i <= |s|
    ensures i <= a <= |s|
    decreases |s| - i
  {
    if i < |s| && IsPyWhitespace(s[i]) then StripStart(s, i + 1) else i
  }

  /** The end of `s[..end]` once trailing whitespace after `start` is dropped. */
  function StripEnd(s: string, start: nat, end: nat): (b: nat)
    requires start <= end <= |s|
    ensures start <= b <= end
    decreases end
  {
    if end > start && IsPyWhitespace(s[end - 1]) then StripEnd(s, start, end - 1) else end
  }

  lemma {:induction false} StripStartSpec(s: string, i: nat)
    requires i <= |s|
    ensures forall k :: i <= k < StripStart(s, i) ==> IsPyWhitespace(s[k])
    ensures StripStart(s, i) < |s| ==> !IsPyWhitespace(s[StripStart(s, i)])
    decreases |s| - i
  {
    if i < |s| && IsPyWhitespace(s[i]) {
      StripStartSpec(s, i + 1);
    }
  }

  lemma {:induction false} StripEndSpec(s: string, start: nat, end: nat)
    requires start <= end <= |s|
    ensures forall k :: StripEnd(s, start, end) <= k < end ==> IsPyWhitespace(s[k])
    ensures StripEnd(s, start, end) > start ==> !IsPyWhitespace(s[StripEnd(s, start, end) - 1])
    decreases end
  {
    if end > start && IsPyWhitespace(s[end - 1]) {
      StripEndSpec(s, start, end - 1);
    }
  }

  /** Python `s.strip()`: leading and trailing whitespace removed. */
  function Strip(s: string): (r: string)
  {
    var a := StripStart(s, 0);
    s[a..StripEnd(s, a, |s|)]
  }

  /** `r` is `s[i..i + |r|]` with only whitespace around it. */
  predicate StrippedAt(s: string, r: string, i: int) {
    0 <= i && i + |r| <= |s| && s[i..i + |r|] == r
    && (forall k :: 0 <= k < i ==> IsPyWhitespace(s[k]))
    && (forall k :: i + |r| <= k < |s| ==> IsPyWhitespace(s[k]))
  }

  /** `strip` keeps a middle part with only whitespace around it, and that part neither starts nor ends with whitespace. */
  lemma StripSpec(s: string)
    ensures exists i :: StrippedAt(s, Strip(s), i)
    ensures Strip(s) != [] ==> !IsPyWhitespace(Strip(s)[0]) && !IsPyWhitespace(Strip(s)[|Strip(s)| - 1])
  {
    var a := StripStart(s, 0);
    var b := StripEnd(s, a, |s|);
    StripStartSpec(s, 0);
    StripEndSpec(s, a, |s|);
    assert Strip(s) == s[a..b];
    assert StrippedAt(s, Strip(s), a);
    if a < b {
      assert Strip(s)[0] == s[a];
      assert Strip(s)[|Strip(s)| - 1] == s[b - 1];
    }
  }

  /** A character the regular expression `[0-9a-fA-F]` matches. */
  predicate IsHexChar(c: char) {
    '0' <= c <= '9' || 'a' <= c <= 'f' || 'A' <= c <= 'F'
  }

  /** Where the run of hex characters that ends at `end` begins. */
  function RunStart(s: string, end: nat): (start: nat)
    requires end <= |s|
    ensures start <= end
    decreases end
  {
    if end > 0 && IsHexChar(s[end - 1]) then RunStart(s, end - 1) else end
  }

  /** The run ending at `end` is all hex and cannot be extended to the left. */
  lemma {:induction false} RunStartSpec(s: string, end: nat)
    requires end <= |s|
    ensures forall k :: RunStart(s, end) <= k < end ==> IsHexChar(s[k])
    ensures RunStart(s, end) == 0 || !IsHexChar(s[RunStart(s, end) - 1])
    decreases end
  {
    if end > 0 && IsHexChar(s[end - 1]) {
      RunStartSpec(s, end - 1);
    }
  }

  /** The length of `s` without its trailing characters that are not hex. */
  function HexEnd(s: string, end: nat): (e: nat)
    requires end <= |s|
    ensures e <= end
    decreases end
  {
    if end > 0 && !IsHexChar(s[end - 1]) then HexEnd(s, end - 1) else end
  }

  /** Only non-hex characters follow the trimmed end, and a hex character ends it unless it is 0. */
  lemma {:induction false} HexEndSpec(s: string, end: nat)
    requires end <= |s|
    ensures forall k :: HexEnd(s, end) <= k < end ==> !IsHexChar(s[k])
    ensures HexEnd(s, end) == 0 || IsHexChar(s[HexEnd(s, end) - 1])
    decreases end
  {
    if end > 0 && !IsHexChar(s[end - 1]) {
      HexEndSpec(s, end - 1);
    }
  }

  /** `r` is a maximal run of hex characters at `i`, with none after it. */
  predicate LastHexRunAt(s: string, r: string, i: int) {
    0 <= i && i + |r| <= |s| && s[i..i + |r|] == r
    && (i == 0 || !IsHexChar(s[i - 1]))
    && (forall k :: i + |r| <= k < |s| ==> !IsHexChar(s[k]))
  }

  /**
   * `lastHex`: the last match of `/[0-9a-fA-F]+/g`, i.e. the last maximal
   * run of hex characters, or "" when `s` holds none.
   */
  function LastHex(s: string): string {
    var e := HexEnd(s, |s|);
    s[RunStart(s, e)..e]
  }

  /** `lastHex` is a maximal run of hex characters with none after it. */
  lemma LastHexIsLastRun(s: string)
    ensures forall k :: 0 <= k < |LastHex(s)| ==> IsHexChar(LastHex(s)[k])
    ensures exists i :: LastHexRunAt(s, LastHex(s), i)
  {
    var e := HexEnd(s, |s|);
    var i := RunStart(s, e);
    HexEndSpec(s, |s|);
    RunStartSpec(s, e);
    assert LastHex(s) == s[i..e];
    assert forall k :: 0 <= k < e - i ==> s[i..e][k] == s[i + k];
    assert LastHexRunAt(s, LastHex(s), i);
  }

  /** `lastHex` finds nothing exactly when `s` holds no hex character. */
  lemma LastHexEmpty(s: string)
    ensures LastHex(s) == "" <==> forall k :: 0 <= k < |s| ==> !IsHexChar(s[k])
  {
    var e := HexEnd(s, |s|);
    HexEndSpec(s, |s|);
    RunStartSpec(s, e);
    if e > 0 {
      assert RunStart(s, e) < e;
    }
  }
}
