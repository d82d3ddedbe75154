/**
 * Choosing the compiler. `findSolc` looks through the version directories
 * of a solc install tree (`~/.svm` or `$XDG_DATA_HOME/svm`), scores each
 * directory name with `semverScore` and keeps the first regular file of
 * the best-scoring directory at or above version 0.8.28. The directory
 * listing is an input here: the file system is not part of this model.
 */
module SolcSelect {
  import opened Wrappers
  import opened Decimal

  /** The longest run of digits at the start of `s`. */
  function LeadingDigits(s: string): (d: string)
    ensures |d| <= |s| && d == s[..|d|] && AllDigits(d)
    ensures |d| < |s| ==> !IsDigit(s[|d|])
  {
    if s != [] && IsDigit(s[0]) then [s[0]] + LeadingDigits(s[1..]) else []
  }

  /** `s.match(/\d+/g)`: the maximal runs of digits in `s`, left to right. */
  function DigitRuns(s: string): (runs: seq<string>)
    ensures forall k :: 0 <= k < |runs| ==> |runs[k]| >= 1 && AllDigits(runs[k])
    decreases |s|
  {
    if s == [] then []
    else if !IsDigit(s[0]) then DigitRuns(s[1..])
    else
      var d := LeadingDigits(s);
      [d] + DigitRuns(s[|d|..])
  }

  /** A string without digits has no match, so `semverScore` returns 0 for it. */
  lemma {:induction false} NoDigitsNoRuns(s: string)
    ensures DigitRuns(s) == [] <==> forall k :: 0 <= k < |s| ==> !IsDigit(s[k])
    decreases |s|
  {
    if s != [] && !IsDigit(s[0]) {
      NoDigitsNoRuns(s[1..]);
      assert forall k :: 1 <= k < |s| ==> s[k] == s[1..][k - 1];
    }
  }

  lemma {:induction false} LeadingDigitsOf(d: string, rest: string)
    requires AllDigits(d)
    requires rest == [] || !IsDigit(rest[0])
    ensures LeadingDigits(d + rest) == d
    decreases |d|
  {
    if d != [] {
      assert (d + rest)[1..] == d[1..] + rest;
      LeadingDigitsOf(d[1..], rest);
      assert [d[0]] + d[1..] == d;
    } else {
      assert d + rest == rest;
    }
  }

  /** A run of digits followed by a non-digit is the first match. */
  lemma DigitRunsCons(d: string, rest: string)
    requires |d| >= 1 && AllDigits(d)
    requires rest == [] || !IsDigit(rest[0])
    ensures DigitRuns(d + rest) == [d] + DigitRuns(rest)
  {
    LeadingDigitsOf(d, rest);
    assert (d + rest)[|d|..] == rest;
  }

  /**
   * `~~a[0] * 1000000 + ~~a[1] * 1000 + ~~a[2]` once the matches are padded
   * to three with zeros, or 0 when there was no match.
   */
  function SemverOf(runs: seq<string>): nat
    requires forall k :: 0 <= k < |runs| ==> AllDigits(runs[k])
  {
    if runs == [] then 0
    else Component(runs, 0) * 1000000 + Component(runs, 1) * 1000 + Component(runs, 2)
  }

  function Component(runs: seq<string>, i: nat): nat
    requires forall k :: 0 <= k < |runs| ==> AllDigits(runs[k])
  {
    if i < |runs| then DecimalValue(runs[i]) else 0
  }

  /** The score `semverScore` gives a directory name. */
  function Semver(s: string): nat {
    SemverOf(DigitRuns(s))
  }

  /** Pushing a zero component onto fewer than three leaves the score as it is. */
  lemma PadKeepsScore(runs: seq<string>)
    requires 1 <= |runs| < 3 && forall k :: 0 <= k < |runs| ==> AllDigits(runs[k])
    ensures forall k :: 0 <= k < |runs + ["0"]| ==> AllDigits((runs + ["0"])[k])
    ensures SemverOf(runs + ["0"]) == SemverOf(runs)
  {
    var padded := runs + ["0"];
    assert forall k :: 0 <= k < |runs| ==> padded[k] == runs[k];
    assert DecimalValue("0") == 0;
  }

  /**
   * compile-combined.js / compile-single.js `semverScore`: match the digit
   * runs, push zeros while there are fewer than three, combine the first
   * three. The zeros are pushed as the text "0", which reads as 0.
   */
  method SemverScore(s: string) returns (score: nat)
    ensures score == Semver(s)
  {
    var a := DigitRuns(s);
    if a == [] {
      return 0;
    }
    while |a| < 3
      invariant 1 <= |a| && forall k :: 0 <= k < |a| ==> AllDigits(a[k])
      invariant SemverOf(a) == Semver(s)
      decreases 3 - |a|
    {
      PadKeepsScore(a);
      a := a + ["0"];
    }
    score := DecimalValue(a[0]) * 1000000 + DecimalValue(a[1]) * 1000 + DecimalValue(a[2]);
  }

  /** A non-digit in front is skipped by the match. */
  lemma SkipNonDigit(c: char, t: string)
    requires !IsDigit(c)
    ensures DigitRuns([c] + t) == DigitRuns(t)
  {
    assert ([c] + t)[1..] == t;
  }

  /** The matches of `da.db.dc` followed by a suffix that starts with a non-digit begin with the three runs. */
  lemma DottedRuns(da: string, db: string, dc: string, rest: string)
    requires |da| >= 1 && AllDigits(da) && |db| >= 1 && AllDigits(db) && |dc| >= 1 && AllDigits(dc)
    requires rest == [] || !IsDigit(rest[0])
    ensures DigitRuns(da + "." + db + "." + dc + rest) == [da, db, dc] + DigitRuns(rest)
  {
    var t3 := dc + rest;
    var t2 := "." + t3;
    var t1 := db + t2;
    var t0 := "." + t1;
    DigitRunsCons(dc, rest);
    SkipNonDigit('.', t3);
    DigitRunsCons(db, t2);
    SkipNonDigit('.', t1);
    DigitRunsCons(da, t0);
    DottedText(da, db, dc, rest);
    RunsCons3(da, db, dc, DigitRuns(rest));
  }

  lemma RunsCons3(da: string, db: string, dc: string, runs: seq<string>)
    ensures [da] + ([db] + ([dc] + runs)) == [da, db, dc] + runs
  {
  }

  lemma DottedText(da: string, db: string, dc: string, rest: string)
    ensures da + "." + db + "." + dc + rest == da + ("." + (db + ("." + (dc + rest))))
  {
  }

  /**
   * A version written `a.b.c`, possibly followed by a suffix that starts
   * with a non-digit, scores `a * 1000000 + b * 1000 + c`.
   */
  lemma VersionScore(a: nat, b: nat, c: nat, rest: string)
    requires rest == [] || !IsDigit(rest[0])
    ensures Semver(DecimalString(a) + "." + DecimalString(b) + "." + DecimalString(c) + rest)
            == a * 1000000 + b * 1000 + c
  {
    DecimalRoundTrip(a);
    DecimalRoundTrip(b);
    DecimalRoundTrip(c);
    DottedRuns(DecimalString(a), DecimalString(b), DecimalString(c), rest);
  }

  /** `semverScore('0.8.28')`, the lowest score accepted. */
  lemma MinSolcScore()
    ensures Semver(MinSolc) == 8028
  {
    assert DecimalString(0) == "0";
    assert DecimalString(8) == "8";
    assert DecimalString(28) == "28";
    assert MinSolc == DecimalString(0) + "." + DecimalString(8) + "." + DecimalString(28) + "";
    VersionScore(0, 8, 28, "");
  }

  /**
   * With minor and patch below 1000 the score orders versions as the
   * versions themselves are ordered: major first, then minor, then patch.
   */
  lemma ScoreOrder(a: nat, b: nat, c: nat, a2: nat, b2: nat, c2: nat)
    requires b < 1000 && c < 1000 && b2 < 1000 && c2 < 1000
    ensures a * 1000000 + b * 1000 + c < a2 * 1000000 + b2 * 1000 + c2
            <==> a < a2 || (a == a2 && (b < b2 || (b == b2 && c < c2)))
  {
    if a < a2 {
      assert a * 1000000 + 1000000 <= a2 * 1000000;
    } else if a2 < a {
      assert a2 * 1000000 + 1000000 <= a * 1000000;
    } else if b < b2 {
      assert b * 1000 + 1000 <= b2 * 1000;
    } else if b2 < b {
      assert b2 * 1000 + 1000 <= b * 1000;
    }
  }

  const MinSolc: string := "0.8.28"

  /** A name in a version directory: a regular file or something else. */
  datatype Child = Child(name: string, isFile: bool)

  /** A name in the install tree: a directory with its listing, or something else. */
  datatype Entry = Entry(name: string, isDirectory: bool, children: seq<Child>)

  /** `path.join(dir, item, executable)`, without its normalisation. */
  function JoinPath(dir: string, item: string, executable: string): (p: string)
    ensures |p| > 0
  {
    dir + "/" + item + "/" + executable
  }

  /** The best score seen so far and the path that has it. */
  datatype Choice = Choice(score: nat, path: string)

  /** One step of the inner loop: a strictly better score on a regular file at or over the threshold wins. */
  function Offer(c: Choice, score: nat, thres: nat, isFile: bool, path: string): Choice {
    if score > c.score && isFile && score >= thres then Choice(score, path) else c
  }

  /** The inner loop over the listing of directory `item`, which scores `score`. */
  function VisitChildren(c: Choice, dir: string, item: string, score: nat, thres: nat, children: seq<Child>): Choice
    decreases |children|
  {
    if children == [] then c
    else
      var last := children[|children| - 1];
      Offer(VisitChildren(c, dir, item, score, thres, children[..|children| - 1]),
            score, thres, last.isFile, JoinPath(dir, item, last.name))
  }

  /** One step of the outer loop: anything but a directory is skipped. */
  function Visit(c: Choice, dir: string, thres: nat, e: Entry): Choice {
    if !e.isDirectory then c else VisitChildren(c, dir, e.name, Semver(e.name), thres, e.children)
  }

  /** The outer loop over the install tree's listing, from `maxSemVerScore = 0, bestPath = ''`. */
  function Scan(dir: string, thres: nat, entries: seq<Entry>): Choice
    decreases |entries|
  {
    if entries == [] then Choice(0, "")
    else Visit(Scan(dir, thres, entries[..|entries| - 1]), dir, thres, entries[|entries| - 1])
  }

  /**
   * The inner `forEach` of `findSolc`, over the listing of the directory
   * `item`: every entry is scored by the directory's name, and a regular
   * file that beats the best score so far and reaches the threshold
   * replaces the choice.
   */
  method VisitDirectory(dir: string, item: Entry, thres: nat, maxScore: nat, best: string)
    returns (maxSemVerScore: nat, bestPath: string)
    ensures Choice(maxSemVerScore, bestPath)
            == VisitChildren(Choice(maxScore, best), dir, item.name, Semver(item.name), thres, item.children)
  {
    maxSemVerScore, bestPath := maxScore, best;
    for j := 0 to |item.children|
      invariant Choice(maxSemVerScore, bestPath)
                == VisitChildren(Choice(maxScore, best), dir, item.name, Semver(item.name), thres, item.children[..j])
    {
      assert item.children[..j + 1][..j] == item.children[..j];
      var executable := item.children[j];
      var p := JoinPath(dir, item.name, executable.name);
      var score := SemverScore(item.name);
      if score > maxSemVerScore && executable.isFile && score >= thres {
        maxSemVerScore := score;
        bestPath := p;
      }
    }
    assert item.children[..|item.children|] == item.children;
  }

  /** compile-combined.js / compile-single.js `findSolc` over a listing of `dir`. */
  method FindSolc(dir: string, entries: seq<Entry>) returns (bestPath: string)
    ensures bestPath == Scan(dir, Semver(MinSolc), entries).path
  {
    var maxSemVerScore := 0;
    bestPath := "";
    var thres := SemverScore(MinSolc);
    for i := 0 to |entries|
      invariant Choice(maxSemVerScore, bestPath) == Scan(dir, thres, entries[..i])
    {
      assert entries[..i + 1][..i] == entries[..i];
      var item := entries[i];
      if item.isDirectory {
        maxSemVerScore, bestPath := VisitDirectory(dir, item, thres, maxSemVerScore, bestPath);
      }
    }
    assert entries[..|entries|] == entries;
  }

  /** The first regular file of a listing, if any. */
  function FirstFile(children: seq<Child>): (r: Option<nat>)
    ensures r.Some? ==> r.value < |children| && children[r.value].isFile
    ensures r.Some? ==> forall k :: 0 <= k < r.value ==> !children[k].isFile
    ensures r.None? ==> forall k :: 0 <= k < |children| ==> !children[k].isFile
  {
    if children == [] then None
    else if children[0].isFile then Some(0)
    else
      match FirstFile(children[1..])
      case None => None
      case Some(k) => Some(k + 1)
  }

  /** A directory that can be picked: scored at or above the threshold and holding a regular file. */
  predicate Qualifies(thres: nat, e: Entry) {
    e.isDirectory && Semver(e.name) >= thres && FirstFile(e.children).Some?
  }

  /** The path picked in a qualifying directory: its first regular file. */
  function PickIn(dir: string, e: Entry): string
    requires FirstFile(e.children).Some?
  {
    JoinPath(dir, e.name, e.children[FirstFile(e.children).value].name)
  }

  /**
   * The inner loop changes the choice only when the directory beats it and
   * qualifies, and then to its first regular file: later files tie and lose.
   */
  lemma {:induction false} VisitChildrenSpec(c: Choice, dir: string, item: string, score: nat, thres: nat, children: seq<Child>)
    ensures score > c.score && score >= thres && FirstFile(children).Some? ==>
              VisitChildren(c, dir, item, score, thres, children)
              == Choice(score, JoinPath(dir, item, children[FirstFile(children).value].name))
    ensures !(score > c.score && score >= thres && FirstFile(children).Some?) ==>
              VisitChildren(c, dir, item, score, thres, children) == c
    decreases |children|
  {
    if children != [] {
      var n := |children|;
      var init := children[..n - 1];
      VisitChildrenSpec(c, dir, item, score, thres, init);
      assert forall k :: 0 <= k < n - 1 ==> init[k] == children[k];
      match FirstFile(init)
      case Some(v) =>
        assert FirstFile(children) == Some(v);
      case None =>
        if children[n - 1].isFile {
          assert FirstFile(children) == Some(n - 1);
        } else {
          assert FirstFile(children).None?;
        }
    }
  }

  /** Entry `i` is the directory `findSolc` settles on for the choice `c`. */
  predicate ChosenAt(dir: string, thres: nat, entries: seq<Entry>, c: Choice, i: int) {
    && 0 <= i < |entries| && Qualifies(thres, entries[i])
    && Semver(entries[i].name) == c.score && c.path == PickIn(dir, entries[i])
    && forall j :: 0 <= j < i && Qualifies(thres, entries[j]) ==> Semver(entries[j].name) < c.score
  }

  /**
   * The rule `findSolc` implements, for the choice `c` after `entries`:
   * nothing is found when no directory qualifies; otherwise the pick is
   * the first regular file of the earliest qualifying directory with the
   * highest score.
   */
  predicate Settled(dir: string, thres: nat, entries: seq<Entry>, c: Choice) {
    && (c.path == "" <==> forall i :: 0 <= i < |entries| ==> !Qualifies(thres, entries[i]))
    && (c.path == "" ==> c.score == 0)
    && (forall i :: 0 <= i < |entries| && Qualifies(thres, entries[i]) ==> Semver(entries[i].name) <= c.score)
    && (c.path != "" ==> exists i :: 0 <= i < |entries| && ChosenAt(dir, thres, entries, c, i))
  }

  /** A choice settled on earlier stays settled when a listing grows. */
  lemma ChosenAtExtends(dir: string, thres: nat, entries: seq<Entry>, c: Choice, i: int, e: Entry)
    requires ChosenAt(dir, thres, entries, c, i)
    ensures ChosenAt(dir, thres, entries + [e], c, i)
  {
    var all := entries + [e];
    assert all[i] == entries[i];
    assert forall j :: 0 <= j < i ==> all[j] == entries[j];
  }

  /** A directory that beats every score before it is settled on. */
  lemma ChosenLast(dir: string, thres: nat, entries: seq<Entry>, c: Choice, e: Entry)
    requires forall i :: 0 <= i < |entries| && Qualifies(thres, entries[i]) ==> Semver(entries[i].name) <= c.score
    requires Qualifies(thres, e) && Semver(e.name) > c.score
    ensures ChosenAt(dir, thres, entries + [e], Choice(Semver(e.name), PickIn(dir, e)), |entries|)
  {
    var all := entries + [e];
    assert all[|entries|] == e;
    assert forall j :: 0 <= j < |entries| ==> all[j] == entries[j];
  }

  /** One more directory keeps the rule. */
  lemma VisitStep(dir: string, thres: nat, all: seq<Entry>, c: Choice)
    requires thres >= 1 && |all| >= 1 && Settled(dir, thres, all[..|all| - 1], c)
    ensures Settled(dir, thres, all, Visit(c, dir, thres, all[|all| - 1]))
  {
    var entries := all[..|all| - 1];
    var e := all[|all| - 1];
    assert all == entries + [e];
    if e.isDirectory {
      VisitChildrenSpec(c, dir, e.name, Semver(e.name), thres, e.children);
    }
    if Qualifies(thres, e) && Semver(e.name) > c.score {
      VisitTakes(dir, thres, entries, c, e);
    } else {
      VisitKeeps(dir, thres, entries, c, e);
    }
  }

  /** A qualifying directory that beats the choice becomes the choice. */
  lemma VisitTakes(dir: string, thres: nat, entries: seq<Entry>, c: Choice, e: Entry)
    requires Settled(dir, thres, entries, c)
    requires Qualifies(thres, e) && Semver(e.name) > c.score
    ensures Settled(dir, thres, entries + [e], Choice(Semver(e.name), PickIn(dir, e)))
  {
    ChosenLast(dir, thres, entries, c, e);
    assert (entries + [e])[|entries|] == e;
    assert forall j :: 0 <= j < |entries| ==> (entries + [e])[j] == entries[j];
  }

  /** Any other entry leaves the choice settled. */
  lemma VisitKeeps(dir: string, thres: nat, entries: seq<Entry>, c: Choice, e: Entry)
    requires thres >= 1 && Settled(dir, thres, entries, c)
    requires !(Qualifies(thres, e) && Semver(e.name) > c.score)
    ensures Settled(dir, thres, entries + [e], c)
  {
    var all := entries + [e];
    assert all[|entries|] == e;
    assert forall j :: 0 <= j < |entries| ==> all[j] == entries[j];
    if c.path != "" {
      var i :| 0 <= i < |entries| && ChosenAt(dir, thres, entries, c, i);
      ChosenAtExtends(dir, thres, entries, c, i, e);
    }
  }

  /** The outer loop keeps the rule over every prefix of the listing. */
  lemma {:induction false} ScanSpec(dir: string, thres: nat, entries: seq<Entry>)
    requires thres >= 1
    ensures Settled(dir, thres, entries, Scan(dir, thres, entries))
    decreases |entries|
  {
    if entries != [] {
      var n := |entries|;
      var init := entries[..n - 1];
      ScanSpec(dir, thres, init);
      VisitStep(dir, thres, entries, Scan(dir, thres, init));
    }
  }

  /**
   * What `findSolc` returns: `''` exactly when no directory qualifies,
   * otherwise the first regular file of the earliest qualifying directory
   * with the highest score, where qualifying means a version of at least
   * 0.8.28.
   */
  lemma FindSolcPicksNewest(dir: string, entries: seq<Entry>)
    ensures Scan(dir, Semver(MinSolc), entries).path == "" <==>
              forall i :: 0 <= i < |entries| ==> !Qualifies(8028, entries[i])
    ensures Scan(dir, Semver(MinSolc), entries).path != "" ==>
              exists i :: 0 <= i < |entries| && ChosenAt(dir, 8028, entries, Scan(dir, 8028, entries), i)
    ensures forall i :: 0 <= i < |entries| && Qualifies(8028, entries[i]) ==>
              Semver(entries[i].name) <= Scan(dir, 8028, entries).score
  {
    MinSolcScore();
    ScanSpec(dir, 8028, entries);
    assert Settled(dir, 8028, entries, Scan(dir, 8028, entries));
  }
}
