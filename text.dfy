/** The JavaScript string operations the note synthesizer is built from:
    the `\s` and `\w` character classes, `trim`, `split(/\s+/)`, `join(' ')`,
    `slice`, `toLowerCase` and the decimal rendering of a number. */
module Text {

  // ---------------------------------------------------------------------------
  // Character classes
  // ---------------------------------------------------------------------------

  /** ECMAScript's WhiteSpace and LineTerminator code points: the class `\s`
      matches exactly these, and `String.prototype.trim` removes exactly these. */
  predicate IsSpace(c: char) {
    c == '\t' || c == '\n' || c == '\U{000B}' || c == '\U{000C}' || c == '\r' || c == ' '
    || c == '\U{00A0}' || c == '\U{1680}' || ('\U{2000}' <= c <= '\U{200A}')
    || c == '\U{2028}' || c == '\U{2029}' || c == '\U{202F}' || c == '\U{205F}'
    || c == '\U{3000}' || c == '\U{FEFF}'
  }

  /** The class `[\.\!\?]`. */
  predicate IsTerminator(c: char) {
    c == '.' || c == '!' || c == '?'
  }

  /** The class `\w` of a regular expression without the `u` flag. */
  predicate IsWordChar(c: char) {
    ('a' <= c <= 'z') || ('A' <= c <= 'Z') || ('0' <= c <= '9') || c == '_'
  }

  /** The class `[a-z]`. */
  predicate IsLowerLetter(c: char) {
    'a' <= c <= 'z'
  }

  predicate AllSpace(s: string) {
    forall i :: 0 <= i < |s| ==> IsSpace(s[i])
  }

  predicate NoSpace(s: string) {
    forall i :: 0 <= i < |s| ==> !IsSpace(s[i])
  }

  /** Neither begins nor ends with whitespace. */
  predicate IsTrimmed(s: string) {
    s == [] || (!IsSpace(s[0]) && !IsSpace(s[|s| - 1]))
  }

  // ---------------------------------------------------------------------------
  // Runs of characters
  // ---------------------------------------------------------------------------

  /** Length of the longest prefix of `s` whose characters `c` all have `p(c) == want`. */
  function Span(s: string, p: char -> bool, want: bool): (n: nat)
    ensures n <= |s|
    ensures forall i :: 0 <= i < n ==> p(s[i]) == want
    ensures n < |s| ==> p(s[n]) != want
  {
    if s == [] || p(s[0]) != want then 0 else 1 + Span(s[1..], p, want)
  }

  /** The maximal runs of consecutive characters `c` with `p(c) == want`, left to right. */
  function Runs(s: string, p: char -> bool, want: bool): seq<string>
    decreases |s|
  {
    if s == [] then []
    else if p(s[0]) != want then Runs(s[1..], p, want)
    else
      var n := Span(s, p, want);
      [s[..n]] + Runs(s[n..], p, want)
  }

  /** Runs are non-empty, and every character of a run is selected. */
  lemma {:induction false} RunsShape(s: string, p: char -> bool, want: bool)
    ensures forall k :: 0 <= k < |Runs(s, p, want)| ==> Runs(s, p, want)[k] != []
    ensures forall k, i :: 0 <= k < |Runs(s, p, want)| && 0 <= i < |Runs(s, p, want)[k]| ==> p(Runs(s, p, want)[k][i]) == want
    decreases |s|
  {
    if s == [] {
    } else if p(s[0]) != want {
      RunsShape(s[1..], p, want);
    } else {
      RunsShape(s[Span(s, p, want)..], p, want);
    }
  }

  /** The whitespace-delimited words of `s`. */
  function Words(s: string): (r: seq<string>)
    ensures forall k :: 0 <= k < |r| ==> r[k] != [] && NoSpace(r[k])
  {
    RunsShape(s, IsSpace, false);
    Runs(s, IsSpace, false)
  }

  /** The maximal runs of `\w` characters of `s`: the stretches between two `\b` boundaries. */
  function WordCharRuns(s: string): (r: seq<string>)
    ensures forall k, i :: 0 <= k < |r| && 0 <= i < |r[k]| ==> IsWordChar(r[k][i])
    ensures forall a, b :: IsMaximalStretch(s, IsWordChar, true, a, b) ==> s[a..b] in r
  {
    RunsShape(s, IsWordChar, true);
    RunsCoverStretches(s, IsWordChar, true);
    Runs(s, IsWordChar, true)
  }

  /** `s[a..b]` is a maximal stretch of selected characters: all of it is
      selected, and the characters on either side, where there are any, are not. */
  ghost predicate IsMaximalStretch(s: string, p: char -> bool, want: bool, a: int, b: int) {
    0 <= a < b <= |s| && (forall i :: a <= i < b ==> p(s[i]) == want)
    && (a == 0 || p(s[a - 1]) != want) && (b == |s| || p(s[b]) != want)
  }

  /** A maximal stretch ends where its start says. */
  lemma StretchEndUnique(s: string, p: char -> bool, want: bool, a: int, b: int, c: int)
    requires IsMaximalStretch(s, p, want, a, b) && IsMaximalStretch(s, p, want, a, c)
    ensures b == c
  {
  }

  /** No maximal stretch of `s` runs across position `from`. */
  predicate NotCut(s: string, p: char -> bool, want: bool, from: nat) {
    from == 0 || from >= |s| || p(s[from - 1]) != want || p(s[from]) != want
  }

  /** `runs` are maximal stretches of `s` found at the increasing positions
      `starts`, none before `from`. */
  ghost predicate RunsListed(s: string, p: char -> bool, want: bool, from: nat, runs: seq<string>, starts: seq<nat>) {
    |starts| == |runs|
    && (forall k :: 0 <= k < |starts| ==> RunAt(s, p, want, from, runs[k], starts[k]))
    && (forall k, l :: 0 <= k < l < |starts| ==> starts[k] < starts[l])
  }

  /** `run` is the maximal stretch of `s` at `start`, which is not before `from`. */
  ghost predicate RunAt(s: string, p: char -> bool, want: bool, from: nat, run: string, start: nat) {
    from <= start && IsMaximalStretch(s, p, want, start, start + |run|) && run == s[start..start + |run|]
  }

  /** Every maximal stretch of `s` that starts at `from` or later starts at one of `starts`. */
  ghost predicate StretchesListed(s: string, p: char -> bool, want: bool, from: nat, starts: seq<nat>) {
    forall a, b :: from <= a && IsMaximalStretch(s, p, want, a, b) ==> a in starts
  }

  /** `runs` are the maximal stretches of `s` that start at `from` or later, left to right. */
  ghost predicate RunsAt(s: string, p: char -> bool, want: bool, from: nat, runs: seq<string>, starts: seq<nat>) {
    RunsListed(s, p, want, from, runs, starts) && StretchesListed(s, p, want, from, starts)
  }

  /** A character that is not selected starts no stretch. */
  lemma RunsAtSkip(s: string, p: char -> bool, want: bool, from: nat, runs: seq<string>, starts: seq<nat>)
    requires from < |s| && p(s[from]) != want
    requires RunsAt(s, p, want, from + 1, runs, starts)
    ensures RunsAt(s, p, want, from, runs, starts)
  {
  }

  /** A maximal stretch at `from` comes before the stretches after it. */
  lemma RunsAtRun(s: string, p: char -> bool, want: bool, from: nat, n: nat, runs: seq<string>, starts: seq<nat>)
    requires IsMaximalStretch(s, p, want, from, from + n)
    requires RunsAt(s, p, want, from + n, runs, starts)
    ensures RunsAt(s, p, want, from, [s[from..from + n]] + runs, [from] + starts)
  {
    RunsListedCons(s, p, want, from, n, runs, starts);
    StretchesListedCons(s, p, want, from, n, starts);
  }

  lemma RunsListedCons(s: string, p: char -> bool, want: bool, from: nat, n: nat, runs: seq<string>, starts: seq<nat>)
    requires IsMaximalStretch(s, p, want, from, from + n)
    requires RunsListed(s, p, want, from + n, runs, starts)
    ensures RunsListed(s, p, want, from, [s[from..from + n]] + runs, [from] + starts)
  {
    assert RunAt(s, p, want, from, s[from..from + n], from);
    forall k | 0 <= k < |starts| ensures RunAt(s, p, want, from, runs[k], starts[k]) {
      assert RunAt(s, p, want, from + n, runs[k], starts[k]);
    }
    assert forall k :: 0 < k < |starts| + 1 ==>
      ([from] + starts)[k] == starts[k - 1] && ([s[from..from + n]] + runs)[k] == runs[k - 1];
  }

  lemma StretchesListedCons(s: string, p: char -> bool, want: bool, from: nat, n: nat, starts: seq<nat>)
    requires IsMaximalStretch(s, p, want, from, from + n)
    requires StretchesListed(s, p, want, from + n, starts)
    ensures StretchesListed(s, p, want, from, [from] + starts)
  {
    forall a, b | from <= a && IsMaximalStretch(s, p, want, a, b) ensures a in [from] + starts {
      if a < from + n {
        assert a == 0 || p(s[a - 1]) != want;
      }
    }
  }

  /** The runs of `s[from..]` are the maximal stretches of `s` that start at `from` or later. */
  lemma {:induction false} RunsFrom(s: string, p: char -> bool, want: bool, from: nat) returns (starts: seq<nat>)
    requires from <= |s| && NotCut(s, p, want, from)
    ensures RunsAt(s, p, want, from, Runs(s[from..], p, want), starts)
    decreases |s| - from
  {
    if from == |s| {
      assert s[from..] == [];
      starts := [];
    } else if p(s[from]) != want {
      RunsPastUnselected(s, p, want, from);
      var st := RunsFrom(s, p, want, from + 1);
      RunsAtSkip(s, p, want, from, Runs(s[from + 1..], p, want), st);
      starts := st;
    } else {
      var n := SpanFrom(s, p, want, from);
      var st := RunsFrom(s, p, want, from + n);
      RunsAtRun(s, p, want, from, n, Runs(s[from + n..], p, want), st);
      starts := [from] + st;
    }
  }

  /** An unselected character at `from` adds nothing to the runs. */
  lemma RunsPastUnselected(s: string, p: char -> bool, want: bool, from: nat)
    requires from < |s| && p(s[from]) != want
    ensures Runs(s[from..], p, want) == Runs(s[from + 1..], p, want)
  {
    assert s[from..][1..] == s[from + 1..];
  }

  /** The span at a selected `from` that no stretch runs across is a maximal stretch, and the runs there begin with it. */
  lemma SpanFrom(s: string, p: char -> bool, want: bool, from: nat) returns (n: nat)
    requires from < |s| && p(s[from]) == want && NotCut(s, p, want, from)
    ensures IsMaximalStretch(s, p, want, from, from + n)
    ensures Runs(s[from..], p, want) == [s[from..from + n]] + Runs(s[from + n..], p, want)
  {
    var t := s[from..];
    n := Span(t, p, want);
    assert t[n..] == s[from + n..];
    assert t[..n] == s[from..from + n];
    forall i | from <= i < from + n ensures p(s[i]) == want {
      assert t[i - from] == s[i];
    }
    if from + n < |s| {
      assert t[n] == s[from + n];
    }
  }

  /** The runs are exactly the maximal stretches of selected characters, left
      to right: the `k`-th run is the stretch at `starts[k]`, the starts increase,
      and every maximal stretch starts at one of them (and so is that run, by
      `StretchEndUnique`). */
  lemma RunsAreMaximalStretches(s: string, p: char -> bool, want: bool) returns (starts: seq<nat>)
    ensures RunsAt(s, p, want, 0, Runs(s, p, want), starts)
  {
    assert s[0..] == s;
    starts := RunsFrom(s, p, want, 0);
  }

  /** Every maximal stretch of selected characters is one of the runs. */
  lemma RunsCoverStretches(s: string, p: char -> bool, want: bool)
    ensures forall a, b :: IsMaximalStretch(s, p, want, a, b) ==> s[a..b] in Runs(s, p, want)
  {
    var starts := RunsAreMaximalStretches(s, p, want);
    var runs := Runs(s, p, want);
    forall a, b | IsMaximalStretch(s, p, want, a, b) ensures s[a..b] in runs {
      var k :| 0 <= k < |starts| && starts[k] == a;
      StretchEndUnique(s, p, want, a, b, a + |runs[k]|);
      assert runs[k] == s[a..b];
    }
  }

  /** Characters that `p` does not select at the front of `s` do not change its runs. */
  lemma {:induction false} RunsSkip(s: string, p: char -> bool, want: bool, j: nat)
    requires j <= |s|
    requires forall i :: 0 <= i < j ==> p(s[i]) != want
    ensures Runs(s, p, want) == Runs(s[j..], p, want)
    decreases j
  {
    if j > 0 {
      assert s[1..][j - 1..] == s[j..];
      RunsSkip(s[1..], p, want, j - 1);
    }
  }

  /** A non-empty string made only of selected characters is a single run. */
  lemma RunsOfUniform(s: string, p: char -> bool, want: bool)
    requires s != []
    requires forall i :: 0 <= i < |s| ==> p(s[i]) == want
    ensures Runs(s, p, want) == [s]
  {
    assert Span(s, p, want) == |s|;
    assert s[..|s|] == s;
    assert Runs(s[|s|..], p, want) == [];
  }

  // ---------------------------------------------------------------------------
  // split(/\s+/)
  // ---------------------------------------------------------------------------

  /** `s.split(/\s+/)`: the pieces between maximal whitespace runs. A leading
      or trailing whitespace run leaves an empty first or last piece, and the
      empty string splits into one empty piece. */
  function SplitOnSpaces(s: string): (r: seq<string>)
    ensures r != []
    ensures forall k :: 0 <= k < |r| ==> NoSpace(r[k])
    decreases |s|
  {
    var i := Span(s, IsSpace, false);
    if i == |s| then [s]
    else
      var rest := s[i..];
      [s[..i]] + SplitOnSpaces(rest[Span(rest, IsSpace, true)..])
  }

  /** The empty piece `split(/\s+/)` produces for a leading whitespace run. */
  function LeadingGap(s: string): seq<string> {
    if s != [] && IsSpace(s[0]) then [""] else []
  }

  /** The empty piece `split(/\s+/)` produces for a trailing whitespace run, or for the empty string. */
  function TrailingGap(s: string): seq<string> {
    if s == [] || IsSpace(s[|s| - 1]) then [""] else []
  }

  /** `split(/\s+/)` yields the words of `s`, with one empty piece in front when
      `s` starts with whitespace and one behind when it ends with whitespace or is empty. */
  lemma {:induction false} SplitOnSpacesShape(s: string)
    ensures SplitOnSpaces(s) == LeadingGap(s) + Words(s) + TrailingGap(s)
    decreases |s|
  {
    var i := Span(s, IsSpace, false);
    if i == |s| {
      ShapeWithoutSpace(s);
    } else {
      var m := Span(s[i..], IsSpace, true);
      SpaceRunNotEmpty(s[i..]);
      SplitOnSpacesShape(s[i + m..]);
      ShapeStep(s, i, m);
    }
  }

  /** The shape of the split carries over from what follows the first whitespace run. */
  lemma ShapeStep(s: string, i: nat, m: nat)
    requires i == Span(s, IsSpace, false) && i < |s|
    requires m == Span(s[i..], IsSpace, true)
    requires SplitOnSpaces(s[i + m..]) == LeadingGap(s[i + m..]) + Words(s[i + m..]) + TrailingGap(s[i + m..])
    ensures SplitOnSpaces(s) == LeadingGap(s) + Words(s) + TrailingGap(s)
  {
    SplitOnSpacesStep(s, i, m);
    GapsAndWordsAfterRun(s, i, m);
    ShapeCompose(SplitOnSpaces(s), s[..i], SplitOnSpaces(s[i + m..]), LeadingGap(s), Words(s), Words(s[i + m..]),
      TrailingGap(s), LeadingGap(s[i + m..]), TrailingGap(s[i + m..]));
  }

  lemma ShapeWithoutSpace(s: string)
    requires Span(s, IsSpace, false) == |s|
    ensures SplitOnSpaces(s) == LeadingGap(s) + Words(s) + TrailingGap(s)
  {
    if s != [] {
      RunsOfUniform(s, IsSpace, false);
      assert LeadingGap(s) == [] by { assert !IsSpace(s[0]); }
      assert TrailingGap(s) == [] by { assert !IsSpace(s[|s| - 1]); }
    }
  }

  /** The first piece `s[..i]` and the whitespace run after it: the words and
      the gaps of the text follow from those of what comes after that run. */
  lemma GapsAndWordsAfterRun(s: string, i: nat, m: nat)
    requires i == Span(s, IsSpace, false) && i < |s|
    requires m == Span(s[i..], IsSpace, true)
    ensures i + m <= |s|
    ensures LeadingGap(s) + Words(s) == [s[..i]] + Words(s[i + m..])
    ensures LeadingGap(s[i + m..]) == [] && TrailingGap(s[i + m..]) == TrailingGap(s)
  {
    GapsAfterRun(s, i, m);
    WordsAfterRun(s, i, m);
    LeadingGapOfSpan(s, i);
    FrontPieces(s[..i], LeadingGap(s), Words(s), Words(s[i + m..]));
  }

  lemma LeadingGapOfSpan(s: string, i: nat)
    requires i == Span(s, IsSpace, false) && i < |s|
    ensures LeadingGap(s) == if s[..i] == [] then [""] else []
  {
    if i > 0 {
      assert !IsSpace(s[0]);
    }
  }

  /** The first piece, with or without the empty leading gap in front, stated over plain sequences. */
  lemma FrontPieces(x: string, lead: seq<string>, ws: seq<string>, w: seq<string>)
    requires lead == (if x == [] then [""] else [])
    requires ws == (if x == [] then [] else [x]) + w
    ensures lead + ws == [x] + w
  {
  }

  /** The split shape of the text from that of its tail, stated over plain sequences so the solver need not unfold the splitting functions. */
  lemma ShapeCompose(whole: seq<string>, x: string, rest: seq<string>, lead: seq<string>, ws: seq<string>,
                     w: seq<string>, t: seq<string>, restLead: seq<string>, restTrail: seq<string>)
    requires whole == [x] + rest && rest == restLead + w + restTrail
    requires restLead == [] && restTrail == t
    requires lead + ws == [x] + w
    ensures whole == lead + ws + t
  {
  }

  /** One step of `split(/\s+/)`: the first piece, then the split of what follows the first whitespace run. */
  lemma SplitOnSpacesStep(s: string, i: nat, m: nat)
    requires i == Span(s, IsSpace, false) && i < |s|
    requires m == Span(s[i..], IsSpace, true)
    ensures i < i + m <= |s|
    ensures SplitOnSpaces(s) == [s[..i]] + SplitOnSpaces(s[i + m..])
  {
    SpaceRunNotEmpty(s[i..]);
    DropTwice(s, i, m);
  }

  lemma DropTwice(s: string, i: nat, m: nat)
    requires i + m <= |s|
    ensures s[i..][m..] == s[i + m..]
  {
  }

  lemma SpaceRunNotEmpty(t: string)
    requires t != [] && IsSpace(t[0])
    ensures 0 < Span(t, IsSpace, true) <= |t|
  {
  }

  lemma GapsAfterRun(s: string, i: nat, m: nat)
    requires i < |s| && IsSpace(s[i])
    requires m == Span(s[i..], IsSpace, true)
    ensures i + m <= |s|
    ensures LeadingGap(s[i + m..]) == []
    ensures TrailingGap(s[i + m..]) == TrailingGap(s)
  {
    var t := s[i..];
    var j := i + m;
    assert s[j..] == t[m..];
    if s[j..] != [] {
      assert s[j..][0] == t[m];
      assert s[j..][|s[j..]| - 1] == s[|s| - 1];
    } else {
      assert s[|s| - 1] == t[m - 1];
    }
  }

  lemma WordsAfterRun(s: string, i: nat, m: nat)
    requires i == Span(s, IsSpace, false) && i < |s|
    requires m == Span(s[i..], IsSpace, true)
    ensures i + m <= |s|
    ensures Words(s) == (if i == 0 then [] else [s[..i]]) + Words(s[i + m..])
  {
    SpaceRunSkipped(s, i, m);
    if i > 0 {
      RunsFirstWord(s, i);
    }
  }

  /** The whitespace run at `i` contributes no word. */
  lemma SpaceRunSkipped(s: string, i: nat, m: nat)
    requires i <= |s| && m == Span(s[i..], IsSpace, true)
    ensures i + m <= |s|
    ensures Runs(s[i..], IsSpace, false) == Runs(s[i + m..], IsSpace, false)
  {
    var t := s[i..];
    assert s[i + m..] == t[m..];
    RunsSkip(t, IsSpace, false, m);
  }

  /** A text that starts with `i > 0` non-space characters has them as its first word. */
  lemma RunsFirstWord(s: string, i: nat)
    requires 0 < i == Span(s, IsSpace, false)
    ensures Runs(s, IsSpace, false) == [s[..i]] + Runs(s[i..], IsSpace, false)
  {
    assert !IsSpace(s[0]);
  }

  // ---------------------------------------------------------------------------
  // trim
  // ---------------------------------------------------------------------------

  /** `s` without its leading whitespace. */
  function TrimStart(s: string): (r: string)
    ensures |r| <= |s| && r == s[|s| - |r|..]
    ensures AllSpace(s[..|s| - |r|])
    ensures r == [] || !IsSpace(r[0])
  {
    s[Span(s, IsSpace, true)..]
  }

  /** `s` without its trailing whitespace. */
  function TrimEnd(s: string): (r: string)
    ensures |r| <= |s| && r == s[..|r|]
    ensures AllSpace(s[|r|..])
    ensures r == [] || !IsSpace(r[|r| - 1])
  {
    if s != [] && IsSpace(s[|s| - 1]) then
      var t := s[..|s| - 1];
      var r := TrimEnd(t);
      assert t[..|r|] == s[..|r|];
      assert AllSpace(s[|r|..]) by {
        forall i | 0 <= i < |s| - |r| ensures IsSpace(s[|r|..][i]) {
          if |r| + i < |t| {
            assert s[|r|..][i] == t[|r|..][i];
          }
        }
      }
      r
    else s
  }

  /** `s.trim()`. */
  function Trim(s: string): (r: string)
    ensures IsTrimmed(r)
    ensures r == [] <==> AllSpace(s)
  {
    var t := TrimStart(s);
    var r := TrimEnd(t);
    assert r == [] ==> AllSpace(s) by {
      if r == [] {
        assert AllSpace(t);
        assert s == s[..|s| - |t|] + t;
      }
    }
    r
  }

  /** Trimming removes whitespace around a trimmed core, and nothing else. */
  lemma TrimAround(pre: string, core: string, post: string)
    requires AllSpace(pre) && AllSpace(post) && IsTrimmed(core)
    ensures Trim(pre + core + post) == core
  {
    var s := pre + core + post;
    if core == [] {
      assert AllSpace(s) by {
        forall i | 0 <= i < |s| ensures IsSpace(s[i]) {
          if i < |pre| { assert s[i] == pre[i]; } else { assert s[i] == post[i - |pre|]; }
        }
      }
    } else {
      assert s[|pre|] == core[0];
      assert Span(s, IsSpace, true) == |pre|;
      var t := s[|pre|..];
      assert t == core + post;
      var r := TrimEnd(t);
      assert t[|core| - 1] == core[|core| - 1];
      assert |r| == |core|;
      assert r == core;
    }
  }

  // ---------------------------------------------------------------------------
  // join(' ') and slice
  // ---------------------------------------------------------------------------

  /** `ws.join(' ')`. */
  function JoinSpaced(ws: seq<string>): (r: string)
    ensures ws != [] ==> ws[0] <= r
    ensures |ws| > 1 ==> |ws[0]| < |r| && r[|ws[0]|] == ' '
  {
    if |ws| == 0 then "" else if |ws| == 1 then ws[0] else ws[0] + " " + JoinSpaced(ws[1..])
  }

  /** `xs.slice(0, n)`. */
  function Take<T>(xs: seq<T>, n: nat): (r: seq<T>)
    ensures |r| <= n && r <= xs
    ensures |xs| <= n ==> r == xs
    ensures |xs| >= n ==> |r| == n
  {
    if |xs| <= n then xs else xs[..n]
  }

  /** `s.slice(from, to)` for non-negative bounds. */
  function Slice(s: string, from: nat, to: nat): (r: string)
    ensures |r| <= to - from || |r| == 0
    ensures from <= to <= |s| ==> r == s[from..to]
  {
    var lo := if from <= |s| then from else |s|;
    var hi := if to <= |s| then to else |s|;
    if lo <= hi then s[lo..hi] else ""
  }

  /** The words of a non-empty string are non-empty, whitespace-free strings. */
  predicate AreWords(ws: seq<string>) {
    forall k :: 0 <= k < |ws| ==> ws[k] != [] && NoSpace(ws[k])
  }

  /** A prefix of words is words. */
  lemma TakeWords(ws: seq<string>, n: nat)
    requires AreWords(ws)
    ensures AreWords(Take(ws, n))
  {
    var r := Take(ws, n);
    forall k | 0 <= k < |r| ensures r[k] != [] && NoSpace(r[k]) {
      assert r[k] == ws[k];
    }
  }

  lemma {:induction false} JoinSnoc(ws: seq<string>, w: string)
    requires ws != []
    ensures JoinSpaced(ws + [w]) == JoinSpaced(ws) + " " + w
    decreases |ws|
  {
    if |ws| > 1 {
      assert (ws + [w])[1..] == ws[1..] + [w];
      JoinSnoc(ws[1..], w);
    }
  }

  /** Words joined by single spaces: trimmed, and splitting the result into words gives them back. */
  lemma {:induction false} JoinWordsRoundTrip(ws: seq<string>)
    requires AreWords(ws)
    ensures IsTrimmed(JoinSpaced(ws))
    ensures (JoinSpaced(ws) == []) == (ws == [])
    ensures Words(JoinSpaced(ws)) == ws
    decreases |ws|
  {
    if |ws| == 1 {
      RunsOfUniform(ws[0], IsSpace, false);
    } else if |ws| > 1 {
      var w := ws[0];
      var rest := JoinSpaced(ws[1..]);
      JoinWordsRoundTrip(ws[1..]);
      assert JoinSpaced(ws) == w + " " + rest;
      JoinTwoTrimmed(w, rest);
      WordsOfJoinTwo(w, rest);
    }
  }

  lemma JoinTwoTrimmed(w: string, rest: string)
    requires w != [] && NoSpace(w) && rest != [] && IsTrimmed(rest)
    ensures IsTrimmed(w + " " + rest)
  {
    var s := w + " " + rest;
    assert s[0] == w[0];
    assert s[|s| - 1] == rest[|rest| - 1];
  }

  /** A word, a space and a text that does not start with whitespace: the word comes first among the words. */
  lemma WordsOfJoinTwo(w: string, rest: string)
    requires w != [] && NoSpace(w) && (rest == [] || !IsSpace(rest[0]))
    ensures Words(w + " " + rest) == [w] + Words(rest)
  {
    var s := w + " " + rest;
    SpanUpTo(s, |w|);
    RunsFirstWord(s, |w|);
    assert s[..|w|] == w;
    var t := s[|w|..];
    assert t[0] == ' ' && t[1..] == rest;
    RunsSkip(t, IsSpace, false, 1);
  }

  /** The span of non-space characters ends at the first whitespace character. */
  lemma SpanUpTo(s: string, n: nat)
    requires n < |s| && IsSpace(s[n])
    requires forall i :: 0 <= i < n ==> !IsSpace(s[i])
    ensures Span(s, IsSpace, false) == n
  {
    var k := Span(s, IsSpace, false);
    assert k < |s| ==> IsSpace(s[k]);
  }

  /** Joining words by single spaces puts whitespace only as single spaces between two words. */
  lemma {:induction false} JoinSpacedIsSingleSpaced(ws: seq<string>)
    requires AreWords(ws)
    ensures forall i :: 0 <= i < |JoinSpaced(ws)| && IsSpace(JoinSpaced(ws)[i]) ==>
      JoinSpaced(ws)[i] == ' ' && 0 < i < |JoinSpaced(ws)| - 1 && !IsSpace(JoinSpaced(ws)[i + 1])
    decreases |ws|
  {
    if |ws| > 1 {
      var w := ws[0];
      var rest := JoinSpaced(ws[1..]);
      JoinSpacedIsSingleSpaced(ws[1..]);
      JoinWordsRoundTrip(ws[1..]);
      var s := w + " " + rest;
      forall i | 0 <= i < |s| && IsSpace(s[i])
        ensures s[i] == ' ' && 0 < i < |s| - 1 && !IsSpace(s[i + 1])
      {
        if i == |w| {
          assert s[i + 1] == rest[0];
        } else {
          assert s[i] == rest[i - |w| - 1];
          assert s[i + 1] == rest[i - |w|];
        }
      }
    }
  }

  // ---------------------------------------------------------------------------
  // toLowerCase
  // ---------------------------------------------------------------------------

  /** `toLowerCase` on one character, for the characters whose lower case is ASCII:
      `A`-`Z`, and the Kelvin sign, which lower-cases to `k`. Every other
      character either is unchanged or stays outside `\w`. */
  function LowerChar(c: char): (d: char)
    ensures IsWordChar(d) ==> IsWordChar(c) || c == '\U{212A}'
    ensures 'A' <= c <= 'Z' ==> d as int == c as int + 32
    ensures c == '\U{212A}' ==> d == 'k'
    ensures !('A' <= c <= 'Z') && c != '\U{212A}' ==> d == c
  {
    if 'A' <= c <= 'Z' then (c as int + 32) as char
    else if c == '\U{212A}' then 'k'
    else c
  }

  /** `s.toLowerCase()`, character by character. */
  function ToLower(s: string): (r: string)
    ensures |r| == |s|
    ensures forall i :: 0 <= i < |s| ==> r[i] == LowerChar(s[i])
    ensures forall i :: 0 <= i < |r| ==> !('A' <= r[i] <= 'Z')
  {
    seq(|s|, i requires 0 <= i < |s| => LowerChar(s[i]))
  }

  // ---------------------------------------------------------------------------
  // Decimal rendering of a number in a template literal
  // ---------------------------------------------------------------------------

  predicate IsDigit(c: char) {
    '0' <= c <= '9'
  }

  predicate AllDigits(s: string) {
    forall i :: 0 <= i < |s| ==> IsDigit(s[i])
  }

  /** `${n}` for a non-negative integer `n`. */
  function Decimal(n: nat): (s: string)
    ensures s != [] && AllDigits(s)
    ensures n > 0 ==> s[0] != '0'
  {
    if n < 10 then [(48 + n) as char]
    else Decimal(n / 10) + [(48 + n % 10) as char]
  }

  /** The number a string of digits denotes. */
  function DecimalValue(s: string): nat
    requires AllDigits(s)
  {
    if s == [] then 0 else DecimalValue(s[..|s| - 1]) * 10 + (s[|s| - 1] as int - 48)
  }

  /** Reading back a rendered number gives the number. */
  lemma {:induction false} DecimalRoundTrip(n: nat)
    ensures DecimalValue(Decimal(n)) == n
  {
    if n >= 10 {
      var d := Decimal(n / 10);
      DecimalRoundTrip(n / 10);
      assert (d + [(48 + n % 10) as char])[..|d|] == d;
    }
  }

  /** Distinct numbers render to distinct strings. */
  lemma DecimalInjective(a: nat, b: nat)
    requires Decimal(a) == Decimal(b)
    ensures a == b
  {
    DecimalRoundTrip(a);
    DecimalRoundTrip(b);
  }
}
