/** The note synthesizer: turns a transcript into a titled note of paragraph
    blocks and frequency-ranked tags. The note id, the ISO timestamp and the
    millisecond clock read for each block id are parameters. */
module IdeaEngine {
  import opened Types
  import opened Text

  // ===========================================================================
  // Sentence ends: a terminator followed by one whitespace character
  // ===========================================================================

  /** `/[\.\!\?]\s/` matches at `k`. */
  predicate IsStopAt(s: string, k: int) {
    0 <= k < |s| - 1 && IsTerminator(s[k]) && IsSpace(s[k + 1])
  }

  predicate NoStop(s: string) {
    forall k :: 0 <= k < |s| ==> !IsStopAt(s, k)
  }

  function FirstStopFrom(s: string, k: nat): (i: nat)
    requires k <= |s|
    ensures k <= i <= |s|
    ensures i < |s| ==> IsStopAt(s, i)
    decreases |s| - k
  {
    if k + 1 >= |s| then |s|
    else if IsStopAt(s, k) then k
    else FirstStopFrom(s, k + 1)
  }

  /** Where the first sentence end is, or `|s|` when there is none. */
  function FirstStop(s: string): (i: nat)
    ensures i <= |s|
    ensures i < |s| ==> IsStopAt(s, i)
  {
    FirstStopFrom(s, 0)
  }

  lemma {:induction false} FirstStopFromIsFirst(s: string, k: nat)
    requires k <= |s|
    ensures forall j :: k <= j < FirstStopFrom(s, k) ==> !IsStopAt(s, j)
    ensures FirstStopFrom(s, k) == |s| ==> forall j :: k <= j ==> !IsStopAt(s, j)
    decreases |s| - k
  {
    if k + 1 < |s| && !IsStopAt(s, k) {
      FirstStopFromIsFirst(s, k + 1);
    }
  }

  /** No sentence end comes before the first one, and there is none at all when it is reported at `|s|`. */
  lemma FirstStopIsFirst(s: string)
    ensures forall j :: 0 <= j < FirstStop(s) ==> !IsStopAt(s, j)
    ensures FirstStop(s) == |s| ==> NoStop(s)
  {
    FirstStopFromIsFirst(s, 0);
  }

  lemma NoStopSuffix(s: string, j: nat)
    requires NoStop(s) && j <= |s|
    ensures NoStop(s[j..])
  {
    forall k ensures !IsStopAt(s[j..], k) {
      if IsStopAt(s[j..], k) {
        assert IsStopAt(s, j + k);
      }
    }
  }

  // ===========================================================================
  // generateTitle
  // ===========================================================================

  /** `text.split(/[\.\!\?]\s/)[0]`: the text before its first sentence end. */
  function FirstSegment(text: string): (seg: string)
    ensures seg <= text
    ensures NoStop(seg)
    ensures |seg| < |text| ==> IsStopAt(text, |seg|)
  {
    var i := FirstStop(text);
    var seg := text[..i];
    FirstStopIsFirst(text);
    assert NoStop(seg) by {
      forall k ensures !IsStopAt(seg, k) {
        if IsStopAt(seg, k) { assert IsStopAt(text, k); }
      }
    }
    seg
  }

  /** `generateTitle`: the first 8 pieces of the first segment split at whitespace
      runs, joined by single spaces and trimmed. */
  function GenerateTitle(text: string): (title: string)
    ensures IsTrimmed(title)
  {
    Trim(JoinSpaced(Take(SplitOnSpaces(FirstSegment(text)), 8)))
  }

  /** How many words a title keeps from `segment`: 8, or 7 when the segment
      starts with whitespace, because `split(/\s+/)` then yields an empty first
      piece that takes one of the 8 places. */
  function TitleWordLimit(segment: string): (n: nat)
    ensures n == 7 || n == 8
    ensures n == 7 <==> segment != [] && IsSpace(segment[0])
  {
    8 - |LeadingGap(segment)|
  }

  lemma TakeAroundWords(L: seq<string>, W: seq<string>, R: seq<string>)
    requires |L| <= 1 && |R| <= 1
    ensures Take(L + W + R, 8) == L + Take(W, 8 - |L|) + (if |W| < 8 - |L| then R else [])
  {
    var k := 8 - |L|;
    if |W| >= k {
      assert (L + W + R)[..8] == L + W[..k];
    }
  }

  /** Words framed by the empty pieces `split(/\s+/)` leaves join to the words with a space on each framed side. */
  lemma JoinFramed(L: seq<string>, W: seq<string>, R: seq<string>)
    requires L == [] || L == [""]
    requires R == [] || R == [""]
    requires W != []
    ensures JoinSpaced(L + W + R) == (if L == [] then "" else " ") + JoinSpaced(W) + (if R == [] then "" else " ")
  {
    var middle := W + R;
    assert JoinSpaced(middle) == JoinSpaced(W) + (if R == [] then "" else " ") by {
      if R != [] {
        assert middle == W + [""];
        JoinSnoc(W, "");
      } else {
        assert middle == W;
      }
    }
    assert L + W + R == L + middle;
    if L != [] {
      assert (L + middle)[0] == "";
      assert (L + middle)[1..] == middle;
    } else {
      assert L + middle == middle;
    }
  }

  /** Trimming words that `split(/\s+/)` framed with empty pieces gives the words joined by single spaces. */
  lemma TrimJoinGaps(L: seq<string>, W: seq<string>, R: seq<string>)
    requires L == [] || L == [""]
    requires R == [] || R == [""]
    requires AreWords(W)
    ensures Trim(JoinSpaced(L + W + R)) == JoinSpaced(W)
  {
    if W == [] {
      assert L + W + R == L + R;
      JoinOfGapsIsBlank(L, R);
    } else {
      JoinWordsRoundTrip(W);
      JoinFramed(L, W, R);
      TrimFramed(L == [], JoinSpaced(W), R == []);
    }
  }

  /** A trimmed text with a space on neither, one or both sides trims back to itself. */
  lemma TrimFramed(noLead: bool, core: string, noTrail: bool)
    requires IsTrimmed(core)
    ensures Trim((if noLead then "" else " ") + core + (if noTrail then "" else " ")) == core
  {
    var pre: string := if noLead then "" else " ";
    var post: string := if noTrail then "" else " ";
    assert AllSpace(pre) && AllSpace(post);
    TrimAround(pre, core, post);
  }

  lemma JoinOfGapsIsBlank(L: seq<string>, R: seq<string>)
    requires L == [] || L == [""]
    requires R == [] || R == [""]
    ensures Trim(JoinSpaced(L + R)) == ""
  {
    if L + R == ["", ""] {
      assert (L + R)[1..] == [""];
      assert JoinSpaced(L + R) == " ";
    } else {
      assert L + R == [] || L + R == [""];
    }
  }

  /** The title is the leading words of the first segment (at most
      `TitleWordLimit` of them) joined by single spaces. */
  lemma TitleIsLeadingWords(text: string)
    ensures GenerateTitle(text) == JoinSpaced(Take(Words(FirstSegment(text)), TitleWordLimit(FirstSegment(text))))
  {
    var seg := FirstSegment(text);
    var L, W, R := LeadingGap(seg), Words(seg), TrailingGap(seg);
    SplitOnSpacesShape(seg);
    var k := TitleWordLimit(seg);
    TakeAroundWords(L, W, R);
    TakeWords(W, k);
    TrimJoinGaps(L, Take(W, k), if |W| < k then R else []);
    assert GenerateTitle(text) == Trim(JoinSpaced(Take(L + W + R, 8)));
  }

  /** The title is trimmed, spaced by single spaces, and its words are the first
      words of the first segment, at most 8 of them. */
  lemma TitleShape(text: string)
    ensures IsTrimmed(GenerateTitle(text))
    ensures Words(GenerateTitle(text)) == Take(Words(FirstSegment(text)), TitleWordLimit(FirstSegment(text)))
    ensures Words(GenerateTitle(text)) <= Words(FirstSegment(text))
    ensures |Words(GenerateTitle(text))| <= 8
    ensures forall i :: 0 <= i < |GenerateTitle(text)| && IsSpace(GenerateTitle(text)[i]) ==>
      GenerateTitle(text)[i] == ' ' && !IsSpace(GenerateTitle(text)[i + 1])
  {
    TitleIsLeadingWords(text);
    TakeWords(Words(FirstSegment(text)), TitleWordLimit(FirstSegment(text)));
    JoinWordsRoundTrip(Take(Words(FirstSegment(text)), TitleWordLimit(FirstSegment(text))));
    JoinSpacedIsSingleSpaced(Take(Words(FirstSegment(text)), TitleWordLimit(FirstSegment(text))));
  }

  /** Every word of a stop-free string that another word follows does not end in a terminator. */
  lemma {:induction false} WordsBeforeSpaceNoTerminator(s: string)
    requires NoStop(s)
    ensures forall k :: 0 <= k < |Words(s)| - 1 ==> !IsTerminator(Words(s)[k][|Words(s)[k]| - 1])
    decreases |s|
  {
    if s != [] {
      NoStopSuffix(s, 1);
      if IsSpace(s[0]) {
        assert Words(s) == Words(s[1..]);
        WordsBeforeSpaceNoTerminator(s[1..]);
      } else {
        var n := Span(s, IsSpace, false);
        NoStopSuffix(s, n);
        WordsBeforeSpaceNoTerminator(s[n..]);
        assert Words(s) == [s[..n]] + Words(s[n..]);
        if Words(s[n..]) != [] {
          assert n < |s|;
          assert !IsStopAt(s, n - 1);
        }
      }
    }
  }

  /** Joining words none of which but the last ends in a terminator yields no sentence end. */
  lemma {:induction false} JoinNoStop(ws: seq<string>)
    requires AreWords(ws)
    requires forall k :: 0 <= k < |ws| - 1 ==> !IsTerminator(ws[k][|ws[k]| - 1])
    ensures NoStop(JoinSpaced(ws))
    decreases |ws|
  {
    if |ws| == 1 {
      forall k ensures !IsStopAt(ws[0], k) {
        if 0 <= k < |ws[0]| - 1 { assert !IsSpace(ws[0][k + 1]); }
      }
    } else if |ws| > 1 {
      var w := ws[0];
      var rest := JoinSpaced(ws[1..]);
      JoinNoStop(ws[1..]);
      var s := w + " " + rest;
      forall k | 0 <= k < |s| - 1 ensures !IsStopAt(s, k) {
        if k > |w| {
          var j := k - |w| - 1;
          assert s[k] == rest[j] && s[k + 1] == rest[j + 1];
          assert !IsStopAt(rest, j);
        } else if k == |w| {
          assert s[k] == ' ';
        } else if k == |w| - 1 {
          assert s[k] == w[|w| - 1];
        } else {
          assert s[k + 1] == w[k + 1];
        }
      }
    }
  }

  /** The title never contains a terminator followed by whitespace. */
  lemma TitleHasNoStop(text: string)
    ensures NoStop(GenerateTitle(text))
  {
    WordsBeforeSpaceNoTerminator(FirstSegment(text));
    LeadingWordsNoStop(Words(FirstSegment(text)), TitleWordLimit(FirstSegment(text)));
    TitleIsLeadingWords(text);
  }

  /** Leading words none of which but the last ends in a terminator join to a text with no sentence end. */
  lemma LeadingWordsNoStop(W: seq<string>, n: nat)
    requires AreWords(W)
    requires forall k :: 0 <= k < |W| - 1 ==> !IsTerminator(W[k][|W[k]| - 1])
    ensures NoStop(JoinSpaced(Take(W, n)))
  {
    var ws := Take(W, n);
    TakeWords(W, n);
    assert forall k :: 0 <= k < |ws| - 1 ==> !IsTerminator(ws[k][|ws[k]| - 1]) by {
      forall k | 0 <= k < |ws| - 1 ensures !IsTerminator(ws[k][|ws[k]| - 1]) {
        assert ws[k] == W[k];
      }
    }
    JoinNoStop(ws);
  }

  // ===========================================================================
  // generateBlocks
  // ===========================================================================

  /** The pieces put back together with the runs between them. */
  function Interleave(pieces: seq<string>, gaps: seq<string>): string
    requires |pieces| == |gaps| + 1
    decreases |gaps|
  {
    if gaps == [] then pieces[0] else pieces[0] + gaps[0] + Interleave(pieces[1..], gaps[1..])
  }

  /** `s.split(/(?<=[\.\!\?])\s+/)` as its pieces (`.0`), together with the
      whitespace runs the split removes between them (`.1`). */
  function SplitSentences(s: string): (r: (seq<string>, seq<string>))
    ensures |r.0| == |r.1| + 1
    decreases |s|
  {
    var i := FirstStop(s);
    if i == |s| then ([s], [])
    else
      var q := i + 1;
      var e := q + Span(s[q..], IsSpace, true);
      var rest := SplitSentences(s[e..]);
      ([s[..q]] + rest.0, [s[q..e]] + rest.1)
  }

  /** Unfolds one step of the sentence split of a text that has a sentence end:
      the first piece ends just after it, and the whitespace run after it is removed whole. */
  lemma SplitSentencesUnfold(s: string) returns (q: nat, e: nat)
    requires FirstStop(s) < |s|
    ensures q == FirstStop(s) + 1 && q < e <= |s|
    ensures e == q + Span(s[q..], IsSpace, true)
    ensures SplitSentences(s).0 == [s[..q]] + SplitSentences(s[e..]).0
    ensures SplitSentences(s).1 == [s[q..e]] + SplitSentences(s[e..]).1
  {
    q := FirstStop(s) + 1;
    var t := s[q..];
    assert IsStopAt(s, q - 1);
    assert t[0] == s[q];
    e := q + Span(t, IsSpace, true);
    assert SplitSentences(s) == ([s[..q]] + SplitSentences(s[e..]).0, [s[q..e]] + SplitSentences(s[e..]).1);
  }

  /** Putting the pieces and the removed runs back together gives the text; the first piece is a prefix of it. */
  lemma {:induction false} SplitSentencesRejoin(s: string)
    ensures SplitSentences(s).0[0] <= s
    ensures Interleave(SplitSentences(s).0, SplitSentences(s).1) == s
    decreases |s|
  {
    if FirstStop(s) < |s| {
      var q, e := SplitSentencesUnfold(s);
      var rest := SplitSentences(s[e..]);
      SplitSentencesRejoin(s[e..]);
      InterleaveCons(s[..q], s[q..e], rest.0, rest.1);
      SliceThree(s, q, e);
    }
  }

  /** The runs the sentence split removes are non-empty and all whitespace. */
  lemma {:induction false} SentenceGapsAreSpace(s: string)
    ensures forall k :: 0 <= k < |SplitSentences(s).1| ==>
      SplitSentences(s).1[k] != [] && AllSpace(SplitSentences(s).1[k])
    decreases |s|
  {
    if FirstStop(s) < |s| {
      var q, e := SplitSentencesUnfold(s);
      SentenceGapsAreSpace(s[e..]);
      SpaceRunIsSpace(s, q, e);
      PrependHolds(s[q..e], SplitSentences(s[e..]).1, |SplitSentences(s[e..]).1|);
    }
  }

  /** Non-empty and ending in `.`, `!` or `?`. */
  predicate EndsInTerminator(p: string) {
    p != [] && IsTerminator(p[|p| - 1])
  }

  /** Every piece but the last ends in a terminator. */
  lemma {:induction false} SentencePiecesEndInTerminator(s: string)
    ensures forall k :: 0 <= k < |SplitSentences(s).1| ==> EndsInTerminator(SplitSentences(s).0[k])
    decreases |s|
  {
    if FirstStop(s) < |s| {
      var q, e := SplitSentencesUnfold(s);
      var rest := SplitSentences(s[e..]);
      SentencePiecesEndInTerminator(s[e..]);
      FirstPieceEndsInTerminator(s, q);
      TerminatedCons(s[..q], rest.0, |rest.1|);
    }
  }

  lemma FirstPieceEndsInTerminator(s: string, q: nat)
    requires q == FirstStop(s) + 1 && q <= |s|
    ensures EndsInTerminator(s[..q])
  {
    assert IsStopAt(s, q - 1);
    assert s[..q][q - 1] == s[q - 1];
  }

  /** A piece ending in a terminator put in front of pieces that do (up to `n`) keeps the property, up to `n + 1`. */
  lemma TerminatedCons(p: string, ps: seq<string>, n: nat)
    requires n <= |ps| && EndsInTerminator(p)
    requires forall k :: 0 <= k < n ==> EndsInTerminator(ps[k])
    ensures forall k :: 0 <= k < n + 1 ==> EndsInTerminator(([p] + ps)[k])
  {
    forall k | 0 < k < n + 1 ensures ([p] + ps)[k] == ps[k - 1] {
    }
  }

  /** A run that is non-empty and all whitespace put in front of runs that are keeps the property. */
  lemma PrependHolds(g: string, gs: seq<string>, n: nat)
    requires n == |gs| && g != [] && AllSpace(g)
    requires forall k :: 0 <= k < n ==> gs[k] != [] && AllSpace(gs[k])
    ensures forall k :: 0 <= k < n + 1 ==> ([g] + gs)[k] != [] && AllSpace(([g] + gs)[k])
  {
    forall k | 0 < k < n + 1 ensures ([g] + gs)[k] == gs[k - 1] {
    }
  }

  /** No piece holds a terminator followed by whitespace. */
  lemma {:induction false} SentencePiecesHaveNoStop(s: string)
    ensures forall k :: 0 <= k < |SplitSentences(s).0| ==> NoStop(SplitSentences(s).0[k])
    decreases |s|
  {
    if FirstStop(s) < |s| {
      var q, e := SplitSentencesUnfold(s);
      var rest := SplitSentences(s[e..]);
      SentencePiecesHaveNoStop(s[e..]);
      FirstPieceNoStop(s, q);
      forall k | 0 < k < |rest.0| + 1 ensures ([s[..q]] + rest.0)[k] == rest.0[k - 1] {
      }
    } else {
      FirstStopIsFirst(s);
    }
  }

  /** Whitespace runs are removed whole: no piece but the first starts with whitespace. */
  lemma {:induction false} SentencePiecesStartAfterSpace(s: string)
    ensures forall k :: 0 < k < |SplitSentences(s).0| ==>
      SplitSentences(s).0[k] == [] || !IsSpace(SplitSentences(s).0[k][0])
    decreases |s|
  {
    if FirstStop(s) < |s| {
      var q, e := SplitSentencesUnfold(s);
      var rest := SplitSentences(s[e..]);
      SentencePiecesStartAfterSpace(s[e..]);
      SplitSentencesRejoin(s[e..]);
      RestStartsAfterSpace(s, q, e, rest.0[0]);
      forall k | 1 < k < |rest.0| + 1 ensures ([s[..q]] + rest.0)[k] == rest.0[k - 1] {
      }
    }
  }

  /** The maximal whitespace run at `q` is all whitespace. */
  lemma SpaceRunIsSpace(s: string, q: nat, e: nat)
    requires q <= |s| && e == q + Span(s[q..], IsSpace, true)
    ensures e <= |s| && AllSpace(s[q..e])
  {
    var t := s[q..];
    assert s[q..e] == t[..e - q];
  }

  /** What follows a maximal whitespace run does not start with whitespace. */
  lemma RestStartsAfterSpace(s: string, q: nat, e: nat, p: string)
    requires q <= |s| && e == q + Span(s[q..], IsSpace, true)
    requires p <= s[e..]
    ensures p == [] || !IsSpace(p[0])
  {
    var t := s[q..];
    if p != [] {
      assert s[e..] == t[e - q..];
      assert p[0] == t[e - q];
    }
  }

  lemma SliceThree(s: string, q: nat, e: nat)
    requires q <= e <= |s|
    ensures s[..q] + s[q..e] + s[e..] == s
  {
  }

  lemma InterleaveCons(p: string, g: string, ps: seq<string>, gs: seq<string>)
    requires |ps| == |gs| + 1
    ensures Interleave([p] + ps, [g] + gs) == p + g + Interleave(ps, gs)
  {
    assert ([p] + ps)[1..] == ps;
    assert ([g] + gs)[1..] == gs;
  }

  lemma FirstPieceNoStop(s: string, q: nat)
    requires 0 < q <= |s| && q - 1 == FirstStop(s)
    ensures NoStop(s[..q])
  {
    FirstStopIsFirst(s);
    forall k | 0 <= k < q ensures !IsStopAt(s[..q], k) {
      if IsStopAt(s[..q], k) { assert IsStopAt(s, k); }
    }
  }

  /** `filter(Boolean)` on strings: the non-empty ones, in order. */
  function NonEmpty(xs: seq<string>): (r: seq<string>)
    ensures forall k :: 0 <= k < |r| ==> r[k] != []
    ensures forall w :: w in r <==> w in xs && w != []
  {
    if xs == [] then []
    else
      assert xs == [xs[0]] + xs[1..];
      (if xs[0] == [] then [] else [xs[0]]) + NonEmpty(xs[1..])
  }

  /** When only the last string may be empty, `filter(Boolean)` drops at most that one. */
  lemma {:induction false} NonEmptyDropsOnlyLast(xs: seq<string>)
    requires xs != []
    requires forall k :: 0 <= k < |xs| - 1 ==> xs[k] != []
    ensures NonEmpty(xs) == if xs[|xs| - 1] == [] then xs[..|xs| - 1] else xs
    decreases |xs|
  {
    if |xs| > 1 {
      NonEmptyDropsOnlyLast(xs[1..]);
      assert xs == [xs[0]] + xs[1..];
      if xs[|xs| - 1] == [] {
        assert xs[..|xs| - 1] == [xs[0]] + xs[1..][..|xs| - 2];
      }
    }
  }

  /** `b_${i}_${Date.now()}`, with the clock reading as a parameter. */
  function BlockId(index: nat, time: nat): (id: string)
    ensures |id| > 2 + |Decimal(index)| && id[..2] == "b_" && id[2 + |Decimal(index)|] == '_'
    ensures var k := 2 + |Decimal(index)|; AllDigits(id[2..k]) && DecimalValue(id[2..k]) == index
    ensures var k := 3 + |Decimal(index)|; AllDigits(id[k..]) && DecimalValue(id[k..]) == time
  {
    var id := "b_" + Decimal(index) + "_" + Decimal(time);
    assert id[2..2 + |Decimal(index)|] == Decimal(index);
    assert id[3 + |Decimal(index)|..] == Decimal(time);
    DecimalRoundTrip(index);
    DecimalRoundTrip(time);
    id
  }

  /** In an id, the digits after `b_` end at the `_` that follows them. */
  lemma DigitsEndAtUnderscore(id: string, k: nat)
    requires 2 + k < |id| && AllDigits(id[2..2 + k]) && id[2 + k] == '_'
    ensures Span(id[2..], IsDigit, true) == k
  {
    var t := id[2..];
    assert forall i :: 0 <= i < k ==> IsDigit(t[i]) by {
      forall i | 0 <= i < k ensures IsDigit(t[i]) {
        assert t[i] == id[2..2 + k][i];
      }
    }
    assert !IsDigit(t[k]);
  }

  /** Block ids of different indexes differ, whatever the clock reads. */
  lemma BlockIdInjective(i: nat, a: nat, j: nat, b: nat)
    requires BlockId(i, a) == BlockId(j, b)
    ensures i == j
  {
    DigitsEndAtUnderscore(BlockId(i, a), |Decimal(i)|);
    DigitsEndAtUnderscore(BlockId(j, b), |Decimal(j)|);
  }

  /** `generateBlocks`: one paragraph block per non-empty sentence piece, in
      order, with its trimmed text; `clock(i)` is what `Date.now()` returns
      while block `i` is built. */
  function GenerateBlocks(text: string, clock: nat -> nat): (blocks: seq<Block>)
    ensures |blocks| == |NonEmpty(SplitSentences(text).0)|
    ensures forall i :: 0 <= i < |blocks| ==>
      (blocks[i].id == BlockId(i, clock(i)) && blocks[i].order == i
       && blocks[i].content == Trim(NonEmpty(SplitSentences(text).0)[i]))
  {
    var sentences := NonEmpty(SplitSentences(text).0);
    seq(|sentences|, i requires 0 <= i < |sentences| =>
      Block(BlockId(i, clock(i)), Paragraph, Trim(sentences[i]), None, i))
  }

  /** Blocks are paragraphs numbered 0, 1, ... in order, with trimmed content and pairwise distinct ids. */
  lemma BlocksNumbered(text: string, clock: nat -> nat)
    ensures forall i :: 0 <= i < |GenerateBlocks(text, clock)| ==>
      GenerateBlocks(text, clock)[i].order == i && GenerateBlocks(text, clock)[i].kind == Paragraph
      && GenerateBlocks(text, clock)[i].metadata == None && IsTrimmed(GenerateBlocks(text, clock)[i].content)
    ensures forall i, j :: 0 <= i < j < |GenerateBlocks(text, clock)| ==>
      GenerateBlocks(text, clock)[i].id != GenerateBlocks(text, clock)[j].id
  {
    var bs := GenerateBlocks(text, clock);
    var sentences := NonEmpty(SplitSentences(text).0);
    forall i | 0 <= i < |bs|
      ensures bs[i].order == i && bs[i].kind == Paragraph && bs[i].metadata == None && IsTrimmed(bs[i].content)
    {
      assert bs[i] == Block(BlockId(i, clock(i)), Paragraph, Trim(sentences[i]), None, i);
    }
    forall i, j | 0 <= i < j < |bs| ensures bs[i].id != bs[j].id {
      if bs[i].id == bs[j].id {
        BlockIdInjective(i, clock(i), j, clock(j));
      }
    }
  }

  /** The blocks are the sentence pieces, trimmed, except a last piece that is empty. */
  lemma BlocksFollowSentences(text: string, clock: nat -> nat)
    ensures var ps := SplitSentences(text).0;
      |GenerateBlocks(text, clock)| == |ps| - (if ps[|ps| - 1] == [] then 1 else 0)
      && forall i :: 0 <= i < |GenerateBlocks(text, clock)| ==> GenerateBlocks(text, clock)[i].content == Trim(ps[i])
  {
    var ps := SplitSentences(text).0;
    SentencePiecesEndInTerminator(text);
    NonEmptyDropsOnlyLast(ps);
  }

  /** An empty transcript yields no blocks. */
  lemma NoBlocksForEmptyTranscript(clock: nat -> nat)
    ensures GenerateBlocks("", clock) == []
  {
    assert SplitSentences("").0 == [""];
    assert NonEmpty([""]) == [];
  }

  /** A non-empty transcript of whitespace only yields one block, with empty content. */
  lemma OneEmptyBlockForBlankTranscript(text: string, clock: nat -> nat)
    requires text != [] && AllSpace(text)
    ensures |GenerateBlocks(text, clock)| == 1 && GenerateBlocks(text, clock)[0].content == ""
  {
    assert NoStop(text);
    assert SplitSentences(text).0 == [text];
    BlocksFollowSentences(text, clock);
  }

  /** Every block after the first starts right after a sentence end, so it is never empty. */
  lemma LaterBlocksNotEmpty(text: string, clock: nat -> nat)
    ensures forall i :: 0 < i < |GenerateBlocks(text, clock)| ==> GenerateBlocks(text, clock)[i].content != ""
  {
    var ps := SplitSentences(text).0;
    var bs := GenerateBlocks(text, clock);
    BlocksFollowSentences(text, clock);
    SentencePiecesEndInTerminator(text);
    SentencePiecesStartAfterSpace(text);
    forall i | 0 < i < |bs| ensures bs[i].content != "" {
      var p := ps[i];
      assert p != [] by {
        if i < |ps| - 1 {
          assert i < |SplitSentences(text).1|;
        }
      }
      assert !IsSpace(p[0]);
      assert !AllSpace(p);
      assert bs[i].content == Trim(p);
    }
  }

  lemma TerminatedNotBlank(p: string)
    requires EndsInTerminator(p)
    ensures !AllSpace(p)
  {
    assert !IsSpace(p[|p| - 1]);
  }

  /** The first block is empty only when the transcript is whitespace only and yields no other block. */
  lemma FirstBlockEmptyOnlyForBlankTranscript(text: string, clock: nat -> nat)
    ensures |GenerateBlocks(text, clock)| > 0 && GenerateBlocks(text, clock)[0].content == "" ==>
      |GenerateBlocks(text, clock)| == 1 && AllSpace(text)
  {
    var r := SplitSentences(text);
    var ps := r.0;
    BlocksFollowSentences(text, clock);
    if |ps| > 1 {
      SentencePiecesEndInTerminator(text);
      TerminatedNotBlank(ps[0]);
    } else {
      SplitSentencesRejoin(text);
      assert r.1 == [];
      assert ps[0] == text;
    }
  }

  /** A block has empty content only when it is the one block of a transcript of whitespace only. */
  lemma EmptyBlockOnlyForBlankTranscript(text: string, clock: nat -> nat)
    ensures forall i :: 0 <= i < |GenerateBlocks(text, clock)| && GenerateBlocks(text, clock)[i].content == "" ==>
      i == 0 && |GenerateBlocks(text, clock)| == 1 && AllSpace(text)
  {
    LaterBlocksNotEmpty(text, clock);
    FirstBlockEmptyOnlyForBlankTranscript(text, clock);
  }

  // ===========================================================================
  // generateTags
  // ===========================================================================

  /** Matched whole by `[a-z]{4,}`. */
  predicate IsTagWord(w: string) {
    |w| >= 4 && forall i :: 0 <= i < |w| ==> IsLowerLetter(w[i])
  }

  /** The runs that `\b[a-z]{4,}\b` matches, in order. */
  function KeepTagWords(runs: seq<string>): (r: seq<string>)
    ensures forall w :: multiset(r)[w] == if IsTagWord(w) then multiset(runs)[w] else 0
    ensures forall w :: w in r <==> w in runs && IsTagWord(w)
  {
    if runs == [] then []
    else
      assert runs == [runs[0]] + runs[1..];
      (if IsTagWord(runs[0]) then [runs[0]] else []) + KeepTagWords(runs[1..])
  }

  /** A single run is kept exactly when it is a tag word. */
  lemma KeepTagWordsSingle(x: string)
    ensures KeepTagWords([x]) == if IsTagWord(x) then [x] else []
  {
    assert [x][1..] == [];
  }

  lemma KeepTagWordsCons(x: string, t: seq<string>)
    ensures KeepTagWords([x] + t) == (if IsTagWord(x) then [x] else []) + KeepTagWords(t)
  {
    assert ([x] + t)[0] == x && ([x] + t)[1..] == t;
  }

  /** The matches keep the order of the runs: those of a text's front come
      before those of its back. */
  lemma {:induction false} KeepTagWordsAppend(a: seq<string>, b: seq<string>)
    ensures KeepTagWords(a + b) == KeepTagWords(a) + KeepTagWords(b)
    decreases |a|
  {
    if a == [] {
      assert a + b == b;
      assert KeepTagWords(a) == [];
    } else {
      assert a == [a[0]] + a[1..];
      assert a + b == [a[0]] + (a[1..] + b);
      KeepTagWordsCons(a[0], a[1..] + b);
      KeepTagWordsCons(a[0], a[1..]);
      KeepTagWordsAppend(a[1..], b);
      ConcatAssoc(if IsTagWord(a[0]) then [a[0]] else [], KeepTagWords(a[1..]), KeepTagWords(b));
    }
  }

  /** Regrouping a concatenation, stated over plain sequences so that the matching functions stay folded. */
  lemma ConcatAssoc(h: seq<string>, u: seq<string>, v: seq<string>)
    ensures h + (u + v) == (h + u) + v
  {
  }

  /** `text.toLowerCase().match(/\b[a-z]{4,}\b/g) || []`: the maximal `\w` runs of the
      lower-cased text that consist of 4 or more letters `a`-`z`, in order. */
  function Candidates(text: string): (cs: seq<string>)
    ensures forall w :: multiset(cs)[w] == if IsTagWord(w) then multiset(WordCharRuns(ToLower(text)))[w] else 0
    ensures forall w :: w in cs <==> w in WordCharRuns(ToLower(text)) && IsTagWord(w)
  {
    KeepTagWords(WordCharRuns(ToLower(text)))
  }

  /** `Object.keys(freq)` after the counting loop: each string once, in order of first occurrence. */
  function Distinct(s: seq<string>): (keys: seq<string>)
    ensures |keys| <= |s|
    ensures s != [] ==> keys != [] && keys[0] == s[0]
  {
    if s == [] then []
    else
      var d := Distinct(s[..|s| - 1]);
      if s[|s| - 1] in s[..|s| - 1] then d else d + [s[|s| - 1]]
  }

  /** The keys hold every string of `s`, and only those, each once. */
  lemma {:induction false} DistinctKeys(s: seq<string>)
    ensures forall w :: w in Distinct(s) <==> w in s
    ensures forall i, j :: 0 <= i < j < |Distinct(s)| ==> Distinct(s)[i] != Distinct(s)[j]
    decreases |s|
  {
    if s != [] {
      var p := s[..|s| - 1];
      DistinctKeys(p);
      assert s == p + [s[|s| - 1]];
    }
  }

  /** The keys come in order of first occurrence: a key that comes before
      another occurs in `s` before any occurrence of the other. */
  lemma {:induction false} DistinctFirstOccurrenceOrder(s: seq<string>)
    ensures forall i, j, b :: 0 <= i < j < |Distinct(s)| && 0 <= b < |s| && s[b] == Distinct(s)[j] ==>
      Distinct(s)[i] in s[..b]
    decreases |s|
  {
    if s != [] {
      var p, x := s[..|s| - 1], s[|s| - 1];
      assert s == p + [x];
      DistinctFirstOccurrenceOrder(p);
      DistinctKeys(p);
      DistinctSnoc(p, x);
      forall i, j, b | 0 <= i < j < |Distinct(s)| && 0 <= b < |s| && s[b] == Distinct(s)[j]
        ensures Distinct(s)[i] in s[..b]
      {
        if b < |p| {
          assert s[b] == p[b] && s[..b] == p[..b];
          assert j < |Distinct(p)|;
          assert Distinct(s)[i] == Distinct(p)[i] && Distinct(s)[j] == Distinct(p)[j];
        } else {
          assert s[..b] == p;
          assert Distinct(s)[i] == Distinct(p)[i];
        }
      }
    }
  }

  /** The count a frequency table holds for `w`; 0 where it has none. */
  function CountOf(f: map<string, nat>, w: string): nat {
    if w in f then f[w] else 0
  }

  /** The frequency table the counting loop builds. */
  function Frequencies(s: seq<string>): (f: map<string, nat>)
    ensures forall w :: w in f <==> w in s
  {
    if s == [] then map[]
    else
      var f := Frequencies(s[..|s| - 1]);
      var w := s[|s| - 1];
      assert s == s[..|s| - 1] + [w];
      f[w := CountOf(f, w) + 1]
  }

  /** The table counts every string as often as it occurs. */
  lemma {:induction false} FrequenciesCount(s: seq<string>)
    ensures forall w :: CountOf(Frequencies(s), w) == multiset(s)[w]
    decreases |s|
  {
    if s != [] {
      FrequenciesCount(s[..|s| - 1]);
      assert s == s[..|s| - 1] + [s[|s| - 1]];
    }
  }

  predicate SortedByCount(xs: seq<string>, f: map<string, nat>) {
    forall i, j :: 0 <= i < j < |xs| ==> CountOf(f, xs[i]) >= CountOf(f, xs[j])
  }

  /** Puts `w` in front of the first element whose count is not above its own. */
  function InsertByCount(w: string, xs: seq<string>, f: map<string, nat>): (r: seq<string>)
    ensures multiset(r) == multiset(xs) + multiset{w}
  {
    if xs == [] || CountOf(f, xs[0]) <= CountOf(f, w) then [w] + xs
    else
      assert xs == [xs[0]] + xs[1..];
      [xs[0]] + InsertByCount(w, xs[1..], f)
  }

  /** `keys.sort((a, b) => freq[b] - freq[a])`: a stable sort by descending count. */
  function SortByCount(xs: seq<string>, f: map<string, nat>): (r: seq<string>)
    ensures multiset(r) == multiset(xs)
  {
    if xs == [] then []
    else
      assert xs == [xs[0]] + xs[1..];
      InsertByCount(xs[0], SortByCount(xs[1..], f), f)
  }

  /** Every element of `xs` has a count of at most `c`. */
  predicate CountsAtMost(xs: seq<string>, f: map<string, nat>, c: nat) {
    forall i :: 0 <= i < |xs| ==> CountOf(f, xs[i]) <= c
  }

  lemma CountsAtMostOfSameElements(xs: seq<string>, ys: seq<string>, f: map<string, nat>, c: nat)
    requires CountsAtMost(xs, f, c)
    requires forall y :: y in multiset(ys) ==> y in multiset(xs)
    ensures CountsAtMost(ys, f, c)
  {
    forall i | 0 <= i < |ys| ensures CountOf(f, ys[i]) <= c {
      assert ys[i] in multiset(ys);
      var k :| 0 <= k < |xs| && xs[k] == ys[i];
    }
  }

  lemma SortedCons(x: string, xs: seq<string>, f: map<string, nat>)
    requires SortedByCount(xs, f) && CountsAtMost(xs, f, CountOf(f, x))
    ensures SortedByCount([x] + xs, f)
  {
    var r := [x] + xs;
    forall i, j | 0 <= i < j < |r| ensures CountOf(f, r[i]) >= CountOf(f, r[j]) {
      assert r[j] == xs[j - 1];
      if i > 0 {
        assert r[i] == xs[i - 1];
      }
    }
  }

  /** The head of a sorted list stays in front of any sorted reordering of its
      tail with a word of smaller count added. */
  lemma SortedPastHead(w: string, xs: seq<string>, ins: seq<string>, f: map<string, nat>)
    requires xs != [] && CountOf(f, xs[0]) > CountOf(f, w)
    requires SortedByCount(xs, f) && SortedByCount(ins, f)
    requires multiset(ins) == multiset(xs[1..]) + multiset{w}
    ensures SortedByCount([xs[0]] + ins, f)
  {
    var t := xs[1..];
    assert CountsAtMost([w] + t, f, CountOf(f, xs[0])) by {
      forall i | 0 <= i < |[w] + t| ensures CountOf(f, ([w] + t)[i]) <= CountOf(f, xs[0]) {
        if i > 0 {
          assert ([w] + t)[i] == xs[i];
        }
      }
    }
    assert multiset(ins) == multiset([w] + t);
    CountsAtMostOfSameElements([w] + t, ins, f, CountOf(f, xs[0]));
    SortedCons(xs[0], ins, f);
  }

  /** Inserting into a list sorted by descending count keeps it sorted. */
  lemma {:induction false} InsertByCountSorted(w: string, xs: seq<string>, f: map<string, nat>)
    requires SortedByCount(xs, f)
    ensures SortedByCount(InsertByCount(w, xs, f), f)
    decreases |xs|
  {
    if xs == [] || CountOf(f, xs[0]) <= CountOf(f, w) {
      assert CountsAtMost(xs, f, CountOf(f, w)) by {
        forall i | 0 <= i < |xs| ensures CountOf(f, xs[i]) <= CountOf(f, w) {
          assert CountOf(f, xs[0]) >= CountOf(f, xs[i]);
        }
      }
      SortedCons(w, xs, f);
    } else {
      var t := xs[1..];
      assert SortedByCount(t, f) by {
        forall i, j | 0 <= i < j < |t| ensures CountOf(f, t[i]) >= CountOf(f, t[j]) {
          assert t[i] == xs[i + 1] && t[j] == xs[j + 1];
        }
      }
      InsertByCountSorted(w, t, f);
      SortedPastHead(w, xs, InsertByCount(w, t, f), f);
    }
  }

  /** The sort leaves its result in descending order of count. */
  lemma {:induction false} SortByCountSorted(xs: seq<string>, f: map<string, nat>)
    ensures SortedByCount(SortByCount(xs, f), f)
    decreases |xs|
  {
    if xs != [] {
      SortByCountSorted(xs[1..], f);
      InsertByCountSorted(xs[0], SortByCount(xs[1..], f), f);
    }
  }

  /** The elements whose count is `c`, in order. */
  function WithCount(xs: seq<string>, f: map<string, nat>, c: nat): seq<string> {
    if xs == [] then []
    else (if CountOf(f, xs[0]) == c then [xs[0]] else []) + WithCount(xs[1..], f, c)
  }

  lemma WithCountCons(x: string, xs: seq<string>, f: map<string, nat>, c: nat)
    ensures WithCount([x] + xs, f, c) == (if CountOf(f, x) == c then [x] else []) + WithCount(xs, f, c)
  {
    assert ([x] + xs)[1..] == xs;
  }

  lemma {:induction false} InsertByCountStable(w: string, xs: seq<string>, f: map<string, nat>, c: nat)
    ensures WithCount(InsertByCount(w, xs, f), f, c) == WithCount([w] + xs, f, c)
    decreases |xs|
  {
    if !(xs == [] || CountOf(f, xs[0]) <= CountOf(f, w)) {
      var x, t := xs[0], xs[1..];
      assert xs == [x] + t;
      InsertByCountStable(w, t, f, c);
      InsertPastStable(w, x, t, InsertByCount(w, t, f), f, c);
    }
  }

  /** Stepping past an element of higher count does not reorder the elements of count `c`. */
  lemma InsertPastStable(w: string, x: string, t: seq<string>, inserted: seq<string>, f: map<string, nat>, c: nat)
    requires CountOf(f, x) > CountOf(f, w)
    requires WithCount(inserted, f, c) == WithCount([w] + t, f, c)
    ensures WithCount([x] + inserted, f, c) == WithCount([w] + ([x] + t), f, c)
  {
    var a := if CountOf(f, x) == c then [x] else [];
    var b := if CountOf(f, w) == c then [w] else [];
    WithCountCons(x, inserted, f, c);
    WithCountCons(w, t, f, c);
    WithCountCons(x, t, f, c);
    WithCountCons(w, [x] + t, f, c);
    SwapEmpty(a, b, WithCount(t, f, c));
  }

  /** When one of two prefixes is empty, their order does not matter. */
  lemma SwapEmpty(a: seq<string>, b: seq<string>, r: seq<string>)
    requires a == [] || b == []
    ensures a + (b + r) == b + (a + r)
  {
    if a == [] {
      assert a + (b + r) == b + r == b + (a + r);
    } else {
      assert a + (b + r) == a + r == b + (a + r);
    }
  }

  /** The sort is stable: the elements of any one count keep their relative order. */
  lemma {:induction false} SortByCountStable(xs: seq<string>, f: map<string, nat>, c: nat)
    ensures WithCount(SortByCount(xs, f), f, c) == WithCount(xs, f, c)
    decreases |xs|
  {
    if xs != [] {
      SortByCountStable(xs[1..], f, c);
      InsertByCountStable(xs[0], SortByCount(xs[1..], f), f, c);
      WithCountCons(xs[0], SortByCount(xs[1..], f), f, c);
      WithCountCons(xs[0], xs[1..], f, c);
      assert xs == [xs[0]] + xs[1..];
    }
  }

  /** The tags `generateTags` returns for `text`: the distinct candidates by
      descending count, equal counts in order of first occurrence, at most 5. */
  function Tags(text: string): (tags: seq<string>)
    ensures |tags| == if |Distinct(Candidates(text))| < 5 then |Distinct(Candidates(text))| else 5
  {
    var cs := Candidates(text);
    var sorted := SortByCount(Distinct(cs), Frequencies(cs));
    assert |sorted| == |multiset(sorted)| == |Distinct(cs)|;
    Take(sorted, 5)
  }

  /** How often `w` occurs among the candidates of `text`. */
  function Occurrences(text: string, w: string): nat {
    multiset(Candidates(text))[w]
  }

  /** One pass of the counting loop: the keys and the table after one more candidate. */
  lemma TallyStep(s: seq<string>, i: nat, freq: map<string, nat>, keys: seq<string>)
    requires i < |s| && freq == Frequencies(s[..i]) && keys == Distinct(s[..i])
    ensures Distinct(s[..i + 1]) == if s[i] in freq then keys else keys + [s[i]]
    ensures Frequencies(s[..i + 1]) == freq[s[i] := CountOf(freq, s[i]) + 1]
  {
    var p, w := s[..i], s[i];
    assert s[..i + 1] == p + [w];
    FrequenciesSnoc(p, w);
    DistinctSnoc(p, w);
  }

  lemma FrequenciesSnoc(p: seq<string>, w: string)
    ensures Frequencies(p + [w]) == Frequencies(p)[w := CountOf(Frequencies(p), w) + 1]
  {
    var t := p + [w];
    assert t[..|t| - 1] == p;
  }

  lemma DistinctSnoc(p: seq<string>, w: string)
    ensures Distinct(p + [w]) == if w in p then Distinct(p) else Distinct(p) + [w]
  {
    var t := p + [w];
    assert t[..|t| - 1] == p;
  }

  /** The counting loop of `generateTags`: the frequency table and its keys in insertion order. */
  method CountCandidates(candidates: seq<string>) returns (freq: map<string, nat>, keys: seq<string>)
    ensures freq == Frequencies(candidates) && keys == Distinct(candidates)
  {
    freq := map[];
    keys := [];
    for i := 0 to |candidates|
      invariant freq == Frequencies(candidates[..i])
      invariant keys == Distinct(candidates[..i])
    {
      var c := candidates[i];
      TallyStep(candidates, i, freq, keys);
      if c !in freq {
        keys := keys + [c];
      }
      freq := freq[c := (if c in freq then freq[c] else 0) + 1];
    }
    assert candidates[..|candidates|] == candidates;
  }

  /** `generateTags`: counts the candidates into a frequency table, whose keys
      keep their insertion order, then sorts the keys by count and keeps 5. */
  method GenerateTags(text: string) returns (tags: seq<string>)
    ensures tags == Tags(text)
  {
    var candidates := Candidates(text);
    var freq, keys := CountCandidates(candidates);
    tags := Take(SortByCount(keys, freq), 5);
  }

  lemma {:induction false} DistinctCountsAtMostOne(xs: seq<string>, w: string)
    requires forall i, j :: 0 <= i < j < |xs| ==> xs[i] != xs[j]
    ensures multiset(xs)[w] <= 1
    decreases |xs|
  {
    if xs != [] {
      assert xs == [xs[0]] + xs[1..];
      DistinctCountsAtMostOne(xs[1..], w);
      if xs[0] == w {
        assert w !in xs[1..];
      }
    }
  }

  lemma RepeatCountsTwice(xs: seq<string>, i: nat, j: nat)
    requires i < j < |xs| && xs[i] == xs[j]
    ensures multiset(xs)[xs[i]] >= 2
  {
    assert xs == xs[..j] + xs[j..];
    assert xs[i] in xs[..j];
    assert xs[j] in xs[j..];
  }

  /** At most 5 tags, pairwise distinct, each a whole word of 4 or more letters `a`-`z` of the lower-cased text. */
  lemma TagsShape(text: string)
    ensures |Tags(text)| <= 5
    ensures forall i, j :: 0 <= i < j < |Tags(text)| ==> Tags(text)[i] != Tags(text)[j]
    ensures forall w :: w in Tags(text) ==> IsTagWord(w) && w in WordCharRuns(ToLower(text))
  {
    var cs := Candidates(text);
    var d := Distinct(cs);
    var sorted := SortByCount(d, Frequencies(cs));
    var t := Tags(text);
    DistinctKeys(cs);
    forall i, j | 0 <= i < j < |t| ensures t[i] != t[j] {
      if t[i] == t[j] {
        RepeatCountsTwice(sorted, i, j);
        DistinctCountsAtMostOne(d, t[i]);
      }
    }
    forall w | w in t ensures w in cs {
      assert w in multiset(sorted);
    }
  }

  /** Tags come in non-increasing order of occurrence. */
  lemma TagsByFrequency(text: string)
    ensures forall i, j :: 0 <= i < j < |Tags(text)| ==> Occurrences(text, Tags(text)[i]) >= Occurrences(text, Tags(text)[j])
  {
    var cs := Candidates(text);
    var f := Frequencies(cs);
    var sorted := SortByCount(Distinct(cs), f);
    SortByCountSorted(Distinct(cs), f);
    FrequenciesCount(cs);
    assert forall i :: 0 <= i < |Tags(text)| ==> Tags(text)[i] == sorted[i];
  }

  /** A candidate left out occurs no more often than the last tag, and is left out only when there are 5 tags. */
  lemma TagsCutoff(text: string)
    ensures forall w :: w in Candidates(text) && w !in Tags(text) ==>
      |Tags(text)| == 5 && Occurrences(text, w) <= Occurrences(text, Tags(text)[4])
  {
    DistinctKeys(Candidates(text));
    SortByCountSorted(Distinct(Candidates(text)), Frequencies(Candidates(text)));
    FrequenciesCount(Candidates(text));
    CutoffOfSorted(SortByCount(Distinct(Candidates(text)), Frequencies(Candidates(text))),
      Frequencies(Candidates(text)), Distinct(Candidates(text)));
  }

  /** Of a list sorted by descending count, what its first 5 leave out has 5 before it, none of smaller count. */
  lemma CutoffOfSorted(sorted: seq<string>, f: map<string, nat>, keys: seq<string>)
    requires SortedByCount(sorted, f) && multiset(sorted) == multiset(keys)
    ensures forall w :: w in keys && w !in Take(sorted, 5) ==>
      |Take(sorted, 5)| == 5 && CountOf(f, w) <= CountOf(f, Take(sorted, 5)[4])
  {
    forall w | w in keys && w !in Take(sorted, 5)
      ensures |Take(sorted, 5)| == 5 && CountOf(f, w) <= CountOf(f, Take(sorted, 5)[4])
    {
      assert w in multiset(keys);
      var k :| 0 <= k < |sorted| && sorted[k] == w;
      assert forall j :: 0 <= j < |Take(sorted, 5)| ==> Take(sorted, 5)[j] == sorted[j];
    }
  }

  /** With 5 or fewer distinct candidates, every one of them is a tag. */
  lemma TagsAllWhenFew(text: string)
    requires |Distinct(Candidates(text))| <= 5
    ensures forall w :: w in Tags(text) <==> w in Candidates(text)
    ensures |Tags(text)| == |Distinct(Candidates(text))|
  {
    var cs := Candidates(text);
    var sorted := SortByCount(Distinct(cs), Frequencies(cs));
    DistinctKeys(cs);
    assert |sorted| == |multiset(sorted)| == |Distinct(cs)|;
    forall w ensures w in sorted <==> w in Distinct(cs) {
      assert w in sorted <==> w in multiset(sorted);
    }
  }

  lemma {:induction false} WithCountOfPrefix(xs: seq<string>, ys: seq<string>, f: map<string, nat>, c: nat)
    requires xs <= ys
    ensures WithCount(xs, f, c) <= WithCount(ys, f, c)
    decreases |xs|
  {
    if xs != [] {
      WithCountOfPrefix(xs[1..], ys[1..], f, c);
    }
  }

  /** Ties keep the order of first occurrence: the tags of any one count are
      the first distinct candidates of that count, in the order they first occur. */
  lemma TagsTieOrder(text: string, c: nat)
    ensures WithCount(Tags(text), Frequencies(Candidates(text)), c)
         <= WithCount(Distinct(Candidates(text)), Frequencies(Candidates(text)), c)
  {
    var cs := Candidates(text);
    var f := Frequencies(cs);
    var sorted := SortByCount(Distinct(cs), f);
    SortByCountStable(Distinct(cs), f, c);
    WithCountOfPrefix(Tags(text), sorted, f, c);
  }

  /** An empty transcript yields no tags. */
  lemma NoTagsForEmptyTranscript()
    ensures Tags("") == []
  {
    assert ToLower("") == [];
    assert Candidates("") == [];
  }

  // ===========================================================================
  // postProcessJournalTranscript
  // ===========================================================================

  /** `makeId(prefix)`, given the text `Math.random().toString(36)` returned. */
  function MakeId(prefix: string, randomBase36: string): (id: string)
    ensures |prefix| <= |id| <= |prefix| + 7
    ensures id[..|prefix|] == prefix
    ensures |randomBase36| >= 9 ==> id == prefix + randomBase36[2..9]
    ensures 2 <= |randomBase36| < 9 ==> id == prefix + randomBase36[2..]
    ensures |randomBase36| < 2 ==> id == prefix
  {
    prefix + Slice(randomBase36, 2, 9)
  }

  /** `postProcessJournalTranscript`: assembles a voice note from the transcript.
      `randomBase36` is what `Math.random().toString(36)` returned, `now` what
      `new Date().toISOString()` returned, and `clock(i)` what `Date.now()`
      returned while block `i` was built. */
  method PostProcessJournalTranscript(transcript: string, randomBase36: string, now: string, clock: nat -> nat)
    returns (note: Note)
    ensures |note.id| >= 5 && note.id[..5] == "note_"
    ensures note.id == MakeId("note_", randomBase36)
    ensures note.title == Some(GenerateTitle(transcript))
    ensures note.blocks == GenerateBlocks(transcript, clock)
    ensures note.tags == Tags(transcript)
    ensures note.createdAt == now && note.updatedAt == now
    ensures note.source == Voice && note.draft == Some(false)
  {
    var title := GenerateTitle(transcript);
    var blocks := GenerateBlocks(transcript, clock);
    var tags := GenerateTags(transcript);
    note := Note(MakeId("note_", randomBase36), Some(title), blocks, tags, now, now, Voice, Some(false));
  }
}
