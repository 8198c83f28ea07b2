/**
 * Sentence segmentation: `re.split(r'(?<=[.!?])\s+', text)`.
 *
 * A separator is a run of whitespace whose first character directly follows `.`, `!`
 * or `?`; `\s+` is greedy, so the run is maximal. Nothing is done about abbreviations,
 * quotes or decimal numbers.
 */
module Sentences {
  import opened Text

  predicate IsTerminator(c: char) {
    c == '.' || c == '!' || c == '?'
  }

  /** The pattern matches starting at index `i` of `s`: the lookbehind and one `\s`. */
  predicate IsBreak(s: string, i: int) {
    0 < i < |s| && IsTerminator(s[i - 1]) && IsSpace(s[i])
  }

  /** End of the whitespace run starting at `i`: where greedy `\s+` stops. */
  function RunEnd(s: string, i: nat): (j: nat)
    requires i <= |s|
    ensures i <= j <= |s|
    ensures forall k :: i <= k < j ==> IsSpace(s[k])
    ensures j == |s| || !IsSpace(s[j])
    decreases |s| - i
  {
    if i < |s| && IsSpace(s[i]) then RunEnd(s, i + 1) else i
  }

  /** The pieces of a split and the separators that were removed between them. */
  datatype Split = Split(sentences: seq<string>, gaps: seq<string>)

  /**
   * Splits `s[start..]`. The current piece began at `start` and `s[start..i]` has been
   * scanned without finding a separator.
   */
  function SplitFrom(s: string, start: nat, i: nat): Split
    requires start <= i <= |s|
    decreases |s| - i
  {
    if i == |s| then Split([s[start..]], [])
    else if IsBreak(s, i) then
      var j := RunEnd(s, i);
      var rest := SplitFrom(s, j, j);
      Split([s[start..i]] + rest.sentences, [s[i..j]] + rest.gaps)
    else SplitFrom(s, start, i + 1)
  }

  /** `re.split(r'(?<=[.!?])\s+', text)` (analyzer.py:21). */
  function SplitSentences(text: string): seq<string> {
    SplitFrom(text, 0, 0).sentences
  }

  /** Pieces joined back with the removed separators between them. */
  function Interleave(pieces: seq<string>, gaps: seq<string>): string
    requires |pieces| == |gaps| + 1
  {
    if gaps == [] then pieces[0]
    else pieces[0] + gaps[0] + Interleave(pieces[1..], gaps[1..])
  }

  /** No separator starts strictly inside `s`. */
  predicate NoBreakInside(s: string) {
    forall q :: 0 < q < |s| ==> !(IsTerminator(s[q - 1]) && IsSpace(s[q]))
  }

  /** What a split must look like: the shape `re.split` guarantees. */
  predicate WellSplit(r: Split) {
    && |r.sentences| == |r.gaps| + 1
    && (forall k :: 0 <= k < |r.gaps| ==> r.gaps[k] != [] && AllSpace(r.gaps[k]))
    && (forall k :: 0 <= k < |r.gaps| ==>
          r.sentences[k] != [] && IsTerminator(r.sentences[k][|r.sentences[k]| - 1]))
    && (forall k :: 0 < k < |r.sentences| ==>
          r.sentences[k] == [] || !IsSpace(r.sentences[k][0]))
    && (forall k :: 0 <= k < |r.sentences| ==> NoBreakInside(r.sentences[k]))
  }

  /** Putting a finished piece and its separator in front of a well-formed split. */
  lemma ConsWellSplit(p: string, g: string, rest: Split)
    requires WellSplit(rest)
    requires p != [] && IsTerminator(p[|p| - 1]) && NoBreakInside(p)
    requires g != [] && AllSpace(g)
    requires rest.sentences[0] == [] || !IsSpace(rest.sentences[0][0])
    ensures WellSplit(Split([p] + rest.sentences, [g] + rest.gaps))
  {
    var r := Split([p] + rest.sentences, [g] + rest.gaps);
    forall k | 0 < k < |r.sentences|
      ensures r.sentences[k] == [] || !IsSpace(r.sentences[k][0])
    {
      assert r.sentences[k] == rest.sentences[k - 1];
    }
  }

  /** A stretch with no split point strictly inside it holds no separator start. */
  lemma NoBreakBetween(s: string, start: nat, i: nat)
    requires start <= i <= |s|
    requires forall q :: start < q < i ==> !IsBreak(s, q)
    ensures NoBreakInside(s[start..i])
  {
    var p := s[start..i];
    forall q | 0 < q < |p|
      ensures !(IsTerminator(p[q - 1]) && IsSpace(p[q]))
    {
      assert !IsBreak(s, start + q);
    }
  }

  lemma {:induction false} SplitFromFacts(s: string, start: nat, i: nat)
    requires start <= i <= |s|
    requires start == 0 || IsSpace(s[start - 1])
    requires forall q :: start < q < i ==> !IsBreak(s, q)
    ensures WellSplit(SplitFrom(s, start, i))
    ensures Interleave(SplitFrom(s, start, i).sentences, SplitFrom(s, start, i).gaps) == s[start..]
    ensures SplitFrom(s, start, i).sentences[0] <= s[start..]
    decreases |s| - i, 1
  {
    if i == |s| {
      NoBreakBetween(s, start, i);
      assert s[start..i] == s[start..];
    } else if IsBreak(s, i) {
      SplitAtBreak(s, start, i);
    } else {
      SplitFromFacts(s, start, i + 1);
    }
  }

  /** The piece closed by a split point ends in a terminator and holds no split point. */
  lemma BreakPiece(s: string, start: nat, i: nat)
    requires start <= i < |s| && IsBreak(s, i)
    requires start == 0 || IsSpace(s[start - 1])
    requires forall q :: start < q < i ==> !IsBreak(s, q)
    ensures start < i
    ensures var p := s[start..i]; IsTerminator(p[|p| - 1]) && NoBreakInside(p)
  {
    NoBreakBetween(s, start, i);
  }

  /** The separator removed at a split point is a non-empty whitespace run. */
  lemma BreakGap(s: string, i: nat)
    requires i < |s| && IsBreak(s, i)
    ensures i < RunEnd(s, i) && AllSpace(s[i..RunEnd(s, i)])
  {
  }

  lemma InterleaveCons(p: string, g: string, rest: Split)
    requires |rest.sentences| == |rest.gaps| + 1
    ensures Interleave([p] + rest.sentences, [g] + rest.gaps) == p + g + Interleave(rest.sentences, rest.gaps)
  {
    assert ([p] + rest.sentences)[1..] == rest.sentences;
    assert ([g] + rest.gaps)[1..] == rest.gaps;
  }

  /**
   * A piece `s[start..i]` closed at split point `i`, then the whitespace run `s[i..j]`,
   * then a well-formed split `rest` of `s[j..]`, form a well-formed split of `s[start..]`.
   */
  lemma ConsPiece(s: string, start: nat, i: nat, j: nat, rest: Split)
    requires start <= i < j <= |s| && IsBreak(s, i)
    requires start == 0 || IsSpace(s[start - 1])
    requires forall q :: start < q < i ==> !IsBreak(s, q)
    requires AllSpace(s[i..j]) && (j == |s| || !IsSpace(s[j]))
    requires WellSplit(rest) && Interleave(rest.sentences, rest.gaps) == s[j..]
    requires rest.sentences[0] <= s[j..]
    ensures var r := Split([s[start..i]] + rest.sentences, [s[i..j]] + rest.gaps);
      && WellSplit(r)
      && Interleave(r.sentences, r.gaps) == s[start..]
      && r.sentences[0] <= s[start..]
  {
    var p := s[start..i];
    var g := s[i..j];
    BreakPiece(s, start, i);
    assert rest.sentences[0] == [] || rest.sentences[0][0] == s[j];
    ConsWellSplit(p, g, rest);
    InterleaveCons(p, g, rest);
    assert s[start..] == p + g + s[j..];
  }

  /** The step of `SplitFromFacts` at a split point: one finished piece, then the rest. */
  lemma {:induction false} SplitAtBreak(s: string, start: nat, i: nat)
    requires start <= i < |s| && IsBreak(s, i)
    requires start == 0 || IsSpace(s[start - 1])
    requires forall q :: start < q < i ==> !IsBreak(s, q)
    ensures WellSplit(SplitFrom(s, start, i))
    ensures Interleave(SplitFrom(s, start, i).sentences, SplitFrom(s, start, i).gaps) == s[start..]
    ensures SplitFrom(s, start, i).sentences[0] <= s[start..]
    decreases |s| - i, 0
  {
    var j := RunEnd(s, i);
    BreakGap(s, i);
    SplitFromFacts(s, j, j);
    ConsPiece(s, start, i, j, SplitFrom(s, j, j));
  }

  /**
   * The split of `text` reconstructs `text` when the removed separators are put back;
   * each separator is a non-empty whitespace run; every piece but the last ends in `.`,
   * `!` or `?`; no piece contains a further split point; the empty text gives `[""]`.
   */
  lemma SplitSentencesFacts(text: string)
    ensures WellSplit(SplitFrom(text, 0, 0))
    ensures Interleave(SplitSentences(text), SplitFrom(text, 0, 0).gaps) == text
    ensures |SplitSentences(text)| >= 1
    ensures text == "" ==> SplitSentences(text) == [""]
  {
    SplitFromFacts(text, 0, 0);
  }
}
