/**
 * Milestone extraction (`TimelineBuilder.extract_milestones_from_text`): every sentence
 * whose lower-cased text contains one of a fixed list of keywords becomes one milestone,
 * carrying the stripped sentence and the sentence's date hint.
 */
module Milestones {
  import opened Wrappers
  import opened Text
  import opened Sentences
  import opened DateHints

  const Keywords: seq<string> := [
    "launch", "landed", "launched", "announced", "confirmed", "arrived", "failed",
    "succeeded", "soft landing", "lifted off", "docked", "collision", "update", "said"
  ]

  /** `{"sentence": ..., "date_hint": ...}`. */
  datatype Milestone = Milestone(sentence: string, dateHint: Option<string>)

  /** A sentence qualifies when its lower-cased form contains some keyword (`kw in s.lower()`). */
  predicate IsMilestone(s: string) {
    exists kw :: kw in Keywords && Contains(Lower(s), kw)
  }

  /**
   * The keyword loop (analyzer.py:25-34): the first keyword of `kws`, in list order,
   * that occurs in `lowered`. The loop `break`s there, so a sentence is taken at most once.
   */
  function FirstKeyword(lowered: string, kws: seq<string>): (r: Option<string>)
    ensures r.Some? ==> r.value in kws && Contains(lowered, r.value)
    ensures r.None? <==> forall kw :: kw in kws ==> !Contains(lowered, kw)
    ensures r.Some? ==> exists j :: 0 <= j < |kws| && kws[j] == r.value &&
                          forall i :: 0 <= i < j ==> !Contains(lowered, kws[i])
  {
    if kws == [] then None
    else if Contains(lowered, kws[0]) then Some(kws[0])
    else FirstKeyword(lowered, kws[1..])
  }

  /** The keyword loop finds a keyword exactly for the sentences that qualify. */
  lemma KeywordLoopDecides(s: string)
    ensures FirstKeyword(Lower(s), Keywords).Some? <==> IsMilestone(s)
  {
  }

  /** The record appended for a qualifying sentence `s`. */
  function MilestoneOf(s: string): Milestone {
    Milestone(Strip(s), DateHint(s))
  }

  /**
   * A loop over `xs` in order that appends `f(x)` for each element `x` satisfying `keep`.
   */
  function FilterMap<A, B>(xs: seq<A>, keep: A -> bool, f: A -> B): seq<B> {
    if xs == [] then []
    else
      var last := xs[|xs| - 1];
      FilterMap(xs[..|xs| - 1], keep, f) + (if keep(last) then [f(last)] else [])
  }

  /** The outer loop over the sentences: each qualifying sentence's milestone is appended. */
  function Extract(sentences: seq<string>): seq<Milestone> {
    FilterMap(sentences, IsMilestone, MilestoneOf)
  }

  /** `extract_milestones_from_text(text)` (analyzer.py:19-35). */
  function ExtractMilestones(text: string): seq<Milestone> {
    Extract(SplitSentences(text))
  }

  /**
   * `idx` lists, strictly increasing, exactly the positions of the elements of `xs` that
   * satisfy `keep`, and output `k` of `FilterMap` is `f` of element `idx[k]`.
   */
  ghost predicate KeptAt<A, B>(xs: seq<A>, keep: A -> bool, f: A -> B, idx: seq<nat>) {
    && |idx| == |FilterMap(xs, keep, f)|
    && (forall k :: 0 <= k < |idx| ==> idx[k] < |xs|)
    && (forall k, l :: 0 <= k < l < |idx| ==> idx[k] < idx[l])
    && (forall k :: 0 <= k < |idx| ==> keep(xs[idx[k]]))
    && (forall i :: 0 <= i < |xs| && keep(xs[i]) ==> i in idx)
    && (forall k :: 0 <= k < |idx| ==> FilterMap(xs, keep, f)[k] == f(xs[idx[k]]))
  }

  /** One more element, which `keep` accepts: its position joins the index list. */
  lemma FilterMapStepKeep<A, B>(xs: seq<A>, keep: A -> bool, f: A -> B, initIdx: seq<nat>)
    requires xs != [] && keep(xs[|xs| - 1])
    requires KeptAt(xs[..|xs| - 1], keep, f, initIdx)
    ensures KeptAt(xs, keep, f, initIdx + [|xs| - 1])
  {
    var n := |xs| - 1;
    var init := xs[..n];
    var idx := initIdx + [n];
    var out := FilterMap(xs, keep, f);
    var prev := FilterMap(init, keep, f);
    assert out == prev + [f(xs[n])];
    forall k | 0 <= k < |initIdx|
      ensures idx[k] == initIdx[k] && out[k] == prev[k] && xs[idx[k]] == init[idx[k]]
    {
    }
    forall i | 0 <= i < n && keep(xs[i])
      ensures i in idx
    {
      assert keep(init[i]);
    }
  }

  /** One more element, which `keep` rejects: the index list is unchanged. */
  lemma FilterMapStepSkip<A, B>(xs: seq<A>, keep: A -> bool, f: A -> B, initIdx: seq<nat>)
    requires xs != [] && !keep(xs[|xs| - 1])
    requires KeptAt(xs[..|xs| - 1], keep, f, initIdx)
    ensures KeptAt(xs, keep, f, initIdx)
  {
    var n := |xs| - 1;
    var init := xs[..n];
    var out := FilterMap(xs, keep, f);
    var prev := FilterMap(init, keep, f);
    assert out == prev;
    assert forall k :: 0 <= k < |initIdx| ==> xs[initIdx[k]] == init[initIdx[k]];
    assert forall k :: 0 <= k < |initIdx| ==> out[k] == f(xs[initIdx[k]]);
    assert forall i :: 0 <= i < n && keep(xs[i]) ==> keep(init[i]);
  }

  /**
   * `FilterMap` keeps order and takes each element at most once: there is a strictly
   * increasing list of exactly the positions of the kept elements, and output `k` is `f`
   * of the element at the `k`-th of them.
   */
  lemma {:induction false} KeptIndexes<A, B>(xs: seq<A>, keep: A -> bool, f: A -> B)
    returns (idx: seq<nat>)
    ensures KeptAt(xs, keep, f, idx)
  {
    if xs == [] {
      idx := [];
    } else {
      var initIdx := KeptIndexes(xs[..|xs| - 1], keep, f);
      if keep(xs[|xs| - 1]) {
        FilterMapStepKeep(xs, keep, f, initIdx);
        idx := initIdx + [|xs| - 1];
      } else {
        FilterMapStepSkip(xs, keep, f, initIdx);
        idx := initIdx;
      }
    }
  }

  /**
   * Milestones correspond, in order, to exactly the sentences whose lower-cased form
   * contains a keyword, one each: `idx` lists those sentences' positions, strictly
   * increasing, and milestone `k` holds the stripped text and the date hint of sentence
   * `idx[k]`.
   */
  lemma ExtractInSentenceOrder(ps: seq<string>) returns (idx: seq<nat>)
    ensures |idx| == |Extract(ps)|
    ensures forall k :: 0 <= k < |idx| ==> idx[k] < |ps|
    ensures forall k, l :: 0 <= k < l < |idx| ==> idx[k] < idx[l]
    ensures forall k :: 0 <= k < |idx| ==> IsMilestone(ps[idx[k]])
    ensures forall i :: 0 <= i < |ps| && IsMilestone(ps[i]) ==> i in idx
    ensures forall k :: 0 <= k < |idx| ==>
              Extract(ps)[k].sentence == Strip(ps[idx[k]]) &&
              Extract(ps)[k].dateHint == DateHint(ps[idx[k]])
  {
    idx := KeptIndexes(ps, IsMilestone, MilestoneOf);
  }

  /** Empty (or absent, read as `""`) content yields no milestones. */
  lemma NoMilestonesInEmptyText(text: string)
    requires text == ""
    ensures ExtractMilestones(text) == []
  {
    SplitSentencesFacts(text);
    var ps := SplitSentences(text);
    assert !IsMilestone(ps[0]);
    assert ps[1..] == [];
  }
}
