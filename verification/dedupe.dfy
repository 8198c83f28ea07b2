/**
 * The compression loop of `build_timeline` (analyzer.py:68-75): scanning the sorted
 * events in order, an event is kept when its key `(date_sort, event[:80])` has not been
 * seen before and dropped otherwise. A kept event is emitted with its own sources only;
 * the sources of the events dropped as its duplicates are not merged into it.
 */
module Dedupe {
  import opened Text
  import opened Events
  import opened StableSort

  type Key = (string, string)

  /** `(e["date_sort"], e["event"][:80])`. */
  function KeyOf(e: Keyed): Key {
    (e.dateSort, Take(e.raw.event, 80))
  }

  function KeySet(s: seq<Keyed>): set<Key> {
    set e | e in s :: KeyOf(e)
  }

  /** The events of `s` the loop keeps, given the keys already in `seen`. */
  function Survivors(s: seq<Keyed>, seen: set<Key>): seq<Keyed> {
    if s == [] then []
    else if KeyOf(s[0]) in seen then Survivors(s[1..], seen)
    else [s[0]] + Survivors(s[1..], seen + {KeyOf(s[0])})
  }

  /** The record appended for a kept event (analyzer.py:75). */
  function Emit(e: Keyed): (t: TimelineEvent)
    ensures t.date == Unknown <==> e.dateSort == Sentinel || e.dateSort == Unknown
    ensures t.date != Unknown ==> t.date == e.dateSort
    ensures t.event == e.raw.event
    ensures forall src :: src in t.sources <==> src in e.raw.sources
  {
    TimelineEvent(
      if e.dateSort != Sentinel then e.dateSort else Unknown,
      e.raw.event,
      set src | src in e.raw.sources)
  }

  /** The loop at analyzer.py:68-75 over the sorted events. */
  function Compress(sorted: seq<Keyed>): seq<TimelineEvent> {
    var kept := Survivors(sorted, {});
    seq(|kept|, i requires 0 <= i < |kept| => Emit(kept[i]))
  }

  /** `s[i]` is the first event of `s` with its key. */
  predicate IsFirst(s: seq<Keyed>, i: nat)
    requires i < |s|
  {
    forall j :: 0 <= j < i ==> KeyOf(s[j]) != KeyOf(s[i])
  }

  /**
   * The kept events appear in `s` in the same order (`idx` locates them), at most one
   * per input event.
   */
  lemma {:induction false} SurvivorsInOrder(s: seq<Keyed>, seen: set<Key>) returns (idx: seq<nat>)
    ensures |idx| == |Survivors(s, seen)| <= |s|
    ensures forall k :: 0 <= k < |idx| ==> idx[k] < |s| && Survivors(s, seen)[k] == s[idx[k]]
    ensures forall k, l :: 0 <= k < l < |idx| ==> idx[k] < idx[l]
  {
    if s == [] {
      idx := [];
    } else {
      var seen' := if KeyOf(s[0]) in seen then seen else seen + {KeyOf(s[0])};
      var restIdx := SurvivorsInOrder(s[1..], seen');
      var shifted := seq(|restIdx|, k requires 0 <= k < |restIdx| => restIdx[k] + 1);
      var r := Survivors(s, seen);
      var rest := Survivors(s[1..], seen');
      if KeyOf(s[0]) in seen {
        idx := shifted;
        assert r == rest;
      } else {
        idx := [0] + shifted;
        assert r == [s[0]] + rest;
        forall k | 1 <= k < |idx|
          ensures idx[k] == restIdx[k - 1] + 1 && r[k] == rest[k - 1]
        {
        }
      }
    }
  }

  /** No two kept events share a key, and none has a key from `seen`. */
  lemma {:induction false} SurvivorsDistinct(s: seq<Keyed>, seen: set<Key>)
    ensures forall k :: 0 <= k < |Survivors(s, seen)| ==> KeyOf(Survivors(s, seen)[k]) !in seen
    ensures forall k, l :: 0 <= k < l < |Survivors(s, seen)| ==>
              KeyOf(Survivors(s, seen)[k]) != KeyOf(Survivors(s, seen)[l])
  {
    if s != [] {
      if KeyOf(s[0]) in seen {
        SurvivorsDistinct(s[1..], seen);
      } else {
        SurvivorsDistinct(s[1..], seen + {KeyOf(s[0])});
      }
    }
  }

  /** Every key of `s` not in `seen` is carried by a kept event, and no other key is. */
  lemma {:induction false} SurvivorsCoverKeys(s: seq<Keyed>, seen: set<Key>)
    ensures KeySet(Survivors(s, seen)) == KeySet(s) - seen
  {
    if s != [] {
      assert KeySet(s) == {KeyOf(s[0])} + KeySet(s[1..]) by {
        assert s == [s[0]] + s[1..];
      }
      if KeyOf(s[0]) in seen {
        SurvivorsCoverKeys(s[1..], seen);
      } else {
        var rest := Survivors(s[1..], seen + {KeyOf(s[0])});
        SurvivorsCoverKeys(s[1..], seen + {KeyOf(s[0])});
        assert KeySet([s[0]] + rest) == {KeyOf(s[0])} + KeySet(rest);
      }
    }
  }

  /** The event kept for a key is that key's first occurrence in `s`. */
  lemma {:induction false} SurvivorsAreFirst(s: seq<Keyed>, seen: set<Key>)
    ensures forall i :: 0 <= i < |s| && KeyOf(s[i]) !in seen && IsFirst(s, i) ==>
              s[i] in Survivors(s, seen)
  {
    if s != [] {
      var seen' := if KeyOf(s[0]) in seen then seen else seen + {KeyOf(s[0])};
      SurvivorsAreFirst(s[1..], seen');
      forall i | 0 < i < |s| && KeyOf(s[i]) !in seen && IsFirst(s, i)
        ensures s[i] in Survivors(s, seen)
      {
        assert s[1..][i - 1] == s[i];
        assert KeyOf(s[0]) != KeyOf(s[i]);
        assert IsFirst(s[1..], i - 1) by {
          forall j | 0 <= j < i - 1
            ensures KeyOf(s[1..][j]) != KeyOf(s[1..][i - 1])
          {
            assert s[1..][j] == s[j + 1];
          }
        }
      }
    }
  }

  /** Keeping a subsequence of a sorted sequence keeps it sorted. */
  lemma SurvivorsSorted(s: seq<Keyed>, seen: set<Key>)
    requires SortedByDate(s)
    ensures SortedByDate(Survivors(s, seen))
  {
    var idx := SurvivorsInOrder(s, seen);
  }

  /**
   * The compressed timeline: at most one entry per sorted event; one entry per distinct
   * key, each emitted from the key's first occurrence and keeping only that event's
   * sources; the order of the input is kept.
   */
  lemma CompressFacts(sorted: seq<Keyed>)
    ensures |Compress(sorted)| <= |sorted|
    ensures forall i, j :: 0 <= i < j < |Survivors(sorted, {})| ==>
              KeyOf(Survivors(sorted, {})[i]) != KeyOf(Survivors(sorted, {})[j])
    ensures KeySet(Survivors(sorted, {})) == KeySet(sorted)
    ensures forall i :: 0 <= i < |sorted| && IsFirst(sorted, i) ==> sorted[i] in Survivors(sorted, {})
    ensures SortedByDate(sorted) ==> SortedByDate(Survivors(sorted, {}))
  {
    var idx := SurvivorsInOrder(sorted, {});
    SurvivorsDistinct(sorted, {});
    SurvivorsCoverKeys(sorted, {});
    SurvivorsAreFirst(sorted, {});
    if SortedByDate(sorted) {
      SurvivorsSorted(sorted, {});
    }
  }

  /**
   * When two sorted events share a key only the first is emitted, with its own sources:
   * the second event's sources are dropped, not merged.
   */
  lemma DuplicateSourcesNotMerged(e1: Keyed, e2: Keyed)
    requires KeyOf(e1) == KeyOf(e2)
    ensures Compress([e1, e2]) == [Emit(e1)]
    ensures forall src :: src in Compress([e1, e2])[0].sources <==> src in e1.raw.sources
  {
    assert [e1, e2][1..] == [e2];
    assert Survivors([e2], {KeyOf(e1)}) == [] by {
      assert [e2][1..] == [];
    }
    var none: set<Key> := {};
    assert none + {KeyOf(e1)} == {KeyOf(e1)};
    assert Survivors([e1, e2], none) == [e1] + Survivors([e2], none + {KeyOf(e1)});
    var out := Compress([e1, e2]);
    assert |out| == 1 && out[0] == Emit(e1);
  }
}
