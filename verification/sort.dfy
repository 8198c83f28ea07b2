/**
 * `sorted(events, key=lambda x: x["date_sort"])`: a stable sort on the `date_sort` key
 * under Python's string order, modelled as an insertion sort that places each later
 * event after every event whose key is not greater.
 */
module StableSort {
  import opened StrOrder
  import opened Events

  predicate SortedByDate(s: seq<Keyed>) {
    forall i, j :: 0 <= i < j < |s| ==> LessEq(s[i].dateSort, s[j].dateSort)
  }

  /** The events of `s` whose key is `k`, in their order in `s`. */
  function WithKey(s: seq<Keyed>, k: string): seq<Keyed> {
    if s == [] then []
    else WithKey(s[..|s| - 1], k) + (if s[|s| - 1].dateSort == k then [s[|s| - 1]] else [])
  }

  /** Inserts `x` into sorted `t` after every element whose key is at most `x`'s. */
  function Insert(x: Keyed, t: seq<Keyed>): seq<Keyed> {
    if t == [] then [x]
    else if Less(x.dateSort, t[0].dateSort) then [x] + t
    else [t[0]] + Insert(x, t[1..])
  }

  /** `sorted(events, key=...)` (analyzer.py:66). */
  function SortByDate(s: seq<Keyed>): seq<Keyed> {
    if s == [] then []
    else Insert(s[|s| - 1], SortByDate(s[..|s| - 1]))
  }

  lemma {:induction false} WithKeyAppend(a: seq<Keyed>, b: seq<Keyed>, k: string)
    ensures WithKey(a + b, k) == WithKey(a, k) + WithKey(b, k)
    decreases |b|
  {
    if b != [] {
      var n := |b| - 1;
      assert (a + b)[..|a + b| - 1] == a + b[..n];
      WithKeyAppend(a, b[..n], k);
    } else {
      assert a + b == a;
    }
  }

  /** No element of `s` has key `k` when all keys are greater than `k`. */
  lemma {:induction false} WithKeyAbove(s: seq<Keyed>, k: string)
    requires forall i :: 0 <= i < |s| ==> Less(k, s[i].dateSort)
    ensures WithKey(s, k) == []
  {
    if s != [] {
      LessIrreflexive(k);
      WithKeyAbove(s[..|s| - 1], k);
    }
  }

  lemma {:induction false} InsertPermutes(x: Keyed, t: seq<Keyed>)
    ensures multiset(Insert(x, t)) == multiset(t) + multiset{x}
  {
    if t != [] && !Less(x.dateSort, t[0].dateSort) {
      InsertPermutes(x, t[1..]);
      assert t == [t[0]] + t[1..];
    }
  }

  /** Every key in sorted `t` is above `x`'s once it is above `t[0]`'s. */
  lemma AllAbove(x: Keyed, t: seq<Keyed>)
    requires SortedByDate(t) && t != [] && Less(x.dateSort, t[0].dateSort)
    ensures forall j :: 0 <= j < |t| ==> Less(x.dateSort, t[j].dateSort)
  {
    forall j | 0 < j < |t|
      ensures Less(x.dateSort, t[j].dateSort)
    {
      if t[0].dateSort != t[j].dateSort {
        LessTransitive(x.dateSort, t[0].dateSort, t[j].dateSort);
      }
    }
  }

  lemma {:induction false} InsertSorted(x: Keyed, t: seq<Keyed>)
    requires SortedByDate(t)
    ensures SortedByDate(Insert(x, t))
  {
    if t == [] {
    } else if Less(x.dateSort, t[0].dateSort) {
      AllAbove(x, t);
    } else {
      var rest := t[1..];
      InsertSorted(x, rest);
      InsertPermutes(x, rest);
      var r := Insert(x, rest);
      NotLessIsLessEq(t[0].dateSort, x.dateSort);
      forall j | 0 <= j < |r|
        ensures LessEq(t[0].dateSort, r[j].dateSort)
      {
        assert r[j] in multiset(r);
        if r[j] != x {
          assert r[j] in rest;
        }
      }
      assert Insert(x, t) == [t[0]] + r;
    }
  }

  /** `[x]` seen through `WithKey`. */
  lemma WithKeySingle(x: Keyed, k: string)
    ensures WithKey([x], k) == (if x.dateSort == k then [x] else [])
  {
    assert [x][..0] == [];
  }

  /** Stability when `x` goes in front: no event of `t` shares `x`'s key. */
  lemma InsertStableFront(x: Keyed, t: seq<Keyed>, k: string)
    requires SortedByDate(t) && t != [] && Less(x.dateSort, t[0].dateSort)
    ensures WithKey([x] + t, k) == WithKey(t, k) + (if x.dateSort == k then [x] else [])
  {
    WithKeySingle(x, k);
    WithKeyAppend([x], t, k);
    if x.dateSort == k {
      AllAbove(x, t);
      WithKeyAbove(t, k);
    }
  }

  lemma {:induction false} InsertStable(x: Keyed, t: seq<Keyed>, k: string)
    requires SortedByDate(t)
    ensures WithKey(Insert(x, t), k) == WithKey(t, k) + (if x.dateSort == k then [x] else [])
  {
    if t == [] {
      WithKeySingle(x, k);
    } else if Less(x.dateSort, t[0].dateSort) {
      InsertStableFront(x, t, k);
    } else {
      var rest := t[1..];
      InsertStable(x, rest, k);
      assert t == [t[0]] + rest;
      assert Insert(x, t) == [t[0]] + Insert(x, rest);
      WithKeyAppend([t[0]], Insert(x, rest), k);
      WithKeyAppend([t[0]], rest, k);
    }
  }

  /** Sorting keeps the relative order of the events sharing any one key. */
  lemma {:induction false} SortStable(s: seq<Keyed>, k: string)
    ensures WithKey(SortByDate(s), k) == WithKey(s, k)
  {
    if s != [] {
      var n := |s| - 1;
      SortStable(s[..n], k);
      SortSorted(s[..n]);
      InsertStable(s[n], SortByDate(s[..n]), k);
      assert s[..n + 1] == s;
    }
  }

  /** The sort's output is non-decreasing in `date_sort`. */
  lemma {:induction false} SortSorted(s: seq<Keyed>)
    ensures SortedByDate(SortByDate(s))
  {
    if s != [] {
      SortSorted(s[..|s| - 1]);
      InsertSorted(s[|s| - 1], SortByDate(s[..|s| - 1]));
    }
  }

  /** The sort's output is a permutation of its input. */
  lemma {:induction false} SortPermutes(s: seq<Keyed>)
    ensures multiset(SortByDate(s)) == multiset(s)
  {
    if s != [] {
      var n := |s| - 1;
      SortPermutes(s[..n]);
      InsertPermutes(s[n], SortByDate(s[..n]));
      assert s == s[..n] + [s[n]];
    }
  }

  /**
   * The sorted events are a permutation of the input, non-decreasing in `date_sort`, and
   * stable: the events sharing any one key keep their original relative order.
   */
  lemma SortFacts(s: seq<Keyed>)
    ensures multiset(SortByDate(s)) == multiset(s)
    ensures SortedByDate(SortByDate(s))
    ensures forall k :: WithKey(SortByDate(s), k) == WithKey(s, k)
  {
    SortPermutes(s);
    SortSorted(s);
    forall k
      ensures WithKey(SortByDate(s), k) == WithKey(s, k)
    {
      SortStable(s, k);
    }
  }
}
