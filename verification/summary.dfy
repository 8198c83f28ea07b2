/**
 * The fallback path of `Summarizer.summarize_timeline` (summarizer.py:8-31): the first
 * six timeline entries rendered as `date: event`, joined with `" | "`, after a fixed
 * prefix, and wrapped to width 100. `textwrap.fill` is foreign and is a parameter.
 */
module Summary {
  import opened Wrappers
  import opened Events

  const EmptyMessage: string := "No timeline events to summarize."

  /**
   * The prefix exactly as the source file spells it: `"Combined summary "`, then the
   * three characters U+00E2, U+20AC, U+201D (an em dash mis-decoded), then a space.
   */
  const SummaryPrefix: string := "Combined summary \U{E2}\U{20AC}\U{201D} "

  const Separator: string := " | "
  const MaxEntries: nat := 6
  const WrapWidth: nat := 100

  /** `textwrap.fill(text, width=...)`. */
  type Filler = (string, nat) -> string

  /** `f"{t['date']}: {t['event']}"`. */
  function Line(t: TimelineEvent): string {
    t.date + ": " + t.event
  }

  /** `sep.join(xs)`. */
  function Join(xs: seq<string>, sep: string): string {
    if xs == [] then ""
    else if |xs| == 1 then xs[0]
    else xs[0] + sep + Join(xs[1..], sep)
  }

  function Lines(ts: seq<TimelineEvent>): (r: seq<string>)
    ensures |r| == |ts| && forall i :: 0 <= i < |ts| ==> r[i] == Line(ts[i])
  {
    if ts == [] then [] else [Line(ts[0])] + Lines(ts[1..])
  }

  function Min(a: nat, b: nat): nat {
    if a <= b then a else b
  }

  /** The text handed to `textwrap.fill`. */
  function PreWrap(timeline: seq<TimelineEvent>): string {
    SummaryPrefix + Join(Lines(timeline[..Min(MaxEntries, |timeline|)]), Separator)
  }

  /**
   * `Summarizer(api_key).summarize_timeline(timeline)`. The branch taken when an API key
   * is set does nothing, so `apiKey` does not affect the result.
   */
  function SummarizeTimeline(timeline: seq<TimelineEvent>, apiKey: Option<string>, fill: Filler): string {
    if timeline == [] then EmptyMessage
    else fill(PreWrap(timeline), WrapWidth)
  }

  /** Joining splits at any interior boundary around one separator. */
  lemma {:induction false} JoinSplit(xs: seq<string>, sep: string, i: nat)
    requires 0 < i < |xs|
    ensures Join(xs, sep) == Join(xs[..i], sep) + sep + Join(xs[i..], sep)
  {
    if i > 1 {
      JoinSplit(xs[1..], sep, i - 1);
      assert xs[1..][..i - 1] == xs[..i][1..];
      assert xs[1..][i - 1..] == xs[i..];
    }
  }

  /** An empty timeline yields exactly the fixed message, whatever the key and the wrapper. */
  lemma SummarizeEmpty(apiKey: Option<string>, fill: Filler)
    ensures SummarizeTimeline([], apiKey, fill) == EmptyMessage
  {
  }

  /** One event: the prefix followed by `date: event`, and nothing else. */
  lemma PreWrapSingle(t: TimelineEvent)
    ensures PreWrap([t]) == SummaryPrefix + t.date + ": " + t.event
  {
    assert [t][..1] == [t];
  }

  /**
   * Adding an event to a timeline of fewer than six appends `" | date: event"` to the text
   * wrapped; adding one to a timeline of six or more changes nothing.
   */
  lemma PreWrapAppend(t: seq<TimelineEvent>, e: TimelineEvent)
    requires t != []
    ensures |t| < MaxEntries ==> PreWrap(t + [e]) == PreWrap(t) + Separator + Line(e)
    ensures |t| >= MaxEntries ==> PreWrap(t + [e]) == PreWrap(t)
  {
    var n := |t|;
    if n < MaxEntries {
      var xs := Lines((t + [e])[..n + 1]);
      assert (t + [e])[..n + 1] == t + [e];
      assert t[..n] == t;
      JoinSplit(xs, Separator, n);
      assert xs[..n] == Lines(t);
      assert xs[n..] == [Line(e)];
    } else {
      assert (t + [e])[..MaxEntries] == t[..MaxEntries];
    }
  }

  /** Entries after the sixth do not contribute: the summary depends on the first six only. */
  lemma OnlyFirstSixCount(t1: seq<TimelineEvent>, t2: seq<TimelineEvent>, apiKey: Option<string>, fill: Filler)
    requires t1[..Min(MaxEntries, |t1|)] == t2[..Min(MaxEntries, |t2|)]
    ensures SummarizeTimeline(t1, apiKey, fill) == SummarizeTimeline(t2, apiKey, fill)
  {
    if t1 == [] {
      assert t2[..Min(MaxEntries, |t2|)] == [];
    }
    if t2 == [] {
      assert t1[..Min(MaxEntries, |t1|)] == [];
    }
  }

  /** Setting an API key changes nothing: the key branch is a no-op. */
  lemma ApiKeyIgnored(timeline: seq<TimelineEvent>, k1: Option<string>, k2: Option<string>, fill: Filler)
    ensures SummarizeTimeline(timeline, k1, fill) == SummarizeTimeline(timeline, k2, fill)
  {
  }
}
