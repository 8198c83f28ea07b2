/**
 * `TimelineBuilder.build_timeline` (analyzer.py:37-76): raw events from titles and
 * milestones, a `date_sort` key for each, a stable sort on that key, and compression
 * of events sharing `(date_sort, event[:80])`.
 *
 * The date parser is a parameter. Results that depend on what the parser returns take
 * `IsoParser(parse)`: every successful parse is a calendar date `YYYY-MM-DD`.
 */
module Timeline {
  import opened Wrappers
  import opened Text
  import opened StrOrder
  import opened Milestones
  import opened Events
  import opened StableSort
  import opened Dedupe

  /** A calendar date as `date.isoformat()` writes it: `YYYY-MM-DD`, month 01-12, day 01-31. */
  predicate IsIsoDate(d: string) {
    && |d| == 10
    && IsDigit(d[0]) && IsDigit(d[1]) && IsDigit(d[2]) && IsDigit(d[3])
    && d[4] == '-' && d[7] == '-'
    && ((d[5] == '0' && '1' <= d[6] <= '9') || (d[5] == '1' && '0' <= d[6] <= '2'))
    && (('0' <= d[8] <= '2' && IsDigit(d[9]) && !(d[8] == '0' && d[9] == '0'))
        || (d[8] == '3' && '0' <= d[9] <= '1'))
  }

  /** The parser yields calendar dates whenever it succeeds. */
  ghost predicate IsoParser(parse: DateParser) {
    forall s :: parse(s).Some? ==> IsIsoDate(parse(s).value)
  }

  /** The sentinel is itself a calendar date, and no calendar date sorts after it. */
  lemma IsoDateAtMostSentinel(d: string)
    requires IsIsoDate(d)
    ensures IsIsoDate(Sentinel)
    ensures LessEq(d, Sentinel)
  {
    var z := Sentinel;
    assert z[0] == '9' && z[1] == '9' && z[2] == '9' && z[3] == '9' && z[4] == '-';
    assert z[5] == '1' && z[6] == '2' && z[7] == '-' && z[8] == '3' && z[9] == '1';
    var k: nat := 0;
    while k < 10 && d[k] == z[k]
      invariant k <= 10
      invariant d[..k] == z[..k]
    {
      assert d[..k + 1] == d[..k] + [d[k]];
      assert z[..k + 1] == z[..k] + [z[k]];
      k := k + 1;
    }
    if k == 10 {
      assert d == d[..10] && z == z[..10];
    } else {
      assert d[k] < z[k];
      LessAtFirstDifference(d, z, k);
    }
  }

  /** The article's resolved publication date: parsed only when `publishedAt` is truthy. */
  function PublishedDate(a: Article, parse: DateParser): Option<string> {
    if a.publishedAt.Some? && a.publishedAt.value != "" then parse(a.publishedAt.value)
    else None
  }

  /** The milestones of the article's content, `a.get("content") or ""`. */
  function ArticleMilestones(a: Article): seq<Milestone> {
    ExtractMilestones(OrElse(a.content, ""))
  }

  /**
   * The raw events of one article (analyzer.py:41-55): first the title event, then one
   * event per milestone in order. The title event is dated by the publication date or
   * `"unknown"`, and its source falls back to the URL. A milestone event prefers the
   * publication date, then the date hint, then `"unknown"`, and its source is the
   * article's `source` with no URL fallback.
   */
  function ArticleEvents(a: Article, parse: DateParser): (r: seq<RawEvent>)
    ensures |r| == 1 + |ArticleMilestones(a)|
    ensures r[0].event == OrElse(a.title, "")
    ensures r[0].sources == [OrElseOpt(a.source, a.url)]
    ensures forall i :: 1 <= i < |r| ==>
              r[i].event == ArticleMilestones(a)[i - 1].sentence && r[i].sources == [a.source]
    ensures PublishedDate(a, parse).Some? && PublishedDate(a, parse).value != "" ==>
              forall i :: 0 <= i < |r| ==> r[i].date == PublishedDate(a, parse).value
    ensures PublishedDate(a, parse).None? || PublishedDate(a, parse).value == "" ==>
              r[0].date == Unknown &&
              forall i :: 1 <= i < |r| ==> r[i].date == OrElse(ArticleMilestones(a)[i - 1].dateHint, Unknown)
  {
    var date := PublishedDate(a, parse);
    var ms := ArticleMilestones(a);
    [RawEvent(OrElse(date, Unknown), OrElse(a.title, ""), [OrElseOpt(a.source, a.url)])]
    + seq(|ms|, i requires 0 <= i < |ms| =>
        RawEvent(OrElse(date, OrElse(ms[i].dateHint, Unknown)), ms[i].sentence, [a.source]))
  }

  /** An article whose content is absent or empty contributes its title event only. */
  lemma ArticleWithoutContent(a: Article, parse: DateParser)
    requires a.content.None? || a.content.value == ""
    ensures ArticleMilestones(a) == []
    ensures |ArticleEvents(a, parse)| == 1
  {
    NoMilestonesInEmptyText(OrElse(a.content, ""));
  }

  /** The loop over the articles, in order (analyzer.py:40-55). */
  function RawEvents(articles: seq<Article>, parse: DateParser): seq<RawEvent> {
    if articles == [] then []
    else ArticleEvents(articles[0], parse) + RawEvents(articles[1..], parse)
  }

  function TotalMilestones(articles: seq<Article>): nat {
    if articles == [] then 0
    else |ArticleMilestones(articles[0])| + TotalMilestones(articles[1..])
  }

  /** One title event per article plus one event per milestone. */
  lemma {:induction false} RawEventCount(articles: seq<Article>, parse: DateParser)
    ensures |RawEvents(articles, parse)| == |articles| + TotalMilestones(articles)
  {
    if articles != [] {
      RawEventCount(articles[1..], parse);
    }
  }

  /**
   * The `date_sort` key (analyzer.py:57-64): the sentinel for `"unknown"` and for a date
   * the parser rejects, the parsed ISO date otherwise.
   */
  function DateSort(date: string, parse: DateParser): (k: string)
    ensures k != Sentinel ==> date != Unknown && parse(date) == Some(k)
    ensures date != Unknown && parse(date).Some? ==> k == parse(date).value
    ensures date == Unknown || parse(date).None? ==> k == Sentinel
    ensures IsoParser(parse) ==> IsIsoDate(k)
  {
    if date == Unknown then Sentinel
    else match parse(date)
      case Some(d) => d
      case None => Sentinel
  }

  /** `date_sort` added to every raw event. */
  function Normalize(events: seq<RawEvent>, parse: DateParser): seq<Keyed>
  {
    seq(|events|, i requires 0 <= i < |events| => Keyed(events[i], DateSort(events[i].date, parse)))
  }

  /** The keyed raw events before sorting. */
  function KeyedEvents(articles: seq<Article>, parse: DateParser): seq<Keyed> {
    Normalize(RawEvents(articles, parse), parse)
  }

  /** `TimelineBuilder(articles).build_timeline()`. */
  function BuildTimeline(articles: seq<Article>, parse: DateParser): seq<TimelineEvent> {
    Compress(SortByDate(KeyedEvents(articles, parse)))
  }

  /** The date an entry is shown under, read back as a sort key. */
  function SortKeyOf(t: TimelineEvent): string {
    if t.date == Unknown then Sentinel else t.date
  }

  /** Every sort key is a calendar date (the sentinel is one). */
  ghost predicate KeysAreDates(keyed: seq<Keyed>) {
    forall e :: e in keyed ==> IsIsoDate(e.dateSort)
  }

  /** Each entry of the compressed timeline is emitted from one keyed event, in sorted order. */
  lemma CompressedOrigin(keyed: seq<Keyed>) returns (kept: seq<Keyed>)
    ensures kept == Survivors(SortByDate(keyed), {})
    ensures |Compress(SortByDate(keyed))| == |kept| <= |keyed|
    ensures forall i :: 0 <= i < |kept| ==>
              kept[i] in keyed && Compress(SortByDate(keyed))[i] == Emit(kept[i])
    ensures SortedByDate(kept)
  {
    var sorted := SortByDate(keyed);
    kept := Survivors(sorted, {});
    SortFacts(keyed);
    CompressFacts(sorted);
    var idx := SurvivorsInOrder(sorted, {});
    assert |sorted| == |keyed| by {
      assert |multiset(sorted)| == |multiset(keyed)|;
    }
    forall i | 0 <= i < |kept|
      ensures kept[i] in keyed
    {
      assert kept[i] == sorted[idx[i]];
      assert kept[i] in multiset(sorted);
    }
  }

  /**
   * With calendar-date keys, every entry of the compressed timeline is dated by a
   * calendar date or `"unknown"`, entries are in chronological order, and every
   * `"unknown"` entry comes after every dated one.
   */
  lemma CompressedChronological(keyed: seq<Keyed>)
    requires KeysAreDates(keyed)
    ensures var out := Compress(SortByDate(keyed));
      forall i :: 0 <= i < |out| ==> out[i].date == Unknown || IsIsoDate(out[i].date)
    ensures var out := Compress(SortByDate(keyed));
      forall i, j :: 0 <= i < j < |out| ==> LessEq(SortKeyOf(out[i]), SortKeyOf(out[j]))
    ensures var out := Compress(SortByDate(keyed));
      forall i, j :: 0 <= i < j < |out| ==> (out[i].date == Unknown ==> out[j].date == Unknown)
  {
    var out := Compress(SortByDate(keyed));
    var kept := CompressedOrigin(keyed);
    forall i | 0 <= i < |out|
      ensures SortKeyOf(out[i]) == kept[i].dateSort && IsIsoDate(kept[i].dateSort)
    {
    }
    forall i, j | 0 <= i < j < |out|
      ensures out[i].date == Unknown ==> out[j].date == Unknown
    {
      if out[i].date == Unknown {
        IsoDateAtMostSentinel(kept[j].dateSort);
        LessEqAntisymmetric(kept[j].dateSort, Sentinel);
      }
    }
  }

  /** With calendar-date keys, no two timeline entries share `(date, event[:80])`. */
  lemma CompressedDistinct(keyed: seq<Keyed>)
    requires KeysAreDates(keyed)
    ensures var out := Compress(SortByDate(keyed));
      forall i, j :: 0 <= i < j < |out| ==>
        (out[i].date, Take(out[i].event, 80)) != (out[j].date, Take(out[j].event, 80))
  {
    var out := Compress(SortByDate(keyed));
    var kept := CompressedOrigin(keyed);
    CompressFacts(SortByDate(keyed));
    forall i, j | 0 <= i < j < |out|
      ensures (out[i].date, Take(out[i].event, 80)) != (out[j].date, Take(out[j].event, 80))
    {
      assert KeyOf(kept[i]) != KeyOf(kept[j]);
    }
  }

  /** Every keyed event is a raw event carrying the `date_sort` key of its own date. */
  lemma KeyedEventsCarryKeys(articles: seq<Article>, parse: DateParser)
    ensures forall e :: e in KeyedEvents(articles, parse) ==>
              e.raw in RawEvents(articles, parse) && e.dateSort == DateSort(e.raw.date, parse)
  {
  }

  /** The sort keys of a parser that yields calendar dates are calendar dates. */
  lemma KeyedEventsAreDated(articles: seq<Article>, parse: DateParser)
    requires IsoParser(parse)
    ensures KeysAreDates(KeyedEvents(articles, parse))
  {
  }

  /**
   * With a parser that yields calendar dates, every timeline entry is dated by a
   * calendar date or `"unknown"`, the entries are in chronological order, and every
   * `"unknown"` entry comes after every dated one.
   */
  lemma BuildTimelineChronological(articles: seq<Article>, parse: DateParser)
    requires IsoParser(parse)
    ensures var out := BuildTimeline(articles, parse);
      forall i :: 0 <= i < |out| ==> out[i].date == Unknown || IsIsoDate(out[i].date)
    ensures var out := BuildTimeline(articles, parse);
      forall i, j :: 0 <= i < j < |out| ==> LessEq(SortKeyOf(out[i]), SortKeyOf(out[j]))
    ensures var out := BuildTimeline(articles, parse);
      forall i, j :: 0 <= i < j < |out| ==> (out[i].date == Unknown ==> out[j].date == Unknown)
  {
    var keyed := KeyedEvents(articles, parse);
    KeyedEventsAreDated(articles, parse);
    CompressedChronological(keyed);
    assert BuildTimeline(articles, parse) == Compress(SortByDate(keyed));
  }

  /** With a parser that yields calendar dates, no two entries share `(date, event[:80])`. */
  lemma BuildTimelineDistinct(articles: seq<Article>, parse: DateParser)
    requires IsoParser(parse)
    ensures var out := BuildTimeline(articles, parse);
      forall i, j :: 0 <= i < j < |out| ==>
        (out[i].date, Take(out[i].event, 80)) != (out[j].date, Take(out[j].event, 80))
  {
    var keyed := KeyedEvents(articles, parse);
    KeyedEventsAreDated(articles, parse);
    CompressedDistinct(keyed);
    assert BuildTimeline(articles, parse) == Compress(SortByDate(keyed));
  }

  /**
   * The timeline has at most one entry per raw event, and entry `i` is emitted from the
   * keyed raw event `from[i]` of the input, carrying that event's own sources; `from[i]`
   * is a raw event with the `date_sort` key its own date yields.
   */
  lemma BuildTimelineOrigin(articles: seq<Article>, parse: DateParser) returns (from: seq<Keyed>)
    ensures |BuildTimeline(articles, parse)| == |from| <= |RawEvents(articles, parse)|
    ensures forall i :: 0 <= i < |from| ==>
              from[i] in KeyedEvents(articles, parse) && BuildTimeline(articles, parse)[i] == Emit(from[i])
    ensures forall i :: 0 <= i < |from| ==>
              from[i].raw in RawEvents(articles, parse) && from[i].dateSort == DateSort(from[i].raw.date, parse)
  {
    var keyed := KeyedEvents(articles, parse);
    from := CompressedOrigin(keyed);
    KeyedEventsCarryKeys(articles, parse);
    assert BuildTimeline(articles, parse) == Compress(SortByDate(keyed));
  }

  /** Sorting and then compressing keeps exactly the keys of the input. */
  lemma KeptKeys(keyed: seq<Keyed>)
    ensures KeySet(Survivors(SortByDate(keyed), {})) == KeySet(keyed)
  {
    var sorted := SortByDate(keyed);
    SortFacts(keyed);
    CompressFacts(sorted);
    forall k | k in KeySet(keyed)
      ensures k in KeySet(sorted)
    {
      var e :| e in keyed && KeyOf(e) == k;
      assert e in multiset(sorted);
    }
    forall k | k in KeySet(sorted)
      ensures k in KeySet(keyed)
    {
      var e :| e in sorted && KeyOf(e) == k;
      assert e in multiset(keyed);
    }
  }

  /** With calendar-date keys, every input key is shown by some compressed entry. */
  lemma CompressedCoversKeys(keyed: seq<Keyed>)
    requires KeysAreDates(keyed)
    ensures var out := Compress(SortByDate(keyed));
      forall e :: e in keyed ==>
        exists i :: (0 <= i < |out| &&
          SortKeyOf(out[i]) == e.dateSort && Take(out[i].event, 80) == Take(e.raw.event, 80))
  {
    var out := Compress(SortByDate(keyed));
    var kept := CompressedOrigin(keyed);
    KeptKeys(keyed);
    forall e | e in keyed
      ensures exists i :: (0 <= i < |out| &&
        SortKeyOf(out[i]) == e.dateSort && Take(out[i].event, 80) == Take(e.raw.event, 80))
    {
      assert KeyOf(e) in KeySet(kept);
      var i :| 0 <= i < |kept| && KeyOf(kept[i]) == KeyOf(e);
      assert SortKeyOf(out[i]) == kept[i].dateSort;
    }
  }

  /**
   * With a parser that yields calendar dates, every raw event's key `(date_sort, event[:80])`
   * is shown by some timeline entry: compression loses no key.
   */
  lemma BuildTimelineCoversKeys(articles: seq<Article>, parse: DateParser)
    requires IsoParser(parse)
    ensures var out := BuildTimeline(articles, parse);
      forall e :: e in KeyedEvents(articles, parse) ==>
        exists i :: (0 <= i < |out| &&
          SortKeyOf(out[i]) == e.dateSort && Take(out[i].event, 80) == Take(e.raw.event, 80))
  {
    var keyed := KeyedEvents(articles, parse);
    KeyedEventsAreDated(articles, parse);
    CompressedCoversKeys(keyed);
    assert BuildTimeline(articles, parse) == Compress(SortByDate(keyed));
  }
}
