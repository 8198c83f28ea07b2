/**
 * The records the timeline builder passes around. Articles arrive as dictionaries whose
 * keys may be missing, so every article field is optional.
 */
module Events {
  import opened Wrappers

  /** `{"title", "publishedAt", "content", "url", "source"}`; any key may be missing or `None`. */
  datatype Article = Article(
    title: Option<string>,
    publishedAt: Option<string>,
    content: Option<string>,
    url: Option<string>,
    source: Option<string>)

  /**
   * A candidate event before sorting: `{"date", "event", "sources"}`. `date` is an ISO
   * date, a raw date-hint fragment, or `"unknown"`; `sources` is the one-element list the
   * builder writes, whose element may be `None`.
   */
  datatype RawEvent = RawEvent(date: string, event: string, sources: seq<Option<string>>)

  /** A raw event together with the `date_sort` key the builder adds to it. */
  datatype Keyed = Keyed(raw: RawEvent, dateSort: string)

  /** An entry of the finished timeline: `{"date", "event", "sources"}`. */
  datatype TimelineEvent = TimelineEvent(date: string, event: string, sources: set<Option<string>>)

  const Unknown: string := "unknown"

  /** The sort key standing for "no usable date"; it sorts after every calendar date. */
  const Sentinel: string := "9999-12-31"

  /**
   * `parser.parse(text).date().isoformat()` from dateutil, with a raised exception read
   * as `None`. The library is foreign, so the model takes it as a parameter.
   */
  type DateParser = string -> Option<string>
}
