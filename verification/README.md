# AI News Orchestrator: timeline core in Dafny

This project models the part of the AI News Orchestrator that turns a list of news
articles into a deduplicated, date-ordered timeline. The model covers:

- `TimelineBuilder` in `analyzer.py`:
  - milestone extraction from article text;
  - timeline construction, in five steps: raw events, `date_sort` keys, a stable sort,
    first-occurrence compression, and mapping the sentinel back to `"unknown"`;
  - per-source trust scores.
- The offline fallback of `Summarizer.summarize_timeline` in `summarizer.py`.

Everything is a pure function over immutable datatypes, and the properties are proved
as contracts and lemmas.

## Modules

| file | module | what it holds |
|---|---|---|
| `wrappers.dfy` | `Wrappers` | `Option`, and Python's `x or y` on optional strings (absent and `""` are falsy) |
| `text.dfy` | `Text` | ASCII character classes, `lower()`, substring search, `[:n]`, `strip()` |
| `strorder.dfy` | `StrOrder` | Python's lexicographic string order and its laws |
| `sentences.dfy` | `Sentences` | `re.split(r'(?<=[.!?])\s+', text)` |
| `hints.dfy` | `DateHints` | the date-hint regex search as the pattern reads, with ASCII case folding |
| `milestones.dfy` | `Milestones` | `extract_milestones_from_text` |
| `events.dfy` | `Events` | articles, raw events, keyed events, timeline entries, the date-parser type |
| `sort.dfy` | `StableSort` | `sorted(events, key=date_sort)` as a stable insertion sort |
| `dedupe.dfy` | `Dedupe` | the compression loop on `(date_sort, event[:80])` |
| `timeline.dfy` | `Timeline` | `build_timeline` end to end |
| `scores.dfy` | `SourceScores` | `source_checks` |
| `summary.dfy` | `Summary` | the fallback summary text |

The date parser (`dateutil.parser.parse(...).date().isoformat()`) is a function-valued
parameter `parse: string -> Option<string>`, where `None` stands for a raised exception.
Results that depend on what the parser returns require `IsoParser(parse)`: every
successful parse is a `YYYY-MM-DD` calendar date. Chronological order and key
uniqueness of the finished timeline are proved under that assumption.

`textwrap.fill` is a parameter `fill` of the summarizer.

The date-hint pattern is a raw string whose month branch is written `\\b(January|…)\\b`.
The regex engine therefore reads that branch as:

1. a literal backslash;
2. the letter `b`;
3. a month name;
4. another literal backslash;
5. the letter `b`.

The model does the same, with ASCII case-insensitive matching (`DateHints.MonthTokenAt`). As a result,
in prose without backslashes only the four-digit year branch can supply a hint
(`DateHints.ProseHintIsYear`).

## Model

| member | source | states |
|---|---|---|
| Text.LowerChar | analyzer.py:26 | ASCII `lower()` on one character: `A`-`Z` move to `a`-`z`, everything else is unchanged |
| Text.Lower | analyzer.py:26 | lower-casing keeps the length and lower-cases every position independently |
| Text.ContainsIff | analyzer.py:26 | `kw in s` holds exactly when `kw` occurs at some position of `s` |
| Text.Take | analyzer.py:71 | `event[:80]` is a prefix of the event, of length `min(80, len)` |
| Text.TrimLeftParts | analyzer.py:33 | stripping on the left removes exactly a leading run of whitespace |
| Text.TrimRightParts | analyzer.py:33 | stripping on the right removes exactly a trailing run of whitespace |
| Text.StripParts | analyzer.py:33 | `s.strip()` is `s` minus a leading and a trailing whitespace run, and does not start or end with whitespace |
| StrOrder.LessIrreflexive | analyzer.py:66 | no key sorts before itself |
| StrOrder.LessTransitive | analyzer.py:66 | string order is transitive |
| StrOrder.LessTotal | analyzer.py:66 | any two keys are comparable |
| StrOrder.LessAsymmetric | analyzer.py:66 | `a < b` excludes `b < a` |
| StrOrder.LessEqTransitive | analyzer.py:66 | `<=` on keys is transitive |
| StrOrder.LessEqAntisymmetric | analyzer.py:66 | `a <= b` and `b <= a` force `a == b` |
| StrOrder.NotLessIsLessEq | analyzer.py:66 | keys that are not greater are less or equal |
| StrOrder.LessAtFirstDifference | analyzer.py:66 | the first differing character decides the order |
| Sentences.RunEnd | analyzer.py:21 | `\s+` is greedy: the separator is the maximal whitespace run at the split point |
| Sentences.SplitFromFacts | analyzer.py:21 | splitting from any position that follows a separator gives well-formed pieces that, interleaved with the removed runs, rebuild the rest of the text |
| Sentences.SplitAtBreak | analyzer.py:21 | at a split point the text splits into the piece before it, the whole whitespace run, and a well-formed split of the rest |
| Sentences.ConsPiece | analyzer.py:21 | a piece ending in a terminator, then a maximal whitespace run, then a well-formed split of the rest, form a well-formed split of the whole |
| Sentences.SplitSentencesFacts | analyzer.py:21 | the pieces and removed whitespace runs interleave back to the input; every piece but the last ends in `.`, `!` or `?`; no piece holds a split point; empty text gives `[""]` |
| DateHints.MonthAt | analyzer.py:29 | a month-branch match names a listed month spelled between `\b` markers, and no match means no listed month is spelled there |
| DateHints.HintAtIn | analyzer.py:29 | at a position: the year branch, when it applies, matches the four-digit run there; otherwise a match is the whole backslash-led token of one of the month alternatives spelled there; there is no match exactly when neither branch applies; the match occurs at that position |
| DateHints.HintAtFacts | analyzer.py:29 | a match at a position is a four-digit year token or text starting with a backslash |
| DateHints.FindFirst | analyzer.py:29 | the search returns the leftmost matching position at or after the start, and none when no position matches |
| DateHints.DateHint | analyzer.py:29-32 | the hint is the text of the leftmost match, and `None` exactly when the pattern matches nowhere |
| DateHints.ProseHintIsYear | analyzer.py:29 | without a backslash in the sentence, a hint can only be a four-digit year |
| Milestones.FirstKeyword | analyzer.py:25-34 | the keyword loop stops at the first keyword, in list order, that occurs in the lower-cased sentence, and finds none exactly when no keyword occurs |
| Milestones.KeywordLoopDecides | analyzer.py:24-34 | the keyword loop takes a sentence exactly when its lower-cased form contains a keyword |
| Milestones.KeptIndexes | analyzer.py:24-35 | there is a strictly increasing list of exactly the kept positions, with output `k` computed from the element at position `k` of that list |
| Milestones.ExtractInSentenceOrder | analyzer.py:19-35 | milestones come in sentence order, one per qualifying sentence and none otherwise; each holds the stripped sentence and that sentence's date hint |
| Milestones.NoMilestonesInEmptyText | analyzer.py:21-35 | empty text yields no milestones |
| Timeline.IsoDateAtMostSentinel | analyzer.py:59 | the sentinel `9999-12-31` is a calendar date and no calendar date sorts after it |
| Timeline.ArticleEvents | analyzer.py:41-55 | one title event and then one event per milestone. With a parsed publication date, every event carries it. Otherwise the title event is `"unknown"` and a milestone event takes its hint or `"unknown"`. The title source is `source or url`, and a milestone source is `source` only |
| Timeline.ArticleWithoutContent | analyzer.py:52-53 | absent or empty content contributes no milestones, only the title event |
| Timeline.RawEventCount | analyzer.py:40-55 | the raw event count is the article count plus the total number of milestones |
| Timeline.DateSort | analyzer.py:57-64 | the key is the re-parsed date when the date is not `"unknown"` and parses, and the sentinel `9999-12-31` otherwise; with a calendar-date parser every key is a calendar date |
| Timeline.KeyedEventsCarryKeys | analyzer.py:57-64 | every keyed event is a raw event of the input carrying the `date_sort` key of its own date |
| Timeline.CompressedOrigin | analyzer.py:66-76 | each compressed entry is emitted from one input event, the emitted events are sorted, and there are at most as many as the input events |
| Timeline.CompressedChronological | analyzer.py:66-76 | with calendar-date keys, entries are dated or `"unknown"`, chronological, and every `"unknown"` entry comes after every dated one |
| Timeline.CompressedDistinct | analyzer.py:68-75 | with calendar-date keys, no two entries share `(date, event[:80])` |
| Timeline.KeptKeys | analyzer.py:66-74 | sorting and then compressing keeps exactly the keys of the input |
| Timeline.CompressedCoversKeys | analyzer.py:66-76 | with calendar-date keys, every input key is shown by some compressed entry |
| Timeline.KeyedEventsAreDated | analyzer.py:57-64 | a calendar-date parser gives every raw event a calendar-date key |
| Timeline.BuildTimelineChronological | analyzer.py:37-76 | the timeline is in chronological order, with the `"unknown"` entries last |
| Timeline.BuildTimelineDistinct | analyzer.py:66-76 | no two timeline entries share `(date, event[:80])` |
| Timeline.BuildTimelineOrigin | analyzer.py:37-76 | at most one entry per raw event; each entry is emitted from a keyed raw event of the input, with that event's own sources, whose key is the `date_sort` of its own date |
| Timeline.BuildTimelineCoversKeys | analyzer.py:66-76 | every raw event's `(date_sort, event[:80])` is shown by some timeline entry |
| StableSort.InsertPermutes | analyzer.py:66 | inserting adds exactly the inserted event |
| StableSort.InsertSorted | analyzer.py:66 | inserting into a sorted sequence keeps it sorted |
| StableSort.InsertStable | analyzer.py:66 | an inserted event goes after every earlier event with the same key |
| StableSort.SortPermutes | analyzer.py:66 | the sorted events are a permutation of the input |
| StableSort.SortSorted | analyzer.py:66 | the sorted events are non-decreasing in `date_sort` |
| StableSort.SortStable | analyzer.py:66 | the events with any one key appear in the sorted output in their input order |
| StableSort.SortFacts | analyzer.py:66 | the sort is a permutation, non-decreasing in `date_sort`, and stable: the events with any one key keep their input order |
| Dedupe.Emit | analyzer.py:75 | an entry's date is `"unknown"` exactly when its key is the sentinel (or the text `unknown`), and is the key otherwise; the event text is kept; the sources are the event's own sources as a set |
| Dedupe.SurvivorsInOrder | analyzer.py:68-74 | the kept events are a subsequence of the sorted events, in order |
| Dedupe.SurvivorsDistinct | analyzer.py:69-74 | no two kept events share a key, and none has a key already seen |
| Dedupe.SurvivorsCoverKeys | analyzer.py:69-74 | the kept events carry exactly the keys of the input that were not already seen |
| Dedupe.SurvivorsAreFirst | analyzer.py:69-74 | the first occurrence of each unseen key is kept |
| Dedupe.SurvivorsSorted | analyzer.py:66-74 | keeping a subsequence of sorted events leaves them sorted |
| Dedupe.CompressFacts | analyzer.py:68-76 | compression yields at most one entry per event, one per distinct key, from the key's first occurrence, preserving sortedness |
| Dedupe.DuplicateSourcesNotMerged | analyzer.py:72-75 | of two events with one key only the first is emitted, with its own sources only |
| SourceScores.TrustedScan | analyzer.py:86-88 | the trusted loop ends at 0.9 when any trusted substring occurs and leaves the score alone otherwise |
| SourceScores.Score | analyzer.py:84-91 | 0.1 when the lower-cased identifier is `"unknown"`, else 0.9 when it contains a trusted substring, else 0.5 |
| SourceScores.ScoresFromFacts | analyzer.py:82-92 | the loop adds exactly the articles' identifiers to the map, each with its own score |
| SourceScores.SourceChecksFacts | analyzer.py:78-93 | the map's keys are exactly the identifiers `source or url or "unknown"` in original case, each mapped to its score, one of 0.1, 0.5, 0.9 |
| SourceScores.SourceChecksOrderIndependent | analyzer.py:82-92 | the map does not depend on article order or repetition |
| SourceScores.UpperUnknownPenalised | analyzer.py:83-91 | `"UNKNOWN"` scores 0.1 like `"unknown"` |
| SourceScores.MixedCaseTrusted | analyzer.py:84-88 | `"Reuters"` scores 0.9: trusted names match case-insensitively |
| Summary.Lines | summarizer.py:28 | one rendered line `date: event` per entry, in order |
| Summary.JoinSplit | summarizer.py:29 | the joined text splits at any interior boundary into the two joined halves around one `" \| "` |
| Summary.SummarizeEmpty | summarizer.py:13-14 | an empty timeline gives exactly `"No timeline events to summarize."` |
| Summary.PreWrapSingle | summarizer.py:27-31 | one entry gives the prefix followed by `date: event` |
| Summary.PreWrapAppend | summarizer.py:27-31 | a new last entry appends `" \| date: event"` while there are fewer than six entries and changes nothing after that |
| Summary.OnlyFirstSixCount | summarizer.py:27 | any two timelines with the same first six entries (empty ones included) give the same summary |
| Summary.ApiKeyIgnored | summarizer.py:17-24 | the summary does not depend on whether an API key is set |

## Left out

- Date parsing internals (`dateutil.parser.parse`, analyzer.py:8, 45, 62) are foreign and
  depend on the current date. The parser is a parameter, and nothing is assumed about it
  beyond `IsoParser` where a lemma says so.
- `parse_date` (analyzer.py:6-10) is not called by the modelled code and is covered by the
  same parser parameter.
- `textwrap.fill` is foreign and is a parameter. Its line breaking is not modelled.
- Unicode semantics of `str.lower`, `str.strip`, regex `\s`, `\d`, `\w` and `\b` are
  restricted to ASCII. Whitespace is space, tab, newline, carriage return, form feed and
  vertical tab. Python also treats characters such as `\x1c`-`\x1f` and Unicode spaces as
  whitespace, and lower-cases non-ASCII letters.
- `DateHints.SameIgnoringCase`: `re.I` on a `str` pattern uses Unicode simple case folding,
  so a non-ASCII character can match an ASCII letter of a month name (`ſ`, U+017F, matches
  `s`; the Kelvin sign U+212A matches `k`). The model compares ASCII lower case only and
  does not find those matches.
- The iteration order of Python's `set` (for `sources`) and `dict` (for scores) is not
  modelled. They are a Dafny `set` and `map`.
- Score display formatting in `app.py`: the scores are the three constants 0.1, 0.5 and
  0.9, written as `real`.
- `app.py` (Streamlit UI and environment reads) and `fetcher.py` (the NewsAPI HTTP call,
  and loading sample articles from a JSON file) are I/O. They only supply article
  records, so the model takes the articles as a sequence.
- The commented-out OpenAI call, the unused `context_articles` parameter, and reading
  `OPENAI_API_KEY` from the environment (summarizer.py:6). The key is a parameter.
- The unused imports `math` and `defaultdict`.
- Timeline.BuildTimelineChronological: chronological order and calendar-date dates are
  proved only for a parser that yields calendar dates (`IsoParser`). Any other parser
  still gives a timeline sorted by its `date_sort` keys (`Timeline.CompressedOrigin`).
- Timeline.BuildTimelineDistinct: likewise assumes `IsoParser`. With a parser that
  returns the text `unknown`, two entries can both show `"unknown"`: one keyed by the
  sentinel and one by the text `unknown`.
- Timeline.BuildTimelineCoversKeys: likewise assumes `IsoParser`, for the same reason.

Duplicate events do not have their sources merged: the code keeps the first event's
own sources and drops those of its duplicates (analyzer.py:72-75). The model follows the code (`Dedupe.DuplicateSourcesNotMerged`).
