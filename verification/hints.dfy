/**
 * The date hint of a milestone sentence: the leftmost match of
 *
 *   (\b\d{4}\b)|\\b(January|February|...|December)\\b      with re.I
 *
 * The pattern is a raw string, so each `\\b` of the month branch is an escaped
 * backslash followed by the letter `b`: that branch matches the literal text
 * `\b<Month>\b` (letters in any case), not a month name between word boundaries.
 * In ordinary prose only the four-digit year branch can match.
 */
module DateHints {
  import opened Wrappers
  import opened Text

  const Months: seq<string> := [
    "January", "February", "March", "April", "May", "June", "July",
    "August", "September", "October", "November", "December"
  ]

  /** A four-digit token as the year branch captures it. */
  predicate IsYearToken(h: string) {
    |h| == 4 && forall i :: 0 <= i < 4 ==> IsDigit(h[i])
  }

  /** The year branch `\b\d{4}\b` matches at `p`. */
  predicate YearAt(s: string, p: nat) {
    && p + 4 <= |s|
    && (p == 0 || !IsWordChar(s[p - 1]))
    && IsYearToken(s[p..p + 4])
    && (p + 4 == |s| || !IsWordChar(s[p + 4]))
  }

  /** Equal under `re.I`: character by character, after lower-casing both sides. */
  predicate SameIgnoringCase(a: string, b: string) {
    |a| == |b| && forall i :: 0 <= i < |a| ==> LowerChar(a[i]) == LowerChar(b[i])
  }

  /** The month branch, for month name `m`, matches at `p`: `\`, `b`, `m`, `\`, `b`, ignoring case. */
  predicate MonthTokenAt(s: string, p: nat, m: string) {
    && p + |m| + 4 <= |s|
    && s[p] == '\\' && LowerChar(s[p + 1]) == 'b'
    && SameIgnoringCase(s[p + 2..p + 2 + |m|], m)
    && s[p + 2 + |m|] == '\\' && LowerChar(s[p + 3 + |m|]) == 'b'
  }

  /** The alternatives of the month group, tried in the order they are written. */
  function MonthAt(s: string, p: nat, months: seq<string>): (r: Option<string>)
    ensures r.Some? ==> r.value in months && MonthTokenAt(s, p, r.value)
    ensures r.None? <==> forall m :: m in months ==> !MonthTokenAt(s, p, m)
  {
    if months == [] then None
    else if MonthTokenAt(s, p, months[0]) then Some(months[0])
    else MonthAt(s, p, months[1..])
  }

  /**
   * The text the pattern matches when the match starts at `p` (`m.group(0)`), with the
   * month group's alternatives `months`. The year branch is tried first; a month match
   * covers the backslash, the `b`, the month, the second backslash and the second `b`.
   */
  function HintAtIn(s: string, p: nat, months: seq<string>): (r: Option<string>)
    ensures YearAt(s, p) ==> r == Some(s[p..p + 4])
    ensures !YearAt(s, p) && r.Some? ==>
              exists m :: m in months && MonthTokenAt(s, p, m) && r.value == s[p..p + |m| + 4]
    ensures r.None? <==> !YearAt(s, p) && forall m :: m in months ==> !MonthTokenAt(s, p, m)
    ensures r.Some? ==> OccursAt(s, r.value, p)
  {
    if YearAt(s, p) then Some(s[p..p + 4])
    else match MonthAt(s, p, months)
      case Some(m) => Some(s[p..p + |m| + 4])
      case None => None
  }

  /** The match of the date-hint pattern starting at `p`, if any. */
  function HintAt(s: string, p: nat): Option<string> {
    HintAtIn(s, p, Months)
  }

  /** Whatever the month alternatives, a match is a year token or starts with a backslash. */
  lemma HintAtFacts(s: string, p: nat, months: seq<string>)
    ensures HintAtIn(s, p, months).Some? ==>
              IsYearToken(HintAtIn(s, p, months).value)
              || (|HintAtIn(s, p, months).value| > 0 && HintAtIn(s, p, months).value[0] == '\\')
  {
    var r := HintAtIn(s, p, months);
    if r.Some? && !YearAt(s, p) {
      var m :| m in months && MonthTokenAt(s, p, m) && r.value == s[p..p + |m| + 4];
      assert r.value[0] == s[p];
    }
  }

  /**
   * The scan of `re.search`: the leftmost position `q` with `p <= q < n` at which
   * `matches` holds.
   */
  function FindFirst(n: nat, p: nat, matches: nat -> bool): (r: Option<nat>)
    requires p <= n
    ensures r.Some? ==> p <= r.value < n && matches(r.value)
    ensures r.Some? ==> forall q :: p <= q < r.value ==> !matches(q)
    ensures r.None? ==> forall q :: p <= q < n ==> !matches(q)
    decreases n - p
  {
    if p == n then None
    else if matches(p) then Some(p)
    else FindFirst(n, p + 1, matches)
  }

  /**
   * `re.search(...)` then `m.group(0)` (analyzer.py:29-32): the text of the leftmost
   * match, or `None` when the pattern matches nowhere.
   */
  function DateHint(s: string): (r: Option<string>)
    ensures r.None? <==> forall q :: 0 <= q < |s| ==> HintAt(s, q).None?
    ensures r.Some? ==> exists p :: 0 <= p < |s| && HintAt(s, p) == r &&
                          forall q :: 0 <= q < p ==> HintAt(s, q).None?
    ensures r.Some? ==> IsYearToken(r.value) || (|r.value| > 0 && r.value[0] == '\\')
  {
    var matches := (q: nat) => HintAt(s, q).Some?;
    assert forall q: nat :: matches(q) == HintAt(s, q).Some?;
    match FindFirst(|s|, 0, matches)
    case Some(p) => HintAtFacts(s, p, Months); HintAt(s, p)
    case None => None
  }

  /** Without a backslash in the sentence, only the year branch can supply the hint. */
  lemma ProseHintIsYear(s: string)
    requires forall i :: 0 <= i < |s| ==> s[i] != '\\'
    ensures DateHint(s).None? || IsYearToken(DateHint(s).value)
  {
    if DateHint(s).Some? {
      var p :| 0 <= p < |s| && HintAt(s, p) == DateHint(s);
      HintAtFacts(s, p, Months);
    }
  }
}
