/**
 * `TimelineBuilder.source_checks` (analyzer.py:78-93): a heuristic trust score for each
 * distinct source identifier of the articles.
 */
module SourceScores {
  import opened Wrappers
  import opened Text
  import opened Events

  const Trusted: seq<string> := [
    "bbc.co", "reuters", "theguardian", "nytimes", "indiatoday", "thehindu", "cnn", "timesofindia"
  ]

  const BaseScore: real := 0.5
  const TrustedScore: real := 0.9
  const UnknownScore: real := 0.1

  /** `a.get("source") or a.get("url") or "unknown"`, in its original case. */
  function Identifier(a: Article): string {
    OrElse(a.source, OrElse(a.url, Unknown))
  }

  /** The loop over `trusted`: any occurring substring sets the score to 0.9. */
  function TrustedScan(name: string, ts: seq<string>, score: real): (r: real)
    ensures (exists t :: t in ts && Contains(name, t)) ==> r == TrustedScore
    ensures (forall t :: t in ts ==> !Contains(name, t)) ==> r == score
  {
    if ts == [] then score
    else TrustedScan(name, ts[1..], if Contains(name, ts[0]) then TrustedScore else score)
  }

  /** The score the loop body assigns to identifier `s`. */
  function Score(s: string): (r: real)
    ensures Lower(s) == Unknown ==> r == UnknownScore
    ensures Lower(s) != Unknown && (exists t :: t in Trusted && Contains(Lower(s), t)) ==>
              r == TrustedScore
    ensures Lower(s) != Unknown && (forall t :: t in Trusted ==> !Contains(Lower(s), t)) ==>
              r == BaseScore
  {
    var name := Lower(s);
    var score := TrustedScan(name, Trusted, BaseScore);
    if name == Unknown then UnknownScore else score
  }

  /** The loop over the articles, writing `scores[s] = score` into `acc`. */
  function ScoresFrom(articles: seq<Article>, acc: map<string, real>): map<string, real> {
    if articles == [] then acc
    else
      var s := Identifier(articles[0]);
      ScoresFrom(articles[1..], acc[s := Score(s)])
  }

  /** `source_checks()`. */
  function SourceChecks(articles: seq<Article>): map<string, real> {
    ScoresFrom(articles, map[])
  }

  function Identifiers(articles: seq<Article>): set<string> {
    set a | a in articles :: Identifier(a)
  }

  lemma {:induction false} ScoresFromFacts(articles: seq<Article>, acc: map<string, real>)
    requires forall k :: k in acc ==> acc[k] == Score(k)
    ensures ScoresFrom(articles, acc).Keys == acc.Keys + Identifiers(articles)
    ensures forall k :: k in ScoresFrom(articles, acc) ==> ScoresFrom(articles, acc)[k] == Score(k)
  {
    if articles != [] {
      var s := Identifier(articles[0]);
      ScoresFromFacts(articles[1..], acc[s := Score(s)]);
      assert Identifiers(articles) == {s} + Identifiers(articles[1..]) by {
        assert articles == [articles[0]] + articles[1..];
      }
    }
  }

  /**
   * The scores map has exactly the articles' identifiers as keys, in their original case,
   * and gives each identifier its own score: 0.1 when its lower-cased form is
   * `"unknown"`, else 0.9 when it contains a trusted substring, else 0.5.
   */
  lemma SourceChecksFacts(articles: seq<Article>)
    ensures SourceChecks(articles).Keys == Identifiers(articles)
    ensures forall k :: k in SourceChecks(articles) ==> SourceChecks(articles)[k] == Score(k)
    ensures forall k :: k in SourceChecks(articles) ==>
              SourceChecks(articles)[k] in {UnknownScore, BaseScore, TrustedScore}
  {
    ScoresFromFacts(articles, map[]);
  }

  /** The scores do not depend on the order of the articles, nor on repeated articles. */
  lemma SourceChecksOrderIndependent(xs: seq<Article>, ys: seq<Article>)
    requires forall a :: a in xs <==> a in ys
    ensures SourceChecks(xs) == SourceChecks(ys)
  {
    SourceChecksFacts(xs);
    SourceChecksFacts(ys);
    assert Identifiers(xs) == Identifiers(ys);
  }

  /** An identifier spelled `"UNKNOWN"` is penalised like `"unknown"`. */
  lemma UpperUnknownPenalised()
    ensures Score("UNKNOWN") == UnknownScore
  {
    var l := Lower("UNKNOWN");
    assert l[0] == 'u' && l[1] == 'n' && l[2] == 'k' && l[3] == 'n';
    assert l[4] == 'o' && l[5] == 'w' && l[6] == 'n';
    assert l == Unknown;
  }

  /** The trusted list matches case-insensitively: `"Reuters"` scores 0.9. */
  lemma MixedCaseTrusted()
    ensures Score("Reuters") == TrustedScore
  {
    var l := Lower("Reuters");
    assert l[0] == 'r' && l[1] == 'e' && l[2] == 'u' && l[3] == 't';
    assert l[4] == 'e' && l[5] == 'r' && l[6] == 's';
    assert l == "reuters";
    assert OccursAt(l, "reuters", 0);
    ContainsIff(l, "reuters");
    assert "reuters" in Trusted;
  }
}
