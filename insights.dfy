/** The explanatory notes under the country trend chart and the word cloud
    (app2.py:327-331, 503-506): a dictionary lookup that falls back to a
    fixed sentence when the key is not in the dictionary. The notes' prose is
    a parameter; the keys the app ships with and the fallback sentences are
    constants. */
module Insights {
  import opened Wrappers
  import opened Table
  import opened Corpus

  const MetricFallback := "Compares rating distributions across countries."
  const WordCloudFallback := "Displays commonly used words in employee reviews for the selected filters."

  /** The metrics metric_conclusions has a note for (app2.py:125-132). */
  const MetricKeys: set<string> := {
    "Overall Rating", "Work-Life Balance", "Compensation & Benefits",
    "Career Opportunities", "Culture & Values", "Senior Management"
  }

  /** The countries wordcloud_insights has notes for (app2.py:90-108), each
      with a note for all three review types. */
  const NotedCountries: set<string> := {"USA", "India"}

  /** dict.get(key, fallback). */
  function LookupOr<K, V>(m: map<K, V>, key: K, fallback: V): (r: V)
    ensures key in m ==> r == m[key]
    ensures key !in m ==> r == fallback
  {
    if key in m then m[key] else fallback
  }

  /** When the fallback is not itself one of the notes, the fallback comes
      back exactly when the key has no note. */
  lemma FallbackExactly<K, V>(m: map<K, V>, key: K, fallback: V)
    requires forall k :: k in m ==> m[k] != fallback
    ensures LookupOr(m, key, fallback) == fallback <==> key !in m
  {
    if key in m {
      assert m[key] != fallback;
    }
  }

  /** The note under the country trend chart for the chosen metric. The
      metric is what the selector returns, None when no metric is selected;
      None is never a key, so it gets the fallback. */
  function MetricInsight(conclusions: map<string, string>, metric: Option<string>): (r: string)
    ensures metric.Some? && metric.value in conclusions ==> r == conclusions[metric.value]
    ensures metric.None? || metric.value !in conclusions ==> r == MetricFallback
  {
    match metric
    case Some(name) => LookupOr(conclusions, name, MetricFallback)
    case None => MetricFallback
  }

  /** The note under the word cloud, keyed by the chosen country and the
      review type's label. A country that is not text (a missing value
      offered by the selector) is never a key. */
  function WordCloudInsight(insights: map<(string, string), string>, country: Cell, kind: ReviewKind): (r: string)
    ensures country.Str? && (country.s, KindLabel(kind)) in insights ==> r == insights[(country.s, KindLabel(kind))]
    ensures !country.Str? || (country.s, KindLabel(kind)) !in insights ==> r == WordCloudFallback
  {
    match country
    case Str(name) => LookupOr(insights, (name, KindLabel(kind)), WordCloudFallback)
    case _ => WordCloudFallback
  }

  /** The key set of wordcloud_insights: every noted country with every
      review type label. */
  ghost predicate WordCloudKeysOf(insights: map<(string, string), string>)
  {
    forall k :: k in insights <==> k.0 in NotedCountries && k.1 in {"Pros", "Cons", "Advice to Management"}
  }

  /** With the app's keys and no note equal to the fallback, the word-cloud
      note is specific exactly for the USA and India, whatever the review
      type. */
  lemma WordCloudInsightSpecific(insights: map<(string, string), string>, country: Cell, kind: ReviewKind)
    requires WordCloudKeysOf(insights)
    requires forall k :: k in insights ==> insights[k] != WordCloudFallback
    ensures WordCloudInsight(insights, country, kind) != WordCloudFallback <==>
      country.Str? && country.s in NotedCountries
  {
    if country.Str? {
      var key := (country.s, KindLabel(kind));
      assert key.1 in {"Pros", "Cons", "Advice to Management"};
      FallbackExactly(insights, key, WordCloudFallback);
    }
  }

  /** With the app's conclusions, the chart note is specific exactly for the
      six listed metrics; with no metric selected it is the fallback. */
  lemma MetricInsightSpecific(conclusions: map<string, string>, metric: Option<string>)
    requires conclusions.Keys == MetricKeys
    requires forall k :: k in conclusions ==> conclusions[k] != MetricFallback
    ensures MetricInsight(conclusions, metric) != MetricFallback <==> metric.Some? && metric.value in MetricKeys
  {
    if metric.Some? {
      FallbackExactly(conclusions, metric.value, MetricFallback);
    }
  }
}
