/**
 * One round of the assistant: from the text in the search box to what the
 * page shows. A blank query browses the catalog; any other query is
 * classified, expanded, searched, ranked, and decorated with suggestions and
 * a clarifying question. The full-text index is a parameter.
 */
module Pipeline {
  import opened Wrappers
  import opened Text
  import opened Catalog
  import opened Intents
  import opened Suggest
  import opened Ranking

  /** The options handed to the search index with the expanded query. */
  datatype SearchOptions = SearchOptions(boost: Boost, prefix: bool, fuzzy: real)

  /** What the page shows after a query. */
  datatype View =
    | Browse(message: string, shown: seq<Entry>)
    | Results(
        message: string,
        intent: Option<Intent>,
        expanded: string,
        top: seq<Scored>,
        suggestions: seq<string>,
        clarifier: Option<Clarifier>)

  const BROWSE_MESSAGE: string :=
    "Ask me something like **pay water bill**, **report pothole**, or **school phone**."

  const FALLBACK_MESSAGE: string := "Okay — I’ll try to find the best match."

  /** How many entries are listed for a blank query. */
  const BROWSE_COUNT: nat := 8

  /** The field boosts used when no intent was detected. */
  const DEFAULT_BOOST: Boost := Boost(2.0, 2.0, 1.2, 1.1)

  /** The relative edit distance the index tolerates. */
  const FUZZINESS: real := 0.2

  /** `intent?.say || fallback`. */
  function MessageFor(intent: Option<Intent>): (m: string)
    ensures intent.None? ==> m == FALLBACK_MESSAGE
    ensures intent.Some? && intent.value.say != [] ==> m == intent.value.say
    ensures m != []
  {
    if intent.Some? && intent.value.say != [] then intent.value.say else FALLBACK_MESSAGE
  }

  /** The intent's boosts, or the default ones; prefix search on, fuzziness 0.2. */
  function OptionsFor(intent: Option<Intent>): (o: SearchOptions)
    ensures o.boost == if intent.Some? then intent.value.boost else DEFAULT_BOOST
    ensures o.prefix && o.fuzzy == FUZZINESS
  {
    SearchOptions(if intent.Some? then intent.value.boost else DEFAULT_BOOST, true, FUZZINESS)
  }

  /**
   * `renderResults(query)` over the loaded `entries`, the tag vocabulary
   * `pool` built from them at load time (`TAG_POOL = buildTagPool(entries)`,
   * the result `Catalog.BuildTagPool` ensures) and the full-text index `search`.
   */
  method RenderResults(
    query: string,
    entries: seq<Entry>,
    pool: seq<string>,
    search: (string, SearchOptions) -> seq<Hit>)
    returns (view: View)
    requires pool == Dedup(AllTags(entries))
    ensures Trim(query) == [] ==> view == Browse(BROWSE_MESSAGE, Take(entries, BROWSE_COUNT))
    ensures Trim(query) != [] ==>
              && view.Results?
              && Detects(INTENTS, Trim(query), view.intent)
              && view.message == MessageFor(view.intent)
              && view.expanded == BuildExpandedQuery(Trim(query), view.intent)
              && view.top == Rank(search(view.expanded, OptionsFor(view.intent)), entries)
              && view.suggestions == SuggestTerms(pool, Trim(query), |view.top|)
              && view.clarifier == Clarify(Trim(query), view.top)
  {
    var raw := Trim(query);
    if raw == [] {
      return Browse(BROWSE_MESSAGE, Take(entries, BROWSE_COUNT));
    }
    var intent := DetectIntent(raw);
    var message := MessageFor(intent);
    var expanded := BuildExpandedQuery(raw, intent);
    var hits := search(expanded, OptionsFor(intent));
    var top := Rank(hits, entries);
    var suggestions := SuggestTerms(pool, raw, |top|);
    var clarifier := Clarify(raw, top);
    view := Results(message, intent, expanded, top, suggestions, clarifier);
  }

  /**
   * What a results view guarantees, whatever the index returns: the user's
   * trimmed text heads the expanded query, at most twelve results sorted by
   * score, suggestions only when at most two results were found, and a
   * clarifier only with two near-tied results.
   */
  lemma ResultsViewProperties(
    query: string,
    entries: seq<Entry>,
    pool: seq<string>,
    search: (string, SearchOptions) -> seq<Hit>,
    intent: Option<Intent>)
    requires Trim(query) != []
    ensures var raw := Trim(query);
            var expanded := BuildExpandedQuery(raw, intent);
            var top := Rank(search(expanded, OptionsFor(intent)), entries);
            && raw <= expanded
            && |top| <= MAX_RESULTS
            && SortedDesc(top)
            && (|top| > 2 ==> SuggestTerms(pool, raw, |top|) == [])
            && (Clarify(raw, top).Some? ==> |top| >= 2 && IsAmbiguous(top[1].score, top[0].score))
  {
    var raw := Trim(query);
    assert Trim(raw) == raw;
    RankProperties(search(BuildExpandedQuery(raw, intent), OptionsFor(intent)), entries);
  }
}
