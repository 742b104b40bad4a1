/**
 * "Did you mean" suggestions: tags of the vocabulary that contain the query
 * or are within two edits of it, offered only when a query found almost
 * nothing, with the quick chips as a fallback.
 */
module Suggest {
  import opened Text
  import opened EditDistance

  /** The example queries offered as chips under the search box. */
  const QUICK_CHIPS: seq<string> := [
    "pay water bill",
    "report pothole",
    "trash pickup",
    "police non emergency",
    "school phone",
    "hours",
    "directions",
    "animal control"
  ]

  /** How many suggestions are shown at most. */
  const MAX_SUGGESTIONS: nat := 5

  function Abs(x: int): nat
  {
    if x < 0 then -x else x
  }

  /** A pool term contains the query. */
  predicate IsDirect(t: string, q: string)
  {
    Contains(t, q)
  }

  /**
   * The fuzzy test as written: lengths more than three apart are rejected
   * before the edit distance is consulted.
   */
  predicate IsFuzzy(t: string, q: string)
  {
    if Abs(|t| - |q|) > 3 then false else Distance(t, q) <= 2
  }

  /** The length pre-filter never rejects a term the distance test would accept. */
  lemma PrefilterRedundant(t: string, q: string)
    ensures IsFuzzy(t, q) <==> Distance(t, q) <= 2
  {
    DistanceAtLeastLengthGap(t, q);
  }

  /** `TAG_POOL.filter((t) => t.includes(q))`. */
  function DirectMatches(pool: seq<string>, q: string): (r: seq<string>)
    ensures forall x :: x in r <==> x in pool && IsDirect(x, q)
  {
    if pool == [] then []
    else (if IsDirect(pool[0], q) then [pool[0]] else []) + DirectMatches(pool[1..], q)
  }

  /** `TAG_POOL.filter(...)` with the length pre-filter and `levenshtein(t, q) <= 2`. */
  function FuzzyMatches(pool: seq<string>, q: string): (r: seq<string>)
    ensures forall x :: x in r <==> x in pool && IsFuzzy(x, q)
  {
    if pool == [] then []
    else (if IsFuzzy(pool[0], q) then [pool[0]] else []) + FuzzyMatches(pool[1..], q)
  }

  /** The direct matches of a concatenation are those of each part, in order. */
  lemma {:induction false} DirectMatchesAppend(a: seq<string>, b: seq<string>, q: string)
    ensures DirectMatches(a + b, q) == DirectMatches(a, q) + DirectMatches(b, q)
  {
    if a == [] {
      assert a + b == b;
    } else {
      assert (a + b)[0] == a[0] && (a + b)[1..] == a[1..] + b;
      DirectMatchesAppend(a[1..], b, q);
    }
  }

  /** The fuzzy matches of a concatenation are those of each part, in order. */
  lemma {:induction false} FuzzyMatchesAppend(a: seq<string>, b: seq<string>, q: string)
    ensures FuzzyMatches(a + b, q) == FuzzyMatches(a, q) + FuzzyMatches(b, q)
  {
    if a == [] {
      assert a + b == b;
    } else {
      assert (a + b)[0] == a[0] && (a + b)[1..] == a[1..] + b;
      FuzzyMatchesAppend(a[1..], b, q);
    }
  }

  /** A pool term worth suggesting for the normalised query `q`. */
  predicate Qualifies(t: string, q: string)
  {
    IsDirect(t, q) || IsFuzzy(t, q)
  }

  /** The distinct direct matches first, then the fuzzy matches that are new. */
  function Combined(pool: seq<string>, q: string): (r: seq<string>)
    ensures Distinct(r)
    ensures forall x :: x in r <==> x in pool && Qualifies(x, q)
  {
    Dedup(DirectMatches(pool, q) + FuzzyMatches(pool, q))
  }

  /** The query as `suggestTerms` compares it: lower-cased, then trimmed. */
  function Normalize(query: string): string
  {
    Trim(LowerStr(query))
  }

  /**
   * `suggestTerms(query, resultCount)` against the tag vocabulary `pool`.
   * Nothing for a blank query or when more than two results were found;
   * otherwise the first five of the combined list: distinct qualifying pool
   * terms, the direct matches ahead of the fuzzy ones, every qualifying term
   * present unless five are shown; and the first five quick chips when no
   * term qualifies (`SuggestFallback`).
   */
  function SuggestTerms(pool: seq<string>, query: string, resultCount: int): (r: seq<string>)
    ensures Normalize(query) == [] || resultCount > 2 ==> r == []
    ensures |r| <= MAX_SUGGESTIONS
    ensures Distinct(r)
    ensures Normalize(query) != [] && resultCount <= 2 &&
            (exists t :: t in pool && Qualifies(t, Normalize(query))) ==>
              r <= Combined(pool, Normalize(query))
    ensures (exists t :: t in pool && Qualifies(t, Normalize(query))) ==>
              && (forall x :: x in r ==> x in pool && Qualifies(x, Normalize(query)))
              && (forall i, j :: 0 <= i < j < |r| && IsDirect(r[j], Normalize(query)) ==>
                    IsDirect(r[i], Normalize(query)))
    ensures Normalize(query) != [] && resultCount <= 2 ==>
              forall t :: t in pool && Qualifies(t, Normalize(query)) ==> t in r || |r| == MAX_SUGGESTIONS
  {
    var q := Normalize(query);
    if q == [] || resultCount > 2 then []
    else
      var combined := Combined(pool, q);
      CombinedEmptyIff(pool, q);
      if combined == [] then
        ChipsDistinct();
        QUICK_CHIPS[..MAX_SUGGESTIONS]
      else
        TakeCombined(pool, q);
        Take(combined, MAX_SUGGESTIONS)
  }

  /** The first five of the combined list keep its order, its distinctness and its membership. */
  lemma TakeCombined(pool: seq<string>, q: string)
    ensures var r := Take(Combined(pool, q), MAX_SUGGESTIONS);
      && r <= Combined(pool, q)
      && |r| <= MAX_SUGGESTIONS
      && Distinct(r)
      && (forall x :: x in r ==> x in pool && Qualifies(x, q))
      && (forall i, j :: 0 <= i < j < |r| && IsDirect(r[j], q) ==> IsDirect(r[i], q))
      && (forall t :: t in pool && Qualifies(t, q) ==> t in r || |r| == MAX_SUGGESTIONS)
  {
    var c := Combined(pool, q);
    var r := Take(c, MAX_SUGGESTIONS);
    CombinedDirectFirst(pool, q);
    forall x | x in r ensures x in c {
      var k :| 0 <= k < |r| && r[k] == x;
      assert c[k] == x;
    }
    forall t | t in pool && Qualifies(t, q) && |r| != MAX_SUGGESTIONS ensures t in r {
      assert r == c;
    }
  }

  /** When no pool term qualifies, the first five quick chips are offered instead. */
  lemma SuggestFallback(pool: seq<string>, query: string, resultCount: int)
    requires Normalize(query) != [] && resultCount <= 2
    requires forall t :: t in pool ==> !Qualifies(t, Normalize(query))
    ensures SuggestTerms(pool, query, resultCount) == QUICK_CHIPS[..MAX_SUGGESTIONS]
  {
    CombinedEmptyIff(pool, Normalize(query));
  }

  /** Nothing is combined exactly when no pool term qualifies. */
  lemma CombinedEmptyIff(pool: seq<string>, q: string)
    ensures Combined(pool, q) == [] <==> forall t :: t in pool ==> !Qualifies(t, q)
  {
    CombinedDirectFirst(pool, q);
    var c := Combined(pool, q);
    if c != [] {
      assert c[0] in c;
    }
  }

  lemma ChipsDistinct()
    ensures Distinct(QUICK_CHIPS[..MAX_SUGGESTIONS])
  {
  }

  /**
   * In the combined list the direct matches come first; a term qualifies
   * exactly when it is in the list.
   */
  lemma CombinedDirectFirst(pool: seq<string>, q: string)
    ensures forall x :: x in Combined(pool, q) <==> x in pool && Qualifies(x, q)
    ensures forall i, j :: 0 <= i < j < |Combined(pool, q)| && IsDirect(Combined(pool, q)[j], q) ==>
              IsDirect(Combined(pool, q)[i], q)
  {
    var direct, fuzzy := DirectMatches(pool, q), FuzzyMatches(pool, q);
    var c := Combined(pool, q);
    DedupAppend(direct, fuzzy);
    var n := |Dedup(direct)|;
    forall p | 0 <= p < |c| ensures IsDirect(c[p], q) <==> p < n {
      if p < n {
        assert c[p] == Dedup(direct)[p];
        assert c[p] in direct;
      } else {
        assert c[p] !in direct;
        assert c[p] in direct + fuzzy;
      }
    }
  }
}
