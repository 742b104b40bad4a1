/**
 * The rule-based intent classifier and the query expander: six fixed
 * intents, each with trigger phrases, a banner message, expansion terms and
 * field boosts for the search index.
 */
module Intents {
  import opened Wrappers
  import opened Text

  /** Per-field boost multipliers handed to the search index. */
  datatype Boost = Boost(tags: real, name: real, summary: real, org: real)

  datatype Intent = Intent(
    id: string,
    triggers: seq<string>,
    say: string,
    expand: seq<string>,
    boost: Boost)

  /** The intent table, in declaration order: earlier intents win ties. */
  const INTENTS: seq<Intent> := [
    Intent("pay_bill",
      ["pay", "payment", "bill", "billing", "invoice", "late fee"],
      "Sounds like you’re trying to **pay a bill / handle billing**.",
      ["pay bill", "billing", "payment"],
      Boost(2.5, 2.0, 1.2, 1.1)),
    Intent("report_issue",
      ["report", "complaint", "problem", "pothole", "broken", "noise", "leak", "outage"],
      "Sounds like you want to **report an issue**.",
      ["report", "complaint", "service request"],
      Boost(2.6, 1.8, 1.3, 1.1)),
    Intent("hours",
      ["hours", "open", "close", "closing", "time", "when"],
      "Sounds like you’re looking for **hours / when something is open**.",
      ["hours", "open", "close"],
      Boost(2.0, 1.8, 1.5, 1.1)),
    Intent("phone",
      ["phone", "call", "number", "contact"],
      "Sounds like you need a **phone number / contact**.",
      ["phone", "call", "contact"],
      Boost(2.0, 2.2, 1.2, 1.1)),
    Intent("directions",
      ["address", "directions", "where", "location", "map"],
      "Sounds like you’re looking for an **address / directions**.",
      ["address", "directions", "map"],
      Boost(2.0, 1.7, 1.3, 1.1)),
    Intent("school",
      ["school", "elementary", "middle", "high", "bus", "enroll", "registration"],
      "Sounds like you’re looking for **school info**.",
      ["school", "enroll", "registration"],
      Boost(2.5, 2.2, 1.2, 1.2))
  ]

  /* ---------------- detectIntent ---------------- */

  /** How many of the trigger phrases occur in `q` as substrings. */
  function HitCount(q: string, triggers: seq<string>): (n: nat)
    ensures n <= |triggers|
    ensures n == 0 <==> forall t :: t in triggers ==> !Contains(q, t)
  {
    if triggers == [] then 0
    else
      var init, last := triggers[..|triggers| - 1], triggers[|triggers| - 1];
      assert triggers == init + [last];
      assert forall t :: t in triggers <==> t in init || t == last;
      HitCount(q, init) + (if Contains(q, last) then 1 else 0)
  }

  function Hits(table: seq<Intent>, q: string, k: nat): nat
    requires k < |table|
  {
    HitCount(q, table[k].triggers)
  }

  /**
   * Intent `k` of `table` has a hit, no intent has more, and every earlier
   * intent has strictly fewer.
   */
  ghost predicate IsBest(table: seq<Intent>, q: string, k: int)
  {
    && 0 <= k < |table|
    && Hits(table, q, k) > 0
    && (forall k' :: 0 <= k' < |table| ==> Hits(table, q, k') <= Hits(table, q, k))
    && (forall k' :: 0 <= k' < k ==> Hits(table, q, k') < Hits(table, q, k))
  }

  /**
   * The outcome of scanning `table` for the lower-cased query `q`: no intent
   * when no trigger hits, otherwise the earliest intent with the most hits.
   */
  ghost predicate BestOf(table: seq<Intent>, q: string, r: Option<Intent>)
  {
    if forall k :: 0 <= k < |table| ==> Hits(table, q, k) == 0 then r == None
    else exists k :: IsBest(table, q, k) && r == Some(table[k])
  }

  /** What `detectIntent` promises for `query`: nothing for a blank query, else the best intent. */
  ghost predicate Detects(table: seq<Intent>, query: string, r: Option<Intent>)
  {
    var q := LowerStr(query);
    if Trim(q) == [] then r == None else BestOf(table, q, r)
  }

  /** At most one intent is the best for a query. */
  lemma BestIsUnique(table: seq<Intent>, q: string, k1: int, k2: int)
    requires IsBest(table, q, k1) && IsBest(table, q, k2)
    ensures k1 == k2
  {
    assert Hits(table, q, k1) == Hits(table, q, k2);
  }

  /** The intent of a query is determined: `Detects` has one answer. */
  lemma DetectsIsFunctional(table: seq<Intent>, query: string, r1: Option<Intent>, r2: Option<Intent>)
    requires Detects(table, query, r1) && Detects(table, query, r2)
    ensures r1 == r2
  {
    var q := LowerStr(query);
    if Trim(q) != [] && !(forall k :: 0 <= k < |table| ==> Hits(table, q, k) == 0) {
      var k1 :| IsBest(table, q, k1) && r1 == Some(table[k1]);
      var k2 :| IsBest(table, q, k2) && r2 == Some(table[k2]);
      BestIsUnique(table, q, k1, k2);
    }
  }

  /** The inner loop of `detectIntent`: one point per trigger contained in `q`. */
  method CountHits(q: string, triggers: seq<string>) returns (hits: nat)
    ensures hits == HitCount(q, triggers)
  {
    hits := 0;
    for t := 0 to |triggers|
      invariant hits == HitCount(q, triggers[..t])
    {
      assert triggers[..t + 1][..t] == triggers[..t];
      if Contains(q, triggers[t]) {
        hits := hits + 1;
      }
    }
    assert triggers[..|triggers|] == triggers;
  }

  /**
   * The loop of `detectIntent`: counts, intent by intent in table order, the
   * triggers contained in `q`, and replaces the current best only on a
   * strictly higher count.
   */
  method ScanIntents(table: seq<Intent>, q: string) returns (r: Option<Intent>)
    ensures BestOf(table, q, r)
  {
    var best: Option<Intent> := None;
    var bestHits := 0;
    ghost var bestIndex := 0;
    for k := 0 to |table|
      invariant bestHits == 0 ==> best == None && forall k' :: 0 <= k' < k ==> Hits(table, q, k') == 0
      invariant bestHits > 0 ==> 0 <= bestIndex < k && best == Some(table[bestIndex])
                                   && Hits(table, q, bestIndex) == bestHits
      invariant forall k' :: 0 <= k' < k ==> Hits(table, q, k') <= bestHits
      invariant 0 <= bestIndex <= k
      invariant forall k' :: 0 <= k' < bestIndex ==> Hits(table, q, k') < bestHits
    {
      var intent := table[k];
      var hits := CountHits(q, intent.triggers);
      if hits > bestHits {
        bestHits := hits;
        best := Some(intent);
        bestIndex := k;
      }
    }
    r := if bestHits > 0 then best else None;
    if bestHits > 0 {
      assert IsBest(table, q, bestIndex);
    }
  }

  /** `detectIntent` over an intent table: blank queries detect nothing. */
  method DetectIntentIn(table: seq<Intent>, query: string) returns (r: Option<Intent>)
    ensures Detects(table, query, r)
  {
    var q := LowerStr(query);
    if Trim(q) == [] {
      return None;
    }
    r := ScanIntents(table, q);
  }

  /** `detectIntent(query)`: the intent table above, scanned in declaration order. */
  method DetectIntent(query: string) returns (r: Option<Intent>)
    ensures Detects(INTENTS, query, r)
  {
    r := DetectIntentIn(INTENTS, query);
  }

  /* ---------------- buildExpandedQuery ---------------- */

  /**
   * The expansion terms that are non-empty and not contained in `lowerQuery`,
   * in their table order.
   */
  function Extras(lowerQuery: string, terms: seq<string>): (r: seq<string>)
    ensures |r| <= |terms|
    ensures forall x :: x in r <==> x in terms && x != [] && !Contains(lowerQuery, x)
  {
    if terms == [] then []
    else
      (if terms[0] != [] && !Contains(lowerQuery, terms[0]) then [terms[0]] else [])
        + Extras(lowerQuery, terms[1..])
  }

  /**
   * `buildExpandedQuery`: the trimmed query, followed by the intent's missing
   * expansion terms; the user's own text always comes first, unchanged, and
   * it is all there is when no term is missing.
   */
  function BuildExpandedQuery(rawQuery: string, intent: Option<Intent>): (r: string)
    ensures intent.None? ==> r == Trim(rawQuery)
    ensures intent.Some? && Extras(LowerStr(Trim(rawQuery)), intent.value.expand) == [] ==>
              r == Trim(rawQuery)
    ensures Trim(rawQuery) <= r
  {
    var q := Trim(rawQuery);
    if intent.None? then q
    else
      var extras := Extras(LowerStr(q), intent.value.expand);
      if extras == [] then q
      else
        assert q + " " + Join(extras, " ") == q + (" " + Join(extras, " "));
        TrimKeepsTrimmedPrefix(q, " " + Join(extras, " "));
        Trim(q + " " + Join(extras, " "))
  }

  /** Expansion terms as the table writes them: lower-case, no white space at the ends. */
  predicate WellFormedTerms(terms: seq<string>)
  {
    forall k :: 0 <= k < |terms| ==> LowerStr(terms[k]) == terms[k] && IsTrimmed(terms[k])
  }

  /** Lower-case letters and inner spaces only. */
  predicate PlainTerm(t: string)
  {
    && (forall i :: 0 <= i < |t| ==> 'a' <= t[i] <= 'z' || t[i] == ' ')
    && (t != [] ==> t[0] != ' ' && t[|t| - 1] != ' ')
  }

  lemma PlainTermsWellFormed(terms: seq<string>)
    requires forall k :: 0 <= k < |terms| ==> PlainTerm(terms[k])
    ensures WellFormedTerms(terms)
  {
  }

  /** Every intent of the table has well-formed expansion terms. */
  lemma IntentTermsWellFormed()
    ensures forall k :: 0 <= k < |INTENTS| ==> WellFormedTerms(INTENTS[k].expand)
  {
    forall k | 0 <= k < |INTENTS| ensures WellFormedTerms(INTENTS[k].expand) {
      PlainTermsWellFormed(INTENTS[k].expand);
    }
  }

  lemma ExtrasTrimmed(lowerQuery: string, terms: seq<string>)
    requires WellFormedTerms(terms)
    ensures forall k :: 0 <= k < |Extras(lowerQuery, terms)| ==>
              Extras(lowerQuery, terms)[k] != [] && IsTrimmed(Extras(lowerQuery, terms)[k])
  {
    var extras := Extras(lowerQuery, terms);
    forall k | 0 <= k < |extras| ensures extras[k] != [] && IsTrimmed(extras[k]) {
      assert extras[k] in extras;
    }
  }

  /**
   * With well-formed terms the final `trim()` changes nothing: the result is the
   * trimmed query, a space, and exactly the missing terms joined by spaces.
   */
  lemma ExpandAppendsMissingTerms(rawQuery: string, intent: Intent)
    requires WellFormedTerms(intent.expand)
    requires Extras(LowerStr(Trim(rawQuery)), intent.expand) != []
    ensures var q := Trim(rawQuery);
            BuildExpandedQuery(rawQuery, Some(intent)) ==
              (if q == [] then "" else q + " ") + Join(Extras(LowerStr(q), intent.expand), " ")
  {
    var q := Trim(rawQuery);
    var extras := Extras(LowerStr(q), intent.expand);
    var j := Join(extras, " ");
    var r := BuildExpandedQuery(rawQuery, Some(intent));
    assert r == Trim(q + " " + j);
    ExtrasTrimmed(LowerStr(q), intent.expand);
    JoinTrimmed(extras);
    TrimJoined(q, j);
    var expected := (if q == [] then "" else q + " ") + j;
    if q == [] {
      assert "" + j == j;
      assert r == j;
    } else {
      assert r == q + " " + j;
    }
    assert r == expected;
  }

  /** A missing term ends up in the lower-cased expansion. */
  lemma ExpandContainsMissingTerm(rawQuery: string, intent: Intent, x: string)
    requires WellFormedTerms(intent.expand)
    requires x in Extras(LowerStr(Trim(rawQuery)), intent.expand)
    ensures Contains(LowerStr(BuildExpandedQuery(rawQuery, Some(intent))), x)
  {
    var q := Trim(rawQuery);
    var extras := Extras(LowerStr(q), intent.expand);
    var r := BuildExpandedQuery(rawQuery, Some(intent));
    ExpandAppendsMissingTerms(rawQuery, intent);
    var i :| 0 <= i < |extras| && extras[i] == x;
    JoinContainsEach(extras, " ", i);
    if q != [] {
      ContainsAfter(q + " ", Join(extras, " "), x);
    }
    var k :| 0 <= k < |intent.expand| && intent.expand[k] == x;
    assert LowerStr(x) == x;
    ContainsLower(r, x);
  }

  /** A term the query already holds stays in the lower-cased expansion. */
  lemma ExpandKeepsPresentTerm(rawQuery: string, intent: Intent, x: string)
    requires Contains(LowerStr(Trim(rawQuery)), x)
    ensures Contains(LowerStr(BuildExpandedQuery(rawQuery, Some(intent))), x)
  {
    ContainsUnderPrefix(Trim(rawQuery), BuildExpandedQuery(rawQuery, Some(intent)), x);
  }

  /** A piece of the lower-cased prefix is a piece of the lower-cased whole. */
  lemma ContainsUnderPrefix(q: string, r: string, x: string)
    requires q <= r
    requires Contains(LowerStr(q), x)
    ensures Contains(LowerStr(r), x)
  {
    assert r == q + r[|q|..];
    LowerStrAppend(q, r[|q|..]);
    ContainsExtend(LowerStr(q), LowerStr(r[|q|..]), x);
  }

  /** After expansion every non-empty term of the intent occurs in the lower-cased result. */
  lemma ExpandContainsEveryTerm(rawQuery: string, intent: Intent)
    requires WellFormedTerms(intent.expand)
    ensures forall x :: x in intent.expand && x != [] ==>
              Contains(LowerStr(BuildExpandedQuery(rawQuery, Some(intent))), x)
  {
    var lq := LowerStr(Trim(rawQuery));
    forall x | x in intent.expand && x != []
      ensures Contains(LowerStr(BuildExpandedQuery(rawQuery, Some(intent))), x)
    {
      if Contains(lq, x) {
        ExpandKeepsPresentTerm(rawQuery, intent, x);
      } else {
        ExpandContainsMissingTerm(rawQuery, intent, x);
      }
    }
  }

  /** No term is missing exactly when every non-empty term is already in the query. */
  lemma NoExtrasIff(lowerQuery: string, terms: seq<string>)
    ensures Extras(lowerQuery, terms) == [] <==>
            forall x :: x in terms && x != [] ==> Contains(lowerQuery, x)
  {
    var r := Extras(lowerQuery, terms);
    if r != [] {
      assert r[0] in r;
    }
  }

  /** Expanding an already expanded query changes nothing. */
  lemma ExpandIdempotent(rawQuery: string, intent: Intent)
    requires WellFormedTerms(intent.expand)
    ensures var once := BuildExpandedQuery(rawQuery, Some(intent));
            BuildExpandedQuery(once, Some(intent)) == once
  {
    var once := BuildExpandedQuery(rawQuery, Some(intent));
    assert Trim(once) == once;
    ExpandContainsEveryTerm(rawQuery, intent);
    NoExtrasIff(LowerStr(once), intent.expand);
  }
}
