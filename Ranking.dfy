/**
 * Ranking of search hits and the clarifying question: hits are joined with
 * their catalog entries, nudged by the entry's priority, stably sorted by
 * descending score and cut to the top twelve; when the second result scores
 * close to the first, the user is asked which one was meant.
 */
module Ranking {
  import opened Wrappers
  import opened Text
  import opened Catalog

  /** A search hit: the id of an indexed entry and its relevance score. */
  datatype Hit = Hit(id: string, score: real)

  /** A result: an entry with its final score. */
  datatype Scored = Scored(entry: Entry, score: real)

  /** How many results are shown at most. */
  const MAX_RESULTS: nat := 12

  /** The priority of an entry without a numeric one. */
  const DEFAULT_PRIORITY: real := 50.0

  /* ---------------- joining hits with entries ---------------- */

  /** The position of the first entry with that id, `|entries|` when there is none. */
  function FindIndex(entries: seq<Entry>, id: string): (k: nat)
    ensures k <= |entries|
    ensures k < |entries| ==> entries[k].id == id
    ensures forall k' :: 0 <= k' < k ==> entries[k'].id != id
  {
    if entries == [] then 0
    else if entries[0].id == id then 0
    else 1 + FindIndex(entries[1..], id)
  }

  /** `entries.find((e) => e.id === id)`: the first entry with that id, if any. */
  function FindEntry(entries: seq<Entry>, id: string): (r: Option<Entry>)
    ensures r.None? <==> forall k :: 0 <= k < |entries| ==> entries[k].id != id
    ensures r.Some? ==> r.value.id == id &&
                        exists k :: 0 <= k < |entries| && entries[k] == r.value &&
                                    forall k' :: 0 <= k' < k ==> entries[k'].id != id
  {
    var k := FindIndex(entries, id);
    if k < |entries| then Some(entries[k]) else None
  }

  function PriorityOf(e: Entry): real
  {
    e.priority.GetOr(DEFAULT_PRIORITY)
  }

  /** The final score of an entry found for a hit. */
  function ScoreOf(h: Hit, e: Entry): real
  {
    h.score + PriorityOf(e) * 0.01
  }

  /** The test `filter(Boolean)` applies after the join: some entry carries the hit's id. */
  function NamesEntry(entries: seq<Entry>): Hit -> bool
  {
    (h: Hit) => FindIndex(entries, h.id) < |entries|
  }

  /** The hits whose id names an entry, in hit order. */
  function KnownHits(hits: seq<Hit>, entries: seq<Entry>): (r: seq<Hit>)
    ensures |r| <= |hits|
    ensures forall h :: h in r ==> h in hits
  {
    Filter(hits, NamesEntry(entries))
  }

  /**
   * The `map` and `filter(Boolean)` steps: every hit whose id names an entry
   * becomes that entry with its final score; other hits are dropped.
   */
  function ScoreHits(hits: seq<Hit>, entries: seq<Entry>): (r: seq<Scored>)
    ensures |r| == |KnownHits(hits, entries)| <= |hits|
  {
    if hits == [] then []
    else
      var rest := ScoreHits(hits[1..], entries);
      match FindEntry(entries, hits[0].id)
      case None => rest
      case Some(e) => [Scored(e, ScoreOf(hits[0], e))] + rest
  }

  /**
   * Scoring keeps the known hits, in their order, each joined with the first
   * entry of its id and scored by the hit score plus one hundredth of the
   * entry's priority (50 when it has none).
   */
  lemma {:induction false} ScoreHitsJoins(hits: seq<Hit>, entries: seq<Entry>)
    ensures |ScoreHits(hits, entries)| == |KnownHits(hits, entries)|
    ensures forall k :: 0 <= k < |KnownHits(hits, entries)| ==>
              && FindEntry(entries, KnownHits(hits, entries)[k].id) == Some(ScoreHits(hits, entries)[k].entry)
              && ScoreHits(hits, entries)[k].score ==
                   KnownHits(hits, entries)[k].score + PriorityOf(ScoreHits(hits, entries)[k].entry) * 0.01
  {
    forall k | 0 <= k < |KnownHits(hits, entries)|
      ensures FindEntry(entries, KnownHits(hits, entries)[k].id) == Some(ScoreHits(hits, entries)[k].entry)
      ensures ScoreHits(hits, entries)[k].score ==
                KnownHits(hits, entries)[k].score + PriorityOf(ScoreHits(hits, entries)[k].entry) * 0.01
    {
      ScoreHitsAt(hits, entries, k);
    }
  }

  /** The `k`-th known hit becomes the `k`-th result. */
  lemma {:induction false} ScoreHitsAt(hits: seq<Hit>, entries: seq<Entry>, k: nat)
    requires k < |KnownHits(hits, entries)|
    ensures FindEntry(entries, KnownHits(hits, entries)[k].id) == Some(ScoreHits(hits, entries)[k].entry)
    ensures ScoreHits(hits, entries)[k].score == ScoreOf(KnownHits(hits, entries)[k], ScoreHits(hits, entries)[k].entry)
  {
    assert hits != [];
    var known, rest := KnownHits(hits[1..], entries), ScoreHits(hits[1..], entries);
    match FindEntry(entries, hits[0].id)
    case None =>
      assert KnownHits(hits, entries) == known;
      assert ScoreHits(hits, entries) == rest;
      ScoreHitsAt(hits[1..], entries, k);
    case Some(e) =>
      assert KnownHits(hits, entries) == [hits[0]] + known;
      assert ScoreHits(hits, entries) == [Scored(e, ScoreOf(hits[0], e))] + rest;
      if k > 0 {
        ScoreHitsAt(hits[1..], entries, k - 1);
      }
  }

  /** The known hits of a concatenation are those of each part, in hit order. */
  lemma KnownHitsAppend(a: seq<Hit>, b: seq<Hit>, entries: seq<Entry>)
    ensures KnownHits(a + b, entries) == KnownHits(a, entries) + KnownHits(b, entries)
  {
    FilterAppend(a, b, NamesEntry(entries));
  }

  /** A hit is dropped exactly when no entry carries its id. */
  lemma {:induction false} KnownHitsMembers(hits: seq<Hit>, entries: seq<Entry>, h: Hit)
    ensures h in KnownHits(hits, entries) <==>
              h in hits && exists k :: 0 <= k < |entries| && entries[k].id == h.id
  {
    if hits != [] {
      KnownHitsMembers(hits[1..], entries, h);
      assert hits == [hits[0]] + hits[1..];
    }
  }

  /* ---------------- stable descending sort ---------------- */

  predicate SortedDesc(s: seq<Scored>)
  {
    forall i, j :: 0 <= i < j < |s| ==> s[i].score >= s[j].score
  }

  /** The elements of `s` with score `v`, in their order. */
  function WithScore(s: seq<Scored>, v: real): seq<Scored>
  {
    if s == [] then [] else (if s[0].score == v then [s[0]] else []) + WithScore(s[1..], v)
  }

  /** Places `x` ahead of the first element that does not score more than it. */
  function Insert(x: Scored, s: seq<Scored>): (r: seq<Scored>)
    ensures |r| == |s| + 1
    ensures forall y :: y in r <==> y == x || y in s
    ensures multiset(r) == multiset(s) + multiset{x}
  {
    if s == [] || x.score >= s[0].score then [x] + s
    else
      assert s == [s[0]] + s[1..];
      [s[0]] + Insert(x, s[1..])
  }

  /**
   * `sort((a, b) => b.score - a.score)`: a stable sort by descending score,
   * written as an insertion sort.
   */
  function SortDesc(s: seq<Scored>): (r: seq<Scored>)
    ensures multiset(r) == multiset(s)
  {
    if s == [] then []
    else
      assert s == [s[0]] + s[1..];
      Insert(s[0], SortDesc(s[1..]))
  }

  lemma {:induction false} InsertSorted(x: Scored, s: seq<Scored>)
    requires SortedDesc(s)
    ensures SortedDesc(Insert(x, s))
  {
    if s != [] && x.score < s[0].score {
      InsertSorted(x, s[1..]);
      var r := Insert(x, s[1..]);
      assert Insert(x, s) == [s[0]] + r;
      forall j | 0 <= j < |r| ensures s[0].score >= r[j].score {
        assert r[j] in r;
      }
    }
  }

  lemma {:induction false} InsertStable(x: Scored, s: seq<Scored>, v: real)
    requires SortedDesc(s)
    ensures WithScore(Insert(x, s), v) == (if x.score == v then [x] else []) + WithScore(s, v)
  {
    var hx: seq<Scored> := if x.score == v then [x] else [];
    if s == [] || x.score >= s[0].score {
      var r := [x] + s;
      assert r[0] == x && r[1..] == s;
      assert WithScore(r, v) == hx + WithScore(s, v);
    } else {
      var h0: seq<Scored> := if s[0].score == v then [s[0]] else [];
      InsertStable(x, s[1..], v);
      var r := Insert(x, s[1..]);
      var t := [s[0]] + r;
      assert t[0] == s[0] && t[1..] == r;
      assert WithScore(t, v) == h0 + (hx + WithScore(s[1..], v));
      var w := WithScore(s[1..], v);
      if hx == [] {
        assert hx + w == w && hx + (h0 + w) == h0 + w;
      } else {
        assert h0 == [];
        assert h0 + w == w && h0 + (hx + w) == hx + w;
      }
      assert WithScore(s, v) == h0 + WithScore(s[1..], v);
    }
  }

  /** The result is sorted by descending score. */
  lemma {:induction false} SortDescSorted(s: seq<Scored>)
    ensures SortedDesc(SortDesc(s))
  {
    if s != [] {
      SortDescSorted(s[1..]);
      InsertSorted(s[0], SortDesc(s[1..]));
    }
  }

  /** The sort is stable: results with equal scores keep their relative order. */
  lemma {:induction false} SortDescStable(s: seq<Scored>, v: real)
    ensures WithScore(SortDesc(s), v) == WithScore(s, v)
  {
    if s != [] {
      SortDescSorted(s[1..]);
      SortDescStable(s[1..], v);
      InsertStable(s[0], SortDesc(s[1..]), v);
    }
  }

  /**
   * The priority nudge breaks ties: of two known hits with the same hit
   * score, the one whose entry has the higher priority scores higher and is
   * placed ahead of the other in the sorted list.
   */
  lemma PriorityBreaksTies(hits: seq<Hit>, entries: seq<Entry>, k1: nat, k2: nat)
    requires k1 < |KnownHits(hits, entries)| && k2 < |KnownHits(hits, entries)|
    requires KnownHits(hits, entries)[k1].score == KnownHits(hits, entries)[k2].score
    requires PriorityOf(ScoreHits(hits, entries)[k1].entry) > PriorityOf(ScoreHits(hits, entries)[k2].entry)
    ensures ScoreHits(hits, entries)[k1].score > ScoreHits(hits, entries)[k2].score
    ensures var all := ScoreHits(hits, entries);
            var sorted := SortDesc(all);
            && all[k1] in sorted && all[k2] in sorted
            && forall i, j :: 0 <= i < |sorted| && 0 <= j < |sorted| && sorted[i] == all[k1] && sorted[j] == all[k2] ==> i < j
  {
    var known, all := KnownHits(hits, entries), ScoreHits(hits, entries);
    ScoreHitsAt(hits, entries, k1);
    ScoreHitsAt(hits, entries, k2);
    NudgeBreaksTie(known[k1], known[k2], all[k1].entry, all[k2].entry);
    var sorted := SortDesc(all);
    SortDescSorted(all);
    assert all[k1] in multiset(sorted) && all[k2] in multiset(sorted);
    forall i, j | 0 <= i < |sorted| && 0 <= j < |sorted| && sorted[i] == all[k1] && sorted[j] == all[k2]
      ensures i < j
    {
      SortedAhead(sorted, i, j);
    }
  }

  function RealAbs(x: real): real
  {
    if x < 0.0 then -x else x
  }

  /** Hit `h1` leads hit `h2` by more than the priority nudge could make up. */
  predicate LeadsBeyondNudge(h1: Hit, h2: Hit, e1: Entry, e2: Entry)
  {
    h1.score - h2.score > 0.01 * RealAbs(PriorityOf(e1) - PriorityOf(e2))
  }

  /**
   * The priority nudge is bounded: a hit that leads another by more than
   * one hundredth of their entries' priority difference still scores higher.
   */
  lemma PriorityGapBounded(hits: seq<Hit>, entries: seq<Entry>, k1: nat, k2: nat)
    requires k1 < |KnownHits(hits, entries)| && k2 < |KnownHits(hits, entries)|
    requires LeadsBeyondNudge(KnownHits(hits, entries)[k1], KnownHits(hits, entries)[k2],
                              ScoreHits(hits, entries)[k1].entry, ScoreHits(hits, entries)[k2].entry)
    ensures ScoreHits(hits, entries)[k1].score > ScoreHits(hits, entries)[k2].score
  {
    ScoreHitsAt(hits, entries, k1);
    ScoreHitsAt(hits, entries, k2);
    NudgeBounded(KnownHits(hits, entries)[k1], KnownHits(hits, entries)[k2],
                 ScoreHits(hits, entries)[k1].entry, ScoreHits(hits, entries)[k2].entry);
  }

  /** Two nudged scores keep their order when the lead exceeds the nudge. */
  lemma NudgeBounded(h1: Hit, h2: Hit, e1: Entry, e2: Entry)
    requires LeadsBeyondNudge(h1, h2, e1, e2)
    ensures ScoreOf(h1, e1) > ScoreOf(h2, e2)
  {
    var p1, p2 := PriorityOf(e1), PriorityOf(e2);
    if p1 >= p2 {
      assert RealAbs(p1 - p2) == p1 - p2;
    } else {
      assert RealAbs(p1 - p2) == p2 - p1;
    }
  }

  /** Of two equal hit scores, the higher priority gives the higher final score. */
  lemma NudgeBreaksTie(h1: Hit, h2: Hit, e1: Entry, e2: Entry)
    requires h1.score == h2.score && PriorityOf(e1) > PriorityOf(e2)
    ensures ScoreOf(h1, e1) > ScoreOf(h2, e2)
  {
  }

  /** In a list sorted by descending score, a higher score sits strictly earlier. */
  lemma SortedAhead(s: seq<Scored>, i: nat, j: nat)
    requires SortedDesc(s)
    requires i < |s| && j < |s| && s[i].score > s[j].score
    ensures i < j
  {
  }

  /* ---------------- the top results ---------------- */

  /** `ranked.slice(0, 12)`: the top results. */
  function Rank(hits: seq<Hit>, entries: seq<Entry>): (r: seq<Scored>)
    ensures |r| <= MAX_RESULTS
    ensures r <= SortDesc(ScoreHits(hits, entries))
  {
    Take(SortDesc(ScoreHits(hits, entries)), MAX_RESULTS)
  }

  /**
   * The top list holds at most twelve results, sorted by descending score;
   * it is empty only when no hit names an entry, and nothing left out
   * scores higher than anything kept.
   */
  lemma RankProperties(hits: seq<Hit>, entries: seq<Entry>)
    ensures var top := Rank(hits, entries);
            var all := ScoreHits(hits, entries);
            && |top| == (if |all| < MAX_RESULTS then |all| else MAX_RESULTS)
            && SortedDesc(top)
            && (forall x :: x in top ==> x in all)
            && (forall x :: x in all && x !in top ==> forall y :: y in top ==> y.score >= x.score)
  {
    var all := ScoreHits(hits, entries);
    var sorted := SortDesc(all);
    SortDescSorted(all);
    var top := Take(sorted, MAX_RESULTS);
    forall x | x in top ensures x in all {
      assert x in multiset(sorted);
    }
    forall x | x in all && x !in top ensures forall y :: y in top ==> y.score >= x.score {
      assert x in multiset(sorted);
      var j :| 0 <= j < |sorted| && sorted[j] == x;
      assert j >= |top|;
    }
  }

  /** Equal scores stay in hit order among the top results. */
  lemma RankStable(hits: seq<Hit>, entries: seq<Entry>, v: real)
    ensures WithScore(Rank(hits, entries), v) <= WithScore(ScoreHits(hits, entries), v)
  {
    var sorted := SortDesc(ScoreHits(hits, entries));
    SortDescStable(ScoreHits(hits, entries), v);
    WithScorePrefix(sorted, MAX_RESULTS, v);
  }

  lemma {:induction false} WithScorePrefix(s: seq<Scored>, n: nat, v: real)
    ensures WithScore(Take(s, n), v) <= WithScore(s, v)
  {
    if s != [] && n > 0 {
      var h: seq<Scored> := if s[0].score == v then [s[0]] else [];
      var t := Take(s, n);
      assert t[0] == s[0] && t[1..] == Take(s[1..], n - 1);
      WithScorePrefix(s[1..], n - 1, v);
      assert WithScore(t, v) == h + WithScore(Take(s[1..], n - 1), v);
      assert WithScore(s, v) == h + WithScore(s[1..], v);
    } else if s != [] {
      assert Take(s, n) == [];
    }
  }

  /* ---------------- clarifier ---------------- */

  /** The threshold above which the runner-up counts as a near tie. */
  const AMBIGUITY_RATIO: real := 0.88

  /**
   * `b / a > 0.88` with JavaScript's division by zero: a positive `b` over
   * zero is Infinity (ambiguous), zero over zero is NaN and a negative `b`
   * over zero is -Infinity (neither ambiguous).
   */
  function IsAmbiguous(b: real, a: real): (r: bool)
    ensures a > 0.0 ==> (r <==> b > AMBIGUITY_RATIO * a)
    ensures a == 0.0 ==> (r <==> b > 0.0)
  {
    if a == 0.0 then b > 0.0
    else if a < 0.0 then b / a > AMBIGUITY_RATIO
    else
      RatioAbove(b, a);
      b / a > AMBIGUITY_RATIO
  }

  /** Over a positive denominator, the ratio exceeds 0.88 exactly when `b` exceeds 0.88 times `a`. */
  lemma RatioAbove(b: real, a: real)
    requires a > 0.0
    ensures b / a > AMBIGUITY_RATIO <==> b > AMBIGUITY_RATIO * a
  {
    if b / a > AMBIGUITY_RATIO {
      assert b == (b / a) * a;
    }
    if b > AMBIGUITY_RATIO * a {
      assert b / a > (AMBIGUITY_RATIO * a) / a;
    }
  }

  /** The boundary is exclusive: 88 after 100 is not a near tie, 88.01 is. */
  lemma AmbiguityBoundary()
    ensures !IsAmbiguous(88.0, 100.0)
    ensures IsAmbiguous(88.01, 100.0)
  {
  }

  /** A choice offered by the clarifier: the text shown and the query it runs. */
  datatype ClarOption = ClarOption(text: string, query: string)

  datatype Clarifier = Clarifier(prompt: string, options: seq<ClarOption>)

  const CLARIFIER_PROMPT: string := "Quick question — did you mean:"

  /** The choice that refines `raw` with the name of the entry of `s`. */
  function OptionFor(raw: string, s: Scored): (o: ClarOption)
    ensures o.text == s.entry.name
    ensures o.query == raw + " " + s.entry.name
  {
    ClarOption(s.entry.name, raw + " " + s.entry.name)
  }

  /**
   * The clarifier: when at least two results are shown and the second is a
   * near tie with the first, offer both, each refining the query with the
   * entry's name.
   */
  function Clarify(raw: string, top: seq<Scored>): (r: Option<Clarifier>)
    ensures r.Some? <==> |top| >= 2 && IsAmbiguous(top[1].score, top[0].score)
    ensures r.Some? ==> r.value.prompt == CLARIFIER_PROMPT &&
                        r.value.options == [OptionFor(raw, top[0]), OptionFor(raw, top[1])]
  {
    if |top| >= 2 && IsAmbiguous(top[1].score, top[0].score) then
      Some(Clarifier(CLARIFIER_PROMPT, [OptionFor(raw, top[0]), OptionFor(raw, top[1])]))
    else None
  }

  /** A clear winner with a positive score is not questioned. */
  lemma ClearWinnerNotQuestioned(raw: string, top: seq<Scored>)
    requires |top| >= 2 && top[0].score > 0.0
    requires top[1].score <= AMBIGUITY_RATIO * top[0].score
    ensures Clarify(raw, top) == None
  {
  }

  /**
   * With a positive leader, results within 12% of each other trigger the
   * question; in particular two results with the same score always do.
   */
  lemma TiesAreQuestioned(raw: string, top: seq<Scored>)
    requires |top| >= 2 && top[0].score > 0.0
    requires top[1].score > AMBIGUITY_RATIO * top[0].score
    ensures Clarify(raw, top).Some?
  {
  }
}
