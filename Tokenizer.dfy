/**
 * The tokenizer (lower-case, every character outside `[a-z0-9]` separates,
 * empty pieces dropped) and the "Matched on" explanation of a result card.
 */
module Tokenizer {
  import opened Text
  import opened Catalog

  predicate IsTokenChar(c: char)
  {
    'a' <= c <= 'z' || '0' <= c <= '9'
  }

  predicate IsToken(t: string)
  {
    t != [] && forall i :: 0 <= i < |t| ==> IsTokenChar(t[i])
  }

  /**
   * After lower-casing, a character outside `[a-z0-9]` is either replaced by a
   * space or is white space already; either way `split(/\s+/)` cuts there.
   */
  predicate IsSeparator(c: char)
  {
    !IsTokenChar(Lower(c))
  }

  /**
   * The pieces of the normalised text between separators, empty ones
   * included: one more piece than there are separators.
   */
  function Pieces(s: string): (r: seq<string>)
    ensures |r| >= 1
    ensures forall k, i :: 0 <= k < |r| && 0 <= i < |r[k]| ==> IsTokenChar(r[k][i])
  {
    if s == [] then [[]]
    else
      var rest := Pieces(s[1..]);
      if IsSeparator(s[0]) then [[]] + rest
      else [[Lower(s[0])] + rest[0]] + rest[1..]
  }

  /** `tokenize`: the non-empty pieces, each a lower-case alphanumeric word. */
  function Tokenize(s: string): (r: seq<string>)
    ensures forall k :: 0 <= k < |r| ==> IsToken(r[k])
  {
    var r := Filter(Pieces(s), (p: string) => p != []);
    assert forall k :: 0 <= k < |r| ==> r[k] in r;
    r
  }

  lemma {:induction false} PiecesSeparated(x: string, c: char, y: string)
    requires IsSeparator(c)
    ensures Pieces(x + [c] + y) == Pieces(x) + Pieces(y)
  {
    if x == [] {
      assert (x + [c] + y)[1..] == y;
    } else {
      assert (x + [c] + y)[1..] == x[1..] + [c] + y;
      PiecesSeparated(x[1..], c, y);
    }
  }

  /** A separator splits the text: the tokens are those of each side, in order. */
  lemma TokenizeSeparated(x: string, c: char, y: string)
    requires IsSeparator(c)
    ensures Tokenize(x + [c] + y) == Tokenize(x) + Tokenize(y)
  {
    PiecesSeparated(x, c, y);
    FilterAppend(Pieces(x), Pieces(y), (p: string) => p != []);
  }

  lemma {:induction false} PiecesWord(w: string)
    requires forall i :: 0 <= i < |w| ==> !IsSeparator(w[i])
    ensures Pieces(w) == [LowerStr(w)]
  {
    if w == [] {
      assert LowerStr(w) == [];
    } else {
      PiecesWord(w[1..]);
      assert LowerStr(w) == [Lower(w[0])] + LowerStr(w[1..]);
    }
  }

  /** A run of letters and digits is one token: itself, lower-cased. */
  lemma TokenizeWord(w: string)
    requires w != []
    requires forall i :: 0 <= i < |w| ==> !IsSeparator(w[i])
    ensures Tokenize(w) == [LowerStr(w)]
  {
    PiecesWord(w);
    assert LowerStr(w)[0] == Lower(w[0]);
  }

  lemma {:induction false} PiecesAllEmpty(s: string)
    ensures (forall k :: 0 <= k < |Pieces(s)| ==> Pieces(s)[k] == []) <==>
            (forall i :: 0 <= i < |s| ==> IsSeparator(s[i]))
  {
    if s != [] {
      PiecesAllEmpty(s[1..]);
      var rest := Pieces(s[1..]);
      assert forall i :: 1 <= i < |s| ==> s[i] == s[1..][i - 1];
      if IsSeparator(s[0]) {
        var ps := Pieces(s);
        assert ps == [[]] + rest;
        assert forall k :: 0 <= k < |rest| ==> rest[k] == ps[k + 1];
        assert forall i :: 0 <= i < |s[1..]| ==> s[1..][i] == s[i + 1];
        assert (forall k :: 0 <= k < |rest| ==> rest[k] == []) <==>
               (forall k :: 0 <= k < |ps| ==> ps[k] == []);
        assert (forall i :: 0 <= i < |s[1..]| ==> IsSeparator(s[1..][i])) <==>
               (forall i :: 0 <= i < |s| ==> IsSeparator(s[i]));
      } else {
        assert Pieces(s)[0] != [];
      }
    }
  }

  /** The text has no token exactly when every character of it is a separator. */
  lemma TokenizeEmpty(s: string)
    ensures Tokenize(s) == [] <==> forall i :: 0 <= i < |s| ==> IsSeparator(s[i])
  {
    PiecesAllEmpty(s);
    var ps := Pieces(s);
    var r := Tokenize(s);
    if forall k :: 0 <= k < |ps| ==> ps[k] == [] {
      FilterNone(ps, (p: string) => p != []);
      assert r == [];
    } else {
      var k :| 0 <= k < |ps| && ps[k] != [];
      assert ps[k] in ps;
      assert ps[k] in r;
      assert r != [];
    }
  }

  lemma TokenIsLower(t: string)
    requires IsToken(t)
    ensures LowerStr(t) == t
  {
  }

  /* ---------------- computeMatchedOn ---------------- */

  /** The entry's tags whose lower-cased form is a query token (the tag itself is kept). */
  function TagHits(e: Entry, qTokens: seq<string>): seq<string>
  {
    Filter(e.tags, (t: string) => LowerStr(t) in qTokens)
  }

  function NameHits(e: Entry, qTokens: seq<string>): seq<string>
  {
    Filter(Tokenize(e.name), (t: string) => t in qTokens)
  }

  function SummaryHits(e: Entry, qTokens: seq<string>): seq<string>
  {
    Filter(Tokenize(e.summary), (t: string) => t in qTokens)
  }

  /** Tag hits, then name hits, then summary hits, duplicates included. */
  function MatchCandidates(e: Entry, query: string): seq<string>
  {
    var q := Tokenize(query);
    TagHits(e, q) + NameHits(e, q) + SummaryHits(e, q)
  }

  /** Where an explanation item comes from: 0 a tag, 1 the name, 2 the summary. */
  function HitGroup(e: Entry, query: string, x: string): nat
  {
    var q := Tokenize(query);
    if x in TagHits(e, q) then 0 else if x in NameHits(e, q) then 1 else 2
  }

  /** How many words the explanation lists when the caller gives no limit. */
  const MATCH_LIMIT: nat := 4

  /**
   * `computeMatchedOn`: nothing for a query without tokens; otherwise the
   * first `limit` of the distinct hits in first-seen order, so at most
   * `limit` distinct words of the entry, each (lower-cased) a query token,
   * tag hits before name hits before summary hits, and every hit present
   * unless the limit was reached.
   */
  function ComputeMatchedOn(e: Entry, query: string, limit: nat := MATCH_LIMIT): (r: seq<string>)
    ensures Tokenize(query) == [] ==> r == []
    ensures Tokenize(query) != [] ==> r <= Dedup(MatchCandidates(e, query))
    ensures forall x :: x in r ==> x in MatchCandidates(e, query)
    ensures |r| <= limit
    ensures Distinct(r)
    ensures forall x :: x in r ==> LowerStr(x) in Tokenize(query)
    ensures forall i, j :: 0 <= i < j < |r| ==> HitGroup(e, query, r[i]) <= HitGroup(e, query, r[j])
    ensures forall x :: x in MatchCandidates(e, query) ==> x in r || |r| == limit
  {
    var q := Tokenize(query);
    if q == [] then []
    else
      MatchCandidatesOrdered(e, query);
      LowerHitsAreTokens(e, query);
      Take(Dedup(MatchCandidates(e, query)), limit)
  }

  lemma LowerHitsAreTokens(e: Entry, query: string)
    ensures forall x :: x in MatchCandidates(e, query) ==> LowerStr(x) in Tokenize(query)
  {
    var q := Tokenize(query);
    forall x | x in NameHits(e, q) + SummaryHits(e, q) ensures LowerStr(x) in q {
      var k :| 0 <= k < |q| && q[k] == x;
      TokenIsLower(q[k]);
    }
  }

  /** In the deduplicated candidates the groups appear in the order tag, name, summary. */
  lemma MatchCandidatesOrdered(e: Entry, query: string)
    ensures forall i, j :: 0 <= i < j < |Dedup(MatchCandidates(e, query))| ==>
              HitGroup(e, query, Dedup(MatchCandidates(e, query))[i]) <=
              HitGroup(e, query, Dedup(MatchCandidates(e, query))[j])
  {
    var q := Tokenize(query);
    var t, n, s := TagHits(e, q), NameHits(e, q), SummaryHits(e, q);
    var d := Dedup(t + n + s);
    DedupThreeParts(t, n, s);
    var a, b := |Dedup(t)|, |Dedup(t + n)|;
    forall p | 0 <= p < |d|
      ensures HitGroup(e, query, d[p]) == if p < a then 0 else if p < b then 1 else 2
    {
    }
  }
}
