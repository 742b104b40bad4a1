/**
 * Helpers of the result cards: HTML escaping, the `tel:` link of a phone
 * number and the choice of the primary link of an entry.
 */
module Cards {
  import opened Wrappers
  import opened Catalog

  /* ---------------- escapeHtml ---------------- */

  /** One replacement of `escapeHtml`: every `ch` becomes `entity`. */
  datatype Rule = Rule(ch: char, entity: string)

  /** The replacements of `escapeHtml`, in the order in which they run. */
  const ESCAPES: seq<Rule> := [
    Rule('&', "&amp;"),
    Rule('<', "&lt;"),
    Rule('>', "&gt;"),
    Rule('"', "&quot;"),
    Rule('\'', "&#039;")
  ]

  /** `s.replaceAll(c, rep)` for a one-character pattern. */
  function ReplaceChar(s: string, c: char, rep: string): string
  {
    if s == [] then [] else (if s[0] == c then rep else [s[0]]) + ReplaceChar(s[1..], c, rep)
  }

  /** The replacements applied one after the other to the whole text. */
  function ReplaceAll(s: string, rules: seq<Rule>): string
    decreases rules
  {
    if rules == [] then s else ReplaceAll(ReplaceChar(s, rules[0].ch, rules[0].entity), rules[1..])
  }

  /**
   * `escapeHtml`: the chain of five replacements equals escaping each
   * character on its own (the ampersand is replaced first, so no later rule
   * rewrites an earlier entity), and no markup character or quote is left.
   */
  function EscapeHtml(s: string): (r: string)
    ensures r == EscapeEach(s, ESCAPES)
    ensures forall k :: 0 <= k < |r| ==> !IsMarkup(r[k])
  {
    EscapesWellOrdered();
    ReplaceAllIsPerChar(s, ESCAPES);
    EscapeEachSafe(s);
    ReplaceAll(s, ESCAPES)
  }

  /** The escape of one character: the entity of the first rule for it, else the character itself. */
  function EscapeWith(c: char, rules: seq<Rule>): string
  {
    if rules == [] then [c] else if c == rules[0].ch then rules[0].entity else EscapeWith(c, rules[1..])
  }

  /** Escaping character by character, the reference for `ReplaceAll`. */
  function EscapeEach(s: string, rules: seq<Rule>): string
  {
    if s == [] then [] else EscapeWith(s[0], rules) + EscapeEach(s[1..], rules)
  }

  /** No rule rewrites the entity of an earlier rule, and each character has one rule. */
  predicate Layered(rules: seq<Rule>)
  {
    forall i, j :: 0 <= i < j < |rules| ==>
      rules[i].ch != rules[j].ch && forall k :: 0 <= k < |rules[i].entity| ==> rules[i].entity[k] != rules[j].ch
  }

  /**
   * What reading the entities back relies on besides `Layered`: every entity
   * starts with the first rule's character, and two entities differ in their
   * second character, so neither is a prefix of the other.
   */
  predicate WellOrdered(rules: seq<Rule>)
  {
    && Layered(rules)
    && (forall i :: 0 <= i < |rules| ==> |rules[i].entity| >= 2 && rules[i].entity[0] == rules[0].ch)
    && (forall i, j :: 0 <= i < j < |rules| ==> rules[i].entity[1] != rules[j].entity[1])
  }

  /** The characters entities are made of. */
  predicate IsEntityChar(c: char)
  {
    c == '&' || c == '#' || c == ';' || 'a' <= c <= 'z' || '0' <= c <= '9'
  }

  lemma EscapesWellOrdered()
    ensures WellOrdered(ESCAPES)
    ensures forall i, k :: 0 <= i < |ESCAPES| && 0 <= k < |ESCAPES[i].entity| ==> IsEntityChar(ESCAPES[i].entity[k])
  {
    EscapesWith(ESCAPES);
  }

  lemma EscapesWith(rules: seq<Rule>)
    requires rules == ESCAPES
    ensures WellOrdered(rules)
    ensures forall i, k :: 0 <= i < |rules| && 0 <= k < |rules[i].entity| ==> IsEntityChar(rules[i].entity[k])
  {
    forall i | 0 <= i < |rules|
      ensures |rules[i].entity| >= 2 && rules[i].entity[0] == rules[0].ch
      ensures forall k :: 0 <= k < |rules[i].entity| ==> IsEntityChar(rules[i].entity[k])
      ensures i >= 1 ==> IsMarkup(rules[i].ch)
    {
      EntityWellFormed(rules[i].entity);
    }
    EscapesDistinct(rules);
    WellOrderedFrom(rules);
  }

  lemma EscapesDistinct(rules: seq<Rule>)
    requires rules == ESCAPES
    ensures forall i, j :: 0 <= i < j < |rules| ==> rules[i].ch != rules[j].ch
    ensures forall i, j :: 0 <= i < j < |rules| ==> rules[i].entity[1] != rules[j].entity[1]
  {
  }

  lemma WellOrderedFrom(rules: seq<Rule>)
    requires forall i :: 0 <= i < |rules| ==> |rules[i].entity| >= 2 && rules[i].entity[0] == rules[0].ch
    requires forall i, k :: 0 <= i < |rules| && 0 <= k < |rules[i].entity| ==> IsEntityChar(rules[i].entity[k])
    requires forall i :: 1 <= i < |rules| ==> IsMarkup(rules[i].ch)
    requires forall i, j :: 0 <= i < j < |rules| ==> rules[i].ch != rules[j].ch
    requires forall i, j :: 0 <= i < j < |rules| ==> rules[i].entity[1] != rules[j].entity[1]
    ensures WellOrdered(rules)
  {
  }

  lemma EntityWellFormed(s: string)
    requires s in ["&amp;", "&lt;", "&gt;", "&quot;", "&#039;"]
    ensures |s| >= 4 && s[0] == '&'
    ensures forall k :: 0 <= k < |s| ==> IsEntityChar(s[k])
  {
  }

  lemma {:induction false} ReplaceCharAppend(x: string, y: string, c: char, rep: string)
    ensures ReplaceChar(x + y, c, rep) == ReplaceChar(x, c, rep) + ReplaceChar(y, c, rep)
  {
    if x == [] {
      assert x + y == y;
    } else {
      assert (x + y)[1..] == x[1..] + y;
      ReplaceCharAppend(x[1..], y, c, rep);
    }
  }

  lemma {:induction false} ReplaceAllAppend(x: string, y: string, rules: seq<Rule>)
    ensures ReplaceAll(x + y, rules) == ReplaceAll(x, rules) + ReplaceAll(y, rules)
    decreases rules
  {
    if rules != [] {
      ReplaceCharAppend(x, y, rules[0].ch, rules[0].entity);
      ReplaceAllAppend(ReplaceChar(x, rules[0].ch, rules[0].entity),
                       ReplaceChar(y, rules[0].ch, rules[0].entity), rules[1..]);
    }
  }

  lemma {:induction false} ReplaceCharAbsent(s: string, c: char, rep: string)
    requires forall k :: 0 <= k < |s| ==> s[k] != c
    ensures ReplaceChar(s, c, rep) == s
  {
    if s != [] {
      ReplaceCharAbsent(s[1..], c, rep);
    }
  }

  lemma {:induction false} ReplaceAllAbsent(s: string, rules: seq<Rule>)
    requires forall j, k :: 0 <= j < |rules| && 0 <= k < |s| ==> s[k] != rules[j].ch
    ensures ReplaceAll(s, rules) == s
  {
    if rules != [] {
      ReplaceCharAbsent(s, rules[0].ch, rules[0].entity);
      ReplaceAllAbsent(s, rules[1..]);
    }
  }

  lemma {:induction false} ReplaceAllChar(c: char, rules: seq<Rule>)
    requires Layered(rules)
    ensures ReplaceAll([c], rules) == EscapeWith(c, rules)
  {
    if rules != [] {
      var r := rules[0];
      assert [c][1..] == [];
      assert ReplaceChar([c], r.ch, r.entity) == if c == r.ch then r.entity else [c];
      if c == r.ch {
        ReplaceAllAbsent(r.entity, rules[1..]);
      } else {
        ReplaceAllChar(c, rules[1..]);
      }
    }
  }

  /** Running the replacements one after another escapes every character on its own. */
  lemma {:induction false} ReplaceAllIsPerChar(s: string, rules: seq<Rule>)
    requires Layered(rules)
    ensures ReplaceAll(s, rules) == EscapeEach(s, rules)
  {
    if s == [] {
      ReplaceAllAbsent(s, rules);
    } else {
      assert s == [s[0]] + s[1..];
      ReplaceAllAppend([s[0]], s[1..], rules);
      ReplaceAllChar(s[0], rules);
      ReplaceAllIsPerChar(s[1..], rules);
    }
  }

  predicate IsMarkup(c: char)
  {
    c == '<' || c == '>' || c == '"' || c == '\''
  }

  lemma {:induction false} EscapeWithSafe(c: char, rules: seq<Rule>)
    requires IsMarkup(c) ==> exists i :: 0 <= i < |rules| && rules[i].ch == c
    requires forall i, k :: 0 <= i < |rules| && 0 <= k < |rules[i].entity| ==> IsEntityChar(rules[i].entity[k])
    ensures forall k :: 0 <= k < |EscapeWith(c, rules)| ==> !IsMarkup(EscapeWith(c, rules)[k])
  {
    if rules != [] && c != rules[0].ch {
      if IsMarkup(c) {
        var i :| 0 <= i < |rules| && rules[i].ch == c;
        assert rules[1..][i - 1].ch == c;
      }
      EscapeWithSafe(c, rules[1..]);
    }
  }

  lemma {:induction false} EscapeEachSafe(s: string)
    ensures forall k :: 0 <= k < |EscapeEach(s, ESCAPES)| ==> !IsMarkup(EscapeEach(s, ESCAPES)[k])
  {
    if s != [] {
      EscapeEachSafe(s[1..]);
      var c := s[0];
      EscapesWellOrdered();
      if IsMarkup(c) {
        assert ESCAPES[if c == '<' then 1 else if c == '>' then 2 else if c == '"' then 3 else 4].ch == c;
      }
      EscapeWithSafe(c, ESCAPES);
    }
  }

  /** The first rule whose entity starts `s`. */
  function EntityAt(s: string, rules: seq<Rule>): (i: nat)
    ensures i <= |rules|
    ensures i < |rules| ==> rules[i].entity != [] && rules[i].entity <= s
    ensures forall j :: 0 <= j < i ==> !(rules[j].entity != [] && rules[j].entity <= s)
  {
    if rules == [] then 0
    else if rules[0].entity != [] && rules[0].entity <= s then 0
    else 1 + EntityAt(s, rules[1..])
  }

  /** Reading the entities back. */
  function Unescape(s: string, rules: seq<Rule>): string
    decreases |s|
  {
    if s == [] then []
    else
      var i := EntityAt(s, rules);
      if i < |rules| then [rules[i].ch] + Unescape(s[|rules[i].entity|..], rules)
      else [s[0]] + Unescape(s[1..], rules)
  }

  lemma {:induction false} EscapeWithIndex(c: char, rules: seq<Rule>)
    ensures (exists i :: 0 <= i < |rules| && rules[i].ch == c) ==>
              exists i :: 0 <= i < |rules| && rules[i].ch == c && EscapeWith(c, rules) == rules[i].entity
    ensures (forall i :: 0 <= i < |rules| ==> rules[i].ch != c) ==> EscapeWith(c, rules) == [c]
  {
    if rules != [] && c != rules[0].ch {
      EscapeWithIndex(c, rules[1..]);
      if exists i :: 0 <= i < |rules| && rules[i].ch == c {
        var i :| 0 <= i < |rules| && rules[i].ch == c;
        assert rules[1..][i - 1].ch == c;
        var i' :| 0 <= i' < |rules[1..]| && rules[1..][i'].ch == c && EscapeWith(c, rules[1..]) == rules[1..][i'].entity;
        assert rules[i' + 1].ch == c;
      }
      if forall i :: 0 <= i < |rules| ==> rules[i].ch != c {
        assert forall i :: 0 <= i < |rules[1..]| ==> rules[1..][i].ch == rules[i + 1].ch;
      }
    }
  }

  lemma UnescapeChar(c: char, t: string, rules: seq<Rule>)
    requires WellOrdered(rules)
    ensures Unescape(EscapeWith(c, rules) + t, rules) == [c] + Unescape(t, rules)
  {
    var e := EscapeWith(c, rules);
    var s := e + t;
    EscapeWithIndex(c, rules);
    if exists i :: 0 <= i < |rules| && rules[i].ch == c {
      var i :| 0 <= i < |rules| && rules[i].ch == c && e == rules[i].entity;
      assert rules[i].entity <= s;
      forall j | 0 <= j < i ensures !(rules[j].entity != [] && rules[j].entity <= s) {
        assert rules[j].entity[1] != s[1];
      }
      assert EntityAt(s, rules) == i;
      assert s[|e|..] == t;
    } else {
      assert e == [c];
      forall j | 0 <= j < |rules| ensures !(rules[j].entity != [] && rules[j].entity <= s) {
        assert rules[j].entity[0] != s[0];
      }
      assert s[1..] == t;
    }
  }

  lemma {:induction false} UnescapeEach(s: string, rules: seq<Rule>)
    requires WellOrdered(rules)
    ensures Unescape(EscapeEach(s, rules), rules) == s
  {
    if s != [] {
      UnescapeEach(s[1..], rules);
      UnescapeChar(s[0], EscapeEach(s[1..], rules), rules);
    }
  }

  /** Escaping loses nothing: the original text can be read back. */
  lemma UnescapeEscape(s: string)
    ensures Unescape(EscapeHtml(s), ESCAPES) == s
  {
    EscapesWellOrdered();
    UnescapeEach(s, ESCAPES);
  }

  /* ---------------- formatPhoneLink ---------------- */

  /** What `[^\d+]` does not remove: an ASCII digit or a plus sign. */
  predicate IsDialChar(c: char)
  {
    '0' <= c <= '9' || c == '+'
  }

  /** `replace(/[^\d+]/g, "")`. */
  function DialChars(s: string): (r: string)
    ensures |r| <= |s|
    ensures forall i :: 0 <= i < |r| ==> IsDialChar(r[i])
  {
    if s == [] then []
    else (if IsDialChar(s[0]) then [s[0]] else []) + DialChars(s[1..])
  }

  /** `formatPhoneLink`: the dialable characters behind `tel:`. */
  function FormatPhoneLink(phone: string): (r: string)
    ensures |r| >= 4 && r[..4] == "tel:"
    ensures forall i :: 4 <= i < |r| ==> IsDialChar(r[i])
  {
    "tel:" + DialChars(phone)
  }

  lemma {:induction false} DialCharsAppend(x: string, y: string)
    ensures DialChars(x + y) == DialChars(x) + DialChars(y)
  {
    if x == [] {
      assert x + y == y;
    } else {
      assert (x + y)[1..] == x[1..] + y;
      DialCharsAppend(x[1..], y);
    }
  }

  /** One character is kept when it is dialable and removed otherwise. */
  lemma DialCharsSingle(c: char)
    ensures DialChars([c]) == if IsDialChar(c) then [c] else []
  {
    assert [c][1..] == [];
  }

  /**
   * Every dialable character of `s` survives as often as it occurs, in its
   * order, and every other character is gone.
   */
  lemma {:induction false} DialCharsCounts(s: string)
    ensures forall c {:trigger multiset(DialChars(s))[c]} ::
      multiset(DialChars(s))[c] == if IsDialChar(c) then multiset(s)[c] else 0
  {
    if s != [] {
      DialCharsCounts(s[1..]);
      assert s == [s[0]] + s[1..];
      DialCharsSingle(s[0]);
    }
  }

  /** Dialable text is kept as it is; so formatting an already clean number changes nothing. */
  lemma {:induction false} DialCharsKeepsDialable(s: string)
    requires forall i :: 0 <= i < |s| ==> IsDialChar(s[i])
    ensures DialChars(s) == s
  {
    if s != [] {
      DialCharsKeepsDialable(s[1..]);
    }
  }

  /** Formatting is idempotent on the number part. */
  lemma DialCharsIdempotent(s: string)
    ensures DialChars(DialChars(s)) == DialChars(s)
  {
    DialCharsKeepsDialable(DialChars(s));
  }

  /* ---------------- bestPrimaryLink ---------------- */

  /** Link types in order of preference for the primary button. */
  const LINK_PRIORITY: seq<string> := ["payment", "form", "action", "map", "info"]

  /** `l.type || "info"`: a link without a type counts as an info link. */
  function EffectiveType(l: Link): string
  {
    if l.linkType == [] then "info" else l.linkType
  }

  /** The position of a link type in the preference order, 5 for any other type. */
  function TypeRank(t: string): (n: nat)
    ensures n <= |LINK_PRIORITY|
    ensures n < |LINK_PRIORITY| <==> t in LINK_PRIORITY
    ensures n < |LINK_PRIORITY| ==> LINK_PRIORITY[n] == t
  {
    if t == "payment" then 0
    else if t == "form" then 1
    else if t == "action" then 2
    else if t == "map" then 3
    else if t == "info" then 4
    else 5
  }

  /**
   * `bestPrimaryLink`: for each preferred type in turn, the first link of
   * that type; the first type that has one decides. No link when no link has
   * a preferred type.
   */
  method BestPrimaryLink(links: seq<Link>) returns (r: Option<Link>)
    ensures r.None? <==> forall k :: 0 <= k < |links| ==> TypeRank(EffectiveType(links[k])) == |LINK_PRIORITY|
    ensures r.Some? ==>
              exists k :: 0 <= k < |links| && links[k] == r.value
                && TypeRank(EffectiveType(r.value)) < |LINK_PRIORITY|
                && (forall k' :: 0 <= k' < |links| ==>
                      TypeRank(EffectiveType(r.value)) <= TypeRank(EffectiveType(links[k'])))
                && (forall k' :: 0 <= k' < k ==> EffectiveType(links[k']) != EffectiveType(r.value))
  {
    PriorityRanks();
    for p := 0 to |LINK_PRIORITY|
      invariant forall k :: 0 <= k < |links| ==> TypeRank(EffectiveType(links[k])) >= p
    {
      var found := FindOfType(links, LINK_PRIORITY[p]);
      if found < |links| {
        return Some(links[found]);
      }
    }
    return None;
  }

  /** Each preferred type has its own position as rank. */
  lemma PriorityRanks()
    ensures forall p :: 0 <= p < |LINK_PRIORITY| ==> TypeRank(LINK_PRIORITY[p]) == p
  {
  }

  /** `links.find((l) => (l.type || "info") === t)`, as a position: `|links|` when there is none. */
  function FindOfType(links: seq<Link>, t: string): (k: nat)
    ensures k <= |links|
    ensures k < |links| ==> EffectiveType(links[k]) == t
    ensures forall k' :: 0 <= k' < k ==> EffectiveType(links[k']) != t
  {
    if links == [] then 0
    else if EffectiveType(links[0]) == t then 0
    else 1 + FindOfType(links[1..], t)
  }
}
