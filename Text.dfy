/**
 * The string and list primitives the query pipeline is built from, with the
 * JavaScript semantics it relies on: ASCII `toLowerCase`, `trim`, `includes`,
 * `join`, `filter`, `slice(0, n)` and `[...new Set(xs)]`.
 */
module Text {

  /* ---------------- characters ---------------- */

  /** `toLowerCase` on one character, restricted to ASCII: `A`-`Z` become `a`-`z`. */
  function Lower(c: char): char
  {
    if 'A' <= c <= 'Z' then (c as int + 32) as char else c
  }

  /** `toLowerCase` on a string: same length, each character lowered, no `A`-`Z` left. */
  function LowerStr(s: string): (r: string)
    ensures |r| == |s|
    ensures forall i :: 0 <= i < |s| ==> r[i] == Lower(s[i])
    ensures forall i :: 0 <= i < |r| ==> !('A' <= r[i] <= 'Z')
  {
    seq(|s|, i requires 0 <= i < |s| => Lower(s[i]))
  }

  lemma LowerStrAppend(x: string, y: string)
    ensures LowerStr(x + y) == LowerStr(x) + LowerStr(y)
  {
    assert forall i :: 0 <= i < |x + y| ==> LowerStr(x + y)[i] == (LowerStr(x) + LowerStr(y))[i];
  }

  /**
   * JavaScript's WhiteSpace and LineTerminator characters: exactly what
   * `trim()` strips and what the regular-expression class `\s` matches.
   */
  predicate IsWhitespace(c: char)
  {
    var n := c as int;
    n == 0x09 || n == 0x0A || n == 0x0B || n == 0x0C || n == 0x0D || n == 0x20 || n == 0xA0
    || n == 0x1680 || (0x2000 <= n <= 0x200A) || n == 0x2028 || n == 0x2029
    || n == 0x202F || n == 0x205F || n == 0x3000 || n == 0xFEFF
  }

  /** Every character of `s[lo..hi]` is white space. */
  predicate WhitespaceBetween(s: string, lo: int, hi: int)
    requires 0 <= lo <= hi <= |s|
  {
    forall k :: lo <= k < hi ==> IsWhitespace(s[k])
  }

  /** Neither end of `s` is white space. */
  predicate IsTrimmed(s: string)
  {
    s == [] || (!IsWhitespace(s[0]) && !IsWhitespace(s[|s| - 1]))
  }

  /* ---------------- trim ---------------- */

  function TrimStart(s: string): (r: string)
    ensures |r| <= |s| && r == s[|s| - |r|..]
    ensures WhitespaceBetween(s, 0, |s| - |r|)
    ensures r == [] || !IsWhitespace(r[0])
  {
    if s != [] && IsWhitespace(s[0]) then TrimStart(s[1..]) else s
  }

  function TrimEnd(s: string): (r: string)
    ensures |r| <= |s| && r == s[..|r|]
    ensures WhitespaceBetween(s, |r|, |s|)
    ensures r == [] || !IsWhitespace(r[|r| - 1])
  {
    if s != [] && IsWhitespace(s[|s| - 1]) then TrimEnd(s[..|s| - 1]) else s
  }

  /**
   * `String.prototype.trim`: the result has no white space at either end and
   * is what is left of `s` once a white-space prefix and suffix are removed.
   */
  function Trim(s: string): (r: string)
    ensures IsTrimmed(r)
    ensures IsTrimmed(s) ==> r == s
    ensures exists i :: StripsTo(s, i, r)
  {
    var t := TrimStart(s);
    var r := TrimEnd(t);
    TrimParts(s, t, r);
    r
  }

  /** The facts `Trim` promises, from the contracts of its two halves. */
  lemma TrimParts(s: string, t: string, r: string)
    requires t == TrimStart(s) && r == TrimEnd(t)
    ensures IsTrimmed(r)
    ensures IsTrimmed(s) ==> r == s
    ensures StripsTo(s, |s| - |t|, r)
  {
    if r != [] {
      assert r[0] == t[0];
    }
    if IsTrimmed(s) && s != [] {
      assert t == s;
    }
    StripsToFrom(s, t, r);
  }

  /** A white-space suffix removed from what is left after a white-space prefix went. */
  lemma StripsToFrom(s: string, t: string, r: string)
    requires |t| <= |s| && t == s[|s| - |t|..] && WhitespaceBetween(s, 0, |s| - |t|)
    requires |r| <= |t| && r == t[..|r|] && WhitespaceBetween(t, |r|, |t|)
    ensures StripsTo(s, |s| - |t|, r)
  {
    var i := |s| - |t|;
    assert s[i..i + |r|] == t[..|r|];
    forall k | i + |r| <= k < |s|
      ensures IsWhitespace(s[k])
    {
      assert s[k] == t[k - i];
    }
  }

  /** `r` is what is left of `s` once `s[..i]` and a suffix, both white space, are cut off. */
  predicate StripsTo(s: string, i: int, r: string)
  {
    && 0 <= i <= |s| - |r|
    && r == s[i..i + |r|]
    && WhitespaceBetween(s, 0, i)
    && WhitespaceBetween(s, i + |r|, |s|)
  }

  /** Trimming never eats into a leading part that is itself trimmed. */
  lemma TrimKeepsTrimmedPrefix(q: string, rest: string)
    requires IsTrimmed(q)
    ensures q <= Trim(q + rest)
  {
    var s := q + rest;
    if q != [] {
      assert s[0] == q[0];
      assert TrimStart(s) == s;
      assert Trim(s) == TrimEnd(s);
      TrimEndKeepsPrefix(q, rest);
      var r := TrimEnd(s);
      assert r == s[..|r|];
      assert s[..|q|] == q;
      assert r[..|q|] == s[..|q|];
    }
  }

  lemma {:induction false} TrimEndKeepsPrefix(q: string, rest: string)
    requires q != [] && !IsWhitespace(q[|q| - 1])
    ensures |TrimEnd(q + rest)| >= |q|
  {
    if rest == [] {
      assert q + rest == q;
    } else {
      var rest' := rest[..|rest| - 1];
      assert (q + rest)[..|q + rest| - 1] == q + rest';
      TrimEndKeepsPrefix(q, rest');
    }
  }

  /**
   * Trimming `q + " " + j` when `q` and `j` are trimmed and `j` is not empty:
   * only the separating space goes, and only when `q` is empty.
   */
  lemma TrimJoined(q: string, j: string)
    requires IsTrimmed(q) && IsTrimmed(j) && j != []
    ensures Trim(q + " " + j) == if q == [] then j else q + " " + j
  {
    var s := q + " " + j;
    if q == [] {
      assert s[0] == ' ' && s[1..] == j;
      assert IsWhitespace(s[0]);
      assert TrimStart(j) == j;
      assert TrimStart(s) == j;
      assert TrimEnd(j) == j;
    } else {
      assert s[0] == q[0];
      assert TrimStart(s) == s;
      assert s[|s| - 1] == j[|j| - 1];
      assert TrimEnd(s) == s;
    }
  }

  /* ---------------- includes ---------------- */

  /** `s.includes(t)`: `t` occurs in `s` as a contiguous piece. */
  function Contains(s: string, t: string): (r: bool)
    ensures t <= s ==> r
    ensures r ==> |t| <= |s|
    decreases |s|
  {
    t <= s || (s != [] && Contains(s[1..], t))
  }

  /** `Contains` agrees with the positional definition of a substring. */
  lemma {:induction false} ContainsIff(s: string, t: string)
    ensures Contains(s, t) <==> exists i :: OccursAt(s, t, i)
  {
    if t <= s {
      assert OccursAt(s, t, 0);
    } else if s == [] {
    } else {
      ContainsIff(s[1..], t);
      if exists i :: OccursAt(s, t, i) {
        var i :| OccursAt(s, t, i);
        assert OccursAt(s[1..], t, i - 1);
      }
      if Contains(s[1..], t) {
        var i :| OccursAt(s[1..], t, i);
        assert OccursAt(s, t, i + 1);
      }
    }
  }

  /** `t` stands in `s` at position `i`. */
  predicate OccursAt(s: string, t: string, i: int)
  {
    0 <= i <= |s| - |t| && s[i..i + |t|] == t
  }

  lemma {:induction false} ContainsExtend(s: string, u: string, t: string)
    requires Contains(s, t)
    ensures Contains(s + u, t)
  {
    if !(t <= s) {
      ContainsExtend(s[1..], u, t);
      assert (s + u)[1..] == s[1..] + u;
    }
  }

  lemma {:induction false} ContainsAfter(s: string, u: string, t: string)
    requires Contains(u, t)
    ensures Contains(s + u, t)
  {
    if s == [] {
      assert s + u == u;
    } else {
      ContainsAfter(s[1..], u, t);
      assert (s + u)[1..] == s[1..] + u;
    }
  }

  lemma {:induction false} ContainsLower(s: string, t: string)
    requires Contains(s, t)
    ensures Contains(LowerStr(s), LowerStr(t))
  {
    if t <= s {
      assert LowerStr(t) <= LowerStr(s);
    } else {
      ContainsLower(s[1..], t);
      assert LowerStr(s)[1..] == LowerStr(s[1..]);
    }
  }

  /* ---------------- join ---------------- */

  /** `xs.join(sep)`. */
  function Join(xs: seq<string>, sep: string): (r: string)
    ensures |xs| > 0 ==> xs[0] <= r
  {
    if |xs| == 0 then "" else if |xs| == 1 then xs[0] else xs[0] + sep + Join(xs[1..], sep)
  }

  lemma {:induction false} JoinContainsEach(xs: seq<string>, sep: string, k: nat)
    requires k < |xs|
    ensures Contains(Join(xs, sep), xs[k])
  {
    if |xs| == 1 {
      assert Contains(xs[0], xs[0]);
    } else if k == 0 {
      assert Contains(xs[0], xs[0]);
      ContainsExtend(xs[0], sep + Join(xs[1..], sep), xs[0]);
      assert xs[0] + sep + Join(xs[1..], sep) == xs[0] + (sep + Join(xs[1..], sep));
    } else {
      JoinContainsEach(xs[1..], sep, k - 1);
      ContainsAfter(xs[0] + sep, Join(xs[1..], sep), xs[k]);
    }
  }

  /** Joining non-empty trimmed pieces with a space gives a non-empty trimmed string. */
  lemma {:induction false} JoinTrimmed(xs: seq<string>)
    requires |xs| > 0
    requires forall k :: 0 <= k < |xs| ==> xs[k] != [] && IsTrimmed(xs[k])
    ensures Join(xs, " ") != [] && IsTrimmed(Join(xs, " "))
    ensures Join(xs, " ")[0] == xs[0][0]
  {
    if |xs| > 1 {
      JoinTrimmed(xs[1..]);
    }
  }

  /* ---------------- lists ---------------- */

  /** `s.filter(p)`. */
  function Filter<T(!new)>(s: seq<T>, p: T -> bool): (r: seq<T>)
    ensures |r| <= |s|
    ensures forall x :: x in r <==> x in s && p(x)
  {
    if s == [] then [] else (if p(s[0]) then [s[0]] else []) + Filter(s[1..], p)
  }

  lemma {:induction false} FilterAppend<T(!new)>(a: seq<T>, b: seq<T>, p: T -> bool)
    ensures Filter(a + b, p) == Filter(a, p) + Filter(b, p)
  {
    if a == [] {
      assert a + b == b;
    } else {
      var ab := a + b;
      assert ab[0] == a[0] && ab[1..] == a[1..] + b;
      var head := if p(a[0]) then [a[0]] else [];
      assert Filter(ab, p) == head + Filter(a[1..] + b, p);
      FilterAppend(a[1..], b, p);
      assert Filter(a, p) == head + Filter(a[1..], p);
      assert head + (Filter(a[1..], p) + Filter(b, p)) == (head + Filter(a[1..], p)) + Filter(b, p);
    }
  }

  lemma FilterNone<T(!new)>(s: seq<T>, p: T -> bool)
    requires forall x :: x in s ==> !p(x)
    ensures Filter(s, p) == []
  {
    var r := Filter(s, p);
    assert forall k :: 0 <= k < |r| ==> r[k] in r;
  }

  /** `s.slice(0, n)`: the prefix of `s` that is `n` long, or all of `s` when it is shorter. */
  function Take<T>(s: seq<T>, n: nat): (r: seq<T>)
    ensures r <= s
    ensures |r| == if n < |s| then n else |s|
  {
    if n < |s| then s[..n] else s
  }

  predicate Distinct<T(==)>(s: seq<T>)
  {
    forall i, j :: 0 <= i < j < |s| ==> s[i] != s[j]
  }

  /** The position of the first occurrence of `x` in `s`. */
  function IndexOf<T(==)>(s: seq<T>, x: T): (k: nat)
    requires x in s
    ensures k < |s| && s[k] == x && x !in s[..k]
  {
    if s[0] == x then 0 else 1 + IndexOf(s[1..], x)
  }

  lemma {:induction false} IndexOfSnoc<T>(s: seq<T>, y: T, x: T)
    requires x in s
    ensures IndexOf(s + [y], x) == IndexOf(s, x)
  {
    if s[0] != x {
      assert (s + [y])[1..] == s[1..] + [y];
      IndexOfSnoc(s[1..], y, x);
    }
  }

  /**
   * `[...new Set(s)]`: every element of `s` once, in the order in which it is
   * first seen (a JavaScript `Set` iterates in insertion order).
   */
  function Dedup<T(==,!new)>(s: seq<T>): (r: seq<T>)
    ensures Distinct(r)
    ensures forall x :: x in r <==> x in s
  {
    if s == [] then []
    else
      var r := Dedup(s[..|s| - 1]);
      assert forall x :: x in s <==> x in s[..|s| - 1] || x == s[|s| - 1];
      if s[|s| - 1] in r then r else r + [s[|s| - 1]]
  }

  /** Adding one element to a `Set` keeps it when it is new and changes nothing otherwise. */
  lemma DedupSnoc<T(!new)>(s: seq<T>, x: T)
    ensures Dedup(s + [x]) == if x in Dedup(s) then Dedup(s) else Dedup(s) + [x]
  {
    assert (s + [x])[..|s + [x]| - 1] == s;
  }

  /**
   * The deduplicated list keeps the order of first occurrence: an element
   * stands before another exactly when it was seen first.
   */
  lemma {:induction false} DedupFirstSeen<T(!new)>(s: seq<T>)
    ensures forall i, j :: 0 <= i < j < |Dedup(s)| ==> IndexOf(s, Dedup(s)[i]) < IndexOf(s, Dedup(s)[j])
  {
    if s != [] {
      var s', x := s[..|s| - 1], s[|s| - 1];
      assert s == s' + [x];
      DedupFirstSeen(s');
      var r' := Dedup(s');
      forall y | y in r' ensures IndexOf(s, y) == IndexOf(s', y) {
        IndexOfSnoc(s', x, y);
      }
      if x !in r' {
        assert x !in s';
        assert IndexOf(s, x) == |s'|;
      }
    }
  }

  /**
   * Deduplicating a concatenation lists the distinct elements of the first part
   * first, and only then the new elements of the second part.
   */
  lemma {:induction false} DedupAppend<T(!new)>(a: seq<T>, b: seq<T>)
    ensures Dedup(a) <= Dedup(a + b)
    ensures forall k :: |Dedup(a)| <= k < |Dedup(a + b)| ==> Dedup(a + b)[k] !in a
  {
    if b == [] {
      assert a + b == a;
    } else {
      var b', x := b[..|b| - 1], b[|b| - 1];
      assert a + b == (a + b') + [x];
      DedupAppend(a, b');
      DedupSnoc(a + b', x);
    }
  }

  /**
   * Deduplicating `a + b + c` lists first the elements from `a`, then those
   * from `b` that are not in `a`, then the remaining ones from `c`.
   */
  lemma DedupThreeParts<T(!new)>(a: seq<T>, b: seq<T>, c: seq<T>)
    ensures |Dedup(a)| <= |Dedup(a + b)| <= |Dedup(a + b + c)|
    ensures forall p :: 0 <= p < |Dedup(a + b + c)| ==>
              && (p < |Dedup(a)| ==> Dedup(a + b + c)[p] in a)
              && (|Dedup(a)| <= p < |Dedup(a + b)| ==> Dedup(a + b + c)[p] !in a && Dedup(a + b + c)[p] in b)
              && (|Dedup(a + b)| <= p ==> Dedup(a + b + c)[p] !in a && Dedup(a + b + c)[p] !in b)
  {
    var d := Dedup(a + b + c);
    assert a + b + c == a + (b + c);
    DedupAppend(a, b + c);
    DedupAppend(a + b, c);
    DedupAppend(a, b);
    forall p | 0 <= p < |d|
      ensures p < |Dedup(a)| ==> d[p] in a
      ensures |Dedup(a)| <= p < |Dedup(a + b)| ==> d[p] !in a && d[p] in b
      ensures |Dedup(a + b)| <= p ==> d[p] !in a && d[p] !in b
    {
      if p < |Dedup(a)| {
        assert d[p] == Dedup(a)[p];
      } else if p < |Dedup(a + b)| {
        assert d[p] == Dedup(a + b)[p];
        assert d[p] in a + b;
      } else {
        assert d[p] !in a + b;
      }
    }
  }
}
