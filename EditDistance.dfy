/**
 * Levenshtein distance: the recursive definition (insertion, deletion and
 * substitution each cost 1) and the dynamic-programming table that
 * `levenshtein` fills, proved to compute it.
 */
module EditDistance {

  function Min3(x: nat, y: nat, z: nat): nat
  {
    if x <= y && x <= z then x else if y <= z then y else z
  }

  /**
   * The edit distance between the prefixes `a[..i]` and `b[..j]`: turn
   * `a[..i]` into `b[..j]` by deleting `a[i-1]`, inserting `b[j-1]`, or
   * matching the two last characters (at cost 1 when they differ).
   */
  function PrefixDistance(a: string, b: string, i: nat, j: nat): nat
    requires i <= |a| && j <= |b|
    decreases i + j
  {
    if i == 0 then j
    else if j == 0 then i
    else Min3(PrefixDistance(a, b, i - 1, j) + 1,
              PrefixDistance(a, b, i, j - 1) + 1,
              PrefixDistance(a, b, i - 1, j - 1) + (if a[i - 1] == b[j - 1] then 0 else 1))
  }

  function Distance(a: string, b: string): nat
  {
    PrefixDistance(a, b, |a|, |b|)
  }

  /** The distance is at least the difference of the lengths. */
  lemma {:induction false} PrefixDistanceAtLeastLengthGap(a: string, b: string, i: nat, j: nat)
    requires i <= |a| && j <= |b|
    ensures PrefixDistance(a, b, i, j) >= i - j
    ensures PrefixDistance(a, b, i, j) >= j - i
    decreases i + j
  {
    if i > 0 && j > 0 {
      PrefixDistanceAtLeastLengthGap(a, b, i - 1, j);
      PrefixDistanceAtLeastLengthGap(a, b, i, j - 1);
      PrefixDistanceAtLeastLengthGap(a, b, i - 1, j - 1);
    }
  }

  lemma DistanceAtLeastLengthGap(a: string, b: string)
    ensures Distance(a, b) >= |a| - |b| && Distance(a, b) >= |b| - |a|
  {
    PrefixDistanceAtLeastLengthGap(a, b, |a|, |b|);
  }

  /** Dropping the last character of `b[..j]` changes the distance by at most one. */
  lemma {:induction false} DropLastOfB(a: string, b: string, i: nat, j: nat)
    requires i <= |a| && 1 <= j <= |b|
    ensures PrefixDistance(a, b, i, j - 1) <= PrefixDistance(a, b, i, j) + 1
    decreases i + j
  {
    if i == 0 {
    } else if j == 1 {
      PrefixDistanceAtLeastLengthGap(a, b, i, j);
    } else {
      DropLastOfB(a, b, i - 1, j);
    }
  }

  /** Dropping the last character of `a[..i]` changes the distance by at most one. */
  lemma {:induction false} DropLastOfA(a: string, b: string, i: nat, j: nat)
    requires 1 <= i <= |a| && j <= |b|
    ensures PrefixDistance(a, b, i - 1, j) <= PrefixDistance(a, b, i, j) + 1
    decreases i + j
  {
    if j == 0 {
    } else if i == 1 {
      PrefixDistanceAtLeastLengthGap(a, b, i, j);
    } else {
      DropLastOfA(a, b, i, j - 1);
    }
  }

  /**
   * When the last characters agree, matching them is optimal: the table may
   * copy the diagonal cell, as `levenshtein` does.
   */
  lemma MatchingLastCharacters(a: string, b: string, i: nat, j: nat)
    requires 1 <= i <= |a| && 1 <= j <= |b|
    requires a[i - 1] == b[j - 1]
    ensures PrefixDistance(a, b, i, j) == PrefixDistance(a, b, i - 1, j - 1)
  {
    DropLastOfB(a, b, i - 1, j);
    DropLastOfA(a, b, i, j - 1);
  }

  lemma {:induction false} PrefixDistanceToItself(a: string, i: nat)
    requires i <= |a|
    ensures PrefixDistance(a, a, i, i) == 0
  {
    if i > 0 {
      PrefixDistanceToItself(a, i - 1);
    }
  }

  /** The distance of a string to itself is 0 and from the empty string is the length. */
  lemma DistanceBasics(a: string, b: string)
    ensures Distance(a, a) == 0
    ensures Distance("", b) == |b| && Distance(b, "") == |b|
  {
    PrefixDistanceToItself(a, |a|);
  }

  /** The textbook example: "kitten" becomes "sitting" in three edits. */
  lemma KittenSitting()
    ensures Distance("kitten", "sitting") == 3
  {
    KittenSittingTable("kitten", "sitting");
  }

  /** The table for "kitten" against "sitting", filled row by row. */
  lemma KittenSittingTable(a: string, b: string)
    requires a == "kitten" && b == "sitting"
    ensures PrefixDistance(a, b, 6, 7) == 3
  {
    assert PrefixDistance(a, b, 1, 1) == 1;
    assert PrefixDistance(a, b, 2, 1) == 2;
    assert PrefixDistance(a, b, 3, 1) == 3;
    assert PrefixDistance(a, b, 4, 1) == 4;
    assert PrefixDistance(a, b, 5, 1) == 5;
    assert PrefixDistance(a, b, 6, 1) == 6;
    assert PrefixDistance(a, b, 1, 2) == 2;
    assert PrefixDistance(a, b, 2, 2) == 1;
    assert PrefixDistance(a, b, 3, 2) == 2;
    assert PrefixDistance(a, b, 4, 2) == 3;
    assert PrefixDistance(a, b, 5, 2) == 4;
    assert PrefixDistance(a, b, 6, 2) == 5;
    assert PrefixDistance(a, b, 1, 3) == 3;
    assert PrefixDistance(a, b, 2, 3) == 2;
    assert PrefixDistance(a, b, 3, 3) == 1;
    assert PrefixDistance(a, b, 4, 3) == 2;
    assert PrefixDistance(a, b, 5, 3) == 3;
    assert PrefixDistance(a, b, 6, 3) == 4;
    assert PrefixDistance(a, b, 1, 4) == 4;
    assert PrefixDistance(a, b, 2, 4) == 3;
    assert PrefixDistance(a, b, 3, 4) == 2;
    assert PrefixDistance(a, b, 4, 4) == 1;
    assert PrefixDistance(a, b, 5, 4) == 2;
    assert PrefixDistance(a, b, 6, 4) == 3;
    assert PrefixDistance(a, b, 1, 5) == 5;
    assert PrefixDistance(a, b, 2, 5) == 4;
    assert PrefixDistance(a, b, 3, 5) == 3;
    assert PrefixDistance(a, b, 4, 5) == 2;
    assert PrefixDistance(a, b, 5, 5) == 2;
    assert PrefixDistance(a, b, 6, 5) == 3;
    assert PrefixDistance(a, b, 1, 6) == 6;
    assert PrefixDistance(a, b, 2, 6) == 5;
    assert PrefixDistance(a, b, 3, 6) == 4;
    assert PrefixDistance(a, b, 4, 6) == 3;
    assert PrefixDistance(a, b, 5, 6) == 3;
    assert PrefixDistance(a, b, 6, 6) == 2;
    assert PrefixDistance(a, b, 1, 7) == 7;
    assert PrefixDistance(a, b, 2, 7) == 6;
    assert PrefixDistance(a, b, 3, 7) == 5;
    assert PrefixDistance(a, b, 4, 7) == 4;
    assert PrefixDistance(a, b, 5, 7) == 4;
    assert PrefixDistance(a, b, 6, 7) == 3;
  }

  /** One cell of the table, computed from its upper, left and diagonal neighbours. */
  lemma TableCell(a: string, b: string, i: nat, j: nat, up: nat, left: nat, diag: nat)
    requires 1 <= i <= |b| && 1 <= j <= |a|
    requires up == PrefixDistance(a, b, j, i - 1)
    requires left == PrefixDistance(a, b, j - 1, i)
    requires diag == PrefixDistance(a, b, j - 1, i - 1)
    ensures PrefixDistance(a, b, j, i) == if b[i - 1] == a[j - 1] then diag else 1 + Min3(up, left, diag)
  {
    if b[i - 1] == a[j - 1] {
      MatchingLastCharacters(a, b, j, i);
    }
  }

  /**
   * `levenshtein(a, b)`: the table `m` has a row for every prefix of `b` and a
   * column for every prefix of `a`; cell `m[i, j]` ends up holding the distance
   * between `a[..j]` and `b[..i]`.
   */
  method Levenshtein(a: string, b: string) returns (d: nat)
    ensures d == Distance(a, b)
  {
    var m := new nat[|b| + 1, |a| + 1];
    for i := 0 to |b| + 1
      invariant forall i' :: 0 <= i' < i ==> m[i', 0] == i'
    {
      m[i, 0] := i;
    }
    for j := 0 to |a| + 1
      invariant forall i' :: 0 <= i' <= |b| ==> m[i', 0] == i'
      invariant forall j' :: 0 <= j' < j ==> m[0, j'] == j'
    {
      m[0, j] := j;
    }
    for i := 1 to |b| + 1
      invariant forall i', j' {:trigger m[i', j']} :: 0 <= i' < i && 0 <= j' <= |a| ==>
                  m[i', j'] == PrefixDistance(a, b, j', i')
      invariant forall i' :: i <= i' <= |b| ==> m[i', 0] == i'
    {
      for j := 1 to |a| + 1
        invariant forall i', j' {:trigger m[i', j']} :: 0 <= i' < i && 0 <= j' <= |a| ==>
                    m[i', j'] == PrefixDistance(a, b, j', i')
        invariant forall j' {:trigger m[i, j']} :: 0 <= j' < j ==> m[i, j'] == PrefixDistance(a, b, j', i)
        invariant forall i' :: i < i' <= |b| ==> m[i', 0] == i'
      {
        var up, left, diag := m[i - 1, j], m[i, j - 1], m[i - 1, j - 1];
        TableCell(a, b, i, j, up, left, diag);
        m[i, j] := if b[i - 1] == a[j - 1] then diag else 1 + Min3(up, left, diag);
      }
    }
    d := m[|b|, |a|];
  }
}
