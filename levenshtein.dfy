/**
 * The Levenshtein recurrence (insertions, deletions and substitutions, each of
 * cost one) that the table of Utils.Distance is filled with, and the facts about
 * it that the rest of the model relies on.
 */
module EditDistance {

  /** Math.Min on integers. */
  function Min(a: int, b: int): int
  {
    if a < b then a else b
  }

  /**
   * One cell of the table from its upper, left and upper-left neighbours:
   * a deletion, an insertion, or a substitution that is free when the two
   * characters agree.
   */
  function Step(up: int, left: int, diag: int, same: bool): int
  {
    Min(Min(up, left) + 1, diag + (if same then 0 else 1))
  }

  /** The edit distance between the prefixes p[..i] and s[..j]. */
  function Lev(p: string, s: string, i: nat, j: nat): nat
    requires i <= |p| && j <= |s|
    decreases i + j
  {
    if i == 0 then j
    else if j == 0 then i
    else Step(Lev(p, s, i - 1, j), Lev(p, s, i, j - 1), Lev(p, s, i - 1, j - 1), p[i - 1] == s[j - 1])
  }

  /** The recurrence for an interior cell. */
  lemma LevStep(p: string, s: string, i: nat, j: nat)
    requires 0 < i <= |p| && 0 < j <= |s|
    ensures Lev(p, s, i, j) == Step(Lev(p, s, i - 1, j), Lev(p, s, i, j - 1), Lev(p, s, i - 1, j - 1), p[i - 1] == s[j - 1])
  {
  }

  /** A cell computed from its three exact neighbours is exact. */
  lemma LevCell(p: string, s: string, i: nat, j: nat, up: int, left: int, diag: int)
    requires 0 < i <= |p| && 0 < j <= |s|
    requires up == Lev(p, s, i - 1, j) && left == Lev(p, s, i, j - 1) && diag == Lev(p, s, i - 1, j - 1)
    ensures Min(Min(up, left) + 1, diag + (if p[i - 1] == s[j - 1] then 0 else 1)) == Lev(p, s, i, j)
  {
    LevStep(p, s, i, j);
  }

  /** The edit distance between the whole strings. */
  function Levenshtein(p: string, s: string): nat
  {
    Lev(p, s, |p|, |s|)
  }

  /** Against the empty string the distance is the other string's length. */
  lemma EmptyDistance(p: string)
    ensures Levenshtein(p, "") == |p| && Levenshtein("", p) == |p|
  {
  }

  lemma {:induction false} LevSelf(p: string, i: nat)
    requires i <= |p|
    ensures Lev(p, p, i, i) == 0
  {
    if i > 0 {
      LevSelf(p, i - 1);
    }
  }

  lemma {:induction false} LevSymmetric(p: string, s: string, i: nat, j: nat)
    requires i <= |p| && j <= |s|
    ensures Lev(p, s, i, j) == Lev(s, p, j, i)
    decreases i + j
  {
    if i > 0 && j > 0 {
      LevSymmetric(p, s, i - 1, j);
      LevSymmetric(p, s, i, j - 1);
      LevSymmetric(p, s, i - 1, j - 1);
    }
  }

  /** Distance(p, s) == Distance(s, p). */
  lemma Symmetric(p: string, s: string)
    ensures Levenshtein(p, s) == Levenshtein(s, p)
  {
    LevSymmetric(p, s, |p|, |s|);
  }

  lemma {:induction false} LevLowerBound(p: string, s: string, i: nat, j: nat)
    requires i <= |p| && j <= |s|
    ensures (if i >= j then i - j else j - i) <= Lev(p, s, i, j)
    decreases i + j
  {
    if i > 0 && j > 0 {
      LevLowerBound(p, s, i - 1, j);
      LevLowerBound(p, s, i, j - 1);
      LevLowerBound(p, s, i - 1, j - 1);
    }
  }

  lemma {:induction false} LevUpperBound(p: string, s: string, i: nat, j: nat)
    requires i <= |p| && j <= |s|
    ensures Lev(p, s, i, j) <= (if i >= j then i else j)
    decreases i + j
  {
    if i > 0 && j > 0 {
      LevUpperBound(p, s, i - 1, j - 1);
    }
  }

  /** ||p| - |s|| <= Distance(p, s) <= max(|p|, |s|). */
  lemma Bounds(p: string, s: string)
    ensures (if |p| >= |s| then |p| - |s| else |s| - |p|) <= Levenshtein(p, s)
    ensures Levenshtein(p, s) <= (if |p| >= |s| then |p| else |s|)
  {
    LevLowerBound(p, s, |p|, |s|);
    LevUpperBound(p, s, |p|, |s|);
  }

  lemma {:induction false} LevZero(p: string, s: string, i: nat, j: nat)
    requires i <= |p| && j <= |s|
    requires Lev(p, s, i, j) == 0
    ensures i == j && p[..i] == s[..j]
    decreases i + j
  {
    if i > 0 && j > 0 {
      LevZero(p, s, i - 1, j - 1);
      assert p[..i] == p[..i - 1] + [p[i - 1]];
      assert s[..j] == s[..j - 1] + [s[j - 1]];
    }
  }

  /** The distance is zero exactly when the strings are equal. */
  lemma ZeroIffEqual(p: string, s: string)
    ensures Levenshtein(p, s) == 0 <==> p == s
  {
    if Levenshtein(p, s) == 0 {
      LevZero(p, s, |p|, |s|);
      assert p == p[..|p|] && s == s[..|s|];
    }
    if p == s {
      LevSelf(p, |p|);
    }
  }

  /**
   * An adjacent transposition costs two: the recurrence has no transposition
   * case, so "ab" and "ba" are two substitutions apart.
   */
  lemma SwapCostsTwo()
    ensures Levenshtein("ab", "ba") == 2
  {
    var p, s := "ab", "ba";
    assert Lev(p, s, 1, 1) == 1;
    assert Lev(p, s, 1, 2) == 1;
    assert Lev(p, s, 2, 1) == 1;
    assert Lev(p, s, 2, 2) == 2;
  }
}
