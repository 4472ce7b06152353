/**
 * Soundness of the bucket filter: the filter cost between the histograms of
 * two words never exceeds their edit distance, so a bucket whose key costs
 * more than k holds no word within distance k of the query.
 */
module LowerBound {
  import opened Utils
  import opened EditDistance
  import opened Histograms

  /** One more character on the left raises its excess by one exactly where it was not below. */
  lemma {:induction false} ExcessBumpLeft(x: seq<int>, y: seq<int>, c: int, n: nat)
    requires n <= |x| && n <= |y|
    ensures ExcessUpTo(Bump(x, c), y, n) == ExcessUpTo(x, y, n) + (if 0 <= c < n && x[c] >= y[c] then 1 else 0)
  {
    if n > 0 {
      ExcessBumpLeft(x, y, c, n - 1);
    }
  }

  /** One more character on the right lowers the left's excess by one where the left was above. */
  lemma {:induction false} ExcessBumpRight(x: seq<int>, y: seq<int>, c: int, n: nat)
    requires n <= |x| && n <= |y|
    ensures ExcessUpTo(x, Bump(y, c), n) == ExcessUpTo(x, y, n) - (if 0 <= c < n && x[c] > y[c] then 1 else 0)
  {
    if n > 0 {
      ExcessBumpRight(x, y, c, n - 1);
    }
  }

  /** The same character on both sides leaves the excess unchanged. */
  lemma {:induction false} ExcessBumpBoth(x: seq<int>, y: seq<int>, c: int, n: nat)
    requires n <= |x| && n <= |y|
    ensures ExcessUpTo(Bump(x, c), Bump(y, c), n) == ExcessUpTo(x, y, n)
  {
    if n > 0 {
      ExcessBumpBoth(x, y, c, n - 1);
    }
  }

  /** The excess sums both ways between the histograms of two words. */
  predicate BothBelow(a: string, b: string, bound: int)
  {
    Excess(HistogramOf(a), HistogramOf(b)) <= bound && Excess(HistogramOf(b), HistogramOf(a)) <= bound
  }

  /** Appending a character to one side moves each excess sum by at most one. */
  lemma ExtendOne(a: string, b: string, ch: char, bound: int)
    requires BothBelow(a, b, bound)
    ensures BothBelow(a + [ch], b, bound + 1) && BothBelow(b, a + [ch], bound + 1)
  {
    var x, y, c := HistogramOf(a), HistogramOf(b), Ord(ch);
    HistogramSnoc(a, ch);
    ExcessBumpLeft(x, y, c, MaxChars);
    ExcessBumpRight(y, x, c, MaxChars);
  }

  /** Appending a character to both sides moves each excess sum by at most one, and not at all for the same character. */
  lemma ExtendBoth(a: string, b: string, ca: char, cb: char, bound: int)
    requires BothBelow(a, b, bound)
    ensures BothBelow(a + [ca], b + [cb], bound + (if ca == cb then 0 else 1))
  {
    var x, y := HistogramOf(a), HistogramOf(b);
    var cx, cy := Ord(ca), Ord(cb);
    HistogramSnoc(a, ca);
    HistogramSnoc(b, cb);
    if ca == cb {
      ExcessBumpBoth(x, y, cx, MaxChars);
      ExcessBumpBoth(y, x, cx, MaxChars);
    } else {
      ExcessBumpLeft(x, y, cx, MaxChars);
      ExcessBumpRight(Bump(x, cx), y, cy, MaxChars);
      ExcessBumpLeft(y, x, cy, MaxChars);
      ExcessBumpRight(Bump(y, cy), x, cx, MaxChars);
    }
  }

  /**
   * Both one-sided excess sums between the histograms of p[..i] and s[..j]
   * are bounded by the edit distance of the prefixes: each of the three
   * moves of the recurrence shifts either sum by at most its own cost.
   */
  lemma {:induction false} ExcessBelowLev(p: string, s: string, i: nat, j: nat)
    requires i <= |p| && j <= |s|
    ensures BothBelow(p[..i], s[..j], Lev(p, s, i, j))
    decreases i + j
  {
    if i == 0 && j == 0 {
      assert p[..i] == s[..j];
      FilterCostZero(HistogramOf(p[..i]), HistogramOf(p[..i]));
    }
    if i > 0 {
      ExcessBelowLev(p, s, i - 1, j);
      assert p[..i] == p[..i - 1] + [p[i - 1]];
      ExtendOne(p[..i - 1], s[..j], p[i - 1], Lev(p, s, i - 1, j));
    }
    if j > 0 {
      ExcessBelowLev(p, s, i, j - 1);
      assert s[..j] == s[..j - 1] + [s[j - 1]];
      ExtendOne(s[..j - 1], p[..i], s[j - 1], Lev(p, s, i, j - 1));
    }
    if i > 0 && j > 0 {
      ExcessBelowLev(p, s, i - 1, j - 1);
      ExtendBoth(p[..i - 1], s[..j - 1], p[i - 1], s[j - 1], Lev(p, s, i - 1, j - 1));
      LevStep(p, s, i, j);
    }
  }

  /**
   * Pruning soundness: FC(Signature(a), Signature(b)) <= Distance(a, b), so
   * the filter FC <= k keeps every bucket that holds a word within k.
   */
  lemma FilterCostBelowDistance(a: string, b: string)
    ensures FilterCost(HistogramOf(a), HistogramOf(b)) <= Levenshtein(a, b)
  {
    ExcessBelowLev(a, b, |a|, |b|);
    assert a[..|a|] == a && b[..|b|] == b;
  }
}
