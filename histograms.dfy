/**
 * Character histograms over the 28-symbol alphabet, as built by the
 * constructors of Signature and FrequencyVector, and the functions computed
 * from them: the one-sided excess sums of Signature.FCHelper, the filter cost
 * of Signature.FC, and the 32-bit hash fold of GetHashCode.
 */
module Histograms {
  import opened Utils

  /** The number of characters of s whose code is c. */
  function Occ(s: string, c: int): (r: nat)
    ensures r <= |s|
  {
    if s == [] then 0
    else Occ(s[..|s| - 1], c) + (if Ord(s[|s| - 1]) == c then 1 else 0)
  }

  /** Entry c is the number of characters of s with code c, for c in 0..27. */
  function HistogramOf(s: string): seq<int>
  {
    seq(MaxChars, c => Occ(s, c))
  }

  /** The histogram after one more character with code c (no change when c is out of range). */
  function Bump(h: seq<int>, c: int): seq<int>
  {
    if 0 <= c < |h| then h[c := h[c] + 1] else h
  }

  /** Appending a character adds one to the entry of its code. */
  lemma HistogramSnoc(t: string, ch: char)
    ensures HistogramOf(t + [ch]) == Bump(HistogramOf(t), Ord(ch))
  {
    var u := t + [ch];
    assert u[..|u| - 1] == t;
    forall c | 0 <= c < MaxChars
      ensures HistogramOf(u)[c] == Bump(HistogramOf(t), Ord(ch))[c]
    {
      assert Occ(u, c) == Occ(t, c) + (if Ord(ch) == c then 1 else 0);
    }
  }

  /** Counting distributes over concatenation. */
  lemma {:induction false} OccAppend(a: string, b: string, c: int)
    ensures Occ(a + b, c) == Occ(a, c) + Occ(b, c)
    decreases |b|
  {
    if b != [] {
      var b' := b[..|b| - 1];
      assert (a + b)[..|a + b| - 1] == a + b';
      OccAppend(a, b', c);
    } else {
      assert a + b == a;
    }
  }

  /** A histogram depends only on the multiset of characters. */
  lemma {:induction false} OccPermutation(s: string, t: string, c: int)
    requires multiset(s) == multiset(t)
    ensures Occ(s, c) == Occ(t, c)
    decreases |s|
  {
    if s != [] {
      var ch := s[|s| - 1];
      var s' := s[..|s| - 1];
      assert s == s' + [ch];
      assert ch in multiset(t);
      var i :| 0 <= i < |t| && t[i] == ch;
      var t' := t[..i] + t[i + 1..];
      assert t == t[..i] + [ch] + t[i + 1..];
      assert multiset(t') == multiset(t[..i]) + multiset(t[i + 1..]);
      assert multiset(s') == multiset(s) - multiset{ch};
      assert multiset(t') == multiset(t) - multiset{ch};
      OccPermutation(s', t', c);
      OccAppend(t[..i], t[i + 1..], c);
      OccAppend(t[..i], [ch], c);
      OccAppend(t[..i] + [ch], t[i + 1..], c);
      assert [ch][..0] == [];
    } else {
      assert t == [];
    }
  }

  lemma HistogramPermutation(s: string, t: string)
    requires multiset(s) == multiset(t)
    ensures HistogramOf(s) == HistogramOf(t)
  {
    forall c | 0 <= c < MaxChars
      ensures Occ(s, c) == Occ(t, c)
    {
      OccPermutation(s, t, c);
    }
  }

  /** The sum of the first n entries. */
  function SumUpTo(h: seq<int>, n: nat): int
    requires n <= |h|
  {
    if n == 0 then 0 else SumUpTo(h, n - 1) + h[n - 1]
  }

  function Sum(h: seq<int>): int
  {
    SumUpTo(h, |h|)
  }

  lemma {:induction false} SumBump(h: seq<int>, c: int, n: nat)
    requires n <= |h|
    ensures SumUpTo(Bump(h, c), n) == SumUpTo(h, n) + (if 0 <= c < n then 1 else 0)
  {
    if n > 0 {
      SumBump(h, c, n - 1);
    }
  }

  /** The counts of a word over the alphabet add up to its length. */
  lemma {:induction false} HistogramTotal(s: string)
    requires IndexableString(s)
    ensures Sum(HistogramOf(s)) == |s|
    decreases |s|
  {
    if s == [] {
      ZeroSum(HistogramOf(s), MaxChars);
    } else {
      var s' := s[..|s| - 1];
      assert s == s' + [s[|s| - 1]];
      HistogramSnoc(s', s[|s| - 1]);
      HistogramTotal(s');
      SumBump(HistogramOf(s'), Ord(s[|s| - 1]), MaxChars);
    }
  }

  lemma {:induction false} ZeroSum(h: seq<int>, n: nat)
    requires n <= |h| && forall i :: 0 <= i < n ==> h[i] == 0
    ensures SumUpTo(h, n) == 0
  {
    if n > 0 {
      ZeroSum(h, n - 1);
    }
  }

  /** Summand i of FCHelper(x, y, true): how far x[i] exceeds y[i]. */
  function Over(a: int, b: int): int
  {
    if a > b then a - b else 0
  }

  /** The sum over the first n entries of how far x exceeds y. */
  function ExcessUpTo(x: seq<int>, y: seq<int>, n: nat): (r: int)
    requires n <= |x| && n <= |y|
    ensures r >= 0
  {
    if n == 0 then 0 else ExcessUpTo(x, y, n - 1) + Over(x[n - 1], y[n - 1])
  }

  /** FCHelper(x, y, true); FCHelper(x, y, false) is Excess(y, x). */
  function Excess(x: seq<int>, y: seq<int>): int
    requires |x| == |y|
  {
    ExcessUpTo(x, y, |x|)
  }

  /** Signature.FC: the larger of the two one-sided excess sums. */
  function FilterCost(x: seq<int>, y: seq<int>): int
    requires |x| == |y|
  {
    var a, b := Excess(x, y), Excess(y, x);
    if a > b then a else b
  }

  /** No entry of x exceeds y exactly when the excess of x over y is zero. */
  lemma {:induction false} ExcessZero(x: seq<int>, y: seq<int>, n: nat)
    requires n <= |x| && n <= |y|
    ensures ExcessUpTo(x, y, n) == 0 <==> forall i :: 0 <= i < n ==> x[i] <= y[i]
  {
    if n > 0 {
      ExcessZero(x, y, n - 1);
    }
  }

  /** The two excess sums differ by the difference of the totals. */
  lemma {:induction false} ExcessDifference(x: seq<int>, y: seq<int>, n: nat)
    requires n <= |x| && n <= |y|
    ensures ExcessUpTo(x, y, n) - ExcessUpTo(y, x, n) == SumUpTo(x, n) - SumUpTo(y, n)
  {
    if n > 0 {
      ExcessDifference(x, y, n - 1);
    }
  }

  /**
   * FC is non-negative and symmetric, zero against itself, and zero exactly
   * when all the counts agree.
   */
  lemma FilterCostZero(x: seq<int>, y: seq<int>)
    requires |x| == |y|
    ensures FilterCost(x, y) >= 0
    ensures FilterCost(x, y) == FilterCost(y, x)
    ensures FilterCost(x, x) == 0
    ensures FilterCost(x, y) == 0 <==> x == y
  {
    ExcessZero(x, x, |x|);
    ExcessZero(x, y, |x|);
    ExcessZero(y, x, |x|);
  }

  /** FC is at least the difference of the word lengths the totals count. */
  lemma FilterCostAboveGap(x: seq<int>, y: seq<int>)
    requires |x| == |y|
    ensures FilterCost(x, y) >= (if Sum(x) >= Sum(y) then Sum(x) - Sum(y) else Sum(y) - Sum(x))
  {
    ExcessDifference(x, y, |x|);
  }

  /** Two's-complement wrap-around of a C# int: the value in range congruent to x. */
  function Int32(x: int): (r: int)
    ensures -0x8000_0000 <= r < 0x8000_0000
    ensures (r - x) % 0x1_0000_0000 == 0
  {
    var m := x % 0x1_0000_0000;
    if m >= 0x8000_0000 then m - 0x1_0000_0000 else m
  }

  /**
   * GetHashCode after n steps: the hash starts at 17 and each step computes
   * hash * 19 + h[i] in unchecked 32-bit arithmetic (wrapping after the
   * product and after the sum is the same as wrapping once).
   */
  function HashUpTo(h: seq<int>, n: nat): int
    requires n <= |h|
  {
    if n == 0 then 17 else Int32(HashUpTo(h, n - 1) * 19 + h[n - 1])
  }

  function HashOf(h: seq<int>): int
  {
    HashUpTo(h, |h|)
  }

  /**
   * Words with the same letters, in any order, get the same histogram, so the
   * same hash and a filter cost of zero between them.
   */
  lemma AnagramsCollide(s: string, t: string)
    requires multiset(s) == multiset(t)
    ensures HashOf(HistogramOf(s)) == HashOf(HistogramOf(t))
    ensures FilterCost(HistogramOf(s), HistogramOf(t)) == 0
    ensures -0x8000_0000 <= HashOf(HistogramOf(s)) < 0x8000_0000
  {
    HistogramPermutation(s, t);
    FilterCostZero(HistogramOf(s), HistogramOf(t));
  }
}
