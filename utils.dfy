/**
 * Utils.cs: the alphabet codec `ord` and the edit distance `Distance`.
 *
 * `ord` maps '\'' to 26, '-' to 27 and every other character c to c - 'a';
 * callers index 28-entry arrays with the result, so a character is usable only
 * when its code falls in 0..27 ("indexable").
 */
module Utils {
  import opened EditDistance

  const MaxChars: int := 28
  const SlashIndex: int := 26
  const MinusIndex: int := 27

  /**
   * Letters get 0..25; the code of the apostrophe is shared only with '{',
   * that of the hyphen only with '|' (c - 'a' for the characters after 'z').
   */
  function Ord(c: char): (r: int)
    ensures 'a' <= c <= 'z' ==> 0 <= r < SlashIndex
    ensures r == SlashIndex <==> c == '\'' || c == '{'
    ensures r == MinusIndex <==> c == '-' || c == '|'
  {
    if c == '\'' then SlashIndex
    else if c == '-' then MinusIndex
    else c as int - 'a' as int
  }

  /** The 28 symbols of the alphabet: 'a'..'z', apostrophe and hyphen. */
  predicate InAlphabet(c: char)
  {
    'a' <= c <= 'z' || c == '\'' || c == '-'
  }

  /** Ord(c) is a valid index into a 28-entry array. */
  predicate Indexable(c: char)
  {
    0 <= Ord(c) < MaxChars
  }

  predicate IndexableString(s: string)
  {
    forall i :: 0 <= i < |s| ==> Indexable(s[i])
  }

  /**
   * Distance applies Ord to every character of p (when closing each row) and
   * to every character of s (inside the rows, of which there are none when p
   * is empty); any other input indexes `cp` out of range.
   */
  predicate DistanceDefined(p: string, s: string)
  {
    IndexableString(p) && (|p| > 0 ==> IndexableString(s))
  }

  /** On the alphabet, Ord is the dense numbering 0..27. */
  lemma OrdOnAlphabet(c: char)
    requires InAlphabet(c)
    ensures 0 <= Ord(c) < MaxChars
    ensures 'a' <= c <= 'z' ==> Ord(c) == c as int - 'a' as int
    ensures c == '\'' ==> Ord(c) == 26
    ensures c == '-' ==> Ord(c) == 27
  {
  }

  lemma OrdInjective(a: char, b: char)
    requires InAlphabet(a) && InAlphabet(b)
    requires Ord(a) == Ord(b)
    ensures a == b
  {
  }

  /**
   * The indexable characters are the alphabet plus '{' and '|', which the
   * subtraction c - 'a' sends to 26 and 27, the codes of '\'' and '-'.
   */
  lemma IndexableChars(c: char)
    ensures Indexable(c) <==> InAlphabet(c) || c == '{' || c == '|'
    ensures Ord('{') == Ord('\'') && Ord('|') == Ord('-')
  {
  }

  /** The largest row x <= n with Ord(t[x - 1]) == c, or 0 if there is none. */
  function LastCode(t: string, n: nat, c: int): (x: nat)
    requires n <= |t|
    ensures x <= n
  {
    if n == 0 then 0
    else if Ord(t[n - 1]) == c then n
    else LastCode(t, n - 1, c)
  }

  /** The largest column y <= n with t[y - 1] == ch, or 0 if there is none. */
  function LastMatch(t: string, n: nat, ch: char): (y: nat)
    requires n <= |t|
    ensures y <= n
  {
    if n == 0 then 0
    else if t[n - 1] == ch then n
    else LastMatch(t, n - 1, ch)
  }

  /** LastCode finds the last occurrence of the code c among t[..n]. */
  lemma {:induction false} LastCodeIsLast(t: string, n: nat, c: int)
    requires n <= |t|
    ensures LastCode(t, n, c) > 0 ==> Ord(t[LastCode(t, n, c) - 1]) == c
    ensures forall z :: LastCode(t, n, c) <= z < n ==> Ord(t[z]) != c
  {
    if n > 0 && Ord(t[n - 1]) != c {
      LastCodeIsLast(t, n - 1, c);
    }
  }

  /** LastMatch finds the last occurrence of the character ch among t[..n]. */
  lemma {:induction false} LastMatchIsLast(t: string, n: nat, ch: char)
    requires n <= |t|
    ensures LastMatch(t, n, ch) > 0 ==> t[LastMatch(t, n, ch) - 1] == ch
    ensures forall z :: LastMatch(t, n, ch) <= z < n ==> t[z] != ch
  {
    if n > 0 && t[n - 1] != ch {
      LastMatchIsLast(t, n - 1, ch);
    }
  }

  /**
   * The table d[i, j] holds the distance between p[..i] and s[..j]. Before
   * cell (i, j), cp[c] is the last row x < i whose character p[x - 1] has
   * code c, and cs the last column y < j with s[y - 1] == p[i - 1], so
   * d[x - 1, y - 1] is in range whenever x > 0 and y > 0. The transposition
   * candidate for (i, j) is written into d[i - 1, j - 1], which it can only
   * lower; that cell's last read by the recurrence (from cell (i, j - 1)) has
   * already happened, so the write never reaches the returned cell and the
   * result is the plain Levenshtein distance.
   */
  method Distance(p: string, s: string) returns (r: int)
    requires DistanceDefined(p, s)
    ensures r == Levenshtein(p, s)
  {
    var n, m := |p| + 1, |s| + 1;
    var d := new int[n, m]((_, _) => 0);

    for i := 1 to n
      invariant forall a :: 0 <= a < i ==> d[a, 0] == a
    {
      d[i, 0] := i;
    }
    for i := 1 to m
      invariant forall a :: 0 <= a < n ==> d[a, 0] == a
      invariant forall b :: 0 <= b < i ==> d[0, b] == b
    {
      d[0, i] := i;
    }
    var cp := new int[MaxChars](_ => 0);

    for i := 1 to n
      invariant forall a :: 0 <= a < n ==> d[a, 0] == a
      invariant forall b {:trigger d[i - 1, b]} :: 0 <= b < m ==> d[i - 1, b] == Lev(p, s, i - 1, b)
      invariant forall c :: 0 <= c < MaxChars ==> cp[c] == LastCode(p, i - 1, c)
    {
      FillRow(p, s, d, cp, i);
      cp[Ord(p[i - 1])] := i;
    }
    r := d[n - 1, m - 1];
  }

  /**
   * The body of the outer loop of Distance for row i, up to the update of cp.
   * Row i comes out exact, row i - 1 only goes down, and no other row changes.
   */
  method FillRow(p: string, s: string, d: array2<int>, cp: array<int>, i: int)
    requires DistanceDefined(p, s) && 1 <= i <= |p|
    requires d.Length0 == |p| + 1 && d.Length1 == |s| + 1 && cp.Length == MaxChars
    requires forall a :: 0 <= a < d.Length0 ==> d[a, 0] == a
    requires forall b {:trigger d[i - 1, b]} :: 0 <= b < d.Length1 ==> d[i - 1, b] == Lev(p, s, i - 1, b)
    requires forall c :: 0 <= c < MaxChars ==> cp[c] == LastCode(p, i - 1, c)
    modifies d
    ensures forall a :: 0 <= a < d.Length0 ==> d[a, 0] == a
    ensures forall b {:trigger d[i, b]} :: 0 <= b < d.Length1 ==> d[i, b] == Lev(p, s, i, b)
    ensures forall b {:trigger d[i - 1, b]} :: 0 <= b < d.Length1 ==> d[i - 1, b] <= old(d[i - 1, b])
    ensures forall a, b {:trigger d[a, b]} :: 0 <= a < d.Length0 && 0 <= b < d.Length1 && a != i && a != i - 1 ==>
              d[a, b] == old(d[a, b])
  {
    var m, up := d.Length1, i - 1;
    var cs := 0;
    for j := 1 to m
      invariant forall a :: 0 <= a < d.Length0 ==> d[a, 0] == a
      invariant forall b {:trigger d[i, b]} :: 0 <= b < j ==> d[i, b] == Lev(p, s, i, b)
      invariant forall b {:trigger d[up, b]} :: j - 1 <= b < m ==> d[up, b] == Lev(p, s, up, b)
      invariant forall b {:trigger d[up, b]} :: 0 <= b < m ==> d[up, b] <= old(d[up, b])
      invariant cs == LastMatch(s, j - 1, p[up])
      invariant forall a, b {:trigger d[a, b]} :: 0 <= a < d.Length0 && 0 <= b < m && a != i && a != up ==>
                  d[a, b] == old(d[a, b])
    {
      FillCell(p, s, d, cp, i, j, cs);
      assert LastMatch(s, j, p[up]) == if s[j - 1] == p[up] then j else cs;
      if p[up] == s[j - 1] {
        cs := j;
      }
    }
  }

  /**
   * The body of the inner loop of Distance for cell (i, j), up to the update
   * of cs: the recurrence fills d[i, j] and the transposition candidate, which
   * needs an earlier row x with the code of s[j - 1] and an earlier column y
   * holding p[i - 1], is written into the interior cell d[i - 1, j - 1].
   */
  method FillCell(p: string, s: string, d: array2<int>, cp: array<int>, i: int, j: int, cs: int)
    requires DistanceDefined(p, s) && 1 <= i <= |p| && 1 <= j <= |s|
    requires d.Length0 == |p| + 1 && d.Length1 == |s| + 1 && cp.Length == MaxChars
    requires d[i - 1, j] == Lev(p, s, i - 1, j) && d[i, j - 1] == Lev(p, s, i, j - 1)
    requires d[i - 1, j - 1] == Lev(p, s, i - 1, j - 1)
    requires 0 <= cp[Ord(s[j - 1])] < i && 0 <= cs < j
    modifies d
    ensures d[i, j] == Lev(p, s, i, j)
    ensures d[i - 1, j - 1] <= old(d[i - 1, j - 1])
    ensures cs == 0 ==> d[i - 1, j - 1] == old(d[i - 1, j - 1])
    ensures forall a, b {:trigger d[a, b]} :: 0 <= a < d.Length0 && 0 <= b < d.Length1 && (a, b) != (i, j) && (a, b) != (i - 1, j - 1) ==>
              d[a, b] == old(d[a, b])
  {
    var k := Min(d[i - 1, j], d[i, j - 1]) + 1;
    var v := Min(k, d[i - 1, j - 1] + (if p[i - 1] == s[j - 1] then 0 else 1));
    LevCell(p, s, i, j, d[i - 1, j], d[i, j - 1], d[i - 1, j - 1]);
    d[i, j] := v;

    var x := cp[Ord(s[j - 1])];
    var y := cs;
    if x > 0 && y > 0 {
      d[i - 1, j - 1] := Min(d[i - 1, j - 1], d[x - 1, y - 1] + (i - x) + (j - y) - 1);
    }
  }
}
