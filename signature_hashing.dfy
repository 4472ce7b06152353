/**
 * SignatureHashing.cs: the 28-entry character-count Signature, the filter
 * cost FC between two signatures, the search of SignatString over a bucket
 * index, and the filling of that index, SignatDictionary.
 */
module SignatureHashing {
  import opened Utils
  import opened EditDistance
  import opened Histograms
  import opened LowerBound
  import opened Buckets

  class Signature {
    const signat: array<int>

    /** The counts, indexed by character code. */
    function Counts(): seq<int>
      reads signat
    {
      signat[..]
    }

    predicate Valid()
      reads signat
    {
      signat.Length == MaxChars && forall c :: 0 <= c < MaxChars ==> signat[c] >= 0
    }

    /**
     * Counts the characters of s. The apostrophe and the hyphen are tested
     * first; any other character indexes the array at c - 'a', which is in
     * range exactly for the indexable characters.
     */
    constructor(s: string)
      requires IndexableString(s)
      ensures Valid() && Counts() == HistogramOf(s)
      ensures fresh(signat)
    {
      var a := new int[MaxChars](_ => 0);
      signat := a;
      new;
      assert a[..] == HistogramOf(s[..0]);
      for k := 0 to |s|
        invariant a[..] == HistogramOf(s[..k])
      {
        var c := s[k];
        if c == '\'' {
          a[MaxChars - 2] := a[MaxChars - 2] + 1;
        } else if c == '-' {
          a[MaxChars - 1] := a[MaxChars - 1] + 1;
        } else {
          a[c as int - 'a' as int] := a[c as int - 'a' as int] + 1;
        }
        assert s[..k + 1] == s[..k] + [c];
        HistogramSnoc(s[..k], c);
      }
      assert s[..|s|] == s;
    }

    /** The indexer: the count stored for a code, never negative. */
    function Get(index: int): (r: int)
      requires Valid() && 0 <= index < MaxChars
      reads signat
      ensures r >= 0 && r == Counts()[index]
    {
      signat[index]
    }

    /**
     * With plus, the sum of how far x's counts exceed y's; without, how far
     * y's exceed x's.
     */
    static method FCHelper(x: Signature, y: Signature, plus: bool) returns (r: int)
      requires x.Valid() && y.Valid()
      ensures r == if plus then Excess(x.Counts(), y.Counts()) else Excess(y.Counts(), x.Counts())
    {
      r := 0;
      if plus {
        for i := 0 to MaxChars
          invariant r == ExcessUpTo(x.Counts(), y.Counts(), i)
        {
          if x.Get(i) > y.Get(i) {
            r := r + (x.Get(i) - y.Get(i));
          }
        }
      } else {
        for i := 0 to MaxChars
          invariant r == ExcessUpTo(y.Counts(), x.Counts(), i)
        {
          if x.Get(i) < y.Get(i) {
            r := r + (y.Get(i) - x.Get(i));
          }
        }
      }
    }

    /** The filter cost: the larger of the two one-sided excess sums. */
    static method FC(x: Signature, y: Signature) returns (r: int)
      requires x.Valid() && y.Valid()
      ensures r == FilterCost(x.Counts(), y.Counts())
    {
      var a := FCHelper(x, y, true);
      var b := FCHelper(x, y, false);
      r := if a > b then a else b;
    }

    /** Folds hash * 19 + count over the counts from 17, wrapping like a C# int. */
    method GetHashCode() returns (hash: int)
      requires Valid()
      ensures hash == HashOf(Counts())
      ensures -0x8000_0000 <= hash < 0x8000_0000
    {
      hash := 17;
      for i := 0 to MaxChars
        invariant hash == HashUpTo(Counts(), i)
      {
        hash := Int32(hash * 19 + signat[i]);
      }
    }
  }

  /**
   * Both branches of the dictionary update: append line to the bucket of
   * key when key is already present, otherwise start the bucket [line].
   */
  function AddTo(m: map<Signature, seq<string>>, key: Signature, line: string): map<Signature, seq<string>>
  {
    if key in m then m[key := m[key] + [line]] else m[key := [line]]
  }

  /**
   * The index: a dictionary from Signature to the list of words read with it.
   * Signature does not override Equals, so the dictionary compares keys by
   * reference, which is what a map keyed by class instances does here.
   */
  class SignatDictionary {
    var buckets: map<Signature, seq<string>>

    /** Every key is a well-formed signature and holds only words whose counts it is. */
    predicate Valid()
      reads this, set key | key in buckets :: key.signat
    {
      forall key :: key in buckets ==>
        key.Valid() && forall w :: w in buckets[key] ==> IndexableString(w) && HistogramOf(w) == key.Counts()
    }

    /** All the words of all the buckets. */
    ghost function Words(): set<string>
      reads this
    {
      set key, w | key in buckets && w in buckets[key] :: w
    }

    /** The keys whose filter cost against the counts q is at most k. */
    ghost function Passing(q: seq<int>, k: int): set<Signature>
      reads this, set key | key in buckets :: key.signat
    {
      set key | key in buckets && key.signat.Length == |q| && FilterCost(key.Counts(), q) <= k
    }

    constructor()
      ensures buckets == map[]
    {
      buckets := map[];
    }

    /**
     * One iteration of Fill: files line under a newly built Signature. The
     * new key is a fresh object, so it is never already a key and the line
     * gets a bucket of its own.
     */
    method AddLine(line: string) returns (ghost key: Signature)
      requires Valid() && IndexableString(line)
      modifies this
      ensures Valid()
      ensures fresh(key) && key !in old(buckets)
      ensures buckets == old(buckets)[key := [line]]
    {
      ghost var before := buckets;
      assert forall key :: key in before ==> key.Valid() && forall w :: w in before[key] ==> IndexableString(w) && HistogramOf(w) == key.Counts();
      var signat := new Signature(line);
      // a fresh object is never one of the existing keys, so the bucket is new
      buckets := AddTo(buckets, signat, line);
      key := signat;
    }

    /**
     * Files every line. Each one lands in a fresh bucket of its own, so the
     * number of buckets grows by the number of lines.
     */
    method Fill(lines: seq<string>) returns (ghost added: seq<Signature>)
      requires Valid()
      requires forall i :: 0 <= i < |lines| ==> IndexableString(lines[i])
      modifies this
      ensures Valid()
      ensures |added| == |lines| && Distinct(added)
      ensures forall i :: 0 <= i < |lines| ==> fresh(added[i])
      ensures buckets == Filed(old(buckets), added, lines)
      ensures |buckets| == |old(buckets)| + |lines|
    {
      added := [];
      for i := 0 to |lines|
        invariant Valid()
        invariant |added| == i && Distinct(added)
        invariant forall j :: 0 <= j < i ==> fresh(added[j])
        invariant buckets == Filed(old(buckets), added, lines[..i])
      {
        var key := AddLine(lines[i]);
        assert (added + [key])[..i] == added && lines[..i + 1][..i] == lines[..i];
        added := added + [key];
      }
      assert lines[..|lines|] == lines;
      FiledSize(old(buckets), added, lines);
    }
  }

  class SignatString {
    const s: string
    const signat: Signature

    predicate Valid()
      reads signat, signat.signat
    {
      IndexableString(s) && signat.Valid() && signat.Counts() == HistogramOf(s)
    }

    constructor(t: string)
      requires IndexableString(t)
      ensures s == t && Valid()
      ensures fresh(signat) && fresh(signat.signat)
    {
      s := t;
      signat := new Signature(t);
    }

    /**
     * The words of every bucket whose key has filter cost at most k against
     * this string's signature, visited in some order of the keys. No word
     * within edit distance k of the string is left out.
     */
    method GetSuggestionsFC(dict: SignatDictionary, k: int) returns (emitted: seq<string>, ghost order: seq<Signature>)
      requires Valid() && dict.Valid()
      ensures Enumerates(order, dict.buckets.Keys)
      ensures forall key :: key in order ==> key in dict.buckets
      ensures emitted == Gather(dict.buckets, order, dict.Passing(signat.Counts(), k))
      ensures forall w :: w in dict.Words() && Levenshtein(s, w) <= k ==> w in emitted
    {
      ghost var passing := dict.Passing(signat.Counts(), k);
      emitted := [];
      order := [];
      var remaining := dict.buckets.Keys;
      while remaining != {}
        invariant remaining <= dict.buckets.Keys
        invariant passing == dict.Passing(HistogramOf(s), k)
        invariant multiset(order) + multiset(remaining) == multiset(dict.buckets.Keys)
        invariant forall key :: key in order ==> key in dict.buckets
        invariant emitted == Gather(dict.buckets, order, passing)
        decreases |remaining|
      {
        var key :| key in remaining;
        var cost := Signature.FC(key, signat);
        if cost <= k {
          emitted := emitted + dict.buckets[key];
        }
        assert (order + [key])[..|order|] == order;
        TakeOne(order, remaining, key);
        order := order + [key];
        remaining := remaining - {key};
      }
      KeepsEveryMatch(dict, s, k, order);
    }
  }

  /**
   * Pruning by FC loses no match: a word within edit distance k of q sits in
   * a bucket whose key passes the filter, since the key holds the word's own
   * counts and FC never exceeds the distance.
   */
  lemma KeepsEveryMatch(dict: SignatDictionary, q: string, k: int, order: seq<Signature>)
    requires dict.Valid() && Enumerates(order, dict.buckets.Keys)
    requires forall key :: key in order ==> key in dict.buckets
    ensures forall w :: w in dict.Words() && Levenshtein(q, w) <= k ==>
              w in Gather(dict.buckets, order, dict.Passing(HistogramOf(q), k))
  {
    forall w | w in dict.Words() && Levenshtein(q, w) <= k
      ensures w in Gather(dict.buckets, order, dict.Passing(HistogramOf(q), k))
    {
      var key :| key in dict.buckets && w in dict.buckets[key];
      FilterCostBelowDistance(w, q);
      Symmetric(w, q);
      assert key in multiset(dict.buckets.Keys);
      GatherMember(dict.buckets, order, dict.Passing(HistogramOf(q), k), w);
    }
  }
}
